/**
 * `removeTcoLinks` (bot.js:83-87): `tweetText.replace(/https?:\/\/t\.co\/\w+/gi, "")`.
 *
 * A global replace scans the text from the left. At each position it tries the
 * pattern; on a match it drops the matched characters and resumes right after
 * them, otherwise it keeps the character and moves on by one. The pattern is
 * `http`, an optional `s`, `://t.co/` and a greedy run of one or more word
 * characters. The `i` flag makes the ASCII letters of the fixed part match in
 * either case; `\w` is `[A-Za-z0-9_]` with or without it.
 */
module TcoLinks {

  /** `\w`: an ASCII letter, digit or underscore. */
  predicate IsWordChar(c: char) {
    ('a' <= c <= 'z') || ('A' <= c <= 'Z') || ('0' <= c <= '9') || c == '_'
  }

  /** An ASCII capital letter turned into its small letter; every other character as it is. */
  function LowerChar(c: char): char {
    if 'A' <= c <= 'Z' then (c as int + 32) as char else c
  }

  /** `t` with its ASCII capitals made small. */
  function LowerAscii(t: string): (r: string)
    ensures |r| == |t|
  {
    if t == [] then [] else [LowerChar(t[0])] + LowerAscii(t[1..])
  }

  lemma {:induction false} LowerAsciiAt(t: string, k: nat)
    requires k < |t|
    ensures LowerAscii(t)[k] == LowerChar(t[k])
  {
    if k > 0 {
      LowerAsciiAt(t[1..], k - 1);
    }
  }

  /**
   * `s` begins with the lower-case `pattern`, letters compared without regard
   * to case, as the `i` flag compares them: an ASCII capital matches its small
   * letter, and every other character only itself.
   */
  predicate StartsWithIgnoringCase(s: string, pattern: string) {
    |pattern| <= |s| && LowerAscii(s[..|pattern|]) == pattern
  }

  const SECURE_PREFIX := "https://t.co/"
  const PLAIN_PREFIX := "http://t.co/"

  /**
   * A whole string the pattern matches: one of the two prefixes (in any case)
   * followed by at least one word character and nothing else.
   */
  ghost predicate IsTcoLink(t: string) {
    || (|t| > |SECURE_PREFIX| && StartsWithIgnoringCase(t, SECURE_PREFIX)
        && forall k :: |SECURE_PREFIX| <= k < |t| ==> IsWordChar(t[k]))
    || (|t| > |PLAIN_PREFIX| && StartsWithIgnoringCase(t, PLAIN_PREFIX)
        && forall k :: |PLAIN_PREFIX| <= k < |t| ==> IsWordChar(t[k]))
  }

  /**
   * Length of the fixed part `https?://t.co/` at the start of `s`, or 0 when it
   * is absent. The optional `s` is tried first, as the greedy `s?` does; when
   * it is present the plain form cannot match anyway (`:` against `s`).
   */
  function PrefixLength(s: string): nat {
    if StartsWithIgnoringCase(s, SECURE_PREFIX) then |SECURE_PREFIX|
    else if StartsWithIgnoringCase(s, PLAIN_PREFIX) then |PLAIN_PREFIX|
    else 0
  }

  /** Greedy `\w*`: the length of the run of word characters at the start of `s`. */
  function WordRun(s: string): (n: nat)
    ensures n <= |s|
  {
    if s != [] && IsWordChar(s[0]) then 1 + WordRun(s[1..]) else 0
  }

  /** `WordRun` covers only word characters and stops at the end or at a non-word character. */
  lemma {:induction false} WordRunIsLongest(s: string)
    ensures forall k :: 0 <= k < WordRun(s) ==> IsWordChar(s[k])
    ensures WordRun(s) == |s| || !IsWordChar(s[WordRun(s)])
  {
    if s != [] && IsWordChar(s[0]) {
      WordRunIsLongest(s[1..]);
      forall k | 0 < k < WordRun(s) ensures IsWordChar(s[k]) {
        assert s[1..][k - 1] == s[k];
      }
    }
  }

  /** A text starting with the secure prefix cannot also start with the plain one (`s` against `:`). */
  lemma PrefixesExclusive(s: string)
    ensures !(StartsWithIgnoringCase(s, SECURE_PREFIX) && StartsWithIgnoringCase(s, PLAIN_PREFIX))
  {
    if StartsWithIgnoringCase(s, SECURE_PREFIX) && |s| >= |SECURE_PREFIX| {
      LowerAsciiAt(s[..|SECURE_PREFIX|], 4);
      LowerAsciiAt(s[..|PLAIN_PREFIX|], 4);
    }
  }

  /** Case-insensitive prefix tests only look at the first `|pattern|` characters. */
  lemma StartsWithOfPrefix(s: string, k: nat, pattern: string)
    requires |pattern| <= k <= |s|
    ensures StartsWithIgnoringCase(s[..k], pattern) <==> StartsWithIgnoringCase(s, pattern)
  {
    assert s[..k][..|pattern|] == s[..|pattern|];
  }

  /** Length of the match the regular expression finds at the start of `s`, 0 when there is none. */
  function MatchLength(s: string): (n: nat)
    ensures n == 0 || |PLAIN_PREFIX| < n <= |s|
  {
    var p := PrefixLength(s);
    if p == 0 then 0
    else
      var w := WordRun(s[p..]);
      if w == 0 then 0 else p + w
  }

  /**
   * `MatchLength` finds the longest link at the start of `s`: a positive result
   * is a link that no longer prefix extends (the next character is not a word
   * character), and a zero result means that no prefix of `s` is a link.
   */
  lemma MatchLengthIsLongestLink(s: string)
    ensures MatchLength(s) > 0 ==> IsTcoLink(s[..MatchLength(s)])
    ensures MatchLength(s) > 0 ==> MatchLength(s) == |s| || !IsWordChar(s[MatchLength(s)])
    ensures forall k :: MatchLength(s) < k <= |s| ==> !IsTcoLink(s[..k])
    ensures MatchLength(s) == 0 ==> forall k :: 0 <= k <= |s| ==> !IsTcoLink(s[..k])
  {
    PrefixesExclusive(s);
    var p := PrefixLength(s);
    var n := MatchLength(s);
    var w := if p == 0 then 0 else WordRun(s[p..]);
    if p > 0 {
      WordRunIsLongest(s[p..]);
      forall i | p <= i < p + w ensures IsWordChar(s[i]) {
        assert s[p..][i - p] == s[i];
      }
      if p + w < |s| {
        assert s[p..][w] == s[p + w];
      }
    }
    forall k | 0 <= k <= |s| && (n < k || n == 0) ensures !IsTcoLink(s[..k]) {
      if k > |PLAIN_PREFIX| {
        StartsWithOfPrefix(s, k, SECURE_PREFIX);
        StartsWithOfPrefix(s, k, PLAIN_PREFIX);
        if p > 0 && p + w < k {
          assert s[..k][p + w] == s[p + w];
        }
      }
    }
    if n > 0 {
      StartsWithOfPrefix(s, n, SECURE_PREFIX);
      StartsWithOfPrefix(s, n, PLAIN_PREFIX);
      forall i | p <= i < n ensures IsWordChar(s[..n][i]) {
        assert s[..n][i] == s[i];
      }
    }
  }

  /** `removeTcoLinks`: the left-to-right scan of the global replace. */
  function RemoveTcoLinks(s: string): (r: string)
    ensures |r| <= |s|
    decreases |s|
  {
    if s == [] then []
    else
      var n := MatchLength(s);
      if n > 0 then RemoveTcoLinks(s[n..]) else [s[0]] + RemoveTcoLinks(s[1..])
  }

  /** A match starts at position `i` of `s`. */
  predicate LinkAt(s: string, i: int) {
    0 <= i < |s| && MatchLength(s[i..]) > 0
  }

  /** Some position of `s` starts a match. */
  ghost predicate HasLink(s: string) {
    exists i :: LinkAt(s, i)
  }

  /** Positions of `s[1..]` are those of `s` moved by one. */
  lemma LinkAtTail(s: string, i: nat)
    requires s != []
    ensures LinkAt(s[1..], i) <==> LinkAt(s, i + 1)
  {
  }

  lemma HasLinkTail(s: string)
    requires s != [] && !LinkAt(s, 0)
    ensures HasLink(s) <==> HasLink(s[1..])
  {
    if HasLink(s) {
      var i :| LinkAt(s, i);
      LinkAtTail(s, i - 1);
    }
    if HasLink(s[1..]) {
      var i :| LinkAt(s[1..], i);
      LinkAtTail(s, i);
    }
  }

  /** Removing links shortens the text exactly when there is a link to remove. */
  lemma {:induction false} ShorterIffLink(s: string)
    ensures HasLink(s) <==> |RemoveTcoLinks(s)| < |s|
    decreases |s|
  {
    if s != [] {
      assert s[0..] == s;
      if LinkAt(s, 0) {
        assert HasLink(s);
      } else {
        ShorterIffLink(s[1..]);
        HasLinkTail(s);
      }
    }
  }

  /** The text comes back unchanged exactly when it holds no link. */
  lemma UnchangedIffNoLink(s: string)
    ensures RemoveTcoLinks(s) == s <==> !HasLink(s)
  {
    ShorterIffLink(s);
    if !HasLink(s) {
      KeepsTextWithoutLink(s);
    }
  }

  lemma {:induction false} KeepsTextWithoutLink(s: string)
    requires !HasLink(s)
    ensures RemoveTcoLinks(s) == s
    decreases |s|
  {
    if s != [] {
      assert s[0..] == s;
      assert !LinkAt(s, 0);
      HasLinkTail(s);
      KeepsTextWithoutLink(s[1..]);
    }
  }

  /** One step of the scan where no link starts: the first character is kept. */
  lemma KeepsFirstWithoutLink(s: string)
    requires s != [] && !LinkAt(s, 0)
    ensures RemoveTcoLinks(s) == [s[0]] + RemoveTcoLinks(s[1..])
  {
  }

  /** Characters before the first match are kept as they are. */
  lemma {:induction false} KeepsPrefixWithoutLink(s: string, i: nat)
    requires i <= |s|
    requires forall j :: 0 <= j < i ==> !LinkAt(s, j)
    ensures RemoveTcoLinks(s) == s[..i] + RemoveTcoLinks(s[i..])
    decreases i
  {
    if i > 0 {
      var t := s[1..];
      KeepsFirstWithoutLink(s);
      forall j | 0 <= j < i - 1 ensures !LinkAt(t, j) {
        LinkAtTail(s, j);
      }
      KeepsPrefixWithoutLink(t, i - 1);
      assert t[i - 1..] == s[i..];
      ConsOntoPrefix(s, i, RemoveTcoLinks(s[i..]));
    }
  }

  /**
   * Left to right, non-overlapping, greedy: when the first match starts at `i`,
   * everything before it is kept as it is, the match (as long as it can be) is
   * dropped, and the scan resumes on what follows it.
   */
  lemma FirstLinkRemoved(s: string, i: nat)
    requires LinkAt(s, i)
    requires forall j :: 0 <= j < i ==> !LinkAt(s, j)
    ensures RemoveTcoLinks(s) == s[..i] + RemoveTcoLinks(s[i..][MatchLength(s[i..])..])
  {
    KeepsPrefixWithoutLink(s, i);
    DropsLinkAtStart(s[i..]);
  }

  /** One step of the scan where a link starts: the whole match is dropped. */
  lemma DropsLinkAtStart(s: string)
    requires LinkAt(s, 0)
    ensures RemoveTcoLinks(s) == RemoveTcoLinks(s[MatchLength(s)..])
  {
  }

  lemma ConsOntoPrefix(s: string, i: nat, rest: string)
    requires 0 < i <= |s|
    ensures [s[0]] + (s[1..][..i - 1] + rest) == s[..i] + rest
  {
  }

  /** `r` can be obtained from `s` by deleting characters. */
  ghost predicate IsSubsequence(r: string, s: string)
    decreases |s|
  {
    r == [] || (s != [] && ((r[0] == s[0] && IsSubsequence(r[1..], s[1..])) || IsSubsequence(r, s[1..])))
  }

  lemma {:induction false} SubsequenceOfSuffix(r: string, s: string, n: nat)
    requires n <= |s| && IsSubsequence(r, s[n..])
    ensures IsSubsequence(r, s)
    decreases n
  {
    if n > 0 {
      assert s[1..][n - 1..] == s[n..];
      SubsequenceOfSuffix(r, s[1..], n - 1);
    }
  }

  /** Every character that survives was in the input, in the same order. */
  lemma {:induction false} KeepsOrder(s: string)
    ensures IsSubsequence(RemoveTcoLinks(s), s)
    decreases |s|
  {
    if s != [] {
      var n := MatchLength(s);
      if n > 0 {
        KeepsOrder(s[n..]);
        SubsequenceOfSuffix(RemoveTcoLinks(s), s, n);
      } else {
        KeepsOrder(s[1..]);
        var r := RemoveTcoLinks(s);
        assert r[0] == s[0] && r[1..] == RemoveTcoLinks(s[1..]);
      }
    }
  }
}

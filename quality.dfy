/**
 * Choosing the best video variant (bot.js:96-102). The resolver lists the
 * variants of a video or gif with a `dimension` such as "1280x720". The bot
 * sorts the list in place with the comparator
 * `parseInt(b.dimension.split("x")[0]) - parseInt(a.dimension.split("x")[0])`,
 * that is by leading width, widest first, and then reads element 0.
 *
 * `Array.prototype.sort` is stable, and every stable sort under one comparator
 * leaves the same order, so the order is specified here by a stable insertion
 * sort, `SortByWidth`; `SortInPlace` performs it on an array.
 */
module Quality {
  import opened Wrappers

  /** One entry of the resolver's `download` list. */
  datatype Candidate = Candidate(url: string, dimension: string)

  predicate IsDigit(c: char) {
    '0' <= c <= '9'
  }

  /** `s.split("x")[0]`: the text before the first `x`, or all of `s` when it has none. */
  function BeforeX(s: string): string {
    if s == [] || s[0] == 'x' then [] else [s[0]] + BeforeX(s[1..])
  }

  /** `BeforeX` returns the longest prefix free of `x`: it stops at the end or at an `x`. */
  lemma {:induction false} BeforeXIsLongestPrefixWithoutX(s: string)
    ensures |BeforeX(s)| <= |s| && BeforeX(s) == s[..|BeforeX(s)|]
    ensures forall k :: 0 <= k < |BeforeX(s)| ==> BeforeX(s)[k] != 'x'
    ensures |BeforeX(s)| < |s| ==> s[|BeforeX(s)|] == 'x'
  {
    if s != [] && s[0] != 'x' {
      BeforeXIsLongestPrefixWithoutX(s[1..]);
    }
  }

  /** The longest run of decimal digits at the start of `s`. */
  function LeadingDigits(s: string): string {
    if s == [] || !IsDigit(s[0]) then [] else [s[0]] + LeadingDigits(s[1..])
  }

  /** `LeadingDigits` returns a prefix made of digits that stops at the end or at a non-digit. */
  lemma {:induction false} LeadingDigitsIsLongestDigitPrefix(s: string)
    ensures |LeadingDigits(s)| <= |s| && LeadingDigits(s) == s[..|LeadingDigits(s)|]
    ensures forall k :: 0 <= k < |LeadingDigits(s)| ==> IsDigit(LeadingDigits(s)[k])
    ensures |LeadingDigits(s)| < |s| ==> !IsDigit(s[|LeadingDigits(s)|])
  {
    if s != [] && IsDigit(s[0]) {
      LeadingDigitsIsLongestDigitPrefix(s[1..]);
    }
  }

  /** The value of one decimal digit. */
  function DigitValue(c: char): nat {
    if IsDigit(c) then c as int - '0' as int else 0
  }

  /** The number a string of decimal digits denotes, most significant digit first. */
  function DecimalValue(ds: string): nat {
    if ds == [] then 0 else DecimalValue(ds[..|ds| - 1]) * 10 + DigitValue(ds[|ds| - 1])
  }

  /**
   * `parseInt(s)` for a string that starts with a digit: the value of its
   * leading digits. (A string without them is NaN in JavaScript; see README.)
   */
  function ParseLeadingInt(s: string): nat {
    DecimalValue(LeadingDigits(s))
  }

  /** The sort key: the width written before the `x` of the dimension. */
  function Width(c: Candidate): nat {
    ParseLeadingInt(BeforeX(c.dimension))
  }

  /** Decimal notation of `n` without leading zeros, as a resolver writes a width. */
  function Decimal(n: nat): (r: string)
    ensures |r| > 0 && forall k :: 0 <= k < |r| ==> IsDigit(r[k])
  {
    var d := ['0' + (n % 10) as char];
    if n < 10 then d else Decimal(n / 10) + d
  }

  lemma {:induction false} DecimalValueOfDecimal(n: nat)
    ensures DecimalValue(Decimal(n)) == n
  {
    var ds := Decimal(n);
    if n >= 10 {
      DecimalValueOfDecimal(n / 10);
      assert ds[..|ds| - 1] == Decimal(n / 10);
    }
  }

  lemma {:induction false} LeadingDigitsOfDigits(ds: string)
    requires forall k :: 0 <= k < |ds| ==> IsDigit(ds[k])
    ensures LeadingDigits(ds) == ds
  {
    if ds != [] {
      LeadingDigitsOfDigits(ds[1..]);
    }
  }

  lemma {:induction false} BeforeXOfNoXThenX(w: string, h: string)
    requires forall k :: 0 <= k < |w| ==> w[k] != 'x'
    ensures BeforeX(w + "x" + h) == w
  {
    if w != [] {
      assert (w + "x" + h)[1..] == w[1..] + "x" + h;
      BeforeXOfNoXThenX(w[1..], h);
    }
  }

  /** Reading back a dimension "<width>x<height>" gives the width that was written. */
  lemma WidthOfDimension(url: string, w: nat, height: string)
    ensures Width(Candidate(url, Decimal(w) + "x" + height)) == w
  {
    var ds := Decimal(w);
    BeforeXOfNoXThenX(ds, height);
    LeadingDigitsOfDigits(ds);
    DecimalValueOfDecimal(w);
  }

  /**
   * Places `c` after every element at least as wide and before the first
   * narrower one; inserting the later element after its equals keeps the sort stable.
   */
  function InsertByWidth(c: Candidate, s: seq<Candidate>): (r: seq<Candidate>)
    ensures |r| == |s| + 1
  {
    if s == [] then [c]
    else if Width(s[0]) < Width(c) then [c] + s
    else [s[0]] + InsertByWidth(c, s[1..])
  }

  /** The order `Array.prototype.sort` leaves: widest first, ties in their original order. */
  function SortByWidth(s: seq<Candidate>): (r: seq<Candidate>)
    ensures |r| == |s|
  {
    if s == [] then []
    else InsertByWidth(s[|s| - 1], SortByWidth(s[..|s| - 1]))
  }

  ghost predicate DescendingByWidth(s: seq<Candidate>) {
    forall i, j :: 0 <= i < j < |s| ==> Width(s[i]) >= Width(s[j])
  }

  lemma {:induction false} InsertIsPermutation(c: Candidate, s: seq<Candidate>)
    ensures multiset(InsertByWidth(c, s)) == multiset(s) + multiset{c}
  {
    if s != [] && Width(s[0]) >= Width(c) {
      InsertIsPermutation(c, s[1..]);
      assert s == [s[0]] + s[1..];
    }
  }

  /** Sorting only reorders the variants: none is lost, none is added. */
  lemma {:induction false} SortIsPermutation(s: seq<Candidate>)
    ensures multiset(SortByWidth(s)) == multiset(s)
  {
    if s != [] {
      var init := s[..|s| - 1];
      SortIsPermutation(init);
      InsertIsPermutation(s[|s| - 1], SortByWidth(init));
      assert s == init + [s[|s| - 1]];
    }
  }

  /** No variant of `s` is wider than `w`. */
  ghost predicate AtMostWide(s: seq<Candidate>, w: nat) {
    forall k :: 0 <= k < |s| ==> Width(s[k]) <= w
  }

  /** A list sorted widest first: its tail is sorted and no wider than its head. */
  lemma DescendingTail(s: seq<Candidate>)
    requires s != [] && DescendingByWidth(s)
    ensures DescendingByWidth(s[1..]) && AtMostWide(s[1..], Width(s[0]))
  {
    forall i, j | 0 <= i < j < |s[1..]| ensures Width(s[1..][i]) >= Width(s[1..][j]) {
      assert s[1..][i] == s[i + 1] && s[1..][j] == s[j + 1];
    }
    forall k | 0 <= k < |s[1..]| ensures Width(s[1..][k]) <= Width(s[0]) {
      assert s[1..][k] == s[k + 1];
    }
  }

  /** Putting a variant in front of a sorted list no wider than it keeps the list sorted. */
  lemma ConsDescending(x: Candidate, t: seq<Candidate>)
    requires DescendingByWidth(t) && AtMostWide(t, Width(x))
    ensures DescendingByWidth([x] + t)
  {
    var r := [x] + t;
    forall i, j | 0 <= i < j < |r| ensures Width(r[i]) >= Width(r[j]) {
      assert r[j] == t[j - 1];
      if i > 0 {
        assert r[i] == t[i - 1];
      }
    }
  }

  /** Inserting a variant no wider than `w` into a list no wider than `w` keeps that bound. */
  lemma {:induction false} InsertKeepsBound(c: Candidate, s: seq<Candidate>, w: nat)
    requires AtMostWide(s, w) && Width(c) <= w
    ensures AtMostWide(InsertByWidth(c, s), w)
  {
    if s != [] && Width(s[0]) >= Width(c) {
      assert AtMostWide(s[1..], w) by {
        forall k | 0 <= k < |s[1..]| ensures Width(s[1..][k]) <= w {
          assert s[1..][k] == s[k + 1];
        }
      }
      InsertKeepsBound(c, s[1..], w);
      var tail := InsertByWidth(c, s[1..]);
      var r := InsertByWidth(c, s);
      assert r == [s[0]] + tail;
      forall k | 0 <= k < |r| ensures Width(r[k]) <= w {
        if k > 0 {
          assert r[k] == tail[k - 1];
        }
      }
    }
  }

  /** Inserting into a list sorted widest first keeps it sorted. */
  lemma {:induction false} InsertKeepsDescending(c: Candidate, s: seq<Candidate>)
    requires DescendingByWidth(s)
    ensures DescendingByWidth(InsertByWidth(c, s))
  {
    if s == [] {
      assert InsertByWidth(c, s) == [c];
    } else {
      DescendingTail(s);
      if Width(s[0]) < Width(c) {
        assert AtMostWide(s, Width(c));
        ConsDescending(c, s);
      } else {
        InsertKeepsDescending(c, s[1..]);
        InsertKeepsBound(c, s[1..], Width(s[0]));
        ConsDescending(s[0], InsertByWidth(c, s[1..]));
      }
    }
  }

  /** After sorting, no variant is wider than one before it. */
  lemma {:induction false} SortIsDescending(s: seq<Candidate>)
    ensures DescendingByWidth(SortByWidth(s))
  {
    if s != [] {
      SortIsDescending(s[..|s| - 1]);
      InsertKeepsDescending(s[|s| - 1], SortByWidth(s[..|s| - 1]));
    }
  }

  /**
   * The index of the first widest variant, an independent description of the
   * choice: nothing is wider, and everything before it is narrower.
   */
  function FirstWidest(s: seq<Candidate>): (k: nat)
    requires s != []
    ensures k < |s|
    ensures forall j :: 0 <= j < |s| ==> Width(s[j]) <= Width(s[k])
    ensures forall j :: 0 <= j < k ==> Width(s[j]) < Width(s[k])
  {
    if |s| == 1 then 0
    else
      var k := FirstWidest(s[..|s| - 1]);
      if Width(s[k]) < Width(s[|s| - 1]) then |s| - 1 else k
  }

  /** The head of the sorted list is the first widest variant: ties go to the earliest-listed one. */
  lemma {:induction false} SortHeadIsFirstWidest(s: seq<Candidate>)
    requires s != []
    ensures SortByWidth(s)[0] == s[FirstWidest(s)]
  {
    if |s| > 1 {
      var init := s[..|s| - 1];
      SortHeadIsFirstWidest(init);
      assert FirstWidest(init) == FirstWidest(s) || FirstWidest(s) == |s| - 1;
    }
  }

  /**
   * `sortedDownload[0]`: the chosen variant, or `None` (JavaScript's
   * `undefined`) for an empty list.
   */
  function HighestQuality(s: seq<Candidate>): (r: Option<Candidate>)
    ensures r == None <==> s == []
    ensures r != None ==> r.value == s[FirstWidest(s)]
  {
    if s == [] then None
    else
      SortHeadIsFirstWidest(s);
      Some(SortByWidth(s)[0])
  }

  /** Every variant is at least as wide as those listed before it, then `c` is inserted at `j`. */
  lemma {:induction false} InsertAt(c: Candidate, s: seq<Candidate>, j: nat)
    requires j <= |s|
    requires forall k :: 0 <= k < j ==> Width(s[k]) >= Width(c)
    requires forall k :: j <= k < |s| ==> Width(s[k]) < Width(c)
    ensures InsertByWidth(c, s) == s[..j] + [c] + s[j..]
  {
    if j > 0 {
      InsertAt(c, s[1..], j - 1);
      assert s[1..][..j - 1] == s[1..j];
      assert s[1..][j - 1..] == s[j..];
      assert s[..j] == [s[0]] + s[1..j];
    } else if s != [] {
      assert s[0..] == s;
    }
  }

  /** One step of the insertion sort: moves `a[i]` into the sorted run `a[..i]`. */
  method InsertNext(a: array<Candidate>, i: nat)
    requires i < a.Length && DescendingByWidth(a[..i])
    modifies a
    ensures a[..i + 1] == InsertByWidth(old(a[i]), old(a[..i]))
    ensures a[i + 1..] == old(a[i + 1..])
  {
    ghost var sorted := a[..i];
    var key := a[i];
    var keyWidth := Width(key);
    var j := i;
    while j > 0 && Width(a[j - 1]) < keyWidth
      invariant 0 <= j <= i
      invariant forall k :: 0 <= k < j ==> a[k] == sorted[k]
      invariant forall k :: j < k <= i ==> a[k] == sorted[k - 1]
      invariant forall k :: j <= k < i ==> Width(sorted[k]) < keyWidth
      invariant a[i + 1..] == old(a[i + 1..])
    {
      a[j] := a[j - 1];
      j := j - 1;
    }
    a[j] := key;
    InsertedAtGap(sorted, key, j, a[..i + 1]);
  }

  lemma InsertedAtGap(sorted: seq<Candidate>, key: Candidate, j: nat, result: seq<Candidate>)
    requires DescendingByWidth(sorted) && j <= |sorted|
    requires j > 0 ==> Width(sorted[j - 1]) >= Width(key)
    requires forall k :: j <= k < |sorted| ==> Width(sorted[k]) < Width(key)
    requires |result| == |sorted| + 1 && result[j] == key
    requires forall k :: 0 <= k < j ==> result[k] == sorted[k]
    requires forall k :: j < k < |result| ==> result[k] == sorted[k - 1]
    ensures result == InsertByWidth(key, sorted)
  {
    forall k | 0 <= k < j ensures Width(sorted[k]) >= Width(key) {
      assert Width(sorted[k]) >= Width(sorted[j - 1]);
    }
    InsertAt(key, sorted, j);
    assert result == sorted[..j] + [key] + sorted[j..];
  }

  /** `response.download.sort(...)`: a stable insertion sort of the array, widest first. */
  method SortInPlace(a: array<Candidate>)
    modifies a
    ensures a[..] == SortByWidth(old(a[..]))
  {
    ghost var original := a[..];
    var i := 0;
    while i < a.Length
      invariant 0 <= i <= a.Length
      invariant a[..i] == SortByWidth(original[..i])
      invariant a[i..] == original[i..]
    {
      SortIsDescending(original[..i]);
      assert a[i] == original[i];
      InsertNext(a, i);
      assert original[..i + 1][..i] == original[..i];
      i := i + 1;
    }
    assert original[..a.Length] == original;
  }

  /** bot.js:96-102: sorts the variants in place and reads the first one. */
  method SelectHighestQuality(a: array<Candidate>) returns (best: Option<Candidate>)
    modifies a
    ensures a[..] == SortByWidth(old(a[..]))
    ensures best == HighestQuality(old(a[..]))
  {
    SortInPlace(a);
    if a.Length == 0 {
      best := None;
    } else {
      best := Some(a[0]);
    }
  }
}

/**
 * The `msg` handler of the bot and its two error handlers, as decisions over
 * strings and lists.  Everything the handler sends to Telegram, and the call
 * to the tweet resolver, becomes an `Action`; a run of the handler is the
 * ordered list of actions it issues plus the error it lets escape.
 *
 * The outside world is an input: the message id Telegram gives the status
 * reply, what the resolver answers, and which outgoing actions fail (and with
 * which error).
 */
module Bot {
  import opened Wrappers
  import opened Text
  import opened TcoLinks
  import opened Quality

  // ---------------------------------------------------------------- data

  /** What can be thrown: grammY's API error, its network error, and anything else. */
  datatype Error =
    | GrammyError(message: string, description: string)
    | HttpError(message: string)
    | OtherError(message: string)

  /** The incoming message: its id, the sender's id (absent for channel posts) and its text. */
  datatype IncomingMessage = IncomingMessage(messageId: nat, fromId: Option<int>, text: Option<string>)

  /** `response.download`: one URL, or the list of video variants. */
  datatype Download = Single(url: string) | Variants(candidates: seq<Candidate>)

  datatype TweetUser = TweetUser(name: string, username: string, text: string)

  /** The resolver's answer; `mediaType` is the `type` field. */
  datatype Response = Response(found: bool, mediaType: string, download: Download, tweetUser: TweetUser)

  /** The resolver either answers or rejects. */
  datatype Resolution = Resolved(response: Response) | Rejected(error: Error)

  /** The fixed texts the bot replies with; two of them embed the error's message. */
  datatype Notice =
    | ShortLinkNotice
    | NotATweetNotice
    | DownloadingNotice
    | ContactErrorNotice
    | GrammyErrorNotice(detail: string)
    | OtherErrorNotice(detail: string)
    | TopLevelNotice

  /** The literal text sent for each notice (Markdown where the reply asks for it). */
  function NoticeText(n: Notice): (r: string)
    ensures |r| > 0
    ensures n != TopLevelNotice <==> r[0] == '*'
  {
    match n
    case ShortLinkNotice => "*Short links are not supported presently.*"
    case NotATweetNotice => "*Send a valid Tweet.*"
    case DownloadingNotice => "*Downloading*"
    case ContactErrorNotice => "*Error contacting Twitter.*"
    case GrammyErrorNotice(detail) =>
      "*An error occurred: " + detail + "*"
    case OtherErrorNotice(detail) =>
      // The leading `*` is split off so that the verifier sees the first character without reading the long literal.
      "*" + "An error occurred. Are you sure you sent a valid Twitter link?*\n_Error: " + detail + "_"
    case TopLevelNotice => "An error occurred"
  }

  /** The two error notices show the error's message. */
  lemma NoticeShowsDetail(n: Notice)
    requires n.GrammyErrorNotice? || n.OtherErrorNotice?
    ensures Contains(NoticeText(n), n.detail)
  {
    var detail := n.detail;
    if n.GrammyErrorNotice? {
      ContainsMiddle("*An error occurred: ", detail, "*");
    } else {
      // Same shape as the text in `NoticeText`, leading `*` split off.
      ContainsMiddle("*" + "An error occurred. Are you sure you sent a valid Twitter link?*\n_Error: ", detail, "_");
    }
  }

  /** One outgoing effect of the handler, in the order it is issued. */
  datatype Action =
    | Reply(notice: Notice, markdown: bool, replyTo: Option<nat>)
    | ReplyPhoto(photo: Download, caption: string)
    | ReplyVideo(video: string, caption: string)
    | DeleteAfter(chatId: int, messageId: nat, delayMs: nat)
    | CallResolver(link: string)

  /** Which outgoing actions fail, and with what error. */
  type Transport = Action -> Option<Error>

  /** The actions a handler run issued and the error that escaped it, if any. */
  datatype Run = Run(actions: seq<Action>, uncaught: Option<Error>)

  // ----------------------------------------------------------- constants

  const SHORT_LINK_MARK := "t.co"
  /** `"twitter" && "https"` evaluates to its right operand. */
  const LINK_MARK := "https"

  const DELETE_DELAY_MS := 3000

  const IMAGE_TYPE := "image"
  const VIDEO_TYPE := "video/gif"

  const BLOCKED := "Forbidden: bot was blocked by the user"
  const SEND_VIDEO_FAILED := "Call to 'sendVideo' failed!"

  /** V8's messages for the TypeErrors the handler can raise itself. */
  const NO_SENDER := "Cannot read properties of undefined (reading 'last_name')"
  const NO_TEXT := "Cannot read properties of undefined (reading 'includes')"
  const NOT_SORTABLE := "response.download.sort is not a function"
  const NO_CANDIDATE := "Cannot read properties of undefined (reading 'url')"

  // ------------------------------------------------------ classification

  datatype InputKind = ShortLink | NotATweet | TweetLink

  /** The three-way branch on the message text; the first test that holds wins. */
  function ClassifyInput(text: string): (k: InputKind)
    ensures k == ShortLink <==> Contains(text, SHORT_LINK_MARK)
    ensures k == NotATweet <==> !Contains(text, SHORT_LINK_MARK) && !Contains(text, LINK_MARK)
    ensures k == TweetLink <==> !Contains(text, SHORT_LINK_MARK) && Contains(text, LINK_MARK)
  {
    if Contains(text, SHORT_LINK_MARK) then ShortLink
    else if !Contains(text, LINK_MARK) then NotATweet
    else TweetLink
  }

  /** Whether the text mentions `twitter` never changes the classification. */
  lemma TwitterNeverConsulted(a: string, b: string)
    requires Contains(a, SHORT_LINK_MARK) == Contains(b, SHORT_LINK_MARK)
    requires Contains(a, LINK_MARK) == Contains(b, LINK_MARK)
    ensures ClassifyInput(a) == ClassifyInput(b)
  {
  }

  // ------------------------------------------------------------- caption

  /** The caption of a photo or video: the cleaned tweet text in bold, then a link to the author. */
  function Caption(tweetText: string, name: string, username: string): string {
    "*" + RemoveTcoLinks(tweetText) + "*\n" + Attribution(name, username)
  }

  function Attribution(name: string, username: string): string {
    "_By_ [" + name + "](https://twitter.com/" + username + ")"
  }

  /** The author's display name and username both appear in the attribution. */
  lemma AttributionShowsAuthor(name: string, username: string)
    ensures Contains(Attribution(name, username), name)
    ensures Contains(Attribution(name, username), username)
  {
    var front := "_By_ [";
    var link := "](https://twitter.com/";
    ContainsSelf(name);
    ContainsInConcat(front, name, name);
    ContainsInConcat(front + name, link, name);
    ContainsInConcat(front + name + link, username, name);
    ContainsInConcat(front + name + link + username, ")", name);
    ContainsSelf(username);
    ContainsInConcat(front + name + link, username, username);
    ContainsInConcat(front + name + link + username, ")", username);
  }

  /** The caption shows the cleaned tweet text, the author's name and the author's username. */
  lemma CaptionShowsTextAndAuthor(tweetText: string, name: string, username: string)
    ensures Contains(Caption(tweetText, name, username), RemoveTcoLinks(tweetText))
    ensures Contains(Caption(tweetText, name, username), name)
    ensures Contains(Caption(tweetText, name, username), username)
  {
    var cleaned := RemoveTcoLinks(tweetText);
    var attribution := Attribution(name, username);
    ContainsSelf(cleaned);
    ContainsInConcat("*", cleaned, cleaned);
    ContainsInConcat("*" + cleaned, "*\n", cleaned);
    ContainsInConcat("*" + cleaned + "*\n", attribution, cleaned);
    AttributionShowsAuthor(name, username);
    ContainsInConcat("*" + cleaned + "*\n", attribution, name);
    ContainsInConcat("*" + cleaned + "*\n", attribution, username);
  }

  /** Tweet text without a short link reaches the caption unchanged. */
  lemma CaptionKeepsTextWithoutLink(tweetText: string, name: string, username: string)
    requires !HasLink(tweetText)
    ensures Caption(tweetText, name, username)
         == "*" + tweetText + "*\n_By_ [" + name + "](https://twitter.com/" + username + ")"
  {
    UnchangedIffNoLink(tweetText);
  }

  // ------------------------------------------------------------ dispatch

  /** What the resolver's answer leads to inside the `try` block. */
  datatype Dispatch = Send(action: Action) | Throw(error: Error) | Nothing

  function Dispatched(r: Response): (d: Dispatch)
    ensures d.Send? <==> r.found && (r.mediaType == IMAGE_TYPE ||
                                     (r.mediaType == VIDEO_TYPE && r.download.Variants? && r.download.candidates != []))
    ensures d.Nothing? <==> !r.found || (r.mediaType != IMAGE_TYPE && r.mediaType != VIDEO_TYPE)
    ensures d.Send? ==> (d.action.ReplyPhoto? || d.action.ReplyVideo?) && d.action.caption == Caption(r.tweetUser.text, r.tweetUser.name, r.tweetUser.username)
    ensures d.Throw? ==> d.error.OtherError?
    ensures r.found && r.mediaType == IMAGE_TYPE ==>
              d == Send(ReplyPhoto(r.download, Caption(r.tweetUser.text, r.tweetUser.name, r.tweetUser.username)))
    ensures d.Send? && r.mediaType == VIDEO_TYPE ==> d.action.ReplyVideo?
    ensures r.found && r.mediaType == VIDEO_TYPE && r.download.Single? ==> d == Throw(OtherError(NOT_SORTABLE))
    ensures r.found && r.mediaType == VIDEO_TYPE && r.download == Variants([]) ==> d == Throw(OtherError(NO_CANDIDATE))
  {
    var caption := Caption(r.tweetUser.text, r.tweetUser.name, r.tweetUser.username);
    if r.found && r.mediaType == IMAGE_TYPE then
      Send(ReplyPhoto(r.download, caption))
    else if r.found && r.mediaType == VIDEO_TYPE then
      match r.download
      case Single(_) => Throw(OtherError(NOT_SORTABLE))
      case Variants(candidates) =>
        match HighestQuality(candidates)
        case None => Throw(OtherError(NO_CANDIDATE))
        case Some(best) => Send(ReplyVideo(best.url, caption))
    else
      Nothing
  }

  /** A video reply carries the first of the widest variants. */
  lemma VideoIsWidest(r: Response)
    requires Dispatched(r).Send? && Dispatched(r).action.ReplyVideo?
    ensures r.download.Variants? && r.download.candidates != []
    ensures var cs := r.download.candidates;
            var k := FirstWidest(cs);
            Dispatched(r).action.video == cs[k].url &&
            (forall j :: 0 <= j < |cs| ==> Width(cs[j]) <= Width(cs[k])) &&
            (forall j :: 0 <= j < k ==> Width(cs[j]) < Width(cs[k]))
  {
  }

  // ---------------------------------------------------- error classifiers

  /** The `catch` block of the handler: the reply it sends, if any. */
  function HandlerErrorReply(e: Error, messageId: nat): (r: Option<Action>)
    ensures r == None <==> e.GrammyError? && Contains(e.message, BLOCKED)
    ensures r != None ==> r.value.Reply? && r.value.markdown && r.value.replyTo == Some(messageId)
    ensures e.GrammyError? && !Contains(e.message, BLOCKED) && Contains(e.message, SEND_VIDEO_FAILED)
            ==> r == Some(Reply(ContactErrorNotice, true, Some(messageId)))
    ensures e.GrammyError? && !Contains(e.message, BLOCKED) && !Contains(e.message, SEND_VIDEO_FAILED)
            ==> r == Some(Reply(GrammyErrorNotice(e.message), true, Some(messageId)))
    ensures !e.GrammyError? ==> r == Some(Reply(OtherErrorNotice(e.message), true, Some(messageId)))
  {
    if e.GrammyError? then
      if Contains(e.message, BLOCKED) then None
      else if Contains(e.message, SEND_VIDEO_FAILED) then Some(Reply(ContactErrorNotice, true, Some(messageId)))
      else Some(Reply(GrammyErrorNotice(e.message), true, Some(messageId)))
    else
      Some(Reply(OtherErrorNotice(e.message), true, Some(messageId)))
  }

  /** `bot.catch`: the reply it sends, if any (not threaded, no Markdown). */
  function TopLevelReply(e: Error): (r: Option<Action>)
    ensures r != None <==> e.GrammyError? && e.description != BLOCKED
    ensures r != None ==> r.value == Reply(TopLevelNotice, false, None)
  {
    match e
    case GrammyError(_, description) =>
      if description == BLOCKED then None else Some(Reply(TopLevelNotice, false, None))
    case HttpError(_) => None
    case OtherError(_) => None
  }

  /**
   * The two classifiers disagree on a blocked user whose error text carries
   * more than the bare phrase: the handler stays silent (substring test),
   * the top level still replies (equality test).
   */
  lemma BlockedTestsDiffer(message: string, extra: string, messageId: nat)
    requires Contains(message, BLOCKED) && extra != []
    ensures HandlerErrorReply(GrammyError(message, BLOCKED + extra), messageId) == None
    ensures TopLevelReply(GrammyError(message, BLOCKED + extra)) == Some(Reply(TopLevelNotice, false, None))
  {
  }

  // ----------------------------------------------------------- the trace

  /** Issues `a`: it is recorded, and its failure (if any) is thrown. */
  function Issue(a: Action, transport: Transport): Run {
    Run([a], transport(a))
  }

  /** The `try` block after the resolver call. */
  function TryBlock(resolution: Resolution, transport: Transport): (run: Run)
    ensures |run.actions| <= 1
    ensures forall a :: a in run.actions ==> a.ReplyPhoto? || a.ReplyVideo?
    ensures resolution.Rejected? ==> run == Run([], Some(resolution.error))
    ensures resolution.Resolved? && Dispatched(resolution.response).Send? ==>
              var a := Dispatched(resolution.response).action;
              run == Run([a], transport(a))
    ensures resolution.Resolved? && Dispatched(resolution.response).Throw? ==>
              run == Run([], Some(Dispatched(resolution.response).error))
    ensures resolution.Resolved? && Dispatched(resolution.response).Nothing? ==> run == Run([], None)
  {
    match resolution
    case Rejected(e) => Run([], Some(e))
    case Resolved(response) =>
      match Dispatched(response)
      case Send(a) => Issue(a, transport)
      case Throw(e) => Run([], Some(e))
      case Nothing => Run([], None)
  }

  /** The `catch` block: classify what the `try` block threw, and reply. */
  function CatchBlock(uncaught: Option<Error>, messageId: nat, transport: Transport): (run: Run)
    ensures |run.actions| <= 1
    ensures forall a :: a in run.actions ==> a.Reply? && a.replyTo == Some(messageId)
    ensures uncaught.None? ==> run == Run([], None)
    ensures uncaught.Some? ==> run.actions == OptionToSeq(HandlerErrorReply(uncaught.value, messageId))
    ensures uncaught.Some? && HandlerErrorReply(uncaught.value, messageId).Some? ==>
              run.uncaught == transport(HandlerErrorReply(uncaught.value, messageId).value)
    ensures uncaught.Some? && HandlerErrorReply(uncaught.value, messageId).None? ==> run.uncaught == None
  {
    match uncaught
    case None => Run([], None)
    case Some(e) =>
      match HandlerErrorReply(e, messageId)
      case None => Run([], None)
      case Some(a) => Issue(a, transport)
  }

  /** The status reply whose message is deleted later. */
  function StatusReply(): Action {
    Reply(DownloadingNotice, true, None)
  }

  /**
   * One run of the `msg` handler.  `statusId` is the id Telegram gives the
   * status reply; `resolution` is the resolver's answer.
   */
  function Handle(m: IncomingMessage, statusId: nat, resolution: Resolution, transport: Transport): (run: Run)
    ensures forall k :: 0 <= k < |run.actions| && run.actions[k].CallResolver? ==>
              k == 2 && m.text.Some? && run.actions[k].link == m.text.value &&
              run.actions[0] == StatusReply() && transport(StatusReply()) == None &&
              m.fromId.Some? && run.actions[1] == DeleteAfter(m.fromId.value, statusId, DELETE_DELAY_MS) &&
              transport(run.actions[1]) == None
    // The handler's own TypeErrors escape before any action is issued.
    ensures (m.fromId.None? || m.text.None?) ==> run.actions == [] && run.uncaught.Some?
    ensures run.actions == [] ==> m.fromId.None? || m.text.None?
    // A failed reply or deletion ends the run and escapes to `bot.catch`.
    ensures forall k :: 0 <= k < |run.actions| && (run.actions[k].Reply? || run.actions[k].DeleteAfter?) &&
                        transport(run.actions[k]).Some? ==>
              k == |run.actions| - 1 && run.uncaught == transport(run.actions[k])
    // Nothing else escapes: any other error is the failure of that last reply or deletion.
    ensures run.uncaught.Some? && run.actions != [] ==>
              var last := run.actions[|run.actions| - 1];
              (last.Reply? || last.DeleteAfter?) && run.uncaught == transport(last)
  {
    if m.fromId.None? then Run([], Some(OtherError(NO_SENDER)))
    else if m.text.None? then Run([], Some(OtherError(NO_TEXT)))
    else
      var text := m.text.value;
      match ClassifyInput(text)
      case ShortLink => Issue(Reply(ShortLinkNotice, true, Some(m.messageId)), transport)
      case NotATweet => Issue(Reply(NotATweetNotice, true, Some(m.messageId)), transport)
      case TweetLink =>
        var status := StatusReply();
        var delete := DeleteAfter(m.fromId.value, statusId, DELETE_DELAY_MS);
        if transport(status).Some? then Run([status], transport(status))
        else if transport(delete).Some? then Run([status, delete], transport(delete))
        else
          var tried := TryBlock(resolution, transport);
          var caught := CatchBlock(tried.uncaught, m.messageId, transport);
          Run([status, delete, CallResolver(text)] + tried.actions + caught.actions, caught.uncaught)
  }

  /** The handler followed by `bot.catch` on whatever escaped it. */
  function HandleUpdate(m: IncomingMessage, statusId: nat, resolution: Resolution, transport: Transport): (actions: seq<Action>)
    ensures var run := Handle(m, statusId, resolution, transport);
            |run.actions| <= |actions| <= |run.actions| + 1 && actions[..|run.actions|] == run.actions &&
            (|actions| == |run.actions| + 1 <==>
               run.uncaught.Some? && run.uncaught.value.GrammyError? && run.uncaught.value.description != BLOCKED) &&
            (|actions| != |run.actions| ==> actions[|run.actions|] == Reply(TopLevelNotice, false, None))
  {
    var run := Handle(m, statusId, resolution, transport);
    match run.uncaught
    case None => run.actions
    case Some(e) => run.actions + OptionToSeq(TopLevelReply(e))
  }

  function OptionToSeq(o: Option<Action>): (s: seq<Action>)
    ensures o.None? ==> s == []
    ensures o.Some? ==> s == [o.value]
  {
    match o
    case None => []
    case Some(a) => [a]
  }

  // ------------------------------------------------------ trace properties

  /** A text containing `t.co` gets the one threaded rejection, whatever else it holds. */
  lemma ShortLinkTrace(m: IncomingMessage, statusId: nat, resolution: Resolution, transport: Transport)
    requires m.fromId.Some? && m.text.Some? && Contains(m.text.value, SHORT_LINK_MARK)
    ensures Handle(m, statusId, resolution, transport).actions == [Reply(ShortLinkNotice, true, Some(m.messageId))]
  {
  }

  /** Without `t.co` and without `https` the only action is the threaded "Send a valid Tweet". */
  lemma NotATweetTrace(m: IncomingMessage, statusId: nat, resolution: Resolution, transport: Transport)
    requires m.fromId.Some? && m.text.Some?
    requires !Contains(m.text.value, SHORT_LINK_MARK) && !Contains(m.text.value, LINK_MARK)
    ensures Handle(m, statusId, resolution, transport).actions == [Reply(NotATweetNotice, true, Some(m.messageId))]
  {
  }

  /**
   * A link is answered by the status reply, then the awaited deletion of that
   * reply after 3000 ms, then the resolver call, in that order.
   */
  lemma ResolveTracePrefix(m: IncomingMessage, statusId: nat, resolution: Resolution, transport: Transport)
    requires m.fromId.Some? && m.text.Some? && ClassifyInput(m.text.value) == TweetLink
    requires transport(StatusReply()) == None
    requires transport(DeleteAfter(m.fromId.value, statusId, DELETE_DELAY_MS)) == None
    ensures var actions := Handle(m, statusId, resolution, transport).actions;
            |actions| >= 3 &&
            actions[..3] == [Reply(DownloadingNotice, true, None),
                             DeleteAfter(m.fromId.value, statusId, DELETE_DELAY_MS),
                             CallResolver(m.text.value)]
  {
  }

  /** A failed deletion escapes the handler before the resolver is ever called. */
  lemma FailedDeleteSkipsResolver(m: IncomingMessage, statusId: nat, resolution: Resolution, transport: Transport)
    requires m.fromId.Some? && m.text.Some? && ClassifyInput(m.text.value) == TweetLink
    requires transport(StatusReply()) == None
    requires transport(DeleteAfter(m.fromId.value, statusId, DELETE_DELAY_MS)).Some?
    ensures var run := Handle(m, statusId, resolution, transport);
            run.actions == [StatusReply(), DeleteAfter(m.fromId.value, statusId, DELETE_DELAY_MS)] &&
            run.uncaught == transport(DeleteAfter(m.fromId.value, statusId, DELETE_DELAY_MS))
  {
  }

  /** Nothing fails: the transport accepts every action. */
  ghost predicate Reliable(transport: Transport) {
    forall a :: transport(a) == None
  }

  /** The full trace of a link when the resolver answers and nothing fails. */
  lemma ResolvedTrace(m: IncomingMessage, statusId: nat, response: Response, transport: Transport)
    requires m.fromId.Some? && m.text.Some? && ClassifyInput(m.text.value) == TweetLink
    requires Reliable(transport)
    ensures var prefix := [StatusReply(), DeleteAfter(m.fromId.value, statusId, DELETE_DELAY_MS), CallResolver(m.text.value)];
            var actions := Handle(m, statusId, Resolved(response), transport).actions;
            Handle(m, statusId, Resolved(response), transport).uncaught == None &&
            match Dispatched(response)
            case Send(a) => actions == prefix + [a]
            case Nothing => actions == prefix
            case Throw(e) => actions == prefix + [Reply(OtherErrorNotice(e.message), true, Some(m.messageId))]
  {
  }

  /** A video with no variants ends in the "Are you sure" reply naming the failed `.url` read. */
  lemma EmptyVariantsTrace(m: IncomingMessage, statusId: nat, tweet: TweetUser, transport: Transport)
    requires m.fromId.Some? && m.text.Some? && ClassifyInput(m.text.value) == TweetLink
    requires Reliable(transport)
    ensures Handle(m, statusId, Resolved(Response(true, VIDEO_TYPE, Variants([]), tweet)), transport).actions
         == [StatusReply(), DeleteAfter(m.fromId.value, statusId, DELETE_DELAY_MS), CallResolver(m.text.value),
             Reply(OtherErrorNotice(NO_CANDIDATE), true, Some(m.messageId))]
  {
  }

  /** A rejected resolver call is answered by the `catch` block's reply for that error, threaded to the message. */
  lemma RejectedTrace(m: IncomingMessage, statusId: nat, e: Error, transport: Transport)
    requires m.fromId.Some? && m.text.Some? && ClassifyInput(m.text.value) == TweetLink
    requires Reliable(transport)
    ensures var run := Handle(m, statusId, Rejected(e), transport);
            run.uncaught == None &&
            run.actions == [StatusReply(), DeleteAfter(m.fromId.value, statusId, DELETE_DELAY_MS), CallResolver(m.text.value)]
                           + OptionToSeq(HandlerErrorReply(e, m.messageId))
  {
  }

  /**
   * When sending the photo or video fails, the `catch` block classifies that
   * failure: the media action is followed by the classifier's reply, if any.
   */
  lemma FailedSendTrace(m: IncomingMessage, statusId: nat, response: Response, transport: Transport)
    requires m.fromId.Some? && m.text.Some? && ClassifyInput(m.text.value) == TweetLink
    requires transport(StatusReply()) == None
    requires transport(DeleteAfter(m.fromId.value, statusId, DELETE_DELAY_MS)) == None
    requires Dispatched(response).Send? && transport(Dispatched(response).action).Some?
    ensures var a := Dispatched(response).action;
            Handle(m, statusId, Resolved(response), transport).actions
            == [StatusReply(), DeleteAfter(m.fromId.value, statusId, DELETE_DELAY_MS), CallResolver(m.text.value), a]
               + OptionToSeq(HandlerErrorReply(transport(a).value, m.messageId))
  {
  }

  /** A `sendVideo` failure (other than a block) is answered by "Error contacting Twitter", threaded. */
  lemma FailedVideoTrace(m: IncomingMessage, statusId: nat, response: Response, transport: Transport,
                         message: string, description: string)
    requires m.fromId.Some? && m.text.Some? && ClassifyInput(m.text.value) == TweetLink
    requires transport(StatusReply()) == None
    requires transport(DeleteAfter(m.fromId.value, statusId, DELETE_DELAY_MS)) == None
    requires Dispatched(response).Send? && Dispatched(response).action.ReplyVideo?
    requires transport(Dispatched(response).action) == Some(GrammyError(message, description))
    requires Contains(message, SEND_VIDEO_FAILED) && !Contains(message, BLOCKED)
    ensures var actions := Handle(m, statusId, Resolved(response), transport).actions;
            |actions| == 5 && actions[3].ReplyVideo? && actions[4] == Reply(ContactErrorNotice, true, Some(m.messageId))
  {
    FailedSendTrace(m, statusId, response, transport);
  }

  /** Every reply the handler itself sends to the user, other than the status reply, is threaded. */
  lemma RepliesAreThreaded(m: IncomingMessage, statusId: nat, resolution: Resolution, transport: Transport)
    ensures var actions := Handle(m, statusId, resolution, transport).actions;
            forall k :: 0 <= k < |actions| && actions[k].Reply? ==>
              actions[k] == StatusReply() || actions[k].replyTo == Some(m.messageId)
  {
  }

  /** A message without a sender or without text never reaches the decision logic and gets no reply. */
  lemma MissingFieldsGetNoReply(m: IncomingMessage, statusId: nat, resolution: Resolution, transport: Transport)
    requires m.fromId.None? || m.text.None?
    ensures HandleUpdate(m, statusId, resolution, transport) == []
  {
  }

  /**
   * A failed first reply ("Short links…" or "Send a valid Tweet.") is awaited
   * outside the `try`, so it escapes, and `bot.catch` answers it unless the
   * user blocked the bot.
   */
  lemma FailedFirstReplyReachesTopLevel(m: IncomingMessage, statusId: nat, resolution: Resolution, transport: Transport,
                                        reply: Action)
    requires m.fromId.Some? && m.text.Some? && ClassifyInput(m.text.value) != TweetLink
    requires reply == if ClassifyInput(m.text.value) == ShortLink then Reply(ShortLinkNotice, true, Some(m.messageId))
                      else Reply(NotATweetNotice, true, Some(m.messageId))
    requires transport(reply).Some?
    ensures Handle(m, statusId, resolution, transport) == Run([reply], transport(reply))
    ensures HandleUpdate(m, statusId, resolution, transport) == [reply] + OptionToSeq(TopLevelReply(transport(reply).value))
    ensures transport(reply).value.GrammyError? && transport(reply).value.description != BLOCKED ==>
              HandleUpdate(m, statusId, resolution, transport) == [reply, Reply(TopLevelNotice, false, None)]
  {
  }

  /** A failed status reply escapes at once: no deletion, no resolver call, and `bot.catch` classifies it. */
  lemma FailedStatusReplyReachesTopLevel(m: IncomingMessage, statusId: nat, resolution: Resolution, transport: Transport)
    requires m.fromId.Some? && m.text.Some? && ClassifyInput(m.text.value) == TweetLink
    requires transport(StatusReply()).Some?
    ensures Handle(m, statusId, resolution, transport) == Run([StatusReply()], transport(StatusReply()))
    ensures HandleUpdate(m, statusId, resolution, transport)
         == [StatusReply()] + OptionToSeq(TopLevelReply(transport(StatusReply()).value))
  {
  }

  /**
   * The replies of the `catch` block are awaited inside it, so their failure
   * escapes the handler: after a rejected resolver call whose reply fails,
   * `bot.catch` answers unless the user blocked the bot.
   */
  lemma FailedCatchReplyReachesTopLevel(m: IncomingMessage, statusId: nat, e: Error, transport: Transport, reply: Action)
    requires m.fromId.Some? && m.text.Some? && ClassifyInput(m.text.value) == TweetLink
    requires transport(StatusReply()) == None
    requires transport(DeleteAfter(m.fromId.value, statusId, DELETE_DELAY_MS)) == None
    requires HandlerErrorReply(e, m.messageId) == Some(reply) && transport(reply).Some?
    ensures var prefix := [StatusReply(), DeleteAfter(m.fromId.value, statusId, DELETE_DELAY_MS), CallResolver(m.text.value)];
            Handle(m, statusId, Rejected(e), transport) == Run(prefix + [reply], transport(reply)) &&
            HandleUpdate(m, statusId, Rejected(e), transport)
            == prefix + [reply] + OptionToSeq(TopLevelReply(transport(reply).value))
    ensures transport(reply).value.GrammyError? && transport(reply).value.description != BLOCKED ==>
              var actions := HandleUpdate(m, statusId, Rejected(e), transport);
              |actions| == 5 && actions[3] == reply && actions[4] == Reply(TopLevelNotice, false, None)
  {
  }
}

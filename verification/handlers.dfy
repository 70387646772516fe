/** The decisions the two request handlers of app.py take around the retry
    loop: which uploads are turned away before anything is saved, which
    analysis requests are turned away before the model is asked, and what the
    user is told once the loop has answered or given up. */
module Handlers {
  import opened Wrappers
  import Text
  import Keys
  import Controller

  /** The upload request has no `csvFile` form part. */
  const NoFilePartMessage := "No file part"
  /** The `csvFile` part carries an empty file name. */
  const NoSelectedFileMessage := "No selected file"

  /** How an upload request is met before the file is saved: turned away
      with a status and message, or let through with the client's file name. */
  datatype UploadCheck = UploadRejected(status: nat, message: string) | UploadAccepted(filename: string)

  /** The checks at the top of `handle_upload`. `part` is the file name of the
      `csvFile` form part, `None` when the request has no such part. A missing
      part and an empty file name are both rejected with 400, each with its
      own message; anything else goes on to be saved under its name. */
  function CheckUpload(part: Option<string>): (r: UploadCheck)
    ensures r.UploadRejected? <==> part.None? || part.value == ""
    ensures r.UploadRejected? ==> r.status == 400
    ensures r.UploadRejected? ==> (r.message == NoFilePartMessage <==> part.None?)
    ensures r.UploadRejected? ==> (r.message == NoSelectedFileMessage <==> part.Some?)
    ensures r.UploadAccepted? ==> part == Some(r.filename) && r.filename != ""
  {
    match part
    case None => UploadRejected(400, NoFilePartMessage)
    case Some(name) =>
      if name == "" then UploadRejected(400, NoSelectedFileMessage) else UploadAccepted(name)
  }

  const FileNotFoundMessage := "File not found. Please upload a CSV file first."
  const EmptyQueryMessage := "Query cannot be empty."
  // Written as two literals so that the verifier unfolds it character by
  // character, which `UserMessage` needs to tell it from an embedded error.
  const HighDemandMessage := "I'm sorry, the service is experiencing "
                             + "high demand. Please try again in a moment."
  const ErrorPrefix := "I encountered an error: `"
  const ErrorSuffix := "`. Please try asking in a different way."

  /** An `/analyze` request: the path the session remembers from the last
      upload (`None` if there is none) and the `query` field of the JSON body
      (`None` if the body has no such field). */
  datatype AnalyzeRequest = AnalyzeRequest(sessionPath: Option<string>, query: Option<string>)

  /** The query text, with an absent field read as "" (`get('query', '')`). */
  function QueryText(req: AnalyzeRequest): string
  {
    match req.query
    case None => ""
    case Some(q) => q
  }

  /** The request names an uploaded file that still exists among `files`. */
  predicate HasFile(req: AnalyzeRequest, files: set<string>)
  {
    req.sessionPath.Some? && req.sessionPath.value in files
  }

  /** What `analyze_query` returns: a JSON body `{"response": text}` with an
      HTTP status, or nothing at all (the view function returns None). */
  datatype Reply = Reply(status: nat, response: string) | NoView

  /** The checks at the top of `analyze_query`, made before any model call:
      a missing or vanished file is reported first, then an empty query, both
      with 400; a request that passes both yields no reply here. */
  function Precheck(req: AnalyzeRequest, files: set<string>): (r: Option<Reply>)
    ensures r.Some? <==> !HasFile(req, files) || QueryText(req) == ""
    ensures r.Some? ==> r.value.Reply? && r.value.status == 400
    ensures r.Some? ==> (r.value.response == FileNotFoundMessage <==> !HasFile(req, files))
    ensures r.Some? ==> (r.value.response == EmptyQueryMessage <==> HasFile(req, files))
  {
    if !HasFile(req, files) then Some(Reply(400, FileNotFoundMessage))
    else if QueryText(req) == "" then Some(Reply(400, EmptyQueryMessage))
    else None
  }

  /** The message the outer `except` turns an error into: the generic
      high-demand text exactly when the lower-cased error mentions "quota",
      and otherwise the error itself, quoted between a fixed prefix and
      suffix. */
  function UserMessage(err: string): (m: string)
    ensures m == HighDemandMessage <==> Text.Contains(Text.Lower(err), "quota")
    ensures m != HighDemandMessage ==> m == ErrorPrefix + err + ErrorSuffix
  {
    var embedded := ErrorPrefix + err + ErrorSuffix;
    assert embedded[1] == ErrorPrefix[1] == ' ';
    assert HighDemandMessage[1] == '\'';
    if Text.Contains(Text.Lower(err), "quota") then HighDemandMessage else embedded
  }

  /** The raw error can be read back out of a message that embeds it. */
  lemma EmbeddedErrorRecoverable(err: string)
    requires !Text.Contains(Text.Lower(err), "quota")
    ensures var m := UserMessage(err);
            |m| == |ErrorPrefix| + |err| + |ErrorSuffix|
            && m[|ErrorPrefix|..|m| - |ErrorSuffix|] == err
  {
    var m := UserMessage(err);
    assert m == ErrorPrefix + err + ErrorSuffix;
    assert m[|ErrorPrefix|..|m| - |ErrorSuffix|] == err;
  }

  /** The test is case-insensitive: an error that spells "quota" in any mix
      of upper and lower case anywhere gets the generic message. */
  lemma QuotaInAnyCase(err: string, w: string, i: nat)
    requires Text.Lower(w) == "quota"
    requires Text.OccursAt(err, w, i)
    ensures UserMessage(err) == HighDemandMessage
  {
    var lo := Text.Lower(err);
    var u, v := lo[i..i + |w|], Text.Lower(w);
    forall k | 0 <= k < |w| ensures u[k] == v[k] {
      assert u[k] == lo[i + k] == Text.LowerChar(err[i + k]);
      assert err[i + k] == err[i..i + |w|][k] == w[k];
    }
    assert u == v;
    assert Text.OccursAt(lo, "quota", i);
  }

  /** The reply to one `/analyze` request, the number of model calls made and
      the rotor the request leaves behind. */
  datatype Handled = Handled(reply: Reply, attempts: nat, rotor: Keys.Rotor)

  /** What one `/analyze` request does. `files` are the paths that exist on
      disk, `readError` is the exception reading the file and rendering its
      preview raises (`None` when both succeed), `rotor` is the process-wide
      key rotor as the request finds it and `outcomes` are the outcomes of
      the attempts the retry loop may make. */
  function Analyze(req: AnalyzeRequest, files: set<string>, readError: Option<string>,
                   rotor: Keys.Rotor, outcomes: seq<Controller.Outcome>): (h: Handled)
    requires rotor.Valid()
    requires |outcomes| >= Controller.MaxAttempts(|rotor.keys|)
    ensures Precheck(req, files).Some? ==> h == Handled(Precheck(req, files).value, 0, rotor)
    ensures (h.reply.Reply? && h.reply.status == 400) <==> Precheck(req, files).Some?
    ensures h.attempts <= Controller.MaxAttempts(|rotor.keys|)
    ensures h.rotor.Valid() && h.rotor.keys == rotor.keys
    ensures Precheck(req, files).None? && readError.Some? ==>
              h == Handled(Reply(200, UserMessage(readError.value)), 0, rotor)
    ensures Precheck(req, files).None? && readError.None? ==>
              var run := Controller.Control(rotor, outcomes);
              && h.attempts == run.attempts
              && h.rotor == run.rotor
              && (h.reply.NoView? <==> run.verdict.NoResponse?)
              && (run.verdict.Response? ==> h.reply == Reply(200, run.verdict.text))
              && (run.verdict.Escalated? ==> h.reply == Reply(200, UserMessage(run.verdict.msg)))
  {
    match Precheck(req, files)
    case Some(reply) => Handled(reply, 0, rotor)
    case None =>
      match readError
      case Some(e) => Handled(Reply(200, UserMessage(e)), 0, rotor)
      case None =>
        var run := Controller.Control(rotor, outcomes);
        match run.verdict
        case Response(text) => Handled(Reply(200, text), run.attempts, run.rotor)
        case Escalated(msg) => Handled(Reply(200, UserMessage(msg)), run.attempts, run.rotor)
        case NoResponse => Handled(NoView, run.attempts, run.rotor)
  }

  /** An empty query is turned away with 400 before the model is called. */
  lemma EmptyQueryRejected(path: string, files: set<string>, readError: Option<string>,
                           rotor: Keys.Rotor, outcomes: seq<Controller.Outcome>)
    requires rotor.Valid()
    requires |outcomes| >= Controller.MaxAttempts(|rotor.keys|)
    requires path in files
    ensures var h := Analyze(AnalyzeRequest(Some(path), Some("")), files, readError, rotor, outcomes);
            h.reply == Reply(400, EmptyQueryMessage) && h.attempts == 0 && h.rotor == rotor
  {
  }

  /** A request that gets past the checks and meets an exhausted quota on
      every attempt rotates 2N times and tells the user about high demand
      exactly when the last error mentions "quota". */
  lemma QuotaEverywhere(req: AnalyzeRequest, files: set<string>, rotor: Keys.Rotor,
                        outcomes: seq<Controller.Outcome>)
    requires rotor.Valid()
    requires |outcomes| >= Controller.MaxAttempts(|rotor.keys|)
    requires Precheck(req, files).None?
    requires forall i :: 0 <= i < Controller.MaxAttempts(|rotor.keys|) ==> outcomes[i].QuotaExhausted?
    ensures var max := Controller.MaxAttempts(|rotor.keys|);
            var h := Analyze(req, files, None, rotor, outcomes);
            && h.attempts == max
            && h.rotor.next == rotor.next
            && h.reply.Reply?
            && (h.reply.response == HighDemandMessage
                <==> Text.Contains(Text.Lower(outcomes[max - 1].msg), "quota"))
  {
    Controller.AllQuotaExhausted(rotor, outcomes);
  }

  /** A request that gets past the checks and whose first attempt runs code
      printing "42" and a newline is answered "42" after one model call. */
  lemma PrintedAnswer(req: AnalyzeRequest, files: set<string>, rotor: Keys.Rotor,
                      outcomes: seq<Controller.Outcome>)
    requires rotor.Valid()
    requires |outcomes| >= Controller.MaxAttempts(|rotor.keys|)
    requires Precheck(req, files).None?
    requires outcomes[0] == Controller.Success("42\n")
    ensures var h := Analyze(req, files, None, rotor, outcomes);
            h.reply == Reply(200, "42") && h.attempts == 1 && h.rotor == rotor
  {
    assert "42\n" == "" + "42" + "\n";
    assert Text.AllSpace("\n");
    Text.StripOfPadded("", "42", "\n");
  }
}

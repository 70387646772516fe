/** The retry loop of `analyze_query`: up to twice as many attempts as there
    are API keys, each of which asks the model for code and runs it. What an
    attempt does is abstracted into an `Outcome`; the loop reacts to it by
    answering, rotating the key and retrying, retrying without rotation, or
    giving up and raising the error to the handler's outer `except`. */
module Controller {
  import Text
  import Keys

  /** What one attempt (generate code, execute it, capture stdout) ends in. */
  datatype Outcome =
    | Success(output: string)       // the code ran; `output` is what it printed
    | QuotaExhausted(msg: string)   // the API raised ResourceExhausted
    | RateLimited(msg: string)      // the API raised FailedPrecondition
    | OtherError(msg: string)       // any other `Exception`, from the API or the code

  /** How the loop ends: with an answer, by re-raising an error to the outer
      handler, or by running out of attempts without returning. */
  datatype Verdict = Response(text: string) | Escalated(msg: string) | NoResponse

  /** The verdict, the number of attempts made, the number of key rotations
      and the rotor as the loop leaves it. */
  datatype Run = Run(verdict: Verdict, attempts: nat, rotations: nat, rotor: Keys.Rotor)

  /** The answer sent when the generated code printed nothing. */
  const NoOutputMessage := "Code executed but produced no output."

  /** The attempt budget for a pool of `poolSize` keys. */
  function MaxAttempts(poolSize: nat): nat
  {
    2 * poolSize
  }

  /** The answer for captured output: the output stripped of surrounding
      white space, or the no-output sentinel when nothing else is left. The
      answer is never empty. */
  function AnswerText(output: string): (r: string)
    ensures r != ""
    ensures Text.AllSpace(output) ==> r == NoOutputMessage
    ensures !Text.AllSpace(output) ==> r == Text.Strip(output) && Text.Trimmed(r)
  {
    var a := Text.Strip(output);
    if a == "" then NoOutputMessage else a
  }

  /** Number of QuotaExhausted outcomes in `os`. */
  function CountQuota(os: seq<Outcome>): (n: nat)
    ensures n <= |os|
  {
    if |os| == 0 then 0
    else (if os[0].QuotaExhausted? then 1 else 0) + CountQuota(os[1..])
  }

  /** The loop from attempt number `attempt` on, with `rotations` rotations
      made so far and the key rotor in state `rotor`.
      The loop stops at the first Success, at the first OtherError, at a
      QuotaExhausted on the very last attempt, or when the attempts run out;
      it makes at most `max` attempts in all; every QuotaExhausted it consumes
      rotates the key once and nothing else rotates it. */
  function Drive(rotor: Keys.Rotor, outcomes: seq<Outcome>, attempt: nat, max: nat,
                 rotations: nat): (res: Run)
    requires rotor.Valid()
    requires attempt <= max <= |outcomes|
    ensures attempt <= res.attempts <= max
    ensures res.verdict.NoResponse? ==> res.attempts == max
    ensures !res.verdict.NoResponse? ==> attempt < res.attempts
    ensures res.rotations == rotations + CountQuota(outcomes[attempt..res.attempts])
    ensures res.rotor == Keys.Advance(rotor, res.rotations - rotations)
    decreases max - attempt
  {
    if attempt == max then
      Run(NoResponse, attempt, rotations, rotor)
    else
      assert outcomes[attempt..attempt + 1] == [outcomes[attempt]];
      match outcomes[attempt]
      case Success(out) =>
        Run(Response(AnswerText(out)), attempt + 1, rotations, rotor)
      case QuotaExhausted(msg) =>
        var next := Keys.Configure(rotor).1;
        if attempt == max - 1 then
          Run(Escalated(msg), attempt + 1, rotations + 1, next)
        else
          var res := Drive(next, outcomes, attempt + 1, max, rotations + 1);
          CountQuotaSplit(outcomes, attempt, res.attempts);
          res
      case RateLimited(_) =>
        var res := Drive(rotor, outcomes, attempt + 1, max, rotations);
        CountQuotaSplit(outcomes, attempt, res.attempts);
        res
      case OtherError(msg) =>
        Run(Escalated(msg), attempt + 1, rotations, rotor)
  }

  /** Counting from `a` is counting outcome `a`, then counting from `a + 1`. */
  lemma CountQuotaSplit(os: seq<Outcome>, a: nat, b: nat)
    requires a < b <= |os|
    ensures CountQuota(os[a..b]) == (if os[a].QuotaExhausted? then 1 else 0) + CountQuota(os[a + 1..b])
  {
    assert os[a..b][1..] == os[a + 1..b];
  }

  /** The whole loop of one request, on the rotor as the request finds it.
      The outcome sequence supplies one outcome per possible attempt. */
  function Control(rotor: Keys.Rotor, outcomes: seq<Outcome>): (res: Run)
    requires rotor.Valid()
    requires |outcomes| >= MaxAttempts(|rotor.keys|)
    ensures res.attempts <= MaxAttempts(|rotor.keys|)
    ensures res.rotations == CountQuota(outcomes[..res.attempts])
    ensures res.rotor.keys == rotor.keys && res.rotor.Valid()
  {
    var res := Drive(rotor, outcomes, 0, MaxAttempts(|rotor.keys|), 0);
    assert outcomes[0..res.attempts] == outcomes[..res.attempts];
    res
  }

  /** Whether the loop stops at attempt `i` of `max` on outcome `o`. */
  predicate Stops(o: Outcome, i: nat, max: nat)
  {
    || o.Success?
    || o.OtherError?
    || (o.QuotaExhausted? && i == max - 1)
  }

  /** The verdict of the attempt the loop stops at. */
  function Settle(o: Outcome): Verdict
    requires !o.RateLimited?
  {
    match o
    case Success(out) => Response(AnswerText(out))
    case QuotaExhausted(msg) => Escalated(msg)
    case OtherError(msg) => Escalated(msg)
  }

  /** One attempt that does not stop the loop hands over to the next
      attempt, after a rotation exactly when it hit an exhausted quota. */
  lemma DriveContinues(rotor: Keys.Rotor, outcomes: seq<Outcome>,
                       attempt: nat, max: nat, rotations: nat)
    requires rotor.Valid()
    requires attempt < max <= |outcomes|
    requires !Stops(outcomes[attempt], attempt, max)
    ensures var o := outcomes[attempt];
            Drive(rotor, outcomes, attempt, max, rotations)
            == if o.QuotaExhausted?
               then Drive(Keys.Configure(rotor).1, outcomes, attempt + 1, max, rotations + 1)
               else Drive(rotor, outcomes, attempt + 1, max, rotations)
  {
  }

  /** The loop, described without recursion (first half): if no attempt from
      `attempt` on stops it, it makes all `max` attempts and returns nothing. */
  lemma {:induction false} DriveNeverStops(rotor: Keys.Rotor, outcomes: seq<Outcome>,
                                           attempt: nat, max: nat, rotations: nat)
    requires rotor.Valid()
    requires attempt <= max <= |outcomes|
    requires forall i :: attempt <= i < max ==> !Stops(outcomes[i], i, max)
    ensures var res := Drive(rotor, outcomes, attempt, max, rotations);
            res.verdict == NoResponse && res.attempts == max
    decreases max - attempt
  {
    if attempt < max {
      DriveContinues(rotor, outcomes, attempt, max, rotations);
      if outcomes[attempt].QuotaExhausted? {
        DriveNeverStops(Keys.Configure(rotor).1, outcomes, attempt + 1, max, rotations + 1);
      } else {
        DriveNeverStops(rotor, outcomes, attempt + 1, max, rotations);
      }
    }
  }

  /** The loop, described without recursion (second half): it ends right
      after the first attempt `i` that stops it, with that attempt's verdict. */
  lemma {:induction false} DriveStopsAt(rotor: Keys.Rotor, outcomes: seq<Outcome>,
                                        attempt: nat, max: nat, rotations: nat, i: nat)
    requires rotor.Valid()
    requires attempt <= i < max <= |outcomes|
    requires Stops(outcomes[i], i, max)
    requires forall j :: attempt <= j < i ==> !Stops(outcomes[j], j, max)
    ensures var res := Drive(rotor, outcomes, attempt, max, rotations);
            res.attempts == i + 1 && res.verdict == Settle(outcomes[i])
    decreases i - attempt
  {
    if attempt < i {
      DriveContinues(rotor, outcomes, attempt, max, rotations);
      if outcomes[attempt].QuotaExhausted? {
        DriveStopsAt(Keys.Configure(rotor).1, outcomes, attempt + 1, max, rotations + 1, i);
      } else {
        DriveStopsAt(rotor, outcomes, attempt + 1, max, rotations, i);
      }
    }
  }

  /** The loop's verdict and attempt count, stated against the first attempt
      that stops it: NoResponse exactly when no attempt stops it. */
  lemma ControlByFirstStop(rotor: Keys.Rotor, outcomes: seq<Outcome>)
    requires rotor.Valid()
    requires |outcomes| >= MaxAttempts(|rotor.keys|)
    ensures var max, res := MaxAttempts(|rotor.keys|), Control(rotor, outcomes);
            res.verdict == NoResponse <==> forall i :: 0 <= i < max ==> !Stops(outcomes[i], i, max)
    ensures var max, res := MaxAttempts(|rotor.keys|), Control(rotor, outcomes);
            forall i :: 0 <= i < max && Stops(outcomes[i], i, max)
                        && (forall j :: 0 <= j < i ==> !Stops(outcomes[j], j, max)) ==>
              res.attempts == i + 1 && res.verdict == Settle(outcomes[i])
  {
    var max := MaxAttempts(|rotor.keys|);
    var res := Control(rotor, outcomes);
    forall i | 0 <= i < max && Stops(outcomes[i], i, max)
               && (forall j :: 0 <= j < i ==> !Stops(outcomes[j], j, max))
      ensures res.attempts == i + 1 && res.verdict == Settle(outcomes[i])
    {
      DriveStopsAt(rotor, outcomes, 0, max, 0, i);
    }
    if exists i :: 0 <= i < max && Stops(outcomes[i], i, max) {
      var i := FirstStop(outcomes, max);
      DriveStopsAt(rotor, outcomes, 0, max, 0, i);
    } else {
      DriveNeverStops(rotor, outcomes, 0, max, 0);
    }
  }

  /** The first attempt that stops a loop of `max` attempts, when one does. */
  function FirstStop(outcomes: seq<Outcome>, max: nat): (i: nat)
    requires max <= |outcomes|
    requires exists i :: 0 <= i < max && Stops(outcomes[i], i, max)
    ensures i < max && Stops(outcomes[i], i, max)
    ensures forall j :: 0 <= j < i ==> !Stops(outcomes[j], j, max)
  {
    FirstStopFrom(outcomes, max, 0)
  }

  function FirstStopFrom(outcomes: seq<Outcome>, max: nat, from: nat): (i: nat)
    requires from <= max <= |outcomes|
    requires exists i :: from <= i < max && Stops(outcomes[i], i, max)
    ensures from <= i < max && Stops(outcomes[i], i, max)
    ensures forall j :: from <= j < i ==> !Stops(outcomes[j], j, max)
    decreases max - from
  {
    if Stops(outcomes[from], from, max) then from else FirstStopFrom(outcomes, max, from + 1)
  }

  /** The rotor a request leaves behind has moved on by exactly one key per
      QuotaExhausted the loop consumed. */
  lemma ControlCursor(rotor: Keys.Rotor, outcomes: seq<Outcome>)
    requires rotor.Valid()
    requires |outcomes| >= MaxAttempts(|rotor.keys|)
    ensures var res := Control(rotor, outcomes);
            res.rotor.next == Keys.Slot(rotor.next, res.rotations, |rotor.keys|)
  {
    var res := Drive(rotor, outcomes, 0, MaxAttempts(|rotor.keys|), 0);
    Keys.AdvanceAt(rotor, res.rotations);
  }

  /** Rate limits alone never rotate the key: when every attempt is rate
      limited the loop uses up all attempts, returns nothing and leaves the
      rotor as it was. */
  lemma AllRateLimited(rotor: Keys.Rotor, outcomes: seq<Outcome>)
    requires rotor.Valid()
    requires |outcomes| >= MaxAttempts(|rotor.keys|)
    requires forall i :: 0 <= i < MaxAttempts(|rotor.keys|) ==> outcomes[i].RateLimited?
    ensures var res := Control(rotor, outcomes);
            && res.verdict == NoResponse
            && res.attempts == MaxAttempts(|rotor.keys|)
            && res.rotations == 0
            && res.rotor == rotor
  {
    var max := MaxAttempts(|rotor.keys|);
    ControlByFirstStop(rotor, outcomes);
    NoQuotaCount(outcomes[..max]);
  }

  lemma {:induction false} NoQuotaCount(os: seq<Outcome>)
    requires forall i :: 0 <= i < |os| ==> !os[i].QuotaExhausted?
    ensures CountQuota(os) == 0
  {
    if |os| > 0 {
      NoQuotaCount(os[1..]);
    }
  }

  /** When every attempt hits an exhausted quota the loop rotates on every
      attempt, 2N times in all, which brings the cursor back to where it
      started, and the last attempt's error is re-raised. */
  lemma AllQuotaExhausted(rotor: Keys.Rotor, outcomes: seq<Outcome>)
    requires rotor.Valid()
    requires |outcomes| >= MaxAttempts(|rotor.keys|)
    requires forall i :: 0 <= i < MaxAttempts(|rotor.keys|) ==> outcomes[i].QuotaExhausted?
    ensures var max, res := MaxAttempts(|rotor.keys|), Control(rotor, outcomes);
            && res.verdict == Escalated(outcomes[max - 1].msg)
            && res.attempts == max
            && res.rotations == max
            && res.rotor.next == rotor.next
  {
    var n := |rotor.keys|;
    var max := MaxAttempts(n);
    ControlByFirstStop(rotor, outcomes);
    assert Stops(outcomes[max - 1], max - 1, max);
    assert FirstStop(outcomes, max) == max - 1;
    AllQuotaCount(outcomes[..max]);
    ControlCursor(rotor, outcomes);
    Keys.ModUnique(rotor.next + 2 * n, 2, rotor.next, n);
  }

  lemma {:induction false} AllQuotaCount(os: seq<Outcome>)
    requires forall i :: 0 <= i < |os| ==> os[i].QuotaExhausted?
    ensures CountQuota(os) == |os|
  {
    if |os| > 0 {
      AllQuotaCount(os[1..]);
    }
  }

  /** Any other error is not retried: on the first attempt it is re-raised
      at once, with no rotation. */
  lemma OtherErrorNotRetried(rotor: Keys.Rotor, outcomes: seq<Outcome>)
    requires rotor.Valid()
    requires |outcomes| >= MaxAttempts(|rotor.keys|)
    requires outcomes[0].OtherError?
    ensures var res := Control(rotor, outcomes);
            res == Run(Escalated(outcomes[0].msg), 1, 0, rotor)
  {
  }

  /** The loop as app.py writes it, a `for attempt in range(max_retries)`
      whose body returns, re-raises or falls through to the next attempt. */
  method RunAttempts(rotor: Keys.Rotor, outcomes: seq<Outcome>) returns (run: Run)
    requires rotor.Valid()
    requires |outcomes| >= MaxAttempts(|rotor.keys|)
    ensures run == Control(rotor, outcomes)
  {
    var max := MaxAttempts(|rotor.keys|);
    var cur := rotor;
    var rotations := 0;
    var attempt := 0;
    while attempt < max
      invariant attempt <= max
      invariant cur.Valid()
      invariant Drive(cur, outcomes, attempt, max, rotations) == Control(rotor, outcomes)
      decreases max - attempt
    {
      match outcomes[attempt] {
        case Success(out) =>
          return Run(Response(AnswerText(out)), attempt + 1, rotations, cur);
        case QuotaExhausted(msg) =>
          cur := Keys.Configure(cur).1;
          rotations := rotations + 1;
          if attempt == max - 1 {
            return Run(Escalated(msg), attempt + 1, rotations, cur);
          }
        case RateLimited(_) =>
        case OtherError(msg) =>
          return Run(Escalated(msg), attempt + 1, rotations, cur);
      }
      attempt := attempt + 1;
    }
    run := Run(NoResponse, attempt, rotations, cur);
  }
}

/** The API-key pool of app.py: the comma-separated GOOGLE_API_KEYS variable
    read once at startup, and the round-robin rotor (`itertools.cycle`) that
    each `configure_gemini()` call advances by one key. */
module Keys {
  import opened Wrappers
  import Text

  /** What startup fails with when the variable is unset or empty. */
  const KeysUnsetMessage := "GOOGLE_API_KEYS is not set in the .env file."

  /** Parses the variable into the key pool: the comma-separated pieces,
      each stripped of surrounding white space, in order, empty pieces kept.
      An unset or empty variable is a startup failure; any other value gives
      a pool of one key more than it has commas. */
  function ParseKeys(env: Option<string>): (r: Result<seq<string>, string>)
    ensures r.Failure? <==> env.None? || env.value == ""
    ensures r.Failure? ==> r.error == KeysUnsetMessage
    ensures r.Success? ==> |r.value| == Text.Count(env.value, ',') + 1
    ensures r.Success? ==> forall i :: 0 <= i < |r.value| ==>
              ',' !in r.value[i] && Text.Trimmed(r.value[i])
    ensures r.Success? ==> forall i :: 0 <= i < |r.value| ==>
              r.value[i] == Text.Strip(Text.Split(env.value, ',')[i])
  {
    match env
    case None => Failure(KeysUnsetMessage)
    case Some(s) =>
      if s == "" then Failure(KeysUnsetMessage)
      else
        var pieces := Text.Split(s, ',');
        Success(StripAll(pieces))
  }

  /** Strips every piece, keeping order and empty pieces; a piece without a
      comma stays without one. */
  function StripAll(pieces: seq<string>): (keys: seq<string>)
    ensures |keys| == |pieces|
    ensures forall i :: 0 <= i < |pieces| ==> keys[i] == Text.Strip(pieces[i])
    ensures forall i :: 0 <= i < |pieces| ==> ',' !in pieces[i] ==> ',' !in keys[i]
  {
    if |pieces| == 0 then []
    else
      Text.StripKeepsOnly(pieces[0]);
      [Text.Strip(pieces[0])] + StripAll(pieces[1..])
  }

  /** The cyclic iterator over the key pool: `next` is the position of the
      key the next `configure_gemini()` call will hand to the client. */
  datatype Rotor = Rotor(keys: seq<string>, next: nat) {
    /** The pool is non-empty and the cursor points into it. */
    predicate Valid()
    {
      |keys| > 0 && next < |keys|
    }
  }

  /** A rotor over `keys` that has not been advanced yet (`cycle(API_KEYS)`). */
  function Fresh(keys: seq<string>): (r: Rotor)
    requires |keys| > 0
    ensures r.Valid() && r.keys == keys && r.next == 0
  {
    Rotor(keys, 0)
  }

  /** One `configure_gemini()` call: returns the key the client is switched
      to and the advanced rotor. The key is the one under the cursor; the
      pool is untouched and the cursor moves one place forward, wrapping from
      the last key back to the first. */
  function Configure(r: Rotor): (res: (string, Rotor))
    requires r.Valid()
    ensures res.1.Valid() && res.1.keys == r.keys
    ensures res.0 == r.keys[r.next]
    ensures r.next + 1 < |r.keys| ==> res.1.next == r.next + 1
    ensures r.next + 1 == |r.keys| ==> res.1.next == 0
  {
    (r.keys[r.next], Rotor(r.keys, if r.next + 1 == |r.keys| then 0 else r.next + 1))
  }

  /** The keys configured by `k` successive calls, in call order. */
  function Calls(r: Rotor, k: nat): (ks: seq<string>)
    requires r.Valid()
    ensures |ks| == k
    decreases k
  {
    if k == 0 then [] else [Configure(r).0] + Calls(Configure(r).1, k - 1)
  }

  /** The cursor positions `k` successive calls read their keys from. */
  function Cursors(r: Rotor, k: nat): (ps: seq<nat>)
    requires r.Valid()
    ensures |ps| == k
    decreases k
  {
    if k == 0 then [] else [r.next] + Cursors(Configure(r).1, k - 1)
  }

  /** The rotor after `k` successive calls. */
  function Advance(r: Rotor, k: nat): (r': Rotor)
    requires r.Valid()
    ensures r'.Valid() && r'.keys == r.keys
    decreases k
  {
    if k == 0 then r else Advance(Configure(r).1, k - 1)
  }

  /** Where the cursor stands after `k` calls made from position `start`
      in a pool of `n` keys. */
  function Slot(start: nat, k: nat, n: nat): nat
    requires n > 0
  {
    (start + k) % n
  }

  /** Round robin: call number `j` (from 0) made on rotor `r` configures the
      key at position `(r.next + j) mod N`, and after `k` calls the cursor
      stands at `(r.next + k) mod N`. */
  lemma {:induction false} RoundRobin(r: Rotor, k: nat)
    requires r.Valid()
    ensures forall j :: 0 <= j < k ==> Calls(r, k)[j] == r.keys[Slot(r.next, j, |r.keys|)]
    ensures Advance(r, k).next == Slot(r.next, k, |r.keys|)
    decreases k
  {
    forall j | 0 <= j < k
      ensures Calls(r, k)[j] == r.keys[Slot(r.next, j, |r.keys|)]
    {
      CallAt(r, k, j);
    }
    AdvanceAt(r, k);
  }

  /** The key configured by call `j` of `k`. */
  lemma {:induction false} CallAt(r: Rotor, k: nat, j: nat)
    requires r.Valid() && j < k
    ensures Calls(r, k)[j] == r.keys[Slot(r.next, j, |r.keys|)]
    decreases j
  {
    var r1 := Configure(r).1;
    SlotStep(r.next, 0, |r.keys|);
    if j > 0 {
      assert Calls(r, k)[j] == Calls(r1, k - 1)[j - 1];
      CallAt(r1, k - 1, j - 1);
      SlotStep(r.next, j - 1, |r.keys|);
    } else {
      ModUnique(r.next, 0, r.next, |r.keys|);
    }
  }

  /** The position read by call `j` of `k`. */
  lemma {:induction false} CursorAt(r: Rotor, k: nat, j: nat)
    requires r.Valid() && j < k
    ensures Cursors(r, k)[j] == Slot(r.next, j, |r.keys|)
    decreases j
  {
    var r1 := Configure(r).1;
    SlotStep(r.next, 0, |r.keys|);
    if j > 0 {
      assert Cursors(r, k)[j] == Cursors(r1, k - 1)[j - 1];
      CursorAt(r1, k - 1, j - 1);
      SlotStep(r.next, j - 1, |r.keys|);
    } else {
      ModUnique(r.next, 0, r.next, |r.keys|);
    }
  }

  /** One full turn of the rotor: N successive calls read every position of
      the pool exactly once, leave the rotor exactly as they found it, and
      call N+1 hands out the same key as the first. */
  lemma FullCycle(r: Rotor)
    requires r.Valid()
    ensures var n, ps := |r.keys|, Cursors(r, |r.keys|);
            && (forall p :: 0 <= p < n ==> p in ps)
            && (forall i, j :: 0 <= i < j < n ==> ps[i] != ps[j])
    ensures Advance(r, |r.keys|) == r
    ensures Calls(r, |r.keys| + 1)[|r.keys|] == Calls(r, |r.keys| + 1)[0]
  {
    var n, ps := |r.keys|, Cursors(r, |r.keys|);
    SlotsOfOneTurn(r.next, n);
    forall j | 0 <= j < n ensures ps[j] == Slot(r.next, j, n) {
      CursorAt(r, n, j);
    }
    forall p | 0 <= p < n ensures p in ps {
      assert ps[Offset(r.next, p, n)] == p;
    }
    AdvanceAt(r, n);
    RoundRobin(r, n + 1);
  }

  /** The cursor after `k` calls. */
  lemma {:induction false} AdvanceAt(r: Rotor, k: nat)
    requires r.Valid()
    ensures Advance(r, k).next == Slot(r.next, k, |r.keys|)
    decreases k
  {
    if k > 0 {
      AdvanceAt(Configure(r).1, k - 1);
      SlotStep(r.next, k - 1, |r.keys|);
    } else {
      ModUnique(r.next, 0, r.next, |r.keys|);
    }
  }

  /** Starting one place further on is the same as taking one step more. */
  lemma SlotStep(start: nat, k: nat, n: nat)
    requires n > 0 && start < n
    ensures Slot(start, 1, n) == if start + 1 == n then 0 else start + 1
    ensures Slot(Slot(start, 1, n), k, n) == Slot(start, k + 1, n)
  {
    if start + 1 == n {
      ModUnique(start + 1, 1, 0, n);
      ModShiftByModulus(k, n);
    } else {
      ModUnique(start + 1, 0, start + 1, n);
    }
  }

  /** Adding the modulus does not change a remainder. */
  lemma ModShiftByModulus(k: nat, n: nat)
    requires n > 0
    ensures (n + k) % n == k % n
  {
    var q := k / n;
    assert k == q * n + k % n;
    assert n + k == (q + 1) * n + k % n;
    ModUnique(n + k, q + 1, k % n, n);
  }

  /** The remainder is the unique `r` in `[0, n)` with `x == q * n + r`. */
  lemma ModUnique(x: int, q: int, r: int, n: int)
    requires n > 0 && 0 <= r < n && x == q * n + r
    ensures x % n == r
  {
    var q', r' := x / n, x % n;
    assert x == q' * n + r';
    assert (q - q') * n == r' - r;
    MulMonotone(q - q', n);
  }

  lemma MulMonotone(d: int, n: int)
    requires n > 0
    ensures d >= 1 ==> d * n >= n
    ensures d <= -1 ==> d * n <= -n
  {
    if d >= 1 {
      assert d * n == (d - 1) * n + n;
    } else if d <= -1 {
      assert d * n == (d + 1) * n - n;
    }
  }

  /** The number of calls, counted from `start`, after which the cursor
      stands on position `p`. */
  function Offset(start: nat, p: nat, n: nat): nat
    requires start < n && p < n
  {
    if p >= start then p - start else p + n - start
  }

  /** The arithmetic of one turn: starting from `start`, the slots of the
      next `n` calls hit position `p` after `Offset` calls and no position
      twice, and slot `n` is slot 0 again. */
  lemma {:induction false} SlotsOfOneTurn(start: nat, n: nat)
    requires n > 0 && start < n
    ensures forall p :: 0 <= p < n ==>
              Offset(start, p, n) < n && Slot(start, Offset(start, p, n), n) == p
    ensures forall i, j :: 0 <= i < j < n ==> Slot(start, i, n) != Slot(start, j, n)
    ensures Slot(start, n, n) == Slot(start, 0, n)
  {
    forall j | 0 <= j < n
      ensures Slot(start, j, n) == if start + j < n then start + j else start + j - n
    {
      SlotWithinTurn(start, j, n);
    }
    ModShiftByModulus(start, n);
    ModUnique(start, 0, start, n);
  }

  /** Within one turn the wrap-around is a single subtraction. */
  lemma SlotWithinTurn(start: nat, j: nat, n: nat)
    requires start < n && j < n
    ensures Slot(start, j, n) == if start + j < n then start + j else start + j - n
  {
    if start + j < n {
      ModUnique(start + j, 0, start + j, n);
    } else {
      ModUnique(start + j, 1, start + j - n, n);
    }
  }

  /** The process start: parse the variable, build the rotor and make the
      first `configure_gemini()` call. On success the client holds the first
      key of the pool and the cursor stands on the second (on the first again
      when the pool has a single key). */
  function Startup(env: Option<string>): (res: Result<(string, Rotor), string>)
    ensures res.Failure? <==> ParseKeys(env).Failure?
    ensures res.Failure? ==> res.error == KeysUnsetMessage
    ensures res.Success? ==>
              && ParseKeys(env).Success?
              && res.value.1.Valid()
              && res.value.1.keys == ParseKeys(env).value
              && res.value.0 == res.value.1.keys[0]
              && (|res.value.1.keys| > 1 ==> res.value.1.next == 1)
              && (|res.value.1.keys| == 1 ==> res.value.1.next == 0)
  {
    match ParseKeys(env)
    case Failure(e) => Failure(e)
    case Success(keys) =>
      assert |keys| >= 1;
      Success(Configure(Fresh(keys)))
  }

  /** Counting the startup call as call number 1, call number `m` configures
      the key at position `(m - 1) mod N`. */
  lemma StartupRoundRobin(env: Option<string>, k: nat)
    requires Startup(env).Success?
    ensures var (first, r) := Startup(env).value;
            && first == r.keys[0]
            && forall j :: 0 <= j < k ==> Calls(r, k)[j] == r.keys[(j + 1) % |r.keys|]
  {
    var (first, r) := Startup(env).value;
    RoundRobin(r, k);
    SlotStep(0, 0, |r.keys|);
    assert r.next == Slot(0, 1, |r.keys|);
    forall j | 0 <= j < k
      ensures Calls(r, k)[j] == r.keys[(j + 1) % |r.keys|]
    {
      SlotStep(0, j, |r.keys|);
    }
  }

  /** Splitting always yields at least one piece, so a set variable never
      gives an empty pool: a value of white space alone passes the startup
      check and gives a pool with one empty key. */
  lemma BlankVariableGivesOneEmptyKey(s: string)
    requires s != "" && Text.AllSpace(s)
    ensures ParseKeys(Some(s)) == Success([""])
  {
    forall k | 0 <= k < |s| ensures s[k] != ',' {
      assert Text.IsSpace(s[k]);
    }
    Text.SplitWithoutSeparator(s, ',');
    assert StripAll([s]) == [""];
  }
}

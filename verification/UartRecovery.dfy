/** Baud recovery: a session that remembers every rate the device may be at, and the cleanup that
    brings it back to the default; and one rate switch over a link that loses acks. */
module UartRecovery {
  import opened Results

  /** What a failing step raises: an ordinary error, or an interrupt that no handler of ordinary
      errors catches. */
  datatype Error = Ordinary(id: nat) | Interrupt(id: nat) | RestorationFailed

  /** One rate step: confirmed at its destination, or failed with the device moved there or not. */
  datatype Outcome = Confirmed | Failed(error: Error, moved: bool)

  /** What the line does: any function of the call's number, the device's rate and the step. */
  type Fate = (nat, nat, nat, nat) -> Outcome

  /** Where a step leaves the device. */
  function Moves(o: Outcome, device: nat, after: nat): nat {
    if o.Confirmed? || o.moved then after else device
  }

  /** The first occurrence of each value, in order. */
  function Dedupe(s: seq<nat>): (d: seq<nat>)
    ensures forall x :: x in d <==> x in s
    ensures forall i, j :: 0 <= i < j < |d| ==> d[i] != d[j]
    ensures |d| <= |s|
  {
    if s == [] then [] else
      var front := Dedupe(s[..|s| - 1]);
      var last := s[|s| - 1];
      assert s == s[..|s| - 1] + [last];
      if last in front then front else front + [last]
  }

  /** One rate step as it happened: its endpoints, the candidates in force while it ran, the
      device's rate before and after it, and whether it was confirmed. */
  datatype Call = Call(before: nat, after: nat, candidates: seq<nat>, from: nat, to: nat, confirmed: bool)

  datatype Session = Session(device: nat, candidates: seq<nat>, log: seq<Call>)

  /** A rate step from a state. */
  function Tried(fate: Fate, s: Session, before: nat, after: nat): Outcome {
    fate(|s.log|, s.device, before, after)
  }

  /** What a rate step does to a state: the device may move, and the step is logged. */
  function Rated(fate: Fate, s: Session, before: nat, after: nat): Session {
    var o := Tried(fate, s, before, after);
    var to := Moves(o, s.device, after);
    Session(to, s.candidates, s.log + [Call(before, after, s.candidates, s.device, to, o.Confirmed?)])
  }

  /** A switch: both endpoints become candidates before the attempt, and the destination alone
      after a confirmed one. */
  function Switched(fate: Fate, s: Session, before: nat, after: nat): Session {
    var trying := s.(candidates := Dedupe([after, before] + s.candidates));
    var rated := Rated(fate, trying, before, after);
    if Tried(fate, trying, before, after).Confirmed? then rated.(candidates := [after]) else rated
  }

  /** A switch the body asks for, and whether the body handles its failure. */
  datatype Step = Step(before: nat, after: nat, handled: bool)

  /** The body of a session: its switches, then a normal end or an error of its own. An unhandled
      failure of a switch ends it there. */
  function Body(fate: Fate, s: Session, steps: seq<Step>, ending: Option<Error>): (Session, Option<Error>)
    decreases |steps|
  {
    if steps == [] then (s, ending) else
      var step := steps[0];
      var o := Tried(fate, s, step.before, step.after);
      var next := Switched(fate, s, step.before, step.after);
      if o.Failed? && !step.handled then (next, Some(o.error)) else Body(fate, next, steps[1..], ending)
  }

  datatype Recovery = Restored | Exhausted | Stopped(error: Error)

  /** The cleanup: from each candidate in turn to the default, until one step is confirmed or an
      interrupt breaks it off. The candidates themselves are not rewritten. */
  function Recover(fate: Fate, s: Session, untried: seq<nat>, default: nat): (Session, Recovery)
    decreases |untried|
  {
    if untried == [] then (s, Exhausted) else
      var o := Tried(fate, s, untried[0], default);
      var next := Rated(fate, s, untried[0], default);
      if o.Confirmed? then (next, Restored)
      else if o.error.Interrupt? then (next, Stopped(o.error))
      else Recover(fate, next, untried[1..], default)
  }

  /** What leaves the session. The error the cleanup finds is the body's own or, after a normal body,
      the `ambient` one: an exception being handled around the session. When the candidates are
      exhausted it raises only if it finds neither. */
  function Final(own: Option<Error>, ambient: Option<Error>, recovery: Recovery): Option<Error> {
    match recovery
    case Restored => own
    case Exhausted => if own.None? && ambient.None? then Some(RestorationFailed) else own
    case Stopped(e) => Some(e)
  }

  // ---- The manager ----

  class Manager {
    const fate: Fate
    const default: nat
    var device: nat
    var candidates: seq<nat>
    var log: seq<Call>

    constructor (fate: Fate, default: nat)
      ensures this.fate == fate && this.default == default
      ensures device == default && candidates == [default] && log == []
    {
      this.fate, this.default := fate, default;
      device, candidates, log := default, [default], [];
    }

    function State(): Session
      reads this
    {
      Session(device, candidates, log)
    }

    method Rate(before: nat, after: nat) returns (o: Outcome)
      modifies this`device, this`log
      ensures o == Tried(fate, old(State()), before, after)
      ensures State() == Rated(fate, old(State()), before, after)
    {
      o := fate(|log|, device, before, after);
      var from := device;
      device := Moves(o, device, after);
      log := log + [Call(before, after, candidates, from, device, o.Confirmed?)];
    }

    method Switch(before: nat, after: nat) returns (error: Option<Error>)
      modifies this
      ensures State() == Switched(fate, old(State()), before, after)
      ensures var o := Tried(fate, old(State()), before, after);
        error == if o.Failed? then Some(o.error) else None
    {
      candidates := Dedupe([after, before] + candidates);
      var o := Rate(before, after);
      if o.Failed? {
        return Some(o.error);
      }
      candidates := [after];
      error := None;
    }

    method RunBody(steps: seq<Step>, ending: Option<Error>) returns (own: Option<Error>)
      modifies this
      ensures (State(), own) == Body(fate, old(State()), steps, ending)
    {
      hide Switched, Tried;
      var k := 0;
      while k < |steps|
        invariant k <= |steps|
        invariant Body(fate, State(), steps[k..], ending) == Body(fate, old(State()), steps, ending)
      {
        var error := Switch(steps[k].before, steps[k].after);
        assert steps[k..][1..] == steps[k + 1..];
        if error.Some? && !steps[k].handled {
          return error;
        }
        k := k + 1;
      }
      own := ending;
    }

    /** The whole session: the body, then the cleanup however the body ended. */
    method WithRestoring(steps: seq<Step>, ending: Option<Error>, ambient: Option<Error>) returns (final: Option<Error>)
      modifies this
      ensures var body := Body(fate, old(State()), steps, ending);
        var cleanup := Recover(fate, body.0, body.0.candidates, default);
        State() == cleanup.0 && final == Final(body.1, ambient, cleanup.1)
    {
      hide Body, Rated, Tried;
      var own := RunBody(steps, ending);
      ghost var start := State();
      var original := if own.Some? then own else ambient;
      var i := 0;
      while i < |candidates|
        invariant i <= |candidates| && candidates == start.candidates
        invariant Recover(fate, State(), candidates[i..], default) == Recover(fate, start, start.candidates, default)
        decreases |candidates| - i
      {
        var o := Rate(candidates[i], default);
        assert candidates[i..][1..] == candidates[i + 1..];
        if o.Confirmed? {
          return own;
        }
        if o.error.Interrupt? {
          return Some(o.error);
        }
        i := i + 1;
      }
      final := if original.None? then Some(RestorationFailed) else own;
    }
  }

  // ---- The body ----

  /** The device's rate is a candidate. */
  ghost predicate Covered(s: Session) {
    s.device in s.candidates
  }

  /** While a step ran, both its endpoints and the device's rate before and after it were
      candidates. */
  ghost predicate CallCovered(c: Call) {
    c.before in c.candidates && c.after in c.candidates && c.from in c.candidates && c.to in c.candidates
  }

  ghost predicate LogCovered(log: seq<Call>) {
    forall k :: 0 <= k < |log| ==> CallCovered(log[k])
  }

  /** Throughout every body, between its switches and while each one runs, the device's rate is among
      the candidates, however the switches fail. */
  lemma {:induction false} BodyCovered(fate: Fate, s: Session, steps: seq<Step>, ending: Option<Error>)
    requires Covered(s) && LogCovered(s.log)
    ensures Covered(Body(fate, s, steps, ending).0) && LogCovered(Body(fate, s, steps, ending).0.log)
    decreases |steps|
  {
    if steps == [] {
      assert Body(fate, s, steps, ending).0 == s;
    } else {
      SwitchCovered(fate, s, steps[0].before, steps[0].after);
      hide Switched, Covered, LogCovered;
      var next := Switched(fate, s, steps[0].before, steps[0].after);
      BodyCovered(fate, next, steps[1..], ending);
    }
  }

  lemma SwitchCovered(fate: Fate, s: Session, before: nat, after: nat)
    requires Covered(s) && LogCovered(s.log)
    ensures Covered(Switched(fate, s, before, after)) && LogCovered(Switched(fate, s, before, after).log)
  {
    hide Dedupe;
    var all := [after, before] + s.candidates;
    assert all[0] == after && all[1] == before;
    assert s.device in all;
  }

  // ---- The cleanup ----

  /** The device's rate is a candidate or the default. */
  ghost predicate Reachable(s: Session, default: nat) {
    s.device in s.candidates || s.device == default
  }

  /** Over the cleanup the device stays at a candidate or the default, and the candidates stay as
      they are. */
  lemma {:induction false} CleanupCovered(fate: Fate, s: Session, untried: seq<nat>, default: nat)
    requires Reachable(s, default)
    ensures var end := Recover(fate, s, untried, default).0; Reachable(end, default) && end.candidates == s.candidates
    decreases |untried|
  {
    if untried == [] {
      assert Recover(fate, s, untried, default).0 == s;
    } else {
      CleanupCovered(fate, Rated(fate, s, untried[0], default), untried[1..], default);
    }
  }

  /** The cleanup may leave the device at no candidate: after a confirmed switch away from the default,
      a step that fails once the device has moved leaves it at the default, which is not probed. */
  lemma CleanupUncovered()
    ensures var fate: Fate :=
              (call, device, before, after) => if call == 0 then Confirmed else Failed(Ordinary(0), true);
      var body := Body(fate, Session(115200, [115200], []), [Step(115200, 921600, false)], None);
      var cleanup := Recover(fate, body.0, body.0.candidates, 115200);
      && body.0.candidates == [921600] == cleanup.0.candidates && body.0.device == 921600
      && cleanup.1 == Exhausted && cleanup.0.device == 115200 && !Covered(cleanup.0)
  {
    var fate: Fate := (call, device, before, after) => if call == 0 then Confirmed else Failed(Ordinary(0), true);
    var steps := [Step(115200, 921600, false)];
    var next := Switched(fate, Session(115200, [115200], []), 115200, 921600);
    assert steps[1..] == [] && |next.log| == 1;
    assert Body(fate, next, [], None) == (next, None);
    var end := Rated(fate, next, 921600, 115200);
    assert [921600][1..] == [] && Recover(fate, end, [], 115200) == (end, Exhausted);
  }

  /** A line on which every step fails once it has moved the device. */
  function MovesAndFails(): Fate {
    (call, device, before, after) => Failed(Ordinary(0), true)
  }

  /** On that line the cleanup leaves the device at the default. */
  lemma {:induction false} EndsAtDefault(s: Session, untried: seq<nat>, default: nat)
    requires untried != []
    ensures var end := Recover(MovesAndFails(), s, untried, default).0;
      end.device == default && end.candidates == s.candidates
    decreases |untried|
  {
    var next := Rated(MovesAndFails(), s, untried[0], default);
    if |untried| == 1 {
      assert Recover(MovesAndFails(), next, untried[1..], default) == (next, Exhausted);
    } else {
      EndsAtDefault(next, untried[1..], default);
    }
  }

  /** The device's rate stays among the candidates over the cleanup, whatever the line does, exactly
      when the default is a candidate as the cleanup begins. */
  lemma CleanupCoveredExactly(s: Session, default: nat)
    requires Covered(s) && s.candidates != []
    ensures (forall fate: Fate :: Covered(Recover(fate, s, s.candidates, default).0)) <==> default in s.candidates
  {
    hide Recover;
    if default in s.candidates {
      forall fate: Fate ensures Covered(Recover(fate, s, s.candidates, default).0) {
        CleanupCovered(fate, s, s.candidates, default);
      }
    } else {
      EndsAtDefault(s, s.candidates, default);
      assert !Covered(Recover(MovesAndFails(), s, s.candidates, default).0);
    }
  }

  // ---- How a session ends ----

  /** The last step of the session was confirmed, and it was a step to the default. */
  ghost predicate ConfirmedAt(s: Session, default: nat) {
    && s.log != [] && s.log[|s.log| - 1].confirmed && s.log[|s.log| - 1].after == default
    && s.device == default
  }

  /** The cleanup is restored exactly when its last step was confirmed at the default. */
  lemma {:induction false} RestoredExactly(fate: Fate, s: Session, untried: seq<nat>, default: nat)
    requires untried != []
    ensures var cleanup := Recover(fate, s, untried, default);
      && |cleanup.0.log| > |s.log|
      && (cleanup.1 == Restored <==> ConfirmedAt(cleanup.0, default))
    decreases |untried|
  {
    var next := Rated(fate, s, untried[0], default);
    if |untried| == 1 {
      assert Recover(fate, next, untried[1..], default) == (next, Exhausted);
    } else {
      RestoredExactly(fate, next, untried[1..], default);
    }
  }

  /** A session ends without an error exactly when its body did and either the device is confirmed at
      the default, or every candidate failed while another exception was being handled around it. */
  lemma NormalExit(fate: Fate, s: Session, default: nat, own: Option<Error>, ambient: Option<Error>)
    requires s.candidates != []
    ensures var cleanup := Recover(fate, s, s.candidates, default);
      && (Final(own, ambient, cleanup.1) == None <==>
            own == None && (ConfirmedAt(cleanup.0, default) || (cleanup.1 == Exhausted && ambient.Some?)))
      && (ambient == None && Final(own, ambient, cleanup.1) == None ==> ConfirmedAt(cleanup.0, default))
  {
    hide Recover, ConfirmedAt;
    RestoredExactly(fate, s, s.candidates, default);
  }

  /** A line on which every step fails and moves nothing. */
  function AlwaysFails(): Fate {
    (call, device, before, after) => Failed(Ordinary(0), false)
  }

  lemma {:induction false} EndsExhausted(s: Session, untried: seq<nat>, default: nat)
    ensures Recover(AlwaysFails(), s, untried, default).1 == Exhausted
    decreases |untried|
  {
    if untried == [] {
      assert Recover(AlwaysFails(), s, untried, default).1 == Exhausted;
    } else {
      EndsExhausted(Rated(AlwaysFails(), s, untried[0], default), untried[1..], default);
    }
  }

  /** Whatever the line does, a normal body with no error leaving the session means the device is
      confirmed at the default, exactly when no exception is being handled around the session. */
  lemma NormalExitExactly(s: Session, default: nat, ambient: Option<Error>)
    requires s.candidates != []
    ensures (forall fate: Fate ::
               var cleanup := Recover(fate, s, s.candidates, default);
               Final(None, ambient, cleanup.1) == None ==> ConfirmedAt(cleanup.0, default))
            <==> ambient == None
  {
    hide Recover, ConfirmedAt;
    if ambient == None {
      forall fate: Fate
        ensures var cleanup := Recover(fate, s, s.candidates, default);
          Final(None, ambient, cleanup.1) == None ==> ConfirmedAt(cleanup.0, default)
      {
        RestoredExactly(fate, s, s.candidates, default);
      }
    } else {
      var cleanup := Recover(AlwaysFails(), s, s.candidates, default);
      EndsExhausted(s, s.candidates, default);
      RestoredExactly(AlwaysFails(), s, s.candidates, default);
      assert Final(None, ambient, cleanup.1) == None && !ConfirmedAt(cleanup.0, default);
    }
  }

  /** Inside the handler of another exception a session can end without an error and leave the device
      at an unconfirmed rate. */
  lemma NormalButUnconfirmed()
    ensures var fate: Fate :=
              (call, device, before, after) => if call == 0 then Confirmed else Failed(Ordinary(0), false);
      var body := Body(fate, Session(115200, [115200], []), [Step(115200, 921600, false)], None);
      var cleanup := Recover(fate, body.0, body.0.candidates, 115200);
      Final(body.1, Some(Ordinary(1)), cleanup.1) == None && cleanup.0.device == 921600
  {
    var fate: Fate := (call, device, before, after) => if call == 0 then Confirmed else Failed(Ordinary(0), false);
    var steps := [Step(115200, 921600, false)];
    var next := Switched(fate, Session(115200, [115200], []), 115200, 921600);
    assert steps[1..] == [] && |next.log| == 1;
    assert Body(fate, next, [], None) == (next, None);
    var end := Rated(fate, next, 921600, 115200);
    assert [921600][1..] == [] && Recover(fate, end, [], 115200) == (end, Exhausted);
  }

  // ---- Which error leaves a session ----

  /** The first k steps of the cleanup fail with ordinary errors and the next one is broken off by the
      interrupt e. */
  ghost predicate StopsAt(fate: Fate, s: Session, untried: seq<nat>, default: nat, k: nat, e: Error)
    decreases k
  {
    && untried != [] && Tried(fate, s, untried[0], default).Failed?
    && var error := Tried(fate, s, untried[0], default).error;
    if k == 0 then error == e && e.Interrupt?
    else !error.Interrupt? && StopsAt(fate, Rated(fate, s, untried[0], default), untried[1..], default, k - 1, e)
  }

  lemma {:induction false} StopsAtStops(fate: Fate, s: Session, untried: seq<nat>, default: nat, k: nat, e: Error)
    requires StopsAt(fate, s, untried, default, k, e)
    ensures Recover(fate, s, untried, default).1 == Stopped(e) && e.Interrupt?
    decreases k
  {
    hide Tried, Rated;
    if k == 0 {
      assert Tried(fate, s, untried[0], default).error == e;
    } else {
      StopsAtStops(fate, Rated(fate, s, untried[0], default), untried[1..], default, k - 1, e);
    }
  }

  lemma {:induction false} StoppedStopsAt(fate: Fate, s: Session, untried: seq<nat>, default: nat) returns (k: nat)
    requires Recover(fate, s, untried, default).1.Stopped?
    ensures StopsAt(fate, s, untried, default, k, Recover(fate, s, untried, default).1.error)
    decreases |untried|
  {
    hide Tried, Rated;
    if Tried(fate, s, untried[0], default).error.Interrupt? {
      k := 0;
    } else {
      k := StoppedStopsAt(fate, Rated(fate, s, untried[0], default), untried[1..], default);
      k := k + 1;
    }
  }

  /** An error of the body is replaced exactly when some cleanup step, all before it having failed with
      ordinary errors, raises another interrupt. */
  lemma PrimaryError(fate: Fate, s: Session, default: nat, own: Error, ambient: Option<Error>)
    ensures Final(Some(own), ambient, Recover(fate, s, s.candidates, default).1) != Some(own)
      <==> exists k, e :: StopsAt(fate, s, s.candidates, default, k, e) && e != own
  {
    hide Recover, StopsAt;
    var r := Recover(fate, s, s.candidates, default).1;
    if r.Stopped? {
      var k := StoppedStopsAt(fate, s, s.candidates, default);
      assert StopsAt(fate, s, s.candidates, default, k, r.error);
    }
    forall k: nat, e | StopsAt(fate, s, s.candidates, default, k, e) ensures r == Stopped(e) {
      StopsAtStops(fate, s, s.candidates, default, k, e);
    }
  }

  /** From some call on, no step raises an interrupt. */
  ghost predicate NoInterrupts(fate: Fate, from: nat) {
    forall call, device, before, after :: call >= from ==>
      (fate(call, device, before, after).Failed? ==> !fate(call, device, before, after).error.Interrupt?)
  }

  lemma {:induction false} NeverStopped(fate: Fate, s: Session, untried: seq<nat>, default: nat)
    requires NoInterrupts(fate, |s.log|)
    ensures !Recover(fate, s, untried, default).1.Stopped?
    decreases |untried|
  {
    if untried == [] {
      assert Recover(fate, s, untried, default).1 == Exhausted;
    } else {
      NeverStopped(fate, Rated(fate, s, untried[0], default), untried[1..], default);
    }
  }

  /** On a line that raises no interrupt during the cleanup the body's error always leaves the
      session. */
  lemma PrimaryErrorKept(fate: Fate, s: Session, default: nat, own: Error, ambient: Option<Error>)
    requires NoInterrupts(fate, |s.log|)
    ensures Final(Some(own), ambient, Recover(fate, s, s.candidates, default).1) == Some(own)
  {
    hide Recover, NoInterrupts;
    NeverStopped(fate, s, s.candidates, default);
  }

  /** An interrupt during the cleanup takes the place of an ordinary error of the body. */
  lemma PrimaryErrorReplaced()
    ensures var fate: Fate := (call, device, before, after) => Failed(Interrupt(7), false);
      var body := Body(fate, Session(115200, [115200], []), [], Some(Ordinary(1)));
      Final(body.1, None, Recover(fate, body.0, body.0.candidates, 115200).1) == Some(Interrupt(7))
  {
    var fate: Fate := (call, device, before, after) => Failed(Interrupt(7), false);
    var s := Session(115200, [115200], []);
    assert Body(fate, s, [], Some(Ordinary(1))) == (s, Some(Ordinary(1)));
    assert Tried(fate, s, 115200, 115200) == Failed(Interrupt(7), false);
  }

  // ---- An honest line ----

  /** A line on which every step from or to the device's true rate is confirmed. */
  ghost predicate Honest(fate: Fate, from: nat) {
    forall call, device, before, after :: call >= from && (device == before || device == after) ==>
      fate(call, device, before, after).Confirmed?
  }

  /** However the switches failed, once the line is honest the cleanup restores the default, within
      one call a candidate. */
  lemma {:induction false} HonestRestores(fate: Fate, s: Session, untried: seq<nat>, default: nat)
    requires s.device in untried || s.device == default
    requires untried != [] && Honest(fate, |s.log|) && NoInterrupts(fate, |s.log|)
    ensures var cleanup := Recover(fate, s, untried, default);
      && cleanup.1 == Restored && ConfirmedAt(cleanup.0, default)
      && |cleanup.0.log| <= |s.log| + |untried|
    decreases |untried|
  {
    if Tried(fate, s, untried[0], default).Failed? {
      assert s.device != untried[0] && s.device != default;
      assert s.device in untried[1..];
      HonestRestores(fate, Rated(fate, s, untried[0], default), untried[1..], default);
    }
  }

  /** The whole session from a fresh manager, on a line honest at least during the cleanup: the
      device is confirmed at the default and the body's own outcome is what leaves the session. */
  lemma {:induction false} SessionRestores(fate: Fate, default: nat, steps: seq<Step>, ending: Option<Error>,
                                           ambient: Option<Error>)
    requires var body := Body(fate, Session(default, [default], []), steps, ending);
      Honest(fate, |body.0.log|) && NoInterrupts(fate, |body.0.log|)
    ensures var body := Body(fate, Session(default, [default], []), steps, ending);
      var cleanup := Recover(fate, body.0, body.0.candidates, default);
      ConfirmedAt(cleanup.0, default) && Final(body.1, ambient, cleanup.1) == body.1
  {
    hide Body, Recover, Honest, NoInterrupts, ConfirmedAt;
    var s := Session(default, [default], []);
    BodyCovered(fate, s, steps, ending);
    var body := Body(fate, s, steps, ending);
    HonestRestores(fate, body.0, body.0.candidates, default);
  }

  // ---- The order of the probes ----

  /** Candidates stay in the order of their first occurrence: those before place j are the values
      before the first occurrence of the one at j. */
  lemma {:induction false} DedupeOrder(s: seq<nat>, j: nat) returns (b: nat)
    requires j < |Dedupe(s)|
    ensures b < |s| && s[b] == Dedupe(s)[j] && s[b] !in s[..b]
    ensures forall x :: x in Dedupe(s)[..j] <==> x in s[..b]
    decreases |s|
  {
    var front, n := Dedupe(s[..|s| - 1]), |s| - 1;
    if j < |front| {
      b := DedupeOrder(s[..n], j);
      assert s[..n][..b] == s[..b];
      assert Dedupe(s)[..j] == front[..j];
    } else {
      b := n;
      assert Dedupe(s)[..j] == front;
    }
  }

  lemma InFront(s: seq<nat>, i: nat, e: nat)
    requires i < e <= |s|
    ensures s[i] in s[..e]
  {
    assert s[..e][i] == s[i];
  }

  lemma DedupeTwo(x: nat, y: nat, rest: seq<nat>)
    ensures var d := Dedupe([x, y] + rest); d != [] && d[0] == x && (|d| > 1 && x != y ==> d[1] == y)
  {
    var all := [x, y] + rest;
    assert all[0] == x && all[1] == y && x in all;
    var b := DedupeOrder(all, 0);
    hide Dedupe;
    if b > 0 {
      InFront(all, 0, b);
    }
    if |Dedupe(all)| > 1 && x != y {
      var e := DedupeOrder(all, 1);
      assert Dedupe(all)[..1] == [x];
      assert x in all[..e] && e >= 1;
      if e > 1 {
        InFront(all, 1, e);
      }
    }
  }

  /** A switch puts its destination first among the candidates and, unless it is confirmed, its
      origin next. */
  lemma SwitchOrder(fate: Fate, s: Session, before: nat, after: nat)
    ensures var c := Switched(fate, s, before, after).candidates;
      && c != [] && c[0] == after
      && (|c| > 1 && before != after ==> c[1] == before)
  {
    hide Dedupe;
    DedupeTwo(after, before, s.candidates);
  }

  /** The cleanup's steps go from the candidates in their order to the default. */
  lemma {:induction false} CleanupOrder(fate: Fate, s: Session, untried: seq<nat>, default: nat, k: nat)
    requires |s.log| + k < |Recover(fate, s, untried, default).0.log|
    ensures var log := Recover(fate, s, untried, default).0.log;
      k < |untried| && log[|s.log| + k].before == untried[k] && log[|s.log| + k].after == default
    ensures Recover(fate, s, untried, default).0.log[..|s.log|] == s.log
    decreases |untried|
  {
    if untried == [] {
    } else {
      var next := Rated(fate, s, untried[0], default);
      var o := Tried(fate, s, untried[0], default);
      assert next.log[..|s.log|] == s.log;
      if o.Confirmed? || o.error.Interrupt? {
        assert Recover(fate, s, untried, default).0 == next;
      } else {
        LogGrows(fate, next, untried[1..], default);
        var log := Recover(fate, next, untried[1..], default).0.log;
        assert log[..|next.log|][|s.log|] == next.log[|s.log|];
        assert log[..|s.log|] == log[..|next.log|][..|s.log|];
        if k > 0 {
          CleanupOrder(fate, next, untried[1..], default, k - 1);
        }
      }
    }
  }

  lemma {:induction false} LogGrows(fate: Fate, s: Session, untried: seq<nat>, default: nat)
    ensures var log := Recover(fate, s, untried, default).0.log; |log| >= |s.log| && log[..|s.log|] == s.log
    decreases |untried|
  {
    if untried == [] {
      assert Recover(fate, s, untried, default).0 == s;
    } else {
      var next := Rated(fate, s, untried[0], default);
      LogGrows(fate, next, untried[1..], default);
      var log := Recover(fate, next, untried[1..], default).0.log;
      assert log[..|s.log|] == log[..|next.log|][..|s.log|];
    }
  }

  /** After a switch the cleanup probes its destination first. */
  lemma DestinationProbedFirst(fate: Fate, s: Session, before: nat, after: nat, default: nat)
    ensures var t := Switched(fate, s, before, after);
      var log := Recover(fate, t, t.candidates, default).0.log;
      |log| > |t.log| && log[|t.log|].before == after && log[|t.log|].after == default
  {
    var t := Switched(fate, s, before, after);
    SwitchOrder(fate, s, before, after);
    hide Switched;
    LogGrows(fate, Rated(fate, t, t.candidates[0], default), t.candidates[1..], default);
    CleanupOrder(fate, t, t.candidates, default, 0);
  }
}

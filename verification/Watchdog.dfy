/** The reconnect watchdog: 32-bit millisecond timestamps that wrap, and what they guarantee in true time. */
module Watchdog {
  import opened Bytes

  const MESH_HEALTH_CHECK_INTERVAL_MS := 10000
  const MESH_RECONNECT_ATTEMPT_MS := 15000
  const MESH_RECONNECT_RESTART_MS := 60000
  const WORD := 0x1_0000_0000

  /** True milliseconds since boot as the firmware sees them. */
  function Low32(t: nat): uint32 { t % WORD }

  function Elapsed(now: uint32, since: uint32): uint32 { Wrap32(now - since) }

  datatype Dog = Dog(lastCheck: uint32, attached: uint32, attempt: uint32, initialized: bool)

  datatype Outcome = Outcome(dog: Dog, connect: bool, restart: bool)

  /** At boot, after a first attempt to initialize the mesh. */
  function Boot(initOk: bool): Dog { Dog(0, 0, 0, initOk) }

  /** The periodic check as a function of the time, the mesh layer, and whether an initialization succeeds. */
  function Check(d: Dog, now: uint32, layer: int, initOk: bool): Outcome {
    if Elapsed(now, d.lastCheck) < MESH_HEALTH_CHECK_INTERVAL_MS then Outcome(d, false, false)
    else
      var c := d.(lastCheck := now);
      if !c.initialized then Outcome(c.(initialized := initOk), false, false)
      else if layer > 0 || c.attached == 0 then Outcome(c.(attached := now), false, false)
      else
        var connect := Elapsed(now, c.attached) >= MESH_RECONNECT_ATTEMPT_MS && Elapsed(now, c.attempt) >= MESH_RECONNECT_ATTEMPT_MS;
        var tried := if connect then c.(attempt := now) else c;
        if Elapsed(now, tried.attached) >= MESH_RECONNECT_RESTART_MS
        then Outcome(tried.(attached := now, attempt := now, initialized := initOk), connect, true)
        else Outcome(tried, connect, false)
  }

  /** A parent was connected, or the layer became positive. */
  function Attach(d: Dog, now: uint32): Dog {
    d.(attached := now, attempt := 0)
  }

  class MeshWatchdog {
    var lastCheck: uint32        // last_mesh_health_check_ms
    var attached: uint32         // last_mesh_attached_ms
    var attempt: uint32          // last_mesh_reconnect_attempt_ms
    var initialized: bool        // mesh_initialized

    function View(): Dog
      reads this
    {
      Dog(lastCheck, attached, attempt, initialized)
    }

    constructor (initOk: bool)
      ensures View() == Boot(initOk) && lastCheck == 0 && attached == 0 && attempt == 0 && initialized == initOk
    {
      lastCheck, attached, attempt, initialized := 0, 0, 0, initOk;
    }

    /** check_mesh_health; says which of the two remedies it takes. Ages are differences in 32-bit arithmetic. */
    method CheckMeshHealth(now: uint32, layer: int, initOk: bool) returns (connect: bool, restart: bool)
      modifies this
      ensures Outcome(View(), connect, restart) == Check(old(View()), now, layer, initOk)
      // not due
      ensures (now - old(lastCheck)) % 0x1_0000_0000 < 10000 ==> View() == old(View()) && !connect && !restart
      ensures (now - old(lastCheck)) % 0x1_0000_0000 >= 10000 ==> lastCheck == now
      // not initialized: one more attempt
      ensures (now - old(lastCheck)) % 0x1_0000_0000 >= 10000 && !old(initialized) ==>
                initialized == initOk && attached == old(attached) && attempt == old(attempt) && !connect && !restart
      // attached, or seen detached for the first time
      ensures (now - old(lastCheck)) % 0x1_0000_0000 >= 10000 && old(initialized) && (layer > 0 || old(attached) == 0) ==>
                initialized && attached == now && attempt == old(attempt) && !connect && !restart
      // detached
      ensures (now - old(lastCheck)) % 0x1_0000_0000 >= 10000 && old(initialized) && layer <= 0 && old(attached) != 0 ==>
                && (connect <==> (now - old(attached)) % 0x1_0000_0000 >= 15000 && (now - old(attempt)) % 0x1_0000_0000 >= 15000)
                && (restart <==> (now - old(attached)) % 0x1_0000_0000 >= 60000)
                && attached == (if restart then now else old(attached))
                && attempt == (if connect || restart then now else old(attempt))
                && initialized == (restart ==> initOk)
    {
      connect, restart := false, false;
      if Elapsed(now, lastCheck) < MESH_HEALTH_CHECK_INTERVAL_MS {
        return;
      }
      lastCheck := now;
      if !initialized {
        initialized := initOk;
        return;
      }
      if layer > 0 {
        attached := now;
        return;
      }
      if attached == 0 {
        attached := now;
        return;
      }
      if Elapsed(now, attached) >= MESH_RECONNECT_ATTEMPT_MS && Elapsed(now, attempt) >= MESH_RECONNECT_ATTEMPT_MS {
        connect := true;
        attempt := now;
      }
      if Elapsed(now, attached) >= MESH_RECONNECT_RESTART_MS {
        restart := true;
        initialized := initOk;
        attached := now;
        attempt := now;
      }
    }

    /** MESH_EVENT_PARENT_CONNECTED, and MESH_EVENT_LAYER_CHANGE to a positive layer. */
    method OnAttached(now: uint32)
      modifies this
      ensures View() == Attach(old(View()), now)
      ensures attached == now && attempt == 0 && lastCheck == old(lastCheck) && initialized == old(initialized)
    {
      attached := now;
      attempt := 0;
    }
  }

  /** Wrapped timestamps never make more time pass than truly did, and are exact over less than one wrap. */
  lemma ElapsedIsTrue(t: nat, since: nat)
    requires since <= t
    ensures Elapsed(Low32(t), Low32(since)) <= t - since
    ensures t - since < WORD ==> Elapsed(Low32(t), Low32(since)) == t - since
  {
  }

  datatype Step =
    | Checked(time: nat, layer: int, initOk: bool)
    | Attached(time: nat)
    | Stopped(time: nat)   // MESH_EVENT_STOPPED

  /** A run with the true times of all connect requests and restarts. */
  datatype Run = Run(dog: Dog, now: nat, connects: seq<nat>, restarts: seq<nat>)

  function Start(initOk: bool): Run { Run(Boot(initOk), 0, [], []) }

  function After(r: Run, step: Step): Run {
    match step
    case Attached(t) => Run(Attach(r.dog, Low32(t)), t, r.connects, r.restarts)
    case Stopped(t) => r.(dog := r.dog.(initialized := false), now := t)
    case Checked(t, layer, initOk) =>
      var o := Check(r.dog, Low32(t), layer, initOk);
      Run(o.dog, t, r.connects + if o.connect then [t] else [], r.restarts + if o.restart then [t] else [])
  }

  /** Neighbouring times are at least d apart. */
  predicate Spaced(times: seq<nat>, d: nat) {
    forall i :: 0 <= i < |times| - 1 ==> times[i] + d <= times[i + 1]
  }

  function Last(times: seq<nat>): nat {
    if times == [] then 0 else times[|times| - 1]
  }

  /**
   `a` is the true time behind the attach timestamp, and neither the last restart nor, unless the attempt timestamp
   stands for a time since then, the last connect request is later.
   */
  predicate Inv(r: Run, a: nat) {
    && a <= r.now && r.dog.attached == Low32(a)
    && Spaced(r.connects, MESH_RECONNECT_ATTEMPT_MS) && Spaced(r.restarts, MESH_RECONNECT_RESTART_MS)
    && Last(r.connects) <= r.now && Last(r.restarts) <= a
    && (r.connects == [] || Last(r.connects) <= a || AttemptSince(r))
  }

  predicate AttemptSince(r: Run) {
    exists t: nat {:trigger Low32(t)} :: Last(r.connects) <= t <= r.now && r.dog.attempt == Low32(t)
  }

  lemma SpacedMore(times: seq<nat>, d: nat, t: nat)
    requires Spaced(times, d) && (times == [] || Last(times) + d <= t)
    ensures Spaced(times + [t], d) && Last(times + [t]) == t
  {
  }

  /** This check writes the attach timestamp. */
  predicate Anchors(d: Dog, now: uint32, layer: int) {
    && Elapsed(now, d.lastCheck) >= MESH_HEALTH_CHECK_INTERVAL_MS && d.initialized
    && (layer > 0 || d.attached == 0 || Elapsed(now, d.attached) >= MESH_RECONNECT_RESTART_MS)
  }

  /** The true time behind the attach timestamp after a step. */
  function Anchor(r: Run, a: nat, step: Step): nat {
    match step
    case Attached(t) => t
    case Stopped(_) => a
    case Checked(t, layer, _) => if Anchors(r.dog, Low32(t), layer) then t else a
  }

  /** A connect request comes long enough after the last one. */
  lemma ConnectSpaced(r: Run, a: nat, t: nat)
    requires Inv(r, a) && r.now <= t
    requires Elapsed(Low32(t), r.dog.attached) >= MESH_RECONNECT_ATTEMPT_MS && Elapsed(Low32(t), r.dog.attempt) >= MESH_RECONNECT_ATTEMPT_MS
    ensures r.connects == [] || Last(r.connects) + MESH_RECONNECT_ATTEMPT_MS <= t
  {
    hide Low32, Elapsed;
    ElapsedIsTrue(t, a);
    if r.connects != [] && Last(r.connects) > a {
      var u: nat :| Last(r.connects) <= u <= r.now && r.dog.attempt == Low32(u);
      ElapsedIsTrue(t, u);
    }
  }

  lemma CheckKeeps(r: Run, a: nat, t: nat, layer: int, initOk: bool)
    requires Inv(r, a) && r.now <= t
    ensures Inv(After(r, Checked(t, layer, initOk)), Anchor(r, a, Checked(t, layer, initOk)))
  {
    var o := Check(r.dog, Low32(t), layer, initOk);
    var s := After(r, Checked(t, layer, initOk));
    ElapsedIsTrue(t, a);
    if o.connect {
      ConnectSpaced(r, a, t);
      SpacedMore(r.connects, MESH_RECONNECT_ATTEMPT_MS, t);
    } else {
      assert s.connects == r.connects;
    }
    if o.restart {
      SpacedMore(r.restarts, MESH_RECONNECT_RESTART_MS, t);
    } else {
      assert s.restarts == r.restarts;
    }
    hide Low32, Elapsed, Spaced;
    assert o.dog.attempt == Low32(t) || o.dog.attempt == r.dog.attempt;
    assert o.connect ==> o.dog.attempt == Low32(t);
    if AttemptSince(r) && !o.connect && o.dog.attempt == r.dog.attempt {
      var u: nat :| Last(r.connects) <= u <= r.now && r.dog.attempt == Low32(u);
      assert Last(s.connects) <= u <= s.now && s.dog.attempt == Low32(u);
    }
  }

  lemma StepKeeps(r: Run, a: nat, step: Step)
    requires Inv(r, a) && r.now <= step.time
    ensures Inv(After(r, step), Anchor(r, a, step))
  {
    match step
    case Checked(t, layer, initOk) => CheckKeeps(r, a, t, layer, initOk);
    case Attached(t) =>
    case Stopped(t) =>
      if AttemptSince(r) {
        var u: nat :| Last(r.connects) <= u <= r.now && r.dog.attempt == Low32(u);
        assert Last(r.connects) <= u <= t && After(r, step).dog.attempt == Low32(u);
      }
  }

  /** Steps in order of time. */
  predicate Ordered(steps: seq<Step>, from: nat)
    decreases |steps|
  {
    steps == [] || (from <= steps[0].time && Ordered(steps[1..], steps[0].time))
  }

  function AfterAll(r: Run, steps: seq<Step>): Run
    decreases |steps|
  {
    if steps == [] then r else AfterAll(After(r, steps[0]), steps[1..])
  }

  lemma {:induction false} RunSpaced(r: Run, a: nat, steps: seq<Step>)
    requires Inv(r, a) && Ordered(steps, r.now)
    ensures Spaced(AfterAll(r, steps).connects, MESH_RECONNECT_ATTEMPT_MS)
    ensures Spaced(AfterAll(r, steps).restarts, MESH_RECONNECT_RESTART_MS)
    decreases |steps|
  {
    if steps != [] {
      StepKeeps(r, a, steps[0]);
      hide Inv, Spaced;
      RunSpaced(After(r, steps[0]), Anchor(r, a, steps[0]), steps[1..]);
    }
  }

  /**
   Over every run from boot, wrap-arounds included: connect requests at least 15 s apart in true time, restarts at
   least 60 s apart.
   */
  lemma RemediesSpaced(initOk: bool, steps: seq<Step>)
    requires Ordered(steps, 0)
    ensures Spaced(AfterAll(Start(initOk), steps).connects, MESH_RECONNECT_ATTEMPT_MS)
    ensures Spaced(AfterAll(Start(initOk), steps).restarts, MESH_RECONNECT_RESTART_MS)
  {
    RunSpaced(Start(initOk), 0, steps);
  }

  /** Checks of a detached, initialized node at these times. */
  function Detached(d: Dog, times: seq<nat>): Dog
    decreases |times|
  {
    if times == [] then d else Detached(Check(d, Low32(times[0]), 0, true).dog, times[1..])
  }

  /** Index of the first of these checks that restarts, or their number. */
  function FirstRestart(d: Dog, times: seq<nat>): (i: nat)
    ensures i <= |times|
    decreases |times|
  {
    if times == [] || Check(d, Low32(times[0]), 0, true).restart then 0
    else 1 + FirstRestart(Check(d, Low32(times[0]), 0, true).dog, times[1..])
  }

  /** Times in order, no two neighbours more than g apart, and none beyond the first wrap. */
  predicate Regular(times: seq<nat>, from: nat, g: nat)
    decreases |times|
  {
    times == [] || (from <= times[0] <= from + g && times[0] < WORD && Regular(times[1..], times[0], g))
  }

  /** A check without a restart, before the first wrap. */
  lemma QuietCheck(d: Dog, last: nat, a: nat, t: nat)
    requires d.initialized && d.attached == a != 0 && d.lastCheck == last && last < a + MESH_RECONNECT_RESTART_MS
    requires last <= t && a <= t < WORD
    requires !Check(d, Low32(t), 0, true).restart
    ensures var e := Check(d, Low32(t), 0, true).dog;
            && e.initialized && e.attached == a && t < a + MESH_RECONNECT_RESTART_MS + MESH_HEALTH_CHECK_INTERVAL_MS
            && e.lastCheck < a + MESH_RECONNECT_RESTART_MS && e.lastCheck <= t
  {
  }

  lemma {:induction false} RestartsAtLatest(d: Dog, last: nat, a: nat, from: nat, g: nat, times: seq<nat>)
    requires d.initialized && d.attached == a != 0 && d.lastCheck == last && last < a + MESH_RECONNECT_RESTART_MS
    requires last <= from && a <= from && Regular(times, from, g)
    requires from < a + MESH_RECONNECT_RESTART_MS + MESH_HEALTH_CHECK_INTERVAL_MS
    ensures FirstRestart(d, times) == |times| ==>
              times == [] || times[|times| - 1] < a + MESH_RECONNECT_RESTART_MS + MESH_HEALTH_CHECK_INTERVAL_MS
    ensures FirstRestart(d, times) < |times| ==>
              times[FirstRestart(d, times)] < a + MESH_RECONNECT_RESTART_MS + MESH_HEALTH_CHECK_INTERVAL_MS + g
    decreases |times|
  {
    if times != [] && !Check(d, Low32(times[0]), 0, true).restart {
      var e := Check(d, Low32(times[0]), 0, true).dog;
      QuietCheck(d, last, a, times[0]);
      hide Check;
      RestartsAtLatest(e, e.lastCheck, a, times[0], g, times[1..]);
    }
  }

  /** One check that asked for a connection, restarted the mesh, or both. */
  datatype Remedy = Remedy(time: nat, connect: bool, restart: bool)

  /** The remedies taken by checks of a detached node at these times. */
  function Remedies(d: Dog, times: seq<nat>): seq<Remedy>
    decreases |times|
  {
    if times == [] then []
    else
      var o := Check(d, Low32(times[0]), 0, true);
      (if o.connect || o.restart then [Remedy(times[0], o.connect, o.restart)] else []) + Remedies(o.dog, times[1..])
  }

  /**
   The first of the remedies comes at least 15 s after `last`, if it is a connect request, and less than 25 s plus g
   after it; it asks for a connection unless it restarts the mesh within 15 s. The next follows likewise, and less than
   25 s have passed at the last check since the last remedy.
   */
  predicate Prompt(remedies: seq<Remedy>, last: nat, g: nat, end: nat)
    decreases |remedies|
  {
    if remedies == [] then end < last + 25000
    else
      var r := remedies[0];
      && last <= r.time < last + 25000 + g
      && (r.connect <==> r.time >= last + 15000)
      && (r.connect || r.restart)
      && Prompt(remedies[1..], r.time, g, end)
  }

  /** The later of the attach time and the time of the last request. */
  function Later(a: nat, b: nat): nat {
    if a < b then b else a
  }

  /** A check of a detached, initialized node before the first wrap, in true time. */
  lemma DetachedCheck(d: Dog, t: nat)
    requires d.initialized && 0 < d.attached <= t < WORD && d.attempt <= t && d.lastCheck <= t
    ensures var o := Check(d, Low32(t), 0, true);
            && o.dog.initialized
            && (t < d.lastCheck + 10000 ==> o == Outcome(d, false, false))
            && (t >= d.lastCheck + 10000 ==>
                  && (o.connect <==> t >= d.attached + 15000 && t >= d.attempt + 15000)
                  && (o.restart <==> t >= d.attached + 60000)
                  && o.dog.attached == (if o.restart then t else d.attached)
                  && o.dog.attempt == (if o.connect || o.restart then t else d.attempt)
                  && o.dog.lastCheck == t)
  {
  }

  /**
   Before the first wrap, a detached, initialized node checked at most g ms apart asks for a connection less than
   25 s plus g after it lost its parent, and takes the next remedy within as much of the last one, as often as it is
   checked. Only a restart can come sooner than 15 s after the last remedy.
   */
  lemma {:induction false} RemediesAtLatest(d: Dog, from: nat, g: nat, times: seq<nat>)
    requires d.initialized && 0 < d.attached <= from && d.attempt <= from && d.lastCheck <= from && Regular(times, from, g)
    requires d.lastCheck < Later(d.attached, d.attempt) + 15000 && from < Later(d.attached, d.attempt) + 25000
    ensures Prompt(Remedies(d, times), Later(d.attached, d.attempt), g, if times == [] then from else times[|times| - 1])
    ensures d.attempt <= d.attached && Remedies(d, times) != [] ==> Remedies(d, times)[0].connect
    decreases |times|
  {
    if times != [] {
      var o := Check(d, Low32(times[0]), 0, true);
      DetachedCheck(d, times[0]);
      hide Check, Low32;
      RemediesAtLatest(o.dog, times[0], g, times[1..]);
      var rest := Remedies(o.dog, times[1..]);
      if o.connect || o.restart {
        assert Remedies(d, times)[1..] == rest;
      } else {
        assert Remedies(d, times) == rest;
      }
    }
  }
}

/** The background polling loop (`background_monitor` in
    server/services/monitor.py).

    Each cycle calls the read function, passes what it returned to the
    store function (spread out when it is a tuple), warns when the store
    result is falsy, logs any `Exception` either call raised, and then
    sleeps. A `BaseException` that is not an `Exception` ends the loop and
    is outside the model.
    The loop never ends in the source; the model runs it over a finite
    script, one entry per cycle, saying what the two calls do in that cycle,
    and records what the loop does as a trace of events. */
module Monitor {

  /** What the read function returned: a tuple, or a single value. */
  datatype Results<V> = Tuple(items: seq<V>) | Single(value: V)

  /** What the read function did. `ReadRaised` stands for an `Exception`
      subclass, the only kind the loop catches. */
  datatype ReadOutcome<V> = ReadRaised | ReadReturned(results: Results<V>)

  /** What the store function did; `truthy` is Python's truth value of its
      result, and `StoreRaised` stands for an `Exception` subclass. */
  datatype StoreOutcome = StoreRaised | StoreReturned(truthy: bool)

  /** What the two calls do in one cycle; `store` is not consulted when the read raises. */
  datatype Cycle<V> = Cycle(read: ReadOutcome<V>, store: StoreOutcome)

  /** What the loop does, tagged with the cycle it does it in. */
  datatype Event<V> =
    | Read(cycle: nat)                      // read_func() is called
    | Store(cycle: nat, args: seq<V>)       // store_func(*args) is called
    | Unverified(cycle: nat)                // "data stored but not verified"
    | Failed(cycle: nat)                    // an `Exception` was caught and logged
    | Slept(cycle: nat, seconds: int)       // asyncio.sleep(sleep_seconds)

  /** The positional arguments the store function receives. */
  function StoreArgs<V>(results: Results<V>): (args: seq<V>)
    ensures results.Single? ==> args == [results.value]
    ensures results.Tuple? ==> args == results.items
  {
    match results
    case Tuple(items) => items
    case Single(v) => [v]
  }

  /** The events of cycle `n`: it opens with the read and closes with the
      sleep, whatever the calls in between did. */
  function CycleEvents<V>(n: nat, c: Cycle<V>, seconds: int): (es: seq<Event<V>>)
    ensures 3 <= |es| <= 4
    ensures es[0] == Read(n) && es[|es| - 1] == Slept(n, seconds)
    ensures forall k :: 0 <= k < |es| ==> es[k].cycle == n
  {
    var middle :=
      match c.read
      case ReadRaised => [Failed(n)]
      case ReadReturned(results) =>
        [Store(n, StoreArgs(results))]
        + match c.store
          case StoreRaised => [Failed(n)]
          case StoreReturned(truthy) => if truthy then [] else [Unverified(n)];
    [Read(n)] + middle + [Slept(n, seconds)]
  }

  /** The events of running the loop over a script, cycle after cycle. */
  function Trace<V>(script: seq<Cycle<V>>, seconds: int): seq<Event<V>>
  {
    if script == [] then []
    else
      var n := |script| - 1;
      Trace(script[..n], seconds) + CycleEvents(n, script[n], seconds)
  }

  /** `background_monitor`: runs one cycle per script entry. An `Exception`
      in either call is caught and logged, and the loop goes on to sleep and
      to the next cycle. */
  method BackgroundMonitor<V>(script: seq<Cycle<V>>, sleepSeconds: int) returns (trace: seq<Event<V>>)
    ensures trace == Trace(script, sleepSeconds)
  {
    trace := [];
    var n := 0;
    while n < |script|
      invariant n <= |script|
      invariant trace == Trace(script[..n], sleepSeconds)
    {
      var events := RunCycle(n, script[n], sleepSeconds);
      trace := trace + events;
      TraceStep(script, sleepSeconds, n);
      n := n + 1;
    }
    assert script[..n] == script;
  }

  /** One pass of the loop body: the read, the store when the read returned,
      the warning on a falsy result, the logged exception, and the sleep. */
  method RunCycle<V>(n: nat, cycle: Cycle<V>, sleepSeconds: int) returns (events: seq<Event<V>>)
    ensures events == CycleEvents(n, cycle, sleepSeconds)
  {
    events := [Read(n)];
    match cycle.read {
      case ReadRaised =>
        events := events + [Failed(n)];
      case ReadReturned(results) =>
        var args := StoreArgs(results);
        events := events + [Store(n, args)];
        match cycle.store {
          case StoreRaised =>
            events := events + [Failed(n)];
          case StoreReturned(truthy) =>
            if !truthy {
              events := events + [Unverified(n)];
            }
        }
    }
    events := events + [Slept(n, sleepSeconds)];
  }

  /** Running one more cycle appends that cycle's events. */
  lemma TraceStep<V>(script: seq<Cycle<V>>, seconds: int, n: nat)
    requires n < |script|
    ensures Trace(script[..n + 1], seconds) == Trace(script[..n], seconds) + CycleEvents(n, script[n], seconds)
  {
    assert script[..n + 1][..n] == script[..n];
  }

  /** An event occurs in the trace exactly when its cycle is in the script
      and that cycle's own events include it. */
  lemma {:induction false} InTraceIff<V>(script: seq<Cycle<V>>, seconds: int, e: Event<V>)
    ensures e in Trace(script, seconds) <==>
            e.cycle < |script| && e in CycleEvents(e.cycle, script[e.cycle], seconds)
    decreases |script|
  {
    if script != [] {
      var n := |script| - 1;
      var prefix := script[..n];
      var es := CycleEvents(n, script[n], seconds);
      assert Trace(script, seconds) == Trace(prefix, seconds) + es;
      InTraceIff(prefix, seconds, e);
      if e.cycle < n {
        assert prefix[e.cycle] == script[e.cycle];
      }
      if e in es {
        var k :| 0 <= k < |es| && es[k] == e;
        assert e.cycle == n;
      }
    }
  }

  /** Events appear in cycle order: a later cycle's events never come
      before an earlier cycle's. */
  lemma {:induction false} TraceInCycleOrder<V>(script: seq<Cycle<V>>, seconds: int)
    ensures forall i, j :: 0 <= i < j < |Trace(script, seconds)| ==>
              Trace(script, seconds)[i].cycle <= Trace(script, seconds)[j].cycle
    ensures forall i :: 0 <= i < |Trace(script, seconds)| ==> Trace(script, seconds)[i].cycle < |script|
    decreases |script|
  {
    if script != [] {
      var n := |script| - 1;
      var prefix := script[..n];
      TraceInCycleOrder(prefix, seconds);
      var tp := Trace(prefix, seconds);
      var es := CycleEvents(n, script[n], seconds);
      var t := Trace(script, seconds);
      assert t == tp + es;
      forall i | 0 <= i < |t|
        ensures t[i].cycle < |script|
        ensures i >= |tp| ==> t[i].cycle == n
        ensures i < |tp| ==> t[i].cycle < n
      {
        if i >= |tp| {
          assert t[i] == es[i - |tp|];
        } else {
          assert t[i] == tp[i] && tp[i].cycle < |prefix|;
        }
      }
      forall i, j | 0 <= i < j < |t|
        ensures t[i].cycle <= t[j].cycle
      {
        if j < |tp| {
          assert t[i] == tp[i] && t[j] == tp[j];
        }
      }
    }
  }

  /** Every cycle reads and sleeps, whatever happened in earlier cycles: an
      `Exception` raised by either call never ends the loop. */
  lemma EveryCycleReadsAndSleeps<V>(script: seq<Cycle<V>>, seconds: int, n: nat)
    requires n < |script|
    ensures Read(n) in Trace(script, seconds)
    ensures Slept(n, seconds) in Trace(script, seconds)
  {
    var es := CycleEvents(n, script[n], seconds);
    assert es[0] == Read(n) && es[|es| - 1] == Slept(n, seconds);
    InTraceIff(script, seconds, Read(n));
    InTraceIff(script, seconds, Slept(n, seconds));
  }

  /** The store function is called in a cycle exactly when the read returned,
      and then with the tuple's items spread out, or the single value. */
  lemma StoreIffReadReturned<V>(script: seq<Cycle<V>>, seconds: int, n: nat, args: seq<V>)
    requires n < |script|
    ensures Store(n, args) in Trace(script, seconds) <==>
            script[n].read.ReadReturned? && args == StoreArgs(script[n].read.results)
  {
    InTraceIff(script, seconds, Store(n, args));
    var es := CycleEvents(n, script[n], seconds);
    if script[n].read.ReadReturned? && args == StoreArgs(script[n].read.results) {
      assert es[1] == Store(n, args);
    }
  }

  /** An exception is logged in a cycle exactly when the read raised, or the
      read returned and the store raised. */
  lemma FailedIffRaised<V>(script: seq<Cycle<V>>, seconds: int, n: nat)
    requires n < |script|
    ensures Failed(n) in Trace(script, seconds) <==>
            script[n].read.ReadRaised? || script[n].store.StoreRaised?
  {
    InTraceIff(script, seconds, Failed(n));
    var es := CycleEvents(n, script[n], seconds);
    if script[n].read.ReadRaised? {
      assert es[1] == Failed(n);
    } else if script[n].store.StoreRaised? {
      assert es[2] == Failed(n);
    }
  }

  /** The warning is logged in a cycle exactly when the store ran and its
      result was falsy. */
  lemma UnverifiedIffFalsy<V>(script: seq<Cycle<V>>, seconds: int, n: nat)
    requires n < |script|
    ensures Unverified(n) in Trace(script, seconds) <==>
            script[n].read.ReadReturned? && script[n].store == StoreReturned(false)
  {
    InTraceIff(script, seconds, Unverified(n));
    var es := CycleEvents(n, script[n], seconds);
    if script[n].read.ReadReturned? && script[n].store == StoreReturned(false) {
      assert es[2] == Unverified(n);
    }
  }

  /** The kinds of event, to count them by. */
  datatype Kind = ReadKind | StoreKind | UnverifiedKind | FailedKind | SleptKind

  function KindOf<V>(e: Event<V>): Kind {
    match e
    case Read(_) => ReadKind
    case Store(_, _) => StoreKind
    case Unverified(_) => UnverifiedKind
    case Failed(_) => FailedKind
    case Slept(_, _) => SleptKind
  }

  /** How many events of kind `k` in `t` belong to cycle `n`. */
  function CountOf<V>(t: seq<Event<V>>, n: nat, k: Kind): nat {
    if t == [] then 0
    else Hit(t[0], n, k) + CountOf(t[1..], n, k)
  }

  /** How many events of each kind one cycle has, from what its calls did:
      one read and one sleep; one store call exactly when the read returned;
      one logged exception when either call raised; one warning when the
      store returned a falsy value. */
  function Expected<V>(c: Cycle<V>, k: Kind): nat {
    match k
    case ReadKind => 1
    case SleptKind => 1
    case StoreKind => if c.read.ReadReturned? then 1 else 0
    case FailedKind => if c.read.ReadRaised? || c.store.StoreRaised? then 1 else 0
    case UnverifiedKind => if c.read.ReadReturned? && c.store == StoreReturned(false) then 1 else 0
  }

  lemma {:induction false} CountAppend<V>(a: seq<Event<V>>, b: seq<Event<V>>, n: nat, k: Kind)
    ensures CountOf(a + b, n, k) == CountOf(a, n, k) + CountOf(b, n, k)
    decreases |a|
  {
    if a == [] {
      assert a + b == b;
    } else {
      assert (a + b)[1..] == a[1..] + b;
      CountAppend(a[1..], b, n, k);
    }
  }

  lemma {:induction false} CountOtherCycles<V>(t: seq<Event<V>>, n: nat, k: Kind)
    requires forall i :: 0 <= i < |t| ==> t[i].cycle != n
    ensures CountOf(t, n, k) == 0
    decreases |t|
  {
    if t != [] {
      CountOtherCycles(t[1..], n, k);
    }
  }

  /** Whether one event counts as being of kind `k` in cycle `n`. */
  function Hit<V>(e: Event<V>, n: nat, k: Kind): nat {
    if e.cycle == n && KindOf(e) == k then 1 else 0
  }

  lemma CountCons<V>(e: Event<V>, t: seq<Event<V>>, n: nat, k: Kind)
    ensures CountOf([e] + t, n, k) == Hit(e, n, k) + CountOf(t, n, k)
  {
    assert ([e] + t)[1..] == t;
  }

  lemma CountThree<V>(a: Event<V>, b: Event<V>, c: Event<V>, n: nat, k: Kind)
    ensures CountOf([a, b, c], n, k) == Hit(a, n, k) + Hit(b, n, k) + Hit(c, n, k)
  {
    var none: seq<Event<V>> := [];
    CountCons(c, none, n, k);
    assert [c] + none == [c];
    CountCons(b, [c], n, k);
    CountCons(a, [b, c], n, k);
    assert [a, b, c] == [a] + ([b] + [c]);
  }

  lemma CountFour<V>(a: Event<V>, b: Event<V>, c: Event<V>, d: Event<V>, n: nat, k: Kind)
    ensures CountOf([a, b, c, d], n, k) == Hit(a, n, k) + Hit(b, n, k) + Hit(c, n, k) + Hit(d, n, k)
  {
    CountThree(b, c, d, n, k);
    CountCons(a, [b, c, d], n, k);
    assert [a, b, c, d] == [a] + [b, c, d];
  }

  lemma CountInCycle<V>(n: nat, c: Cycle<V>, seconds: int, k: Kind)
    ensures CountOf(CycleEvents(n, c, seconds), n, k) == Expected(c, k)
  {
    if c.read.ReadRaised? {
      CountInRaisedCycle(n, c, seconds, k);
    } else if c.store == StoreReturned(true) {
      CountInVerifiedCycle(n, c, seconds, k);
    } else {
      CountInFourEventCycle(n, c, seconds, k);
    }
  }

  lemma CountInRaisedCycle<V>(n: nat, c: Cycle<V>, seconds: int, k: Kind)
    requires c.read.ReadRaised?
    ensures CountOf(CycleEvents(n, c, seconds), n, k) == Expected(c, k)
  {
    CountThree<V>(Read(n), Failed(n), Slept(n, seconds), n, k);
    assert CycleEvents(n, c, seconds) == [Read(n), Failed(n), Slept(n, seconds)];
  }

  lemma CountInVerifiedCycle<V>(n: nat, c: Cycle<V>, seconds: int, k: Kind)
    requires c.read.ReadReturned? && c.store == StoreReturned(true)
    ensures CountOf(CycleEvents(n, c, seconds), n, k) == Expected(c, k)
  {
    var store := Store(n, StoreArgs(c.read.results));
    CountThree(Read(n), store, Slept(n, seconds), n, k);
    assert CycleEvents(n, c, seconds) == [Read(n), store, Slept(n, seconds)];
  }

  lemma CountInFourEventCycle<V>(n: nat, c: Cycle<V>, seconds: int, k: Kind)
    requires c.read.ReadReturned? && c.store != StoreReturned(true)
    ensures CountOf(CycleEvents(n, c, seconds), n, k) == Expected(c, k)
  {
    var store := Store(n, StoreArgs(c.read.results));
    var x: Event<V> := if c.store.StoreRaised? then Failed(n) else Unverified(n);
    CountFour(Read(n), store, x, Slept(n, seconds), n, k);
    assert CycleEvents(n, c, seconds) == [Read(n), store, x, Slept(n, seconds)];
  }

  /** In the whole trace, each cycle has exactly the expected number of
      events of each kind: in particular the read function is called exactly
      once per cycle and the store function at most once. */
  lemma {:induction false} CountInTrace<V>(script: seq<Cycle<V>>, seconds: int, n: nat, k: Kind)
    requires n < |script|
    ensures CountOf(Trace(script, seconds), n, k) == Expected(script[n], k)
    decreases |script|
  {
    var last := |script| - 1;
    var prefix := script[..last];
    var es := CycleEvents(last, script[last], seconds);
    assert Trace(script, seconds) == Trace(prefix, seconds) + es;
    CountAppend(Trace(prefix, seconds), es, n, k);
    if n == last {
      TraceInCycleOrder(prefix, seconds);
      CountOtherCycles(Trace(prefix, seconds), n, k);
      CountInCycle(n, script[n], seconds, k);
    } else {
      CountInTrace(prefix, seconds, n, k);
      assert prefix[n] == script[n];
      CountOtherCycles(es, n, k);
    }
  }

  /** Each cycle calls the read function exactly once and the store
      function at most once. */
  lemma ReadOnceStoreAtMostOnce<V>(script: seq<Cycle<V>>, seconds: int, n: nat)
    requires n < |script|
    ensures CountOf(Trace(script, seconds), n, ReadKind) == 1
    ensures CountOf(Trace(script, seconds), n, StoreKind) <= 1
  {
    CountInTrace(script, seconds, n, ReadKind);
    CountInTrace(script, seconds, n, StoreKind);
  }

  /** A read that raises in the first cycle and returns in the second: both
      cycles run, each reading and sleeping once, and the store function is
      called exactly once, in the second cycle. */
  lemma RaiseThenReturnStoresOnce<V>(unused: StoreOutcome, results: Results<V>, store: StoreOutcome, seconds: int)
    ensures var t := Trace([Cycle(ReadRaised, unused), Cycle(ReadReturned(results), store)], seconds);
            && CountOf(t, 0, ReadKind) == 1 && CountOf(t, 0, SleptKind) == 1
            && CountOf(t, 1, ReadKind) == 1 && CountOf(t, 1, SleptKind) == 1
            && CountOf(t, 0, StoreKind) == 0 && CountOf(t, 1, StoreKind) == 1
            && forall e :: e in t && e.Store? ==> e.cycle == 1
  {
    var script := [Cycle(ReadRaised, unused), Cycle(ReadReturned(results), store)];
    CountInTrace(script, seconds, 0, ReadKind);
    CountInTrace(script, seconds, 0, SleptKind);
    CountInTrace(script, seconds, 1, ReadKind);
    CountInTrace(script, seconds, 1, SleptKind);
    CountInTrace(script, seconds, 0, StoreKind);
    CountInTrace(script, seconds, 1, StoreKind);
    forall e | e in Trace(script, seconds) && e.Store?
      ensures e.cycle == 1
    {
      InTraceIff(script, seconds, e);
    }
  }
}

/**
 * The `debounce(func, wait)` helper of src/content.js: every call clears the
 * timeout it captured and arms a new one, so a burst of calls ends in one call
 * of `func`, with the last call's arguments, `wait` milliseconds after it.
 */
module Debounce {
  import opened Basics

  /** The captured `timeout`: nothing scheduled, or the arguments of the last call and when they fall due. */
  datatype Timer<A> = Idle | Pending(args: A, due: int)

  /** `executedFunction(...args)` at time `now`: `clearTimeout(timeout); timeout = setTimeout(later, wait)`. */
  function Invoke<A>(t: Timer<A>, args: A, now: int, wait: nat): Timer<A>
  {
    Pending(args, now + wait)
  }

  /** The clock reaches `now`: a due `later` runs `func` with the arguments it holds, and nothing stays scheduled. */
  function Elapse<A>(t: Timer<A>, now: int): (Timer<A>, Option<A>)
  {
    if t.Pending? && t.due <= now then (Idle, Some(t.args)) else (t, None)
  }

  /** What happens to a debounced function: a call, or the clock advancing. */
  datatype Event<A> = Invoked(args: A, at: int) | Clock(at: int)

  /** The arguments `func` runs with when the clock shows `now`, if it runs. */
  function Delivered<A>(out: Option<A>): seq<A>
  {
    if out.Some? then [out.value] else []
  }

  /** The state of the timer after a run of events. */
  function Final<A>(t: Timer<A>, evs: seq<Event<A>>, wait: nat): Timer<A>
    decreases |evs|
  {
    if evs == [] then t
    else match evs[0]
      case Invoked(a, at) => Final(Invoke(t, a, at, wait), evs[1..], wait)
      case Clock(at) => Final(Elapse(t, at).0, evs[1..], wait)
  }

  /** The arguments `func` was run with, in order, over a run of events. */
  function Runs<A>(t: Timer<A>, evs: seq<Event<A>>, wait: nat): seq<A>
    decreases |evs|
  {
    if evs == [] then []
    else match evs[0]
      case Invoked(a, at) => Runs(Invoke(t, a, at, wait), evs[1..], wait)
      case Clock(at) => Delivered(Elapse(t, at).1) + Runs(Elapse(t, at).0, evs[1..], wait)
  }

  /** The number of calls among the events. */
  function Calls<A>(evs: seq<Event<A>>): nat
    decreases |evs|
  {
    if evs == [] then 0 else (if evs[0].Invoked? then 1 else 0) + Calls(evs[1..])
  }

  /** The last call among `evs`, which begin with a call. */
  function LastCall<A>(evs: seq<Event<A>>): (e: Event<A>)
    requires |evs| > 0 && evs[0].Invoked?
    ensures e.Invoked? && e in evs
    decreases |evs|
  {
    if evs[|evs| - 1].Invoked? then evs[|evs| - 1] else LastCall(evs[..|evs| - 1])
  }

  /**
   * A burst: calls, possibly with clock ticks between them, where every tick
   * comes before the deadline of the latest call before it.
   */
  predicate Quiet<A>(evs: seq<Event<A>>, wait: nat)
  {
    && |evs| > 0 && evs[0].Invoked?
    && forall i | 0 < i < |evs| && evs[i].Clock? :: evs[i].at < LastCall(evs[..i]).at + wait
  }

  /**
   * Every call cancels the one before it and a tick before the deadline
   * fires nothing: whatever was pending, a burst leaves exactly the last
   * call's arguments scheduled, `wait` after it, and runs `func` for none of
   * them.
   */
  lemma {:induction false} BurstKeepsLast<A>(t: Timer<A>, evs: seq<Event<A>>, wait: nat)
    requires Quiet(evs, wait)
    ensures Final(t, evs, wait) == Pending(LastCall(evs).args, LastCall(evs).at + wait)
    ensures Runs(t, evs, wait) == []
    decreases |evs|
  {
    var n := |evs| - 1;
    var pre, e := evs[..n], evs[n];
    assert evs == pre + [e];
    RunAppend(t, pre, [e], wait);
    if n == 0 {
      assert pre == [];
    } else {
      forall i | 0 < i < |pre| && pre[i].Clock? ensures pre[i].at < LastCall(pre[..i]).at + wait {
        assert pre[..i] == evs[..i];
      }
      BurstKeepsLast(t, pre, wait);
      var p := Final(t, pre, wait);
      if e.Clock? {
        assert Elapse(p, e.at) == (p, None);
      }
      assert [e][1..] == [];
    }
  }

  /** Running two event sequences one after the other is running their concatenation. */
  lemma {:induction false} RunAppend<A>(t: Timer<A>, evs: seq<Event<A>>, more: seq<Event<A>>, wait: nat)
    ensures Final(t, evs + more, wait) == Final(Final(t, evs, wait), more, wait)
    ensures Runs(t, evs + more, wait) == Runs(t, evs, wait) + Runs(Final(t, evs, wait), more, wait)
    decreases |evs|
  {
    if evs == [] {
      assert evs + more == more;
    } else {
      assert (evs + more)[0] == evs[0];
      assert (evs + more)[1..] == evs[1..] + more;
      match evs[0]
      case Invoked(a, at) =>
        RunAppend(Invoke(t, a, at, wait), evs[1..], more, wait);
      case Clock(at) =>
        var t1 := Elapse(t, at).0;
        RunAppend(t1, evs[1..], more, wait);
        assert Delivered(Elapse(t, at).1) + (Runs(t1, evs[1..], wait) + Runs(Final(t1, evs[1..], wait), more, wait))
            == (Delivered(Elapse(t, at).1) + Runs(t1, evs[1..], wait)) + Runs(Final(t1, evs[1..], wait), more, wait);
    }
  }

  /**
   * After a burst and a clock tick at least `wait` after its last call,
   * `func` has run exactly once, with the last call's arguments, nothing is
   * scheduled any more, and a further tick runs nothing.
   */
  lemma {:induction false} LastCallWins<A>(t: Timer<A>, evs: seq<Event<A>>, wait: nat, now: int, later: int)
    requires Quiet(evs, wait)
    requires now >= LastCall(evs).at + wait
    ensures Final(t, evs + [Clock(now)], wait) == Idle
    ensures Runs(t, evs + [Clock(now)], wait) == [LastCall(evs).args]
    ensures Runs(t, evs + [Clock(now), Clock(later)], wait) == [LastCall(evs).args]
  {
    var last := LastCall(evs);
    var p: Timer<A> := Pending(last.args, last.at + wait);
    BurstKeepsLast(t, evs, wait);
    var once: seq<Event<A>> := [Clock(now)];
    var twice: seq<Event<A>> := [Clock(now), Clock(later)];
    assert once[1..] == [];
    assert twice[1..] == [Clock(later)];
    assert twice[1..][1..] == [];
    assert Runs(Idle, twice[1..], wait) == [];
    RunAppend(t, evs, once, wait);
    RunAppend(t, evs, twice, wait);
  }

  /**
   * `func` never runs more often than the debounced function was called
   * (plus once for a call already pending at the start).
   */
  lemma {:induction false} AtMostOncePerCall<A>(t: Timer<A>, evs: seq<Event<A>>, wait: nat)
    ensures |Runs(t, evs, wait)| <= Calls(evs) + (if t.Pending? then 1 else 0)
    decreases |evs|
  {
    if evs != [] {
      match evs[0]
      case Invoked(a, at) =>
        AtMostOncePerCall(Invoke(t, a, at, wait), evs[1..], wait);
      case Clock(at) =>
        AtMostOncePerCall(Elapse(t, at).0, evs[1..], wait);
    }
  }
}

/**
 * The rate limiters of the web front end: `throttle` (calls made while
 * waiting are queued and released one per timer expiry),
 * `throttleAndDropSubsequent` (calls made while waiting are discarded) and
 * `debounce`. Each closure's captured variables become the fields of a
 * class; the wrapped function is recorded by appending its argument to
 * `invoked`, and a timer callback is a method the event loop calls once
 * per scheduled timer. Each method is tied to a step function on a value
 * of the state, and the lemmas follow those steps over whole runs.
 */
module WebUtils {
  import opened Wrappers
  import SeqUtil

  /** What happens to a limiter: the wrapper is called, or its pending timer fires. */
  datatype TimerEvent<P> = Call(arg: P) | Expire

  /** The arguments of the calls in a run, in order. */
  function Calls<P>(evs: seq<TimerEvent<P>>): seq<P>
    decreases |evs|
  {
    if |evs| == 0 then []
    else Calls(evs[..|evs| - 1]) + (if evs[|evs| - 1].Call? then [evs[|evs| - 1].arg] else [])
  }

  function Expiries<P>(evs: seq<TimerEvent<P>>): nat
    decreases |evs|
  {
    if |evs| == 0 then 0
    else Expiries(evs[..|evs| - 1]) + (if evs[|evs| - 1].Expire? then 1 else 0)
  }

  /** A run of calls only. */
  function CallsOf<P>(ps: seq<P>): (evs: seq<TimerEvent<P>>)
    ensures |evs| == |ps| && forall i :: 0 <= i < |ps| ==> evs[i] == Call(ps[i])
  {
    seq(|ps|, i requires 0 <= i < |ps| => Call(ps[i]))
  }

  // ---------------------------------------------------------------------
  // throttle(func, waitTime)
  // ---------------------------------------------------------------------

  /** The closure's state: the queued arguments, `isWaiting`, and the calls of func made. */
  datatype ThrottleState<P> = ThrottleState(queue: seq<P>, waiting: bool, invoked: seq<P>)

  /** Nothing is queued unless a timer is pending. */
  predicate ThrottleInv<P>(s: ThrottleState<P>) { !s.waiting ==> s.queue == [] }

  /** executeFunc: enter the waiting state and call func (the timer is scheduled by the caller's model). */
  function Execute<P>(s: ThrottleState<P>, p: P): ThrottleState<P> {
    s.(waiting := true, invoked := s.invoked + [p])
  }

  /** The returned wrapper: queue while waiting, otherwise execute at once. */
  function ThrottleCall<P>(s: ThrottleState<P>, p: P): ThrottleState<P> {
    if s.waiting then s.(queue := s.queue + [p]) else Execute(s, p)
  }

  /** play: stop waiting, then execute the oldest queued call if there is one. */
  function ThrottleExpire<P>(s: ThrottleState<P>): ThrottleState<P> {
    if |s.queue| > 0 then Execute(s.(queue := s.queue[1..]), s.queue[0])
    else s.(waiting := false)
  }

  /**
   * A run from state `s`. A timer fires only while one is pending, which
   * is exactly while waiting; an expiry at any other moment is no event.
   */
  function RunThrottle<P>(s: ThrottleState<P>, evs: seq<TimerEvent<P>>): ThrottleState<P>
    decreases |evs|
  {
    if |evs| == 0 then s
    else
      var t := RunThrottle(s, evs[..|evs| - 1]);
      match evs[|evs| - 1]
      case Call(p) => ThrottleCall(t, p)
      case Expire => if t.waiting then ThrottleExpire(t) else t
  }

  /** A call while idle runs func immediately and starts waiting. */
  lemma ThrottleIdleCallRunsNow<P>(s: ThrottleState<P>, p: P)
    requires !s.waiting
    ensures ThrottleCall(s, p).invoked == s.invoked + [p]
    ensures ThrottleCall(s, p).waiting && ThrottleCall(s, p).queue == s.queue
  {
  }

  /**
   * An expiry dispatches at most one queued call, the oldest; when the
   * queue is empty it clears waiting, so the next call runs immediately.
   */
  lemma ThrottleExpireStep<P>(s: ThrottleState<P>)
    requires ThrottleInv(s) && s.waiting
    ensures var t := ThrottleExpire(s);
      ThrottleInv(t)
      && (s.queue == [] ==> !t.waiting && t.invoked == s.invoked)
      && (s.queue != [] ==> t.waiting && t.invoked == s.invoked + [s.queue[0]] && t.queue == s.queue[1..])
  {
  }

  /**
   * No call is ever dropped or reordered: what func has received followed
   * by what is still queued is exactly the sequence of calls made.
   */
  lemma {:induction false} ThrottleKeepsEveryCall<P>(s: ThrottleState<P>, evs: seq<TimerEvent<P>>)
    requires ThrottleInv(s)
    ensures var t := RunThrottle(s, evs);
      ThrottleInv(t) && t.invoked + t.queue == s.invoked + s.queue + Calls(evs)
    decreases |evs|
  {
    if |evs| > 0 {
      var init := evs[..|evs| - 1];
      ThrottleKeepsEveryCall(s, init);
      var t := RunThrottle(s, init);
      match evs[|evs| - 1]
      case Call(p) =>
        ThrottleCallKeeps(t, p);
        SeqUtil.AppendAssoc(s.invoked + s.queue, Calls(init), [p]);
      case Expire =>
        if t.waiting {
          ThrottleExpireKeeps(t);
        }
        assert Calls(evs) == Calls(init) + [];
    }
  }

  /** A call adds its argument behind everything received or queued. */
  lemma ThrottleCallKeeps<P>(t: ThrottleState<P>, p: P)
    requires ThrottleInv(t)
    ensures ThrottleInv(ThrottleCall(t, p))
    ensures ThrottleCall(t, p).invoked + ThrottleCall(t, p).queue == t.invoked + t.queue + [p]
  {
    if t.waiting {
      SeqUtil.AppendAssoc(t.invoked, t.queue, [p]);
    }
  }

  /** An expiry moves at most the oldest queued call over to func, losing nothing. */
  lemma ThrottleExpireKeeps<P>(t: ThrottleState<P>)
    requires ThrottleInv(t) && t.waiting
    ensures ThrottleInv(ThrottleExpire(t))
    ensures ThrottleExpire(t).invoked + ThrottleExpire(t).queue == t.invoked + t.queue
  {
    if |t.queue| > 0 {
      assert t.queue == [t.queue[0]] + t.queue[1..];
      SeqUtil.AppendAssoc(t.invoked, [t.queue[0]], t.queue[1..]);
    }
  }

  /** Expiries with no further calls release the queue, one call each, then stop waiting. */
  lemma {:induction false} ThrottleDrains<P>(s: ThrottleState<P>, k: nat)
    requires ThrottleInv(s) && s.waiting && k == |s.queue| + 1
    ensures var t := RunThrottle(s, seq(k, _ => Expire));
      !t.waiting && t.queue == [] && t.invoked == s.invoked + s.queue
    decreases k
  {
    var evs: seq<TimerEvent<P>> := seq(k, _ => Expire);
    if s.queue == [] {
      assert evs[..0] == [];
    } else {
      var u := ThrottleExpire(s);
      ThrottleDrains(u, k - 1);
      var rest: seq<TimerEvent<P>> := seq(k - 1, _ => Expire);
      var one: seq<TimerEvent<P>> := [Expire];
      RunAppend(s, one, rest);
      assert one + rest == evs;
      assert RunThrottle(s, one) == u by {
        assert one[..0] == [];
      }
      assert s.queue == [s.queue[0]] + s.queue[1..];
    }
  }

  /** Running two pieces one after the other is running them together. */
  lemma {:induction false} RunAppend<P>(s: ThrottleState<P>, a: seq<TimerEvent<P>>, b: seq<TimerEvent<P>>)
    ensures RunThrottle(s, a + b) == RunThrottle(RunThrottle(s, a), b)
    decreases |b|
  {
    if |b| == 0 {
      assert a + b == a;
    } else {
      RunAppend(s, a, b[..|b| - 1]);
      assert (a + b)[..|a + b| - 1] == a + b[..|b| - 1];
    }
  }

  /** The throttle closure: `funcQueue`, `isWaiting` and the pending `play` timers. */
  class Throttle<P> {
    var funcQueue: seq<P>
    var isWaiting: bool
    var invoked: seq<P>
    var timers: nat

    function State(): ThrottleState<P>
      reads this
    {
      ThrottleState(funcQueue, isWaiting, invoked)
    }

    /** At most one `play` timer is pending, exactly while waiting. */
    predicate Valid()
      reads this
    {
      timers == (if isWaiting then 1 else 0) && ThrottleInv(State())
    }

    constructor ()
      ensures Valid() && State() == ThrottleState([], false, []) && timers == 0
    {
      funcQueue := [];
      isWaiting := false;
      invoked := [];
      timers := 0;
    }

    method ExecuteFunc(params: P)
      requires timers == 0
      modifies this
      ensures isWaiting && invoked == old(invoked) + [params] && timers == 1
      ensures funcQueue == old(funcQueue)
    {
      isWaiting := true;
      invoked := invoked + [params];
      timers := timers + 1;
    }

    /** The function throttle returns. */
    method Call(params: P)
      requires Valid()
      modifies this
      ensures Valid() && State() == ThrottleCall(old(State()), params)
    {
      if isWaiting {
        funcQueue := funcQueue + [params];
      } else {
        ExecuteFunc(params);
      }
    }

    /** `play`, run when the pending timer fires. */
    method Play()
      requires Valid() && timers > 0
      modifies this
      ensures Valid() && State() == ThrottleExpire(old(State()))
    {
      timers := timers - 1;
      isWaiting := false;
      if |funcQueue| > 0 {
        var params := funcQueue[0];
        funcQueue := funcQueue[1..];
        ExecuteFunc(params);
      }
    }
  }

  // ---------------------------------------------------------------------
  // throttleAndDropSubsequent(func, limit)
  // ---------------------------------------------------------------------

  datatype DropState<P> = DropState(inThrottle: bool, invoked: seq<P>)

  function DropCall<P>(s: DropState<P>, p: P): DropState<P> {
    if s.inThrottle then s else DropState(true, s.invoked + [p])
  }

  function DropExpire<P>(s: DropState<P>): DropState<P> {
    s.(inThrottle := false)
  }

  /** A run; the timer is pending exactly while `inThrottle` is set. */
  function RunDrop<P>(s: DropState<P>, evs: seq<TimerEvent<P>>): DropState<P>
    decreases |evs|
  {
    if |evs| == 0 then s
    else
      var t := RunDrop(s, evs[..|evs| - 1]);
      match evs[|evs| - 1]
      case Call(p) => DropCall(t, p)
      case Expire => if t.inThrottle then DropExpire(t) else t
  }

  /** Every call made inside the window is discarded. */
  lemma {:induction false} DropDiscardsWithinWindow<P>(s: DropState<P>, ps: seq<P>)
    requires s.inThrottle
    ensures RunDrop(s, CallsOf(ps)) == s
    decreases |ps|
  {
    if |ps| > 0 {
      DropDiscardsWithinWindow(s, ps[..|ps| - 1]);
      assert CallsOf(ps)[..|ps| - 1] == CallsOf(ps[..|ps| - 1]);
    }
  }

  /** A burst of calls from idle runs only its first call. */
  lemma DropBurstRunsFirst<P>(s: DropState<P>, ps: seq<P>)
    requires !s.inThrottle && |ps| >= 1
    ensures RunDrop(s, CallsOf(ps)).invoked == s.invoked + [ps[0]]
  {
    var first := DropCall(s, ps[0]);
    DropDiscardsWithinWindow(first, ps[1..]);
    DropRunAppend(s, [Call(ps[0])], CallsOf(ps[1..]));
    assert CallsOf(ps) == [Call(ps[0])] + CallsOf(ps[1..]);
    assert RunDrop(s, [Call(ps[0])]) == first by {
      assert [Call(ps[0])][..0] == [];
    }
  }

  /** Each window admits one call: func runs at most once more than the timer has fired. */
  lemma {:induction false} DropAtMostOnePerWindow<P>(s: DropState<P>, evs: seq<TimerEvent<P>>)
    ensures var t := RunDrop(s, evs);
      |t.invoked| + (if t.inThrottle then 0 else 1)
        <= |s.invoked| + (if s.inThrottle then 0 else 1) + Expiries(evs)
    decreases |evs|
  {
    if |evs| > 0 {
      DropAtMostOnePerWindow(s, evs[..|evs| - 1]);
    }
  }

  lemma {:induction false} DropRunAppend<P>(s: DropState<P>, a: seq<TimerEvent<P>>, b: seq<TimerEvent<P>>)
    ensures RunDrop(s, a + b) == RunDrop(RunDrop(s, a), b)
    decreases |b|
  {
    if |b| == 0 {
      assert a + b == a;
    } else {
      DropRunAppend(s, a, b[..|b| - 1]);
      assert (a + b)[..|a + b| - 1] == a + b[..|b| - 1];
    }
  }

  /** The throttleAndDropSubsequent closure: `inThrottle` and its reset timers. */
  class DropThrottle<P> {
    var inThrottle: bool
    var invoked: seq<P>
    var timers: nat

    function State(): DropState<P>
      reads this
    {
      DropState(inThrottle, invoked)
    }

    predicate Valid()
      reads this
    {
      timers == (if inThrottle then 1 else 0)
    }

    constructor ()
      ensures Valid() && State() == DropState(false, [])
    {
      inThrottle := false;
      invoked := [];
      timers := 0;
    }

    /** The function throttleAndDropSubsequent returns. */
    method Call(params: P)
      requires Valid()
      modifies this
      ensures Valid() && State() == DropCall(old(State()), params)
    {
      if !inThrottle {
        invoked := invoked + [params];
        inThrottle := true;
        timers := timers + 1;
      }
    }

    /** The timer callback that reopens the window. */
    method Reset()
      requires Valid() && timers > 0
      modifies this
      ensures Valid() && State() == DropExpire(old(State()))
    {
      timers := timers - 1;
      inThrottle := false;
    }
  }

  // ---------------------------------------------------------------------
  // debounce(func, wait, immediate)
  // ---------------------------------------------------------------------

  /**
   * The pending timeout, as the arguments its `later` callback captured,
   * and the calls of func made.
   */
  datatype DebounceState<P> = DebounceState(pending: Option<P>, invoked: seq<P>)

  /** The wrapper: calls at once only in immediate mode with nothing pending; always re-arms the timer. */
  function DebounceCall<P>(s: DebounceState<P>, p: P, immediate: bool): DebounceState<P> {
    var callNow := immediate && s.pending.None?;
    DebounceState(Some(p), if callNow then s.invoked + [p] else s.invoked)
  }

  /** `later`: clears the timeout; in trailing mode calls func with its captured arguments. */
  function DebounceExpire<P>(s: DebounceState<P>, immediate: bool): DebounceState<P> {
    match s.pending
    case None => s
    case Some(p) => DebounceState(None, if immediate then s.invoked else s.invoked + [p])
  }

  function RunDebounce<P>(s: DebounceState<P>, evs: seq<TimerEvent<P>>, immediate: bool): DebounceState<P>
    decreases |evs|
  {
    if |evs| == 0 then s
    else
      var t := RunDebounce(s, evs[..|evs| - 1], immediate);
      match evs[|evs| - 1]
      case Call(p) => DebounceCall(t, p, immediate)
      case Expire => DebounceExpire(t, immediate)
  }

  /**
   * During a burst of calls the pending timer carries the last call's
   * arguments; func runs only for the first call, and only in immediate
   * mode with nothing pending before the burst.
   */
  lemma {:induction false} DebounceBurst<P>(s: DebounceState<P>, ps: seq<P>, immediate: bool)
    requires |ps| >= 1
    ensures var t := RunDebounce(s, CallsOf(ps), immediate);
      t.pending == Some(ps[|ps| - 1])
      && t.invoked == s.invoked + (if immediate && s.pending.None? then [ps[0]] else [])
    decreases |ps|
  {
    if |ps| > 1 {
      DebounceBurst(s, ps[..|ps| - 1], immediate);
      assert CallsOf(ps)[..|ps| - 1] == CallsOf(ps[..|ps| - 1]);
    } else {
      assert CallsOf(ps)[..0] == [];
    }
  }

  /** Trailing mode: a burst followed by quiet time calls func once, with the last arguments. */
  lemma DebounceTrailing<P>(s: DebounceState<P>, ps: seq<P>)
    requires |ps| >= 1
    ensures var t := RunDebounce(s, CallsOf(ps) + [Expire], false);
      t.pending.None? && t.invoked == s.invoked + [ps[|ps| - 1]]
  {
    DebounceBurst(s, ps, false);
    assert (CallsOf(ps) + [Expire])[..|ps|] == CallsOf(ps);
  }

  /** Immediate mode: a burst from idle followed by quiet time calls func once, with the first arguments. */
  lemma DebounceImmediate<P>(s: DebounceState<P>, ps: seq<P>)
    requires |ps| >= 1 && s.pending.None?
    ensures var t := RunDebounce(s, CallsOf(ps) + [Expire], true);
      t.pending.None? && t.invoked == s.invoked + [ps[0]]
  {
    DebounceBurst(s, ps, true);
    assert (CallsOf(ps) + [Expire])[..|ps|] == CallsOf(ps);
  }

  /** The debounce closure: `timeout`, as the arguments of the callback it will run. */
  class Debounce<P> {
    const immediate: bool
    var timeout: Option<P>
    var invoked: seq<P>

    function State(): DebounceState<P>
      reads this
    {
      DebounceState(timeout, invoked)
    }

    constructor (immediate: bool)
      ensures this.immediate == immediate && State() == DebounceState(None, [])
    {
      this.immediate := immediate;
      timeout := None;
      invoked := [];
    }

    /** executedFunction: clear the old timeout, schedule `later`, and call now when due. */
    method Call(args: P)
      modifies this
      ensures State() == DebounceCall(old(State()), args, immediate)
    {
      var callNow := immediate && timeout.None?;
      timeout := Some(args);
      if callNow {
        invoked := invoked + [args];
      }
    }

    /** `later`, run when the pending timeout fires. */
    method Later()
      requires timeout.Some?
      modifies this
      ensures State() == DebounceExpire(old(State()), immediate)
    {
      var args := timeout.value;
      timeout := None;
      if !immediate {
        invoked := invoked + [args];
      }
    }
  }
}

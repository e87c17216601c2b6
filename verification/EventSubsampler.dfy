/** The rate limiter: events are posted at any time and passed on at a limited rate. */
module EventSubsampler {

  datatype State = Idle | CoolDown | PendingEvent

  datatype Event = Posted(at: nat) | TimedOut(at: nat)

  /** The limiter with its armed timers, and the history of posts and emissions. */
  datatype Machine = Machine(state: State, timers: seq<nat>, now: nat, posts: seq<nat>, emitted: seq<nat>)

  const START := Machine(Idle, [], 0, [], [])

  function Timeout(eventsPerSecond: nat): nat
    requires eventsPerSecond > 0
  {
    1000 / eventsPerSecond
  }

  function Emit(m: Machine, timeout: nat, at: nat): Machine {
    m.(state := CoolDown, timers := m.timers + [at + timeout], emitted := m.emitted + [at])
  }

  function Step(m: Machine, timeout: nat, e: Event): Machine {
    match e
    case Posted(at) =>
      var p := m.(now := at, posts := m.posts + [at]);
      (match p.state
       case Idle => Emit(p, timeout, at)
       case CoolDown => p.(state := PendingEvent)
       case PendingEvent => p)
    case TimedOut(at) =>
      var p := m.(now := at, timers := if m.timers == [] then [] else m.timers[1..]);
      if p.state == PendingEvent then Emit(p, timeout, at) else p.(state := Idle)
  }

  /** Time does not run backwards; a timer fires when it is due, at most `late` later, and nothing
      overtakes a timer that is later than that. */
  predicate Possible(m: Machine, late: nat, e: Event) {
    && e.at >= m.now
    && (forall k :: 0 <= k < |m.timers| ==> e.at <= m.timers[k] + late)
    && (e.TimedOut? ==> m.timers != [] && m.timers[0] <= e.at)
  }

  function Run(m: Machine, timeout: nat, es: seq<Event>): Machine
    decreases |es|
  {
    if es == [] then m else Run(Step(m, timeout, es[0]), timeout, es[1..])
  }

  predicate Schedule(m: Machine, timeout: nat, late: nat, es: seq<Event>)
    decreases |es|
  {
    es != [] ==> Possible(m, late, es[0]) && Schedule(Step(m, timeout, es[0]), timeout, late, es[1..])
  }

  function Last(m: Machine): nat
    requires m.emitted != []
  {
    m.emitted[|m.emitted| - 1]
  }

  predicate Spaced(m: Machine, timeout: nat) {
    forall i :: 0 <= i < |m.emitted| - 1 ==> m.emitted[i + 1] >= m.emitted[i] + timeout
  }

  /** The post has been answered by an emission in time. */
  ghost predicate Answered(m: Machine, within: nat, post: nat) {
    exists j :: 0 <= j < |m.emitted| && post <= m.emitted[j] <= post + within
  }

  ghost predicate AllAnswered(m: Machine, timeout: nat, late: nat) {
    forall k :: 0 <= k < |m.posts| ==>
      || Answered(m, timeout + late, m.posts[k])
      || (m.state == PendingEvent && m.timers != [] && m.timers[0] <= m.posts[k] + timeout)
  }

  ghost predicate Inv(m: Machine, timeout: nat, late: nat) {
    && |m.timers| == (if m.state == Idle then 0 else 1)
    && (m.emitted != [] ==> Last(m) <= m.now)
    && (m.state != Idle ==> m.emitted != [] && m.timers[0] == Last(m) + timeout && m.now <= m.timers[0] + late)
    && (m.state == Idle && m.emitted != [] ==> Last(m) + timeout <= m.now)
    && (forall k :: 0 <= k < |m.posts| ==> m.posts[k] <= m.now)
    && |m.emitted| + (if m.state == PendingEvent then 1 else 0) <= |m.posts|
    && Spaced(m, timeout)
    && AllAnswered(m, timeout, late)
  }

  lemma EmissionAnswers(m: Machine, n: Machine, timeout: nat, late: nat, at: nat)
    requires n.emitted == m.emitted + [at] && n.posts == m.posts && m.timers != []
    requires AllAnswered(m, timeout, late)
    requires at <= m.timers[0] + late && forall k :: 0 <= k < |m.posts| ==> m.posts[k] <= at
    ensures AllAnswered(n, timeout, late)
  {
    forall k | 0 <= k < |n.posts|
      ensures Answered(n, timeout + late, n.posts[k])
    {
      if Answered(m, timeout + late, m.posts[k]) {
        var j :| 0 <= j < |m.emitted| && m.posts[k] <= m.emitted[j] <= m.posts[k] + timeout + late;
        assert n.emitted[j] == m.emitted[j];
      } else {
        assert n.emitted[|m.emitted|] == at;
      }
    }
  }

  /** More emissions and more posts: what was answered stays answered. */
  lemma AnswersStay(m: Machine, n: Machine, within: nat, post: nat)
    requires Answered(m, within, post) && m.emitted <= n.emitted
    ensures Answered(n, within, post)
  {
    var j :| 0 <= j < |m.emitted| && post <= m.emitted[j] <= post + within;
    assert n.emitted[j] == m.emitted[j];
  }

  lemma StepKeeps(m: Machine, timeout: nat, late: nat, e: Event)
    requires Inv(m, timeout, late) && Possible(m, late, e)
    ensures Inv(Step(m, timeout, e), timeout, late)
  {
    hide AllAnswered, Answered;
    var n := Step(m, timeout, e);
    if e.Posted? {
      PostAnswers(m, timeout, late, e.at);
    } else if m.state == PendingEvent {
      EmissionAnswers(m, n, timeout, late, e.at);
    } else {
      IdleAnswers(m, n, timeout, late);
    }
  }

  lemma IdleAnswers(m: Machine, n: Machine, timeout: nat, late: nat)
    requires AllAnswered(m, timeout, late) && m.state != PendingEvent
    requires n.posts == m.posts && n.emitted == m.emitted
    ensures AllAnswered(n, timeout, late)
  {
    forall k | 0 <= k < |n.posts|
      ensures Answered(n, timeout + late, n.posts[k])
    {
      AnswersStay(m, n, timeout + late, m.posts[k]);
    }
  }

  lemma PostAnswers(m: Machine, timeout: nat, late: nat, at: nat)
    requires Inv(m, timeout, late) && Possible(m, late, Posted(at))
    ensures AllAnswered(Step(m, timeout, Posted(at)), timeout, late)
  {
    var n := Step(m, timeout, Posted(at));
    if m.state == Idle {
      assert n.emitted[|m.emitted|] == at;
    }
    forall k | 0 <= k < |n.posts|
      ensures Answered(n, timeout + late, n.posts[k])
           || (n.state == PendingEvent && n.timers != [] && n.timers[0] <= n.posts[k] + timeout)
    {
      if k < |m.posts| {
        assert n.posts[k] == m.posts[k];
        if Answered(m, timeout + late, m.posts[k]) {
          AnswersStay(m, n, timeout + late, m.posts[k]);
        }
      }
    }
  }

  lemma {:induction false} RunKeeps(m: Machine, timeout: nat, late: nat, es: seq<Event>)
    requires Inv(m, timeout, late) && Schedule(m, timeout, late, es)
    ensures Inv(Run(m, timeout, es), timeout, late)
    decreases |es|
  {
    if es != [] {
      StepKeeps(m, timeout, late, es[0]);
      RunKeeps(Step(m, timeout, es[0]), timeout, late, es[1..]);
    }
  }

  lemma {:induction false} SpacedOut(m: Machine, timeout: nat, i: nat, j: nat)
    requires Spaced(m, timeout) && i <= j < |m.emitted|
    ensures m.emitted[j] >= m.emitted[i] + (j - i) * timeout
    decreases j
  {
    if i < j {
      SpacedOut(m, timeout, i, j - 1);
      assert (j - i) * timeout == (j - 1 - i) * timeout + timeout;
    }
  }

  /** For every schedule of posts and any lateness of the timers: emissions keep their distance, there
      are no more of them than posts, a timer is armed unless the limiter is idle, and each post is
      followed by an emission within one timeout, or one timer is still to fire in that time. */
  lemma RateIsLimited(eventsPerSecond: nat, late: nat, es: seq<Event>)
    requires eventsPerSecond > 0
    requires Schedule(START, Timeout(eventsPerSecond), late, es)
    ensures var t := Timeout(eventsPerSecond); var m := Run(START, t, es);
      && (forall i, j :: 0 <= i <= j < |m.emitted| ==> m.emitted[j] >= m.emitted[i] + (j - i) * t)
      && |m.emitted| <= |m.posts|
      && |m.timers| == (if m.state == Idle then 0 else 1)
      && (m.timers != [] ==> m.now <= m.timers[0] + late)
      && forall k :: 0 <= k < |m.posts| ==>
           || Answered(m, t + late, m.posts[k])
           || (m.state == PendingEvent && m.timers[0] <= m.posts[k] + t)
  {
    var t := Timeout(eventsPerSecond);
    RunKeeps(START, t, late, es);
    var m := Run(START, t, es);
    forall i, j | 0 <= i <= j < |m.emitted|
      ensures m.emitted[j] >= m.emitted[i] + (j - i) * t
    {
      SpacedOut(m, t, i, j);
    }
  }

  /** No more than eventsPerSecond emissions within a second. */
  predicate KeepsRate(eventsPerSecond: nat, m: Machine) {
    forall i :: 0 <= i < |m.emitted| - eventsPerSecond ==> m.emitted[i + eventsPerSecond] >= m.emitted[i] + 1000
  }

  /** A post right after each emission. */
  function FullLoad(timeout: nat, at: nat, n: nat): seq<Event>
    decreases n
  {
    if n == 0 then [] else [TimedOut(at), Posted(at)] + FullLoad(timeout, at + timeout, n - 1)
  }

  lemma {:induction false} FullLoadEmits(m: Machine, timeout: nat, at: nat, n: nat)
    requires m.state == PendingEvent && m.timers == [at] && m.now <= at
    ensures Schedule(m, timeout, 0, FullLoad(timeout, at, n))
    ensures var e := Run(m, timeout, FullLoad(timeout, at, n)).emitted;
      && m.emitted <= e && |e| == |m.emitted| + n
      && (n > 0 ==> e[|e| - 1] == at + (n - 1) * timeout)
    decreases n
  {
    if n > 0 {
      hide Step, Possible;
      var m2 := Step(Step(m, timeout, TimedOut(at)), timeout, Posted(at));
      LoadedRound(m, timeout, at);
      FullLoadEmits(m2, timeout, at + timeout, n - 1);
      LoadedRest(m, timeout, at, FullLoad(timeout, at + timeout, n - 1));
      assert (n - 1) * timeout == timeout + (n - 2) * timeout;
    }
  }

  /** One emission under full load. */
  lemma LoadedRound(m: Machine, timeout: nat, at: nat)
    requires m.state == PendingEvent && m.timers == [at] && m.now <= at
    ensures Possible(m, 0, TimedOut(at)) && Possible(Step(m, timeout, TimedOut(at)), 0, Posted(at))
    ensures var m2 := Step(Step(m, timeout, TimedOut(at)), timeout, Posted(at));
      m2.state == PendingEvent && m2.timers == [at + timeout] && m2.now == at && m2.emitted == m.emitted + [at]
  {
  }

  lemma LoadedRest(m: Machine, timeout: nat, at: nat, es: seq<Event>)
    requires Possible(m, 0, TimedOut(at)) && Possible(Step(m, timeout, TimedOut(at)), 0, Posted(at))
    ensures var m2 := Step(Step(m, timeout, TimedOut(at)), timeout, Posted(at));
      && Run(m, timeout, [TimedOut(at), Posted(at)] + es) == Run(m2, timeout, es)
      && (Schedule(m2, timeout, 0, es) ==> Schedule(m, timeout, 0, [TimedOut(at), Posted(at)] + es))
  {
    hide Step, Possible;
    var all := [TimedOut(at), Posted(at)] + es;
    assert all[1..] == [Posted(at)] + es && all[1..][1..] == es;
  }

  lemma RateIsKept(eventsPerSecond: nat, late: nat, es: seq<Event>)
    requires eventsPerSecond > 0 && 1000 % eventsPerSecond == 0
    requires Schedule(START, Timeout(eventsPerSecond), late, es)
    ensures KeepsRate(eventsPerSecond, Run(START, Timeout(eventsPerSecond), es))
  {
    hide Run, Schedule;
    var t := Timeout(eventsPerSecond);
    WholeTimeouts(eventsPerSecond);
    RunKeeps(START, t, late, es);
    var m := Run(START, t, es);
    forall i | 0 <= i < |m.emitted| - eventsPerSecond
      ensures m.emitted[i + eventsPerSecond] >= m.emitted[i] + 1000
    {
      SpacedOut(m, t, i, i + eventsPerSecond);
    }
  }

  lemma WholeTimeouts(eventsPerSecond: nat)
    requires eventsPerSecond > 0
    ensures eventsPerSecond * Timeout(eventsPerSecond) + 1000 % eventsPerSecond == 1000
  {
  }

  lemma RateIsExceeded(eventsPerSecond: nat)
    requires eventsPerSecond > 0 && 1000 % eventsPerSecond != 0
    ensures exists es ::
      && Schedule(START, Timeout(eventsPerSecond), 0, es)
      && !KeepsRate(eventsPerSecond, Run(START, Timeout(eventsPerSecond), es))
  {
    var t := Timeout(eventsPerSecond);
    WholeTimeouts(eventsPerSecond);
    var load := FullLoad(t, t, eventsPerSecond);
    var m := TwoPosts(t, load);
    FullLoadEmits(m, t, t, eventsPerSecond);
    var es := [Posted(0), Posted(0)] + load;
    var e := Run(START, t, es).emitted;
    assert e[0] == m.emitted[0];
    assert e[0 + eventsPerSecond] == t + (eventsPerSecond - 1) * t == eventsPerSecond * t;
  }

  /** The state after two posts at once. */
  lemma TwoPosts(timeout: nat, load: seq<Event>) returns (m: Machine)
    ensures m == Machine(PendingEvent, [timeout], 0, [0, 0], [0])
    ensures Schedule(m, timeout, 0, load) ==> Schedule(START, timeout, 0, [Posted(0), Posted(0)] + load)
    ensures Run(START, timeout, [Posted(0), Posted(0)] + load) == Run(m, timeout, load)
  {
    var es := [Posted(0), Posted(0)] + load;
    assert es[1..][1..] == load && es[1..][0] == Posted(0);
    m := Step(Step(START, timeout, Posted(0)), timeout, Posted(0));
  }

  /** The rate the limiter is named after is kept on every schedule exactly if it divides a second
      into whole milliseconds; otherwise a full load exceeds it. */
  lemma PromisedRate(eventsPerSecond: nat)
    requires eventsPerSecond > 0
    ensures 1000 % eventsPerSecond == 0 <==>
      forall late: nat, es :: Schedule(START, Timeout(eventsPerSecond), late, es) ==>
        KeepsRate(eventsPerSecond, Run(START, Timeout(eventsPerSecond), es))
  {
    hide Run, Schedule, KeepsRate, Timeout;
    if 1000 % eventsPerSecond == 0 {
      forall late: nat, es | Schedule(START, Timeout(eventsPerSecond), late, es)
        ensures KeepsRate(eventsPerSecond, Run(START, Timeout(eventsPerSecond), es))
      {
        RateIsKept(eventsPerSecond, late, es);
      }
    } else {
      RateIsExceeded(eventsPerSecond);
    }
  }

  /** The limiter; `now` is the clock, timers and emissions go to the machine's history. */
  class EventSubsampler {
    const eventsPerSecond: nat
    var state: State
    var timers: seq<nat>
    var emitted: seq<nat>
    ghost var now: nat
    ghost var posts: seq<nat>

    constructor (eventsPerSecond: nat)
      requires eventsPerSecond > 0
      ensures AsMachine() == START && this.eventsPerSecond == eventsPerSecond
    {
      this.eventsPerSecond := eventsPerSecond;
      state, timers, emitted := Idle, [], [];
      now, posts := 0, [];
    }

    ghost function AsMachine(): Machine
      reads this
    {
      Machine(state, timers, now, posts, emitted)
    }

    method PostEvent(at: nat)
      requires eventsPerSecond > 0
      modifies this
      ensures AsMachine() == Step(old(AsMachine()), Timeout(eventsPerSecond), Posted(at))
    {
      now, posts := at, posts + [at];
      if state == Idle {
        var timeoutMs := 1000 / eventsPerSecond;
        timers := timers + [at + timeoutMs];
        state := CoolDown;
        emitted := emitted + [at];
      } else if state == CoolDown {
        state := PendingEvent;
      }
    }

    /** The armed timer fires. */
    method TimerTimeout(at: nat)
      requires eventsPerSecond > 0 && timers != []
      modifies this
      ensures AsMachine() == Step(old(AsMachine()), Timeout(eventsPerSecond), TimedOut(at))
    {
      now, timers := at, timers[1..];
      if state == PendingEvent {
        var timeoutMs := 1000 / eventsPerSecond;
        timers := timers + [at + timeoutMs];
        emitted := emitted + [at];
        state := CoolDown;
      } else {
        state := Idle;
      }
    }
  }
}

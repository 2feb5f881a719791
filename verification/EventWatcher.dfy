/** The watcher of new events: the goroutine that unpacks logs and forwards them to a sink until
  * unpacking fails, the subscription ends or the user quits.
  *
  * A schedule interleaves what the other parties do with the select cases the goroutine takes;
  * a case that is not ready when its turn comes is passed over.
  */
module EventWatcher {
  import opened Options
  import opened EventLog

  /** Where the goroutine stands: in the outer select, in the inner one with an event to
    * forward, or returned with an error or nil.
    */
  datatype Phase<L, P, E> =
    | Waiting
    | Offering(event: Event<L, P>)
    | Stopped(result: Option<E>)

  datatype State<L, P, E> = State(
    phase: Phase<L, P, E>,
    logs: seq<L>,
    end: Option<Option<E>>,
    quit: bool,
    sink: seq<Event<L, P>>,
    unsubscribed: nat)

  datatype Move<L, E> =
    | Arrive(log: L)
    | SubscriptionEnds(err: Option<E>)
    | UserQuits
    | TakeLog
    | Forward
    | TakeEnd
    | TakeQuit

  /** Returning runs the deferred `Unsubscribe`. */
  function Stop<L, P, E>(s: State<L, P, E>, result: Option<E>): State<L, P, E> {
    s.(phase := Stopped(result), unsubscribed := s.unsubscribed + 1)
  }

  function Step<L, P, E>(unpack: L -> Unpacked<P, E>, s: State<L, P, E>, m: Move<L, E>): State<L, P, E> {
    match m
    case Arrive(log) => s.(logs := s.logs + [log])
    case SubscriptionEnds(err) => if s.end.Some? then s else s.(end := Some(err))
    case UserQuits => s.(quit := true)
    case TakeLog =>
      if s.phase.Waiting? && s.logs != [] then
        var taken := s.(logs := s.logs[1..]);
        match unpack(s.logs[0])
        case Decoded(payload) => taken.(phase := Offering(Event(payload, Some(s.logs[0]))))
        case Undecodable(_, error) => Stop(taken, Some(error))
      else s
    case Forward =>
      if s.phase.Offering? then s.(phase := Waiting, sink := s.sink + [s.phase.event]) else s
    case TakeEnd =>
      if !s.phase.Stopped? && s.end.Some? then Stop(s, s.end.value) else s
    case TakeQuit =>
      if !s.phase.Stopped? && s.quit then Stop(s, None) else s
  }

  function Run<L, P, E>(unpack: L -> Unpacked<P, E>, s: State<L, P, E>, schedule: seq<Move<L, E>>): State<L, P, E>
    decreases |schedule|
  {
    if schedule == [] then s else Run(unpack, Step(unpack, s, schedule[0]), schedule[1..])
  }

  /** What the other parties do, as opposed to the goroutine's own select cases. */
  predicate FromOutside<L, E>(m: Move<L, E>) {
    m.Arrive? || m.SubscriptionEnds? || m.UserQuits?
  }

  class Watcher<L, P, E> {
    const unpack: L -> Unpacked<P, E>
    var logs: seq<L>
    var end: Option<Option<E>>
    var quit: bool
    var sink: seq<Event<L, P>>
    var unsubscribed: nat
    // where the goroutine stands; the code keeps this in its control flow
    ghost var phase: Phase<L, P, E>

    ghost function View(): State<L, P, E>
      reads this
    {
      State(phase, logs, end, quit, sink, unsubscribed)
    }

    constructor (unpack: L -> Unpacked<P, E>)
      ensures this.unpack == unpack && View() == Fresh()
      ensures phase.Waiting? && logs == [] && end.None? && !quit && sink == [] && unsubscribed == 0
    {
      this.unpack := unpack;
      phase, logs, end, quit, sink, unsubscribed := Waiting, [], None, false, [], 0;
    }

    /** The goroutine, for any finite stretch of its schedule from its start. The result is what
      * it has returned, if it has.
      */
    method Watch(schedule: seq<Move<L, E>>) returns (result: Option<Option<E>>)
      requires phase.Waiting?
      modifies this
      ensures View() == Run(unpack, old(View()), schedule)
      ensures result == if phase.Stopped? then Some(phase.result) else None
    {
      result := None;
      var i := 0;
      while i < |schedule| && result.None?
        invariant 0 <= i <= |schedule|
        invariant Run(unpack, View(), schedule[i..]) == Run(unpack, old(View()), schedule)
        invariant result == if phase.Stopped? then Some(phase.result) else None
        invariant phase.Offering? ==> i == |schedule|
      {
        hide Run;
        RunOne(unpack, View(), schedule, i);
        match schedule[i] {
          case TakeLog =>
            i := i + 1;
            if logs != [] {
              var log := logs[0];
              logs := logs[1..];
              match unpack(log) {
                case Undecodable(_, error) =>
                  result := Return(Some(error));
                case Decoded(payload) =>
                  var event := Event(payload, Some(log));
                  phase := Offering(event);
                  i, result := Offer(event, schedule, i);
              }
            }
          case TakeEnd =>
            if end.Some? {
              result := Return(end.value);
            }
            i := i + 1;
          case TakeQuit =>
            if quit {
              result := Return(None);
            }
            i := i + 1;
          case _ =>
            Observe(schedule[i]);
            i := i + 1;
        }
      }
      AfterReturn(schedule, i);
    }

    /** The inner select, entered with an event to forward: it is left when the sink takes the
      * event or the goroutine returns.
      */
    method Offer(event: Event<L, P>, schedule: seq<Move<L, E>>, start: nat)
      returns (i: nat, result: Option<Option<E>>)
      requires start <= |schedule| && phase == Offering(event)
      modifies this
      ensures start <= i <= |schedule|
      ensures Run(unpack, View(), schedule[i..]) == Run(unpack, old(View()), schedule[start..])
      ensures result == if phase.Stopped? then Some(phase.result) else None
      ensures phase.Offering? ==> i == |schedule|
    {
      i, result := start, None;
      while i < |schedule|
        invariant start <= i <= |schedule|
        invariant Run(unpack, View(), schedule[i..]) == Run(unpack, old(View()), schedule[start..])
        invariant phase == Offering(event) && result.None?
      {
        hide Run;
        RunOne(unpack, View(), schedule, i);
        match schedule[i] {
          case Forward =>
            sink := sink + [event];
            phase := Waiting;
            i := i + 1;
            return;
          case TakeEnd =>
            i := i + 1;
            if end.Some? {
              result := Return(end.value);
              return;
            }
          case TakeQuit =>
            i := i + 1;
            if quit {
              result := Return(None);
              return;
            }
          case _ =>
            Observe(schedule[i]);
            i := i + 1;
        }
      }
    }

    /** The rest of a schedule happens without the goroutine. */
    method AfterReturn(schedule: seq<Move<L, E>>, start: nat)
      requires start <= |schedule| && (start < |schedule| ==> phase.Stopped?)
      modifies this`logs, this`end, this`quit
      ensures View() == Run(unpack, old(View()), schedule[start..])
    {
      var i := start;
      while i < |schedule|
        invariant start <= i <= |schedule|
        invariant Run(unpack, View(), schedule[i..]) == Run(unpack, old(View()), schedule[start..])
      {
        RunOne(unpack, View(), schedule, i);
        Observe(schedule[i]);
        i := i + 1;
      }
    }

    /** The other parties act; a case that the current select does not have is passed over. */
    method Observe(m: Move<L, E>)
      requires FromOutside(m) || (phase.Waiting? && m.Forward?) || (phase.Offering? && m.TakeLog?) || phase.Stopped?
      modifies this`logs, this`end, this`quit
      ensures View() == Step(unpack, old(View()), m)
    {
      match m {
        case Arrive(log) =>
          logs := logs + [log];
        case SubscriptionEnds(err) =>
          if end.None? {
            end := Some(err);
          }
        case UserQuits =>
          quit := true;
        case _ =>
      }
    }

    /** Returning runs the deferred `Unsubscribe`. */
    method Return(value: Option<E>) returns (result: Option<Option<E>>)
      modifies this`phase, this`unsubscribed
      ensures View() == Stop(old(View()), value)
      ensures result == Some(value)
    {
      unsubscribed := unsubscribed + 1;
      phase := Stopped(value);
      result := Some(value);
    }
  }

  lemma RunOne<L, P, E>(unpack: L -> Unpacked<P, E>, s: State<L, P, E>, schedule: seq<Move<L, E>>, i: nat)
    requires i < |schedule|
    ensures Run(unpack, s, schedule[i..]) == Run(unpack, Step(unpack, s, schedule[i]), schedule[i + 1..])
  {
    assert schedule[i..][1..] == schedule[i + 1..];
  }

  function Fresh<L, P, E>(): State<L, P, E> {
    State(Waiting, [], None, false, [], 0)
  }

  // ----- what every interleaving keeps -----

  /** The logs that have arrived over a schedule. */
  function Arrivals<L, E>(schedule: seq<Move<L, E>>): seq<L> {
    if schedule == [] then []
    else (if schedule[0].Arrive? then [schedule[0].log] else []) + Arrivals(schedule[1..])
  }

  /** The sink has the images of all consumed logs. */
  ghost predicate Caught<L, P, E>(unpack: L -> Unpacked<P, E>, consumed: seq<L>, sink: seq<Event<L, P>>) {
    AllDecodable(unpack, consumed) && sink == Images(unpack, consumed)
  }

  /** The sink has the images of all consumed logs but the last. */
  ghost predicate OneBehind<L, P, E>(unpack: L -> Unpacked<P, E>, consumed: seq<L>, sink: seq<Event<L, P>>) {
    consumed != [] && Caught(unpack, Front(consumed), sink)
  }

  /** How the sink, the consumed logs and the way out go together in each phase. */
  ghost predicate Safe<L, P, E>(unpack: L -> Unpacked<P, E>, s: State<L, P, E>, arrived: seq<L>) {
    && Queued(arrived, s.logs)
    && var consumed := Consumed(arrived, s.logs);
       match s.phase
       case Waiting => s.unsubscribed == 0 && Caught(unpack, consumed, s.sink)
       case Offering(event) =>
         && s.unsubscribed == 0
         && OneBehind(unpack, consumed, s.sink)
         && unpack(Last(consumed)).Decoded?
         && event == Image(unpack, Last(consumed))
       case Stopped(result) =>
         && s.unsubscribed == 1
         && if OneBehind(unpack, consumed, s.sink) && unpack(Last(consumed)).Undecodable?
            then result == Some(unpack(Last(consumed)).error)
            else
              && (|| Caught(unpack, consumed, s.sink)
                  || (OneBehind(unpack, consumed, s.sink) && unpack(Last(consumed)).Decoded?))
              && ((s.quit && result == None) || s.end == Some(result))
  }

  lemma TakeLogSafe<L, P, E>(unpack: L -> Unpacked<P, E>, s: State<L, P, E>, arrived: seq<L>)
    requires Safe(unpack, s, arrived) && s.phase.Waiting? && s.logs != []
    ensures Safe(unpack, Step(unpack, s, TakeLog), arrived)
  {
    var consumed := Consumed(arrived, s.logs);
    ReceiveConsumes(arrived, s.logs);
    assert Front(consumed + [s.logs[0]]) == consumed;
  }

  lemma ForwardSafe<L, P, E>(unpack: L -> Unpacked<P, E>, s: State<L, P, E>, arrived: seq<L>)
    requires Safe(unpack, s, arrived) && s.phase.Offering?
    ensures Safe(unpack, Step(unpack, s, Forward), arrived)
  {
    var consumed := Consumed(arrived, s.logs);
    assert consumed == Front(consumed) + [Last(consumed)];
    ImagesAppend(unpack, Front(consumed), Last(consumed));
  }

  lemma StopSafe<L, P, E>(unpack: L -> Unpacked<P, E>, s: State<L, P, E>, arrived: seq<L>, result: Option<E>)
    requires Safe(unpack, s, arrived) && !s.phase.Stopped?
    requires (s.quit && result == None) || s.end == Some(result)
    ensures Safe(unpack, Stop(s, result), arrived)
  {
    hide Images;
    var consumed := Consumed(arrived, s.logs);
    if s.phase.Waiting? && consumed != [] {
      assert unpack(Last(consumed)).Decoded?;
    }
  }

  lemma StepSafe<L, P, E>(unpack: L -> Unpacked<P, E>, s: State<L, P, E>, arrived: seq<L>, m: Move<L, E>)
    requires Safe(unpack, s, arrived)
    ensures Safe(unpack, Step(unpack, s, m), arrived + Arrivals([m]))
  {
    hide Images, Caught;
    assert Arrivals([m]) == if m.Arrive? then [m.log] else [];
    SendQueues(arrived, s.logs, Arrivals([m]));
    assert !m.Arrive? ==> arrived + Arrivals([m]) == arrived;
    match m {
      case TakeLog =>
        if s.phase.Waiting? && s.logs != [] {
          TakeLogSafe(unpack, s, arrived);
        }
      case Forward =>
        if s.phase.Offering? {
          ForwardSafe(unpack, s, arrived);
        }
      case TakeEnd =>
        if !s.phase.Stopped? && s.end.Some? {
          StopSafe(unpack, s, arrived, s.end.value);
        }
      case TakeQuit =>
        if !s.phase.Stopped? && s.quit {
          StopSafe(unpack, s, arrived, None);
        }
      case _ =>
    }
  }

  lemma NoArrivals<L, E>()
    ensures Arrivals<L, E>([]) == []
  {
  }

  lemma ArrivalsSplit<L, E>(schedule: seq<Move<L, E>>)
    requires schedule != []
    ensures Arrivals(schedule) == Arrivals([schedule[0]]) + Arrivals(schedule[1..])
  {
    assert Arrivals([schedule[0]]) == if schedule[0].Arrive? then [schedule[0].log] else [];
  }

  lemma {:induction false} RunSafe<L, P, E>(unpack: L -> Unpacked<P, E>, s: State<L, P, E>, arrived: seq<L>,
                                            schedule: seq<Move<L, E>>)
    requires Safe(unpack, s, arrived)
    ensures Safe(unpack, Run(unpack, s, schedule), arrived + Arrivals(schedule))
    decreases |schedule|
  {
    hide Safe, Step, Arrivals;
    if schedule == [] {
      assert Arrivals(schedule) == [] && arrived + [] == arrived by { NoArrivals<L, E>(); }
    } else {
      var m, rest := schedule[0], schedule[1..];
      StepSafe(unpack, s, arrived, m);
      RunSafe(unpack, Step(unpack, s, m), arrived + Arrivals([m]), rest);
      ArrivalsSplit(schedule);
      assert arrived + Arrivals([m]) + Arrivals(rest) == arrived + (Arrivals([m]) + Arrivals(rest));
    }
  }

  /** Over every interleaving: the sink has received the in-order images of a prefix of the
    * logs that arrived; it is at most one behind what was consumed, and not behind at the head
    * of the outer loop; the subscription is cancelled exactly once, on returning.
    */
  lemma WatcherSafety<L, P, E>(unpack: L -> Unpacked<P, E>, schedule: seq<Move<L, E>>)
    ensures var s := Run(unpack, Fresh(), schedule);
            var arrived := Arrivals(schedule);
            && Safe(unpack, s, arrived)
            && |s.sink| <= |arrived| && s.sink == Images(unpack, arrived[..|s.sink|])
            && |s.sink| + |s.logs| <= |arrived| <= |s.sink| + |s.logs| + 1
            && (s.phase.Waiting? ==> |arrived| == |s.sink| + |s.logs|)
            && s.unsubscribed == (if s.phase.Stopped? then 1 else 0)
  {
    assert Safe(unpack, Fresh(), []);
    RunSafe(unpack, Fresh(), [], schedule);
    var s, arrived := Run(unpack, Fresh(), schedule), Arrivals(schedule);
    assert [] + arrived == arrived;
    var consumed := Consumed(arrived, s.logs);
    if |s.sink| < |consumed| {
      assert Front(consumed) == arrived[..|s.sink|];
    }
  }

  // ----- exits -----

  /** What the subscription ended with first, if it has ended. */
  function FirstEnd<L, E>(schedule: seq<Move<L, E>>): Option<Option<E>> {
    if schedule == [] then None
    else if schedule[0].SubscriptionEnds? then Some(schedule[0].err)
    else FirstEnd(schedule[1..])
  }

  predicate QuitRequested<L, E>(schedule: seq<Move<L, E>>) {
    exists i :: 0 <= i < |schedule| && schedule[i].UserQuits?
  }

  /** The signals to leave stay ready from the moment they are given. */
  lemma {:induction false} SignalsKept<L, P, E>(unpack: L -> Unpacked<P, E>, s: State<L, P, E>,
                                               schedule: seq<Move<L, E>>)
    ensures var s' := Run(unpack, s, schedule);
            && (s'.quit <==> s.quit || QuitRequested(schedule))
            && s'.end == if s.end.Some? then s.end else FirstEnd(schedule)
    decreases |schedule|
  {
    if schedule == [] {
    } else {
      var rest := schedule[1..];
      SignalsKept(unpack, Step(unpack, s, schedule[0]), rest);
      if schedule[0].UserQuits? {
        assert QuitRequested(schedule);
      } else if i :| 0 <= i < |schedule| && schedule[i].UserQuits? {
        assert rest[i - 1].UserQuits?;
      }
      if j :| 0 <= j < |rest| && rest[j].UserQuits? {
        assert schedule[j + 1].UserQuits?;
      }
    }
  }

  /** Every way out is taken when its turn comes, from either select of every reachable running
    * watcher, and only when its signal has been given: quitting returns nil, the end of the
    * subscription returns what it first ended with, and a log that does not unpack is consumed
    * and returns its error. Each cancels the subscription once and leaves the sink alone.
    */
  lemma ExitsTaken<L, P, E>(unpack: L -> Unpacked<P, E>, schedule: seq<Move<L, E>>)
    requires !Run(unpack, Fresh(), schedule).phase.Stopped?
    ensures var s := Run(unpack, Fresh(), schedule);
            && Run(unpack, Fresh(), schedule + [TakeQuit])
               == (if QuitRequested(schedule) then s.(phase := Stopped(None), unsubscribed := 1) else s)
            && Run(unpack, Fresh(), schedule + [TakeEnd])
               == (if FirstEnd(schedule).Some?
                   then s.(phase := Stopped(FirstEnd(schedule).value), unsubscribed := 1) else s)
            && (s.phase.Waiting? && s.logs != [] && unpack(s.logs[0]).Undecodable? ==>
                  Run(unpack, Fresh(), schedule + [TakeLog])
                  == s.(phase := Stopped(Some(unpack(s.logs[0]).error)), logs := s.logs[1..], unsubscribed := 1))
  {
    var init: State<L, P, E> := Fresh();
    var s := Run(unpack, init, schedule);
    WatcherSafety(unpack, schedule);
    SignalsKept(unpack, init, schedule);
    RunLast(unpack, init, schedule, TakeQuit);
    RunLast(unpack, init, schedule, TakeEnd);
    RunLast(unpack, init, schedule, TakeLog);
  }

  /** In particular the user, and the subscription, can stop a running watcher at any time. */
  lemma CanBeStopped<L, P, E>(unpack: L -> Unpacked<P, E>, schedule: seq<Move<L, E>>, err: Option<E>)
    requires !Run(unpack, Fresh(), schedule).phase.Stopped?
    ensures Run(unpack, Fresh(), schedule + [UserQuits] + [TakeQuit]).phase == Stopped(None)
    ensures FirstEnd(schedule).None? ==>
              Run(unpack, Fresh(), schedule + [SubscriptionEnds(err)] + [TakeEnd]).phase == Stopped(err)
  {
    var init: State<L, P, E> := Fresh();
    SignalsKept(unpack, init, schedule);
    RunLast(unpack, init, schedule, UserQuits);
    RunLast(unpack, init, schedule + [UserQuits], TakeQuit);
    RunLast(unpack, init, schedule, SubscriptionEnds(err));
    RunLast(unpack, init, schedule + [SubscriptionEnds(err)], TakeEnd);
  }

  lemma RunLast<L, P, E>(unpack: L -> Unpacked<P, E>, s: State<L, P, E>, schedule: seq<Move<L, E>>, m: Move<L, E>)
    ensures Run(unpack, s, schedule + [m]) == Step(unpack, Run(unpack, s, schedule), m)
  {
    hide Step;
    RunJoin(unpack, s, schedule, [m]);
    var s' := Run(unpack, s, schedule);
    assert [m][0] == m && [m][1..] == [];
    assert Run(unpack, s', [m]) == Run(unpack, Step(unpack, s', m), []);
  }

  /** After returning, the sink, the result and the cancellation stay as they are. */
  lemma {:induction false} StoppedIsFinal<L, P, E>(unpack: L -> Unpacked<P, E>, s: State<L, P, E>,
                                                   schedule: seq<Move<L, E>>)
    requires s.phase.Stopped?
    ensures var s' := Run(unpack, s, schedule);
            s'.phase == s.phase && s'.sink == s.sink && s'.unsubscribed == s.unsubscribed
    decreases |schedule|
  {
    if schedule == [] {
    } else {
      StoppedIsFinal(unpack, Step(unpack, s, schedule[0]), schedule[1..]);
    }
  }

  // ----- delivery -----

  /** No exit is taken. */
  predicate Uninterrupted<L, E>(schedule: seq<Move<L, E>>) {
    forall i :: 0 <= i < |schedule| ==> !schedule[i].TakeEnd? && !schedule[i].TakeQuit?
  }

  /** The events still to come from what the watcher holds: the one on offer, then the queue. */
  function Pending<L, P, E>(unpack: L -> Unpacked<P, E>, s: State<L, P, E>): seq<Event<L, P>> {
    (if s.phase.Offering? then [s.phase.event] else []) + Images(unpack, s.logs)
  }

  /** A running watcher that holds no log it cannot unpack. */
  ghost predicate Healthy<L, P, E>(unpack: L -> Unpacked<P, E>, s: State<L, P, E>) {
    !s.phase.Stopped? && AllDecodable(unpack, s.logs)
  }

  lemma StepDelivers<L, P, E>(unpack: L -> Unpacked<P, E>, s: State<L, P, E>, m: Move<L, E>)
    requires Healthy(unpack, s) && !m.TakeEnd? && !m.TakeQuit?
    requires m.Arrive? ==> unpack(m.log).Decoded?
    ensures var s' := Step(unpack, s, m);
            && Healthy(unpack, s')
            && s'.sink + Pending(unpack, s')
               == s.sink + Pending(unpack, s) + (if m.Arrive? then [Image(unpack, m.log)] else [])
  {
    hide Images, AllDecodable;
    match m {
      case Arrive(log) =>
        ImagesAppend(unpack, s.logs, log);
        DecodableAppend(unpack, s.logs, log);
      case TakeLog =>
        if s.phase.Waiting? && s.logs != [] {
          ImagesCons(unpack, s.logs);
          DecodableCons(unpack, s.logs);
        }
      case _ =>
    }
  }

  /** While no exit is taken and everything unpacks, what the sink has and what is still pending
    * make up, in order, what they were at first and the images of the arrivals since.
    */
  lemma {:induction false} RunDelivers<L, P, E>(unpack: L -> Unpacked<P, E>, s: State<L, P, E>,
                                               schedule: seq<Move<L, E>>)
    requires Healthy(unpack, s) && Uninterrupted(schedule)
    requires AllDecodable(unpack, Arrivals(schedule))
    ensures var s' := Run(unpack, s, schedule);
            && Healthy(unpack, s')
            && s'.sink + Pending(unpack, s')
               == s.sink + Pending(unpack, s) + Images(unpack, Arrivals(schedule))
    decreases |schedule|
  {
    hide Step, Healthy, Pending, Images;
    if schedule == [] {
      NoImages(unpack);
    } else {
      var m, rest := schedule[0], schedule[1..];
      var now := if m.Arrive? then [m.log] else [];
      assert Arrivals(schedule) == now + Arrivals(rest);
      ArrivalsDecodable(unpack, now, Arrivals(rest));
      StepDelivers(unpack, s, m);
      RunDelivers(unpack, Step(unpack, s, m), rest);
      ImagesJoin(unpack, now, Arrivals(rest));
      NoImages(unpack);
      if m.Arrive? {
        OneImage(unpack, m.log);
      }
    }
  }

  lemma ArrivalsDecodable<L, P, E>(unpack: L -> Unpacked<P, E>, now: seq<L>, later: seq<L>)
    requires AllDecodable(unpack, now + later)
    ensures AllDecodable(unpack, now) && AllDecodable(unpack, later)
    ensures |now| == 1 ==> unpack(now[0]).Decoded?
  {
    var all := now + later;
    assert forall i :: 0 <= i < |now| ==> now[i] == all[i];
    assert forall i :: 0 <= i < |later| ==> later[i] == all[|now| + i];
  }

  /** Room in the sink, n times over. */
  function Deliveries<L, E>(n: nat): seq<Move<L, E>> {
    if n == 0 then [] else [TakeLog, Forward] + Deliveries(n - 1)
  }

  /** From any point of its loop, enough turns empty what the watcher holds into the sink. */
  lemma {:induction false} DeliveriesEmpty<L, P, E>(unpack: L -> Unpacked<P, E>, s: State<L, P, E>, n: nat)
    requires Healthy(unpack, s) && n >= |Pending(unpack, s)|
    ensures Run(unpack, s, Deliveries(n))
         == s.(phase := Waiting, logs := [], sink := s.sink + Pending(unpack, s))
    decreases n
  {
    if n == 0 {
      assert s.sink + Pending(unpack, s) == s.sink;
    } else {
      var moves := Deliveries<L, E>(n);
      assert moves == [TakeLog, Forward] + Deliveries<L, E>(n - 1);
      var taken := Step(unpack, s, TakeLog);
      var next := Step(unpack, taken, Forward);
      RunOne(unpack, s, moves, 0);
      RunOne(unpack, taken, moves, 1);
      assert moves[0..] == moves && moves[2..] == Deliveries<L, E>(n - 1);
      StepDelivers(unpack, s, TakeLog);
      StepDelivers(unpack, taken, Forward);
      assert s.sink + Pending(unpack, s) + [] == s.sink + Pending(unpack, s);
      TurnShrinks(unpack, s);
      DeliveriesEmpty(unpack, next, n - 1);
    }
  }

  lemma TurnShrinks<L, P, E>(unpack: L -> Unpacked<P, E>, s: State<L, P, E>)
    requires Healthy(unpack, s)
    ensures var next := Step(unpack, Step(unpack, s, TakeLog), Forward);
            && next == s.(phase := Waiting, logs := next.logs, sink := next.sink)
            && (s.phase.Waiting? && s.logs == [] ==> next == s)
            && (s.phase.Offering? || s.logs != [] ==> |Pending(unpack, next)| == |Pending(unpack, s)| - 1)
  {
  }

  /** A watcher that takes no exit delivers everything: after any such schedule, from any point
    * of its loop, with any arrivals that unpack, enough further turns leave the queue empty and
    * the sink with the images, in order, of all that was pending or arrived.
    */
  lemma DeliversAll<L, P, E>(unpack: L -> Unpacked<P, E>, s: State<L, P, E>, schedule: seq<Move<L, E>>, n: nat)
    requires Healthy(unpack, s) && Uninterrupted(schedule)
    requires AllDecodable(unpack, Arrivals(schedule))
    requires n >= |Pending(unpack, s)| + |Arrivals(schedule)|
    ensures var s' := Run(unpack, s, schedule + Deliveries(n));
            && s'.phase.Waiting? && s'.logs == []
            && s'.sink == s.sink + Pending(unpack, s) + Images(unpack, Arrivals(schedule))
  {
    hide Step, Healthy, Pending, Images;
    var mid := Run(unpack, s, schedule);
    RunDelivers(unpack, s, schedule);
    SinkGrows(unpack, s, schedule);
    DeliveriesEmpty(unpack, mid, n);
    RunJoin(unpack, s, schedule, Deliveries(n));
  }

  /** What the sink has received is never taken back. */
  lemma {:induction false} SinkGrows<L, P, E>(unpack: L -> Unpacked<P, E>, s: State<L, P, E>,
                                             schedule: seq<Move<L, E>>)
    ensures s.sink <= Run(unpack, s, schedule).sink
    decreases |schedule|
  {
    if schedule == [] {
    } else {
      SinkGrows(unpack, Step(unpack, s, schedule[0]), schedule[1..]);
    }
  }

  lemma {:induction false} RunJoin<L, P, E>(unpack: L -> Unpacked<P, E>, s: State<L, P, E>,
                                           first: seq<Move<L, E>>, second: seq<Move<L, E>>)
    ensures Run(unpack, s, first + second) == Run(unpack, Run(unpack, s, first), second)
    decreases |first|
  {
    hide Step;
    if first == [] {
      assert first + second == second;
    } else {
      assert (first + second)[0] == first[0] && (first + second)[1..] == first[1..] + second;
      RunJoin(unpack, Step(unpack, s, first[0]), first[1..], second);
    }
  }
}

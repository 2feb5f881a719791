/** The iterator over past events. Its nine copies in the binding differ only in the event
  * type; `unpack` stands for that type's unpacking.
  *
  * The other goroutines appear as parameters: which ready case a `select` picks, and which
  * logs arrive between the two selects of one call. All schedules are all values of these.
  */
module EventIterator {
  import opened Options
  import opened EventLog

  /** The iterator with its two channels: `logs` waiting to be received, and `end`, the value
    * ready on the subscription's error channel (`Some(None)` is a nil error).
    */
  datatype State<L, P, E> = State(
    event: Option<Event<L, P>>,
    logs: seq<L>,
    end: Option<Option<E>>,
    done: bool,
    fail: Option<E>)

  /** What a call has come to: still blocked in its select, to be scheduled again, or returned. */
  datatype Answer = Blocked | Returned(more: bool)

  /** Receiving the front log: the event is replaced, and kept complete only if it unpacks. */
  function Receive<L, P, E>(unpack: L -> Unpacked<P, E>, s: State<L, P, E>): (State<L, P, E>, Answer)
    requires s.logs != []
  {
    var log := s.logs[0];
    match unpack(log)
    case Decoded(payload) =>
      (s.(event := Some(Event(payload, Some(log))), logs := s.logs[1..]), Returned(true))
    case Undecodable(payload, error) =>
      (s.(event := Some(Event(payload, None)), logs := s.logs[1..], fail := Some(error)), Returned(false))
  }

  /** One call of `Next`. When both channels are ready, `preferEnd` says which one the select
    * picks; `late` arrives after the end was received and before the recursive call's select.
    */
  function NextStep<L, P, E>(unpack: L -> Unpacked<P, E>, s: State<L, P, E>, preferEnd: bool, late: seq<L>)
    : (State<L, P, E>, Answer)
    decreases !s.done
  {
    if s.fail.Some? then (s, Returned(false))
    else if s.done then
      if s.logs != [] then Receive(unpack, s) else (s, Returned(false))
    else if s.logs != [] && !(s.end.Some? && preferEnd) then Receive(unpack, s)
    else if s.end.Some? then
      NextStep(unpack, s.(done := true, fail := s.end.value, logs := s.logs + late), preferEnd, [])
    else (s, Blocked)
  }

  class Iterator<L, P, E> {
    const unpack: L -> Unpacked<P, E>
    var event: Option<Event<L, P>>
    var logs: seq<L>
    var end: Option<Option<E>>
    var done: bool
    var fail: Option<E>

    ghost function View(): State<L, P, E>
      reads this
    {
      State(event, logs, end, done, fail)
    }

    /** What `FilterOnAbort` returns, before anything has arrived. */
    constructor (unpack: L -> Unpacked<P, E>)
      ensures this.unpack == unpack
      ensures View() == Fresh()
      ensures event.None? && logs == [] && end.None? && !done && fail.None?
    {
      this.unpack := unpack;
      event, logs, end, done, fail := None, [], None, false, None;
    }

    /** The recursive call is at most one level deep: `done` is set before it and never cleared.
      * A call blocks exactly while there is nothing to say; true means that the front log was
      * taken and unpacked; false means that the iterator has failed or is over.
      */
    method Next(preferEnd: bool, late: seq<L>) returns (answer: Answer)
      modifies this
      ensures (View(), answer) == NextStep(unpack, old(View()), preferEnd, late)
      ensures answer.Blocked? <==> old(fail.None? && !done && end.None? && logs == [])
      ensures answer.Blocked? ==> View() == old(View())
      ensures answer == Returned(true) ==>
                && event.Some? && event.value.raw.Some?
                && var log := event.value.raw.value;
                   && unpack(log) == Decoded(event.value.payload)
                   && [log] + logs in {old(logs), old(logs) + late}
      ensures answer == Returned(false) ==> fail.Some? || (done && logs == [])
      decreases !done
    {
      if fail.Some? {
        return Returned(false);
      }
      if done {
        if logs != [] {
          answer := Take();
          return;
        }
        return Returned(false);
      }
      if logs != [] && !(end.Some? && preferEnd) {
        answer := Take();
      } else if end.Some? {
        done := true;
        fail := end.value;
        logs := logs + late;
        assert logs + [] == logs;
        answer := Next(preferEnd, []);
      } else {
        answer := Blocked;
      }
    }

    /** The body of both receiving cases: the front log leaves the queue. If it unpacks, the call
      * returns true with the log's complete event; if not, it returns false, the error stops the
      * iterator, and the event lacks its raw log.
      */
    method Take() returns (answer: Answer)
      requires logs != [] && fail.None?
      modifies this`event, this`logs, this`fail
      ensures [old(logs[0])] + logs == old(logs)
      ensures answer == Returned(true) || answer == Returned(false)
      ensures answer == Returned(true) <==> unpack(old(logs[0])).Decoded?
      ensures answer == Returned(true) ==> event == Some(Image(unpack, old(logs[0]))) && fail.None?
      ensures answer == Returned(false) ==> fail == Some(unpack(old(logs[0])).error)
      ensures answer == Returned(false) ==> event == Some(Image(unpack, old(logs[0])).(raw := None))
    {
      var log := logs[0];
      logs := logs[1..];
      match unpack(log)
      case Decoded(payload) =>
        event := Some(Event(payload, Some(log)));
        answer := Returned(true);
      case Undecodable(payload, error) =>
        event := Some(Event(payload, None));
        fail := Some(error);
        answer := Returned(false);
    }
  }

  function Fresh<L, P, E>(): State<L, P, E> {
    State(None, [], None, false, None)
  }

  /** A call that receives the end comes to what a call on the ended iterator comes to. */
  lemma EndTaken<L, P, E>(unpack: L -> Unpacked<P, E>, s: State<L, P, E>, preferEnd: bool, late: seq<L>)
    requires !s.done && s.fail.None? && s.end.Some? && (s.logs == [] || preferEnd)
    ensures var ended := s.(done := true, fail := s.end.value, logs := s.logs + late);
            && NextStep(unpack, s, preferEnd, late) == NextStep(unpack, ended, preferEnd, [])
            && (ended.fail.Some? ==> NextStep(unpack, s, preferEnd, late) == (ended, Returned(false)))
  {
  }

  // ----- runs -----

  /** What can happen next: the producer sends, the subscription ends, or `Next` is called. */
  datatype Action<L, E> =
    | Send(log: L)
    | End(err: Option<E>)
    | Next(preferEnd: bool, late: seq<L>)

  /** An iterator with its history: all logs sent, the events that calls returning true left
    * in the iterator, and every call's answer.
    */
  datatype World<L, P, E> = World(
    it: State<L, P, E>,
    sent: seq<L>,
    returned: seq<Event<L, P>>,
    answers: seq<Answer>)

  function Start<L, P, E>(): World<L, P, E> {
    World(Fresh(), [], [], [])
  }

  function Step<L, P, E>(unpack: L -> Unpacked<P, E>, w: World<L, P, E>, a: Action<L, E>): World<L, P, E> {
    match a
    case Send(log) => w.(it := w.it.(logs := w.it.logs + [log]), sent := w.sent + [log])
    case End(err) => if w.it.end.Some? then w else w.(it := w.it.(end := Some(err)))
    case Next(preferEnd, late) => Record(w, NextStep(unpack, w.it, preferEnd, late), late)
  }

  /** The history after a call: `late` has been sent if the call received the end. */
  function Record<L, P, E>(w: World<L, P, E>, call: (State<L, P, E>, Answer), late: seq<L>): World<L, P, E> {
    var (it, answer) := call;
    World(it,
          if it.done && !w.it.done then w.sent + late else w.sent,
          if answer == Returned(true) && it.event.Some? then w.returned + [it.event.value] else w.returned,
          w.answers + [answer])
  }

  function Run<L, P, E>(unpack: L -> Unpacked<P, E>, w: World<L, P, E>, actions: seq<Action<L, E>>): World<L, P, E>
    decreases |actions|
  {
    if actions == [] then w else Run(unpack, Step(unpack, w, actions[0]), actions[1..])
  }

  // ----- conservation -----

  /** The last consumed log did not unpack, and that is the iterator's failure. */
  ghost predicate UnpackFailed<L, P, E>(unpack: L -> Unpacked<P, E>, w: World<L, P, E>)
    requires Queued(w.sent, w.it.logs)
  {
    var consumed := Consumed(w.sent, w.it.logs);
    && consumed != []
    && unpack(Last(consumed)).Undecodable?
    && w.it.fail == Some(unpack(Last(consumed)).error)
  }

  /** Everything sent is returned, queued, or the one log that failed to unpack. `Event` is the
    * last one returned, or the unfinished one of the failure, which has no raw log.
    */
  ghost predicate Conserved<L, P, E>(unpack: L -> Unpacked<P, E>, w: World<L, P, E>) {
    && Queued(w.sent, w.it.logs)
    && (w.it.done ==> w.it.end.Some?)
    && var consumed := Consumed(w.sent, w.it.logs);
       if UnpackFailed(unpack, w)
       then
         && AllDecodable(unpack, Front(consumed))
         && w.returned == Images(unpack, Front(consumed))
         && w.it.event == Some(Event(unpack(Last(consumed)).payload, None))
       else
         && w.it.event == (if w.returned == [] then None else Some(Last(w.returned)))
         && AllDecodable(unpack, consumed)
         && w.returned == Images(unpack, consumed)
         && (w.it.fail.Some? ==> w.it.done && w.it.end == Some(w.it.fail))
  }

  lemma ReceiveConserves<L, P, E>(unpack: L -> Unpacked<P, E>, w: World<L, P, E>)
    requires Conserved(unpack, w) && w.it.fail.None? && w.it.logs != []
    ensures Conserved(unpack, Record(w, Receive(unpack, w.it), []))
  {
    hide Images, AllDecodable, Consumed, Front, Last;
    var consumed, log := Consumed(w.sent, w.it.logs), w.it.logs[0];
    ReceiveConsumes(w.sent, w.it.logs);
    ImagesAppend(unpack, consumed, log);
    DecodableAppend(unpack, consumed, log);
    FrontLast(consumed, log);
    FrontLast(w.returned, Image(unpack, log));
  }

  /** The world after the end was received and before the recursive call. */
  function Ended<L, P, E>(w: World<L, P, E>, late: seq<L>): World<L, P, E>
    requires w.it.end.Some?
  {
    w.(it := w.it.(done := true, fail := w.it.end.value, logs := w.it.logs + late), sent := w.sent + late)
  }

  lemma EndConserves<L, P, E>(unpack: L -> Unpacked<P, E>, w: World<L, P, E>, late: seq<L>)
    requires Conserved(unpack, w) && w.it.fail.None? && w.it.end.Some?
    ensures Conserved(unpack, Ended(w, late))
  {
    SendQueues(w.sent, w.it.logs, late);
  }

  lemma AnswersIrrelevant<L, P, E>(unpack: L -> Unpacked<P, E>, w: World<L, P, E>, answers: seq<Answer>)
    ensures Conserved(unpack, w.(answers := answers)) == Conserved(unpack, w)
  {
  }

  lemma {:induction false} CallConserves<L, P, E>(unpack: L -> Unpacked<P, E>, w: World<L, P, E>,
                                                 preferEnd: bool, late: seq<L>)
    requires Conserved(unpack, w)
    ensures Conserved(unpack, Record(w, NextStep(unpack, w.it, preferEnd, late), late))
    decreases !w.it.done
  {
    hide Conserved;
    AnswersIrrelevant(unpack, w, w.answers + [Returned(false)]);
    AnswersIrrelevant(unpack, w, w.answers + [Blocked]);
    if w.it.fail.Some? {
    } else if w.it.logs != [] && (w.it.done || !(w.it.end.Some? && preferEnd)) {
      ReceiveConserves(unpack, w);
    } else if !w.it.done && w.it.end.Some? {
      EndConserves(unpack, w, late);
      var ended := Ended(w, late);
      CallConserves(unpack, ended, preferEnd, []);
      assert NextStep(unpack, w.it, preferEnd, late) == NextStep(unpack, ended.it, preferEnd, []);
      assert ended.sent + [] == ended.sent;
    }
  }

  lemma StepConserves<L, P, E>(unpack: L -> Unpacked<P, E>, w: World<L, P, E>, a: Action<L, E>)
    requires Conserved(unpack, w)
    ensures Conserved(unpack, Step(unpack, w, a))
  {
    hide Images, AllDecodable;
    match a {
      case Send(log) =>
        SendQueues(w.sent, w.it.logs, [log]);
      case End(err) =>
      case Next(preferEnd, late) =>
        CallConserves(unpack, w, preferEnd, late);
    }
  }

  lemma {:induction false} RunConserves<L, P, E>(unpack: L -> Unpacked<P, E>, w: World<L, P, E>,
                                                 actions: seq<Action<L, E>>)
    requires Conserved(unpack, w)
    ensures Conserved(unpack, Run(unpack, w, actions))
    decreases |actions|
  {
    if actions == [] {
    } else {
      StepConserves(unpack, w, actions[0]);
      RunConserves(unpack, Step(unpack, w, actions[0]), actions[1..]);
    }
  }

  /** Over every schedule, the returned events are the images, in order and without gaps or
    * repeats, of a prefix of the logs sent, and
    * returned + queued + (1 if unpacking failed) = sent.
    */
  lemma Conservation<L, P, E>(unpack: L -> Unpacked<P, E>, actions: seq<Action<L, E>>)
    ensures var w := Run(unpack, Start(), actions);
            && Queued(w.sent, w.it.logs)
            && |w.returned| <= |w.sent|
            && w.returned == Images(unpack, w.sent[..|w.returned|])
            && AllDecodable(unpack, w.sent[..|w.returned|])
            && |w.returned| + |w.it.logs| + (if UnpackFailed(unpack, w) then 1 else 0) == |w.sent|
            && (w.it.fail.None? && w.returned != [] ==> w.it.event == Some(Last(w.returned)))
  {
    RunConserves(unpack, Start(), actions);
    var w := Run(unpack, Start(), actions);
    var consumed := Consumed(w.sent, w.it.logs);
    if UnpackFailed(unpack, w) {
      assert Front(consumed) == w.sent[..|w.returned|];
    } else {
      assert consumed == w.sent[..|w.returned|];
    }
  }

  // ----- end states -----

  /** After a failure nothing but the queue changes, and every call returns false. */
  lemma {:induction false} FailureIsFinal<L, P, E>(unpack: L -> Unpacked<P, E>, w: World<L, P, E>,
                                                   actions: seq<Action<L, E>>)
    requires w.it.fail.Some?
    ensures var w' := Run(unpack, w, actions);
            && w'.it.fail == w.it.fail && w'.it.event == w.it.event && w'.it.done == w.it.done
            && w'.returned == w.returned
            && w.answers <= w'.answers
            && forall i :: |w.answers| <= i < |w'.answers| ==> w'.answers[i] == Returned(false)
    decreases |actions|
  {
    if actions == [] {
    } else {
      FailureIsFinal(unpack, Step(unpack, w, actions[0]), actions[1..]);
    }
  }

  /** `done` is never cleared, and from then on no call blocks. */
  lemma {:induction false} DoneIsFinal<L, P, E>(unpack: L -> Unpacked<P, E>, w: World<L, P, E>,
                                                actions: seq<Action<L, E>>)
    requires w.it.done
    ensures var w' := Run(unpack, w, actions);
            && w'.it.done
            && w.answers <= w'.answers
            && forall i :: |w.answers| <= i < |w'.answers| ==> w'.answers[i].Returned?
    decreases |actions|
  {
    if actions == [] {
    } else {
      DoneIsFinal(unpack, Step(unpack, w, actions[0]), actions[1..]);
    }
  }

  /** How many activations of `Next` one call comes to, the recursive one included. */
  function Activations<L, P, E>(s: State<L, P, E>, preferEnd: bool, late: seq<L>): nat
    decreases !s.done
  {
    if s.fail.None? && !s.done && s.end.Some? && (s.logs == [] || preferEnd)
    then 1 + Activations(s.(done := true, fail := s.end.value, logs := s.logs + late), preferEnd, [])
    else 1
  }

  function CallCount<L, E>(actions: seq<Action<L, E>>): nat {
    if actions == [] then 0 else (if actions[0].Next? then 1 else 0) + CallCount(actions[1..])
  }

  function ActivationCount<L, P, E>(unpack: L -> Unpacked<P, E>, w: World<L, P, E>, actions: seq<Action<L, E>>): nat
    decreases |actions|
  {
    if actions == [] then 0
    else
      (match actions[0]
       case Next(preferEnd, late) => Activations(w.it, preferEnd, late)
       case _ => 0)
      + ActivationCount(unpack, Step(unpack, w, actions[0]), actions[1..])
  }

  /** Over a whole run the recursion happens at most once, in the one call that receives the end,
    * and it goes one level deep.
    */
  lemma {:induction false} RecursesOnce<L, P, E>(unpack: L -> Unpacked<P, E>, w: World<L, P, E>,
                                                actions: seq<Action<L, E>>)
    ensures var w' := Run(unpack, w, actions);
            ActivationCount(unpack, w, actions)
              == CallCount(actions) + (if w'.it.done && !w.it.done then 1 else 0)
    decreases |actions|
  {
    if actions == [] {
    } else {
      var w1 := Step(unpack, w, actions[0]);
      RecursesOnce(unpack, w1, actions[1..]);
      if actions[0].Next? {
        ActivationsOfCall(unpack, w.it, actions[0].preferEnd, actions[0].late);
      }
      if w1.it.done {
        DoneIsFinal(unpack, w1, actions[1..]);
      }
    }
  }

  lemma ActivationsOfCall<L, P, E>(unpack: L -> Unpacked<P, E>, s: State<L, P, E>, preferEnd: bool, late: seq<L>)
    ensures var (s', _) := NextStep(unpack, s, preferEnd, late);
            && (s.done ==> s'.done)
            && Activations(s, preferEnd, late) == if s'.done && !s.done then 2 else 1
  {
    if !s.done && s.fail.None? && s.end.Some? && (s.logs == [] || preferEnd) {
      EndTaken(unpack, s, preferEnd, late);
      var ended := s.(done := true, fail := s.end.value, logs := s.logs + late);
      assert Activations(ended, preferEnd, []) == 1;
    }
  }

  // ----- what an answer means -----

  /** In every state: a call blocks exactly if nothing has failed, ended or arrived, and then
    * changes nothing; it returns true exactly if it delivers one more event; if it returns
    * false, the iterator has failed or is over.
    */
  lemma AnswerMeaning<L, P, E>(unpack: L -> Unpacked<P, E>, w: World<L, P, E>, preferEnd: bool, late: seq<L>)
    ensures var w' := Step(unpack, w, Next(preferEnd, late));
            && |w'.answers| == |w.answers| + 1 && w.answers <= w'.answers
            && var answer := Last(w'.answers);
               && (answer.Blocked? <==> w.it.fail.None? && !w.it.done && w.it.end.None? && w.it.logs == [])
               && (answer.Blocked? ==> w'.it == w.it && w'.sent == w.sent && w'.returned == w.returned)
               && (answer == Returned(true) <==> |w'.returned| == |w.returned| + 1)
               && (answer != Returned(true) ==> w'.returned == w.returned)
               && (answer == Returned(false) ==> w'.it.fail.Some? || (w'.it.done && w'.it.logs == []))
  {
    var s := w.it;
    if s.fail.None? && !s.done && s.end.Some? && (s.logs == [] || preferEnd) {
      EndTaken(unpack, s, preferEnd, late);
    }
  }

  /** Over every run: as long as the iterator has neither failed nor received the end, no call
    * has returned false, so no loop over `Next` has been left too early.
    */
  lemma {:induction false} NoEarlyFalse<L, P, E>(unpack: L -> Unpacked<P, E>, w: World<L, P, E>,
                                                actions: seq<Action<L, E>>)
    ensures var w' := Run(unpack, w, actions);
            && w.answers <= w'.answers
            && (w'.it.fail.None? && !w'.it.done ==>
                  forall k :: |w.answers| <= k < |w'.answers| ==> w'.answers[k] != Returned(false))
    decreases |actions|
  {
    if actions == [] {
    } else {
      var w1 := Step(unpack, w, actions[0]);
      var w' := Run(unpack, w1, actions[1..]);
      assert w' == Run(unpack, w, actions);
      NoEarlyFalse(unpack, w1, actions[1..]);
      if actions[0].Next? {
        AnswerMeaning(unpack, w, actions[0].preferEnd, actions[0].late);
        assert Last(w1.answers) == w1.answers[|w.answers|] == w'.answers[|w.answers|];
      }
      if w1.it.fail.Some? {
        FailureIsFinal(unpack, w1, actions[1..]);
      } else if w1.it.done {
        DoneIsFinal(unpack, w1, actions[1..]);
      }
    }
  }

  /** How many logs at the front of the queue unpack. */
  function Good<L, P, E>(unpack: L -> Unpacked<P, E>, logs: seq<L>): (n: nat)
    ensures n <= |logs|
    ensures AllDecodable(unpack, logs[..n])
    ensures n < |logs| ==> unpack(logs[n]).Undecodable?
  {
    if logs == [] || unpack(logs[0]).Undecodable? then 0 else 1 + Good(unpack, logs[1..])
  }

  /** Calls of `Next` with nothing sent in between. */
  function Calls<L, E>(choices: seq<bool>): (actions: seq<Action<L, E>>)
    ensures |actions| == |choices|
  {
    seq(|choices|, i requires 0 <= i < |choices| => Next(choices[i], []))
  }

  /** The subscription has ended without an error and the iterator has not failed. */
  predicate Draining<L, P, E(==)>(s: State<L, P, E>) {
    s.fail.None? && (s.done || s.end == Some(None))
  }

  function Min(m: nat, n: nat): nat {
    if m < n then m else n
  }

  lemma DrainCall<L, P, E>(unpack: L -> Unpacked<P, E>, w: World<L, P, E>, choice: bool)
    requires Draining(w.it)
    ensures var w' := Step(unpack, w, Next(choice, []));
            if Good(unpack, w.it.logs) > 0 then
              && Draining(w'.it) && w'.it.logs == w.it.logs[1..]
              && Good(unpack, w'.it.logs) == Good(unpack, w.it.logs) - 1
              && w'.answers == w.answers + [Returned(true)]
              && w'.returned == w.returned + [Image(unpack, w.it.logs[0])]
            else
              && (w'.it.fail.Some? || (Draining(w'.it) && w'.it.logs == []))
              && w'.answers == w.answers + [Returned(false)]
              && w'.returned == w.returned
  {
    var s := w.it;
    if !s.done && (s.logs == [] || choice) {
      EndTaken(unpack, s, choice, []);
      assert s.logs + [] == s.logs;
    }
  }

  /** Calls with nothing sent in between empty the queue: they return true once for each queued
    * log up to the first that does not unpack, with its image, and false from then on.
    */
  ghost predicate Drains<L, P, E>(unpack: L -> Unpacked<P, E>, w: World<L, P, E>, choices: seq<bool>) {
    var w' := Run(unpack, w, Calls(choices));
    var good := Good(unpack, w.it.logs);
    && w.answers <= w'.answers && |w'.answers| == |w.answers| + |choices|
    && (forall k :: |w.answers| <= k < |w'.answers| ==>
          w'.answers[k] == Returned(k - |w.answers| < good))
    && w'.returned == w.returned + Images(unpack, w.it.logs[..Min(good, |choices|)])
  }

  /** After a nil end and no more sends, the queue drains whichever channel each select picks. */
  lemma {:induction false} Drain<L, P, E>(unpack: L -> Unpacked<P, E>, w: World<L, P, E>, choices: seq<bool>)
    requires Draining(w.it)
    ensures Drains(unpack, w, choices)
    decreases |choices|
  {
    hide Images, Step, Good, Draining;
    var good, logs := Good(unpack, w.it.logs), w.it.logs;
    if choices == [] {
      assert Images(unpack, logs[..0]) == [];
    } else {
      var calls := Calls<L, E>(choices);
      assert calls[0] == Next(choices[0], []) && calls[1..] == Calls(choices[1..]);
      DrainCall(unpack, w, choices[0]);
      var w1 := Step(unpack, w, calls[0]);
      var w' := Run(unpack, w1, calls[1..]);
      assert w' == Run(unpack, w, calls);
      if w1.it.fail.Some? {
        FailureIsFinal(unpack, w1, calls[1..]);
        AnswerCount(unpack, w1, choices[1..]);
        assert Images(unpack, logs[..0]) == [];
      } else {
        Drain(unpack, w1, choices[1..]);
        if good > 0 {
          ImagesPrepend(unpack, logs, Min(good, |choices|));
        }
      }
      assert w'.answers[|w.answers|] == w1.answers[|w.answers|];
    }
  }

  lemma ImagesPrepend<L, P, E>(unpack: L -> Unpacked<P, E>, logs: seq<L>, m: nat)
    requires 0 < m <= |logs|
    ensures Images(unpack, logs[..m]) == [Image(unpack, logs[0])] + Images(unpack, logs[1..][..m - 1])
  {
  }

  lemma {:induction false} AnswerCount<L, P, E>(unpack: L -> Unpacked<P, E>, w: World<L, P, E>, choices: seq<bool>)
    ensures var w' := Run(unpack, w, Calls(choices));
            w.answers <= w'.answers && |w'.answers| == |w.answers| + |choices|
    decreases |choices|
  {
    if choices == [] {
    } else {
      assert Calls<L, E>(choices)[1..] == Calls(choices[1..]);
      AnswerCount(unpack, Step(unpack, w, Calls(choices)[0]), choices[1..]);
    }
  }

  lemma NothingToDrain<L, P, E>(unpack: L -> Unpacked<P, E>, w: World<L, P, E>, choices: seq<bool>)
    requires w.it.fail.None? && w.it.end.Some? && w.it.end.value.Some? && !w.it.done
    requires Good(unpack, w.it.logs) == 0
    ensures Drains(unpack, w, choices)
  {
    hide Images, Good;
    assert Images(unpack, w.it.logs[..0]) == [];
    if choices != [] {
      var calls := Calls<L, E>(choices);
      assert calls[0] == Next(choices[0], []) && calls[1..] == Calls(choices[1..]);
      FirstCallFails(unpack, w, choices[0]);
      var w1 := Step(unpack, w, calls[0]);
      FailureIsFinal(unpack, w1, calls[1..]);
      AnswerCount(unpack, w1, choices[1..]);
      assert Run(unpack, w1, calls[1..]).answers[|w.answers|] == w1.answers[|w.answers|];
    }
  }

  lemma FirstCallFails<L, P, E>(unpack: L -> Unpacked<P, E>, w: World<L, P, E>, choice: bool)
    requires w.it.fail.None? && w.it.end.Some? && w.it.end.value.Some? && !w.it.done
    requires Good(unpack, w.it.logs) == 0 || choice
    ensures var w' := Step(unpack, w, Next(choice, []));
            w'.it.fail.Some? && w'.answers == w.answers + [Returned(false)] && w'.returned == w.returned
  {
    if w.it.logs == [] || choice {
      EndTaken(unpack, w.it, choice, []);
    }
  }

  /** When the subscription has ended and nothing has failed, the queue drains whatever the
    * selects pick exactly if the end was nil, or has been received already, or there is no
    * decodable log at the front to lose.
    */
  lemma DrainIff<L, P, E>(unpack: L -> Unpacked<P, E>, w: World<L, P, E>)
    requires w.it.fail.None? && w.it.end.Some?
    ensures (forall choices: seq<bool> :: Drains(unpack, w, choices))
       <==> (w.it.done || w.it.end == Some(None) || Good(unpack, w.it.logs) == 0)
  {
    hide Drains, Images, Good, Step;
    if w.it.done || w.it.end == Some(None) {
      forall choices: seq<bool>
        ensures Drains(unpack, w, choices)
      {
        Drain(unpack, w, choices);
      }
    } else if Good(unpack, w.it.logs) == 0 {
      forall choices: seq<bool>
        ensures Drains(unpack, w, choices)
      {
        NothingToDrain(unpack, w, choices);
      }
    } else {
      LogLost(unpack, w);
    }
  }

  /** The call that prefers an error end loses the log it could have delivered. */
  lemma LogLost<L, P, E>(unpack: L -> Unpacked<P, E>, w: World<L, P, E>)
    requires w.it.fail.None? && w.it.end.Some? && w.it.end.value.Some? && !w.it.done
    requires Good(unpack, w.it.logs) > 0
    ensures !Drains(unpack, w, [true])
  {
    hide Step;
    FirstCallFails(unpack, w, true);
    var calls := Calls<L, E>([true]);
    assert calls[0] == Next(true, []) && calls[1..] == [];
    assert Run(unpack, w, calls) == Run(unpack, Step(unpack, w, calls[0]), calls[1..]);
    assert Run(unpack, Step(unpack, w, calls[0]), []) == Step(unpack, w, calls[0]);
    assert |Images(unpack, w.it.logs[..1])| == 1;
  }

  /** Such a state is one send and one end away from the start: the log is delivered or lost for
    * good depending on which ready channel the select picks.
    */
  lemma ErrorEndRaces<L, P, E>(unpack: L -> Unpacked<P, E>, log: L, err: E, choices: seq<bool>)
    requires unpack(log).Decoded?
    ensures var w := Run(unpack, Start(), [Send(log), End(Some(err))]);
            && Step(unpack, w, Next(false, [])).returned == Images(unpack, [log])
            && Run(unpack, Step(unpack, w, Next(true, [])), Calls(choices)).returned == []
  {
    var w0: World<L, P, E> := Start();
    var actions: seq<Action<L, E>> := [Send(log), End(Some(err))];
    var w1 := Step(unpack, w0, actions[0]);
    var w := Step(unpack, w1, actions[1]);
    assert actions[1..][0] == actions[1] && actions[1..][1..] == [];
    assert Run(unpack, w0, actions) == Run(unpack, w1, actions[1..]) == Run(unpack, w, []) == w;
    assert w.it.logs == [log];
    FirstCallFails(unpack, w, true);
    FailureIsFinal(unpack, Step(unpack, w, Next(true, [])), Calls(choices));
  }
}

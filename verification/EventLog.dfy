/** Logs and the events unpacked from them. How a log is unpacked belongs to the contract
  * binding library, so it is a function given from outside.
  */
module EventLog {
  import opened Options

  /** A failed unpacking may have filled in part of the event. */
  datatype Unpacked<+P, +E> = Decoded(payload: P) | Undecodable(payload: P, error: E)

  /** An event with the log it came from; `raw` is absent while it has not been assigned. */
  datatype Event<+L, +P> = Event(payload: P, raw: Option<L>)

  /** The complete event of a log. */
  function Image<L, P, E>(unpack: L -> Unpacked<P, E>, log: L): Event<L, P> {
    Event(unpack(log).payload, Some(log))
  }

  /** The events of a list of logs, in order. */
  function Images<L, P, E>(unpack: L -> Unpacked<P, E>, logs: seq<L>): (events: seq<Event<L, P>>)
    ensures |events| == |logs|
  {
    seq(|logs|, i requires 0 <= i < |logs| => Image(unpack, logs[i]))
  }

  predicate AllDecodable<L, P, E>(unpack: L -> Unpacked<P, E>, logs: seq<L>) {
    forall i :: 0 <= i < |logs| ==> unpack(logs[i]).Decoded?
  }

  lemma ImagesAppend<L, P, E>(unpack: L -> Unpacked<P, E>, logs: seq<L>, log: L)
    ensures Images(unpack, logs + [log]) == Images(unpack, logs) + [Image(unpack, log)]
  {
  }

  lemma ImagesCons<L, P, E>(unpack: L -> Unpacked<P, E>, logs: seq<L>)
    requires logs != []
    ensures Images(unpack, logs) == [Image(unpack, logs[0])] + Images(unpack, logs[1..])
  {
  }

  lemma DecodableCons<L, P, E>(unpack: L -> Unpacked<P, E>, logs: seq<L>)
    requires logs != [] && AllDecodable(unpack, logs)
    ensures unpack(logs[0]).Decoded? && AllDecodable(unpack, logs[1..])
  {
  }

  lemma ImagesJoin<L, P, E>(unpack: L -> Unpacked<P, E>, x: seq<L>, y: seq<L>)
    ensures Images(unpack, x + y) == Images(unpack, x) + Images(unpack, y)
  {
  }

  lemma NoImages<L, P, E>(unpack: L -> Unpacked<P, E>)
    ensures Images(unpack, []) == []
  {
  }

  lemma OneImage<L, P, E>(unpack: L -> Unpacked<P, E>, log: L)
    ensures Images(unpack, [log]) == [Image(unpack, log)]
  {
  }

  lemma DecodableAppend<L, P, E>(unpack: L -> Unpacked<P, E>, logs: seq<L>, log: L)
    ensures AllDecodable(unpack, logs + [log]) <==> AllDecodable(unpack, logs) && unpack(log).Decoded?
  {
    var all := logs + [log];
    assert all[|logs|] == log && all[..|logs|] == logs;
    if AllDecodable(unpack, all) {
      assert forall i :: 0 <= i < |logs| ==> logs[i] == all[i];
    }
  }

  /** `logs` are the last of `sent`; what was sent before them has been consumed. */
  ghost predicate Queued<L>(sent: seq<L>, logs: seq<L>) {
    |logs| <= |sent| && sent[|sent| - |logs|..] == logs
  }

  function Consumed<L>(sent: seq<L>, logs: seq<L>): seq<L>
    requires |logs| <= |sent|
  {
    sent[..|sent| - |logs|]
  }

  lemma SendQueues<L>(sent: seq<L>, logs: seq<L>, more: seq<L>)
    requires Queued(sent, logs)
    ensures Queued(sent + more, logs + more)
    ensures Consumed(sent + more, logs + more) == Consumed(sent, logs)
  {
  }

  lemma ReceiveConsumes<L>(sent: seq<L>, logs: seq<L>)
    requires Queued(sent, logs) && logs != []
    ensures Queued(sent, logs[1..])
    ensures Consumed(sent, logs[1..]) == Consumed(sent, logs) + [logs[0]]
  {
    var k := |sent| - |logs|;
    assert sent[k] == sent[k..][0];
  }

  function Front<T>(s: seq<T>): seq<T>
    requires s != []
  {
    s[..|s| - 1]
  }

  function Last<T>(s: seq<T>): T
    requires s != []
  {
    s[|s| - 1]
  }

  lemma FrontLast<T>(s: seq<T>, t: T)
    ensures Front(s + [t]) == s && Last(s + [t]) == t
  {
  }
}

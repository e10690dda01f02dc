/** A write queue with one write in flight: the discipline shared by the
    logic-server session (`_send_que`) and the WebSocket session (`queue_`).  An
    element stays at the front of the queue while it is being written. */
module WriteQueues {
  /** `que` is the queue, `inFlight` the asynchronous writes not yet completed. */
  datatype WriteQueue<T(==)> = WriteQueue(que: seq<T>, inFlight: seq<T>) {
    /** Append; start a write only if nothing else was queued. */
    function Push(x: T): WriteQueue<T> {
      if que == [] then WriteQueue([x], inFlight + [x]) else WriteQueue(que + [x], inFlight)
    }

    /** A write has succeeded: pop the front, start the next write if there is one. */
    function Completed(): WriteQueue<T>
      requires inFlight != [] && que != []
    {
      var q := WriteQueue(que[1..], inFlight[1..]);
      if q.que == [] then q else WriteQueue(q.que, q.inFlight + [q.que[0]])
    }

    /** A write has failed: the handler neither pops nor starts another write. */
    function Failed(): WriteQueue<T>
      requires inFlight != []
    {
      WriteQueue(que, inFlight[1..])
    }

    /** Either nothing is queued, or the front is the one write in flight, or a
        write has failed and none is in flight. */
    predicate Valid() {
      inFlight == [] || (que != [] && inFlight == [que[0]])
    }

    predicate Dead() {
      que != [] && inFlight == []
    }
  }

  const MAX_SENDQUE: nat := 1000

  function Empty<T(==)>(): WriteQueue<T> {
    WriteQueue([], [])
  }

  /** The logic server's `Send`: drop the message when the queue is over its limit. */
  function Send<T(==)>(q: WriteQueue<T>, x: T): WriteQueue<T> {
    if |q.que| > MAX_SENDQUE then q else q.Push(x)
  }

  /** At most one write is in flight and it is the front; a push starts a write
      exactly when the queue was empty; once dead, a queue stays so. */
  lemma KeepsOneWriter<T>(q: WriteQueue<T>, x: T)
    requires q.Valid()
    ensures q.Push(x).Valid() && q.Push(x).que == q.que + [x]
    ensures q.inFlight != [] ==>
              && q.Completed().Valid() && q.Completed().que == q.que[1..] && !q.Completed().Dead()
              && q.Failed().Valid() && q.Failed().Dead() && q.Failed().que == q.que
    ensures q.Dead() ==> q.Push(x).Dead()
    ensures !q.Dead() ==> !q.Push(x).Dead()
  {
  }
}

/** The sending side of a logic-server session over all interleavings of `Send`
    calls, transmission by the socket and write completions. */
module SendRuns {
  import opened WriteQueues
  import opened Wire

  type bytes = seq<byte>

  /** `sent` bytes of the front are on the wire; `wire` is everything the peer has
      been sent; `started` counts calls of the asynchronous write. */
  datatype Sender = Sender(q: WriteQueue<bytes>, sent: nat, wire: bytes,
                           accepted: seq<bytes>, completed: seq<bytes>,
                           dropped: nat, calls: nat, started: nat)

  datatype Event = Send(node: bytes) | Transmit(n: nat) | WriteDone | WriteFailed

  const FRESH := Sender(WriteQueue([], []), 0, [], [], [], 0, 0, 0)

  /** The socket transmits bytes of the write in flight only; a write completes
      without error once all its bytes are sent, and may fail at any time. */
  predicate Enabled(s: Sender, e: Event) {
    match e
    case Send(_) => true
    case Transmit(n) => s.q.inFlight != [] && s.sent + n <= |s.q.inFlight[0]|
    case WriteDone => s.q.inFlight != [] && s.q.que != [] && s.sent == |s.q.inFlight[0]|
    case WriteFailed => s.q.inFlight != []
  }

  function Started(before: WriteQueue<bytes>, after: WriteQueue<bytes>, ended: nat): nat {
    if |after.inFlight| + ended >= |before.inFlight| then |after.inFlight| + ended - |before.inFlight| else 0
  }

  function Step(s: Sender, e: Event): Sender
    requires Enabled(s, e)
  {
    match e
    case Send(node) =>
      var q := WriteQueues.Send(s.q, node);
      var full := |s.q.que| > MAX_SENDQUE;
      s.(q := q, calls := s.calls + 1, started := s.started + Started(s.q, q, 0),
         accepted := if full then s.accepted else s.accepted + [node],
         dropped := if full then s.dropped + 1 else s.dropped)
    case Transmit(n) =>
      s.(sent := s.sent + n, wire := s.wire + s.q.inFlight[0][s.sent..s.sent + n])
    case WriteDone =>
      var q := s.q.Completed();
      s.(q := q, sent := 0, completed := s.completed + [s.q.inFlight[0]],
         started := s.started + Started(s.q, q, 1))
    case WriteFailed =>
      var q := s.q.Failed();
      s.(q := q, started := s.started + Started(s.q, q, 1))
  }

  predicate Possible(s: Sender, es: seq<Event>)
    decreases |es|
  {
    es == [] || (Enabled(s, es[0]) && Possible(Step(s, es[0]), es[1..]))
  }

  function Run(s: Sender, es: seq<Event>): Sender
    requires Possible(s, es)
    decreases |es|
  {
    if es == [] then s else Run(Step(s, es[0]), es[1..])
  }

  function Flatten(nodes: seq<bytes>): bytes {
    if nodes == [] then [] else Flatten(nodes[..|nodes| - 1]) + nodes[|nodes| - 1]
  }

  lemma {:induction false} FlattenConcat(a: seq<bytes>, b: seq<bytes>)
    ensures Flatten(a + b) == Flatten(a) + Flatten(b)
    decreases |b|
  {
    if b == [] {
      assert a + b == a;
    } else {
      var n := |b| - 1;
      FlattenConcat(a, b[..n]);
      assert (a + b)[..|a + b| - 1] == a + b[..n];
    }
  }

  ghost predicate Inv(s: Sender) {
    && s.q.Valid()
    // in order, nothing lost, nothing written twice
    && s.accepted == s.completed + s.q.que
    && (if s.q.que == [] then s.sent == 0 else s.sent <= |s.q.que[0]|)
    && s.wire == Flatten(s.completed) + (if s.q.que == [] then [] else s.q.que[0][..s.sent])
    // capacity and accounting
    && |s.q.que| <= MAX_SENDQUE + 1
    && s.calls == |s.completed| + |s.q.que| + s.dropped
    && s.started == |s.completed| + (if s.q.que == [] then 0 else 1)
  }

  lemma SendKeeps(s: Sender, node: bytes)
    requires Inv(s)
    ensures Inv(Step(s, Send(node)))
  {
    KeepsOneWriter(s.q, node);
    if s.q.que == [] {
      assert s.accepted + [node] == s.completed + [node];
    } else {
      assert s.accepted + [node] == s.completed + (s.q.que + [node]);
    }
  }

  lemma TransmitKeeps(s: Sender, n: nat)
    requires Inv(s) && Enabled(s, Transmit(n))
    ensures Inv(Step(s, Transmit(n)))
  {
    var f := s.q.que[0];
    Assoc(Flatten(s.completed), f[..s.sent], f[s.sent..s.sent + n]);
    assert f[..s.sent] + f[s.sent..s.sent + n] == f[..s.sent + n];
  }

  lemma WriteDoneKeeps(s: Sender)
    requires Inv(s) && Enabled(s, WriteDone)
    ensures Inv(Step(s, WriteDone))
  {
    var f := s.q.que[0];
    KeepsOneWriter(s.q, f);
    assert s.completed + s.q.que == s.completed + [f] + s.q.que[1..];
    FlattenConcat(s.completed, [f]);
    assert Flatten([f]) == f == f[..|f|];
  }

  lemma StepKeepsInv(s: Sender, e: Event)
    requires Inv(s) && Enabled(s, e)
    ensures Inv(Step(s, e))
  {
    match e
    case Send(node) => SendKeeps(s, node);
    case Transmit(n) => TransmitKeeps(s, n);
    case WriteDone => WriteDoneKeeps(s);
    case WriteFailed => KeepsOneWriter(s.q, s.q.que[0]);
  }

  lemma {:induction false} RunKeepsInv(s: Sender, es: seq<Event>)
    requires Inv(s) && Possible(s, es)
    ensures Inv(Run(s, es))
    decreases |es|
  {
    if es != [] {
      StepKeepsInv(s, es[0]);
      RunKeepsInv(Step(s, es[0]), es[1..]);
    }
  }

  lemma WireIsPrefix(s: Sender)
    requires Inv(s)
    ensures s.wire <= Flatten(s.accepted)
  {
    FlattenConcat(s.completed, s.q.que);
    if s.q.que != [] {
      var f := s.q.que[0];
      FlattenConcat([f], s.q.que[1..]);
      assert [f] + s.q.que[1..] == s.q.que;
      assert Flatten([f]) == f;
      assert f[..s.sent] <= Flatten(s.q.que);
    }
  }

  /** Only a failed write makes the queue dead, and it stays so. */
  lemma DeadStep(s: Sender, e: Event)
    requires Inv(s) && Enabled(s, e)
    ensures Step(s, e).q.Dead() <==> s.q.Dead() || e.WriteFailed?
  {
    if e.Send? {
      KeepsOneWriter(s.q, e.node);
    }
  }

  lemma {:induction false} DeadExactly(s: Sender, es: seq<Event>)
    requires Inv(s) && Possible(s, es)
    ensures Run(s, es).q.Dead() <==> s.q.Dead() || WriteFailed in es
    decreases |es|
  {
    if es != [] {
      StepKeepsInv(s, es[0]);
      DeadStep(s, es[0]);
      DeadExactly(Step(s, es[0]), es[1..]);
      assert es == [es[0]] + es[1..];
    }
  }

  /** Over every run of a new session: at most one write is in flight and it is the
      front of the queue; one is in flight exactly while the queue is not empty, until
      a write fails, and none from then on; the wire is a prefix of the accepted nodes
      in the order in which `Send` accepted them; at most 1001 nodes are queued; every
      call is completed, queued or dropped. */
  lemma EveryRun(es: seq<Event>)
    requires Possible(FRESH, es)
    ensures var s := Run(FRESH, es);
            && Inv(s)
            && (s.q.inFlight == [] || (s.q.que != [] && s.q.inFlight == [s.q.que[0]]))
            && (WriteFailed !in es ==> (s.q.que != [] <==> s.q.inFlight != []))
            && (WriteFailed in es ==> s.q.que != [] && s.q.inFlight == [])
            && s.wire <= Flatten(s.accepted)
            && |s.q.que| <= 1001 && |s.completed| + |s.q.que| + s.dropped == s.calls
  {
    RunKeepsInv(FRESH, es);
    DeadExactly(FRESH, es);
    WireIsPrefix(Run(FRESH, es));
  }

  /** A call of `Send` is dropped exactly when it finds 1001 nodes in the queue, and
      otherwise its node is accepted after those before it. */
  lemma DroppedExactlyWhenFull(es: seq<Event>, node: bytes)
    requires Possible(FRESH, es)
    ensures var s := Run(FRESH, es);
            var t := Step(s, Send(node));
            && (t.dropped == s.dropped + 1 <==> |s.q.que| == 1001)
            && t.accepted == if |s.q.que| == 1001 then s.accepted else s.accepted + [node]
  {
    RunKeepsInv(FRESH, es);
  }

  function Calls(es: seq<Event>): nat {
    if es == [] then 0 else (if es[0].Send? then 1 else 0) + Calls(es[1..])
  }

  function Completions(es: seq<Event>): nat {
    if es == [] then 0 else (if es[0].WriteDone? then 1 else 0) + Completions(es[1..])
  }

  function Transmitted(es: seq<Event>): nat {
    if es == [] then 0 else (if es[0].Transmit? then es[0].n else 0) + Transmitted(es[1..])
  }

  lemma {:induction false} CountsFrom(s: Sender, es: seq<Event>)
    requires Possible(s, es)
    ensures var t := Run(s, es);
            && t.calls == s.calls + Calls(es) && |t.completed| == |s.completed| + Completions(es)
            && |t.wire| == |s.wire| + Transmitted(es)
    decreases |es|
  {
    if es != [] {
      CountsFrom(Step(s, es[0]), es[1..]);
    }
  }

  /** The sender's account is that of the events: every call is counted, every
      completion ends the write of one more node, and every byte transmitted is on
      the wire; what they are, `EveryRun` says. */
  lemma AccountOfEvents(es: seq<Event>)
    requires Possible(FRESH, es)
    ensures var s := Run(FRESH, es);
            && |s.accepted| + s.dropped == Calls(es) && |s.completed| == Completions(es)
            && |s.wire| == Transmitted(es)
  {
    CountsFrom(FRESH, es);
    RunKeepsInv(FRESH, es);
  }

  lemma {:induction false} DeadStaysDead(s: Sender, es: seq<Event>)
    requires Inv(s) && s.q.Dead() && Possible(s, es)
    ensures var t := Run(s, es);
            t.q.Dead() && t.started == s.started && t.completed == s.completed && t.wire == s.wire
    decreases |es|
  {
    if es != [] {
      StepKeepsInv(s, es[0]);
      DeadStaysDead(Step(s, es[0]), es[1..]);
    }
  }

  /** After a write failure no further write is started and no byte is sent, in
      every continuation of the run. */
  lemma NoWriteAfterFailure(es: seq<Event>, more: seq<Event>)
    requires Possible(FRESH, es) && Enabled(Run(FRESH, es), WriteFailed)
    requires Possible(Step(Run(FRESH, es), WriteFailed), more)
    ensures var s := Step(Run(FRESH, es), WriteFailed);
            Run(s, more).started == s.started && Run(s, more).wire == s.wire
  {
    RunKeepsInv(FRESH, es);
    var s := Run(FRESH, es);
    StepKeepsInv(s, WriteFailed);
    DeadStaysDead(Step(s, WriteFailed), more);
  }
}

/** The whole logic server as a transition system: any number of sessions, their
    reads, posts and writes, and the worker, in any interleaving.  Each transition is
    the specification of the method that performs it. */
module Pipeline {
  import opened Wire
  import opened Receiver
  import opened SendRuns

  type Reply = m: Msg | Sendable(m) witness Msg(0, [])

  /** The registered ids and what the callbacks answer. */
  datatype Callbacks = Callbacks(registered: set<Short>, reply: Msg -> Reply)

  /** `chunks` are the reads so far, `outbox` the messages of the last read that the
      handler has still to post; `reading` ends with a read error, whose handler closes
      the socket. */
  datatype Session = Session(chunks: seq<seq<byte>>, rx: Rx, outbox: seq<Msg>, reading: bool, sender: Sender)

  datatype Node = Node(session: nat, msg: Msg)

  /** `popped` lists what the worker has taken off the queue. */
  datatype State = State(sessions: map<nat, Session>, queue: seq<Node>, popped: seq<Node>)

  datatype Action =
    | Accept(id: nat)
    | Read(id: nat, chunk: seq<byte>)
    | ReadError(id: nat)
    | Post(id: nat)
    | Work
    | Write(id: nat, event: Event)

  const NEW := Session([], START, [], true, FRESH)
  const INIT := State(map[], [], [])

  predicate Enabled(s: State, a: Action) {
    match a
    case Accept(id) => id !in s.sessions
    case Read(id, chunk) =>
      // one read at a time: the next completes after the handler of the last is done
      && id in s.sessions && s.sessions[id].reading && s.sessions[id].rx.status.Open?
      && s.sessions[id].outbox == [] && 1 <= |chunk| <= MAX_LENGTH
    case ReadError(id) => id in s.sessions && s.sessions[id].reading && s.sessions[id].outbox == []
    case Post(id) => id in s.sessions && s.sessions[id].outbox != []
    case Work => s.queue != [] && s.queue[0].session in s.sessions
    case Write(id, e) =>
      // a closed socket transmits nothing more
      && id in s.sessions && !e.Send? && SendRuns.Enabled(s.sessions[id].sender, e)
      && (e.Transmit? ==> s.sessions[id].reading)
  }

  function Answer(cb: Callbacks, ss: Session, m: Msg): Session {
    if m.id in cb.registered
    then ss.(sender := SendRuns.Step(ss.sender, Send(Encode(cb.reply(m)))))
    else ss
  }

  function Step(cb: Callbacks, s: State, a: Action): State
    requires Enabled(s, a)
  {
    match a
    case Accept(id) => s.(sessions := s.sessions[id := NEW])
    case Read(id, chunk) =>
      var ss := s.sessions[id];
      var r := Receive(ss.rx, chunk);
      s.(sessions := s.sessions[id := ss.(chunks := ss.chunks + [chunk], rx := r.rx, outbox := r.msgs)])
    case ReadError(id) => s.(sessions := s.sessions[id := s.sessions[id].(reading := false)])
    case Post(id) =>
      var ss := s.sessions[id];
      s.(sessions := s.sessions[id := ss.(outbox := ss.outbox[1..])], queue := s.queue + [Node(id, ss.outbox[0])])
    case Work =>
      var n := s.queue[0];
      State(s.sessions[n.session := Answer(cb, s.sessions[n.session], n.msg)], s.queue[1..], s.popped + [n])
    case Write(id, e) =>
      var ss := s.sessions[id];
      s.(sessions := s.sessions[id := ss.(sender := SendRuns.Step(ss.sender, e))])
  }

  predicate Possible(cb: Callbacks, s: State, actions: seq<Action>)
    decreases |actions|
  {
    actions == [] || (Enabled(s, actions[0]) && Possible(cb, Step(cb, s, actions[0]), actions[1..]))
  }

  function Run(cb: Callbacks, s: State, actions: seq<Action>): State
    requires Possible(cb, s, actions)
    decreases |actions|
  {
    if actions == [] then s else Run(cb, Step(cb, s, actions[0]), actions[1..])
  }

  /** The messages of one session among the nodes, in order. */
  function Of(nodes: seq<Node>, id: nat): seq<Msg> {
    if nodes == [] then
      []
    else
      var last := nodes[|nodes| - 1];
      Of(nodes[..|nodes| - 1], id) + if last.session == id then [last.msg] else []
  }

  lemma OfSnoc(nodes: seq<Node>, n: Node, id: nat)
    ensures Of(nodes + [n], id) == Of(nodes, id) + if n.session == id then [n.msg] else []
  {
    assert (nodes + [n])[..|nodes|] == nodes;
  }

  lemma {:induction false} OfCons(nodes: seq<Node>, id: nat)
    requires nodes != []
    ensures Of(nodes, id) == (if nodes[0].session == id then [nodes[0].msg] else []) + Of(nodes[1..], id)
    decreases |nodes|
  {
    var k := |nodes| - 1;
    if k > 0 {
      OfCons(nodes[..k], id);
      assert nodes[1..][..k - 1] == nodes[..k][1..];
    }
  }

  /** The nodes that the answers to these messages are encoded in. */
  function Answers(cb: Callbacks, ms: seq<Msg>): seq<bytes> {
    if ms == [] then
      []
    else
      var last := ms[|ms| - 1];
      Answers(cb, ms[..|ms| - 1]) + if last.id in cb.registered then [Encode(cb.reply(last))] else []
  }

  lemma AnswersSnoc(cb: Callbacks, ms: seq<Msg>, m: Msg)
    ensures Answers(cb, ms + [m])
         == Answers(cb, ms) + if m.id in cb.registered then [Encode(cb.reply(m))] else []
  {
    assert (ms + [m])[..|ms|] == ms;
  }

  /** `a` is `b` with some elements left out. */
  predicate Sublist<T(==)>(a: seq<T>, b: seq<T>)
    decreases |b|
  {
    if b == [] then a == []
    else
      || Sublist(a, b[..|b| - 1])
      || (a != [] && a[|a| - 1] == b[|b| - 1] && Sublist(a[..|a| - 1], b[..|b| - 1]))
  }

  lemma SublistSnoc<T>(a: seq<T>, b: seq<T>, x: T)
    requires Sublist(a, b)
    ensures Sublist(a, b + [x]) && Sublist(a + [x], b + [x])
  {
    assert (b + [x])[..|b|] == b && (a + [x])[..|a|] == a;
  }

  lemma {:induction false} FullSublist<T>(a: seq<T>, b: seq<T>)
    requires Sublist(a, b)
    ensures |a| <= |b| && (|a| == |b| ==> a == b)
    decreases |b|
  {
    if b != [] {
      var b' := b[..|b| - 1];
      if Sublist(a, b') {
        FullSublist(a, b');
      } else {
        FullSublist(a[..|a| - 1], b');
        assert a == a[..|a| - 1] + [a[|a| - 1]];
        assert b == b' + [b[|b| - 1]];
      }
    }
  }

  /** What holds of one session, given its messages popped and still queued. */
  ghost predicate SessionInv(cb: Callbacks, ss: Session, popped: seq<Msg>, queued: seq<Msg>) {
    // every message decoded so far is popped, queued or about to be posted, in order
    && ReceiveAll(ss.chunks) == Received(ss.rx, popped + queued + ss.outbox)
    // every answer went to `Send`, in request order
    && SendRuns.Inv(ss.sender)
    && Sublist(ss.sender.accepted, Answers(cb, popped))
    && ss.sender.calls == |Answers(cb, popped)|
  }

  ghost predicate Known(s: State) {
    && (forall i | 0 <= i < |s.queue| :: s.queue[i].session in s.sessions)
    && (forall i | 0 <= i < |s.popped| :: s.popped[i].session in s.sessions)
  }

  ghost predicate Inv(cb: Callbacks, s: State) {
    && Known(s)
    && forall id | id in s.sessions :: At(cb, s, id)
  }

  ghost predicate At(cb: Callbacks, s: State, id: nat) {
    id in s.sessions && SessionInv(cb, s.sessions[id], Of(s.popped, id), Of(s.queue, id))
  }

  lemma Settles(cb: Callbacks, s: State, id: nat, ss: Session, popped: seq<Msg>, queued: seq<Msg>)
    requires SessionInv(cb, ss, popped, queued)
    requires id in s.sessions && s.sessions[id] == ss && Of(s.popped, id) == popped && Of(s.queue, id) == queued
    ensures At(cb, s, id)
  {
  }

  lemma {:induction false} NoneOf(nodes: seq<Node>, id: nat)
    requires forall i | 0 <= i < |nodes| :: nodes[i].session != id
    ensures Of(nodes, id) == []
    decreases |nodes|
  {
    if nodes != [] {
      NoneOf(nodes[..|nodes| - 1], id);
    }
  }

  lemma ReadKeeps(cb: Callbacks, ss: Session, chunk: seq<byte>, popped: seq<Msg>, queued: seq<Msg>)
    requires SessionInv(cb, ss, popped, queued) && ss.outbox == []
    ensures var r := Receive(ss.rx, chunk);
            SessionInv(cb, ss.(chunks := ss.chunks + [chunk], rx := r.rx, outbox := r.msgs), popped, queued)
  {
    Unfold(ss.chunks, chunk);
    assert popped + queued + [] == popped + queued;
  }

  lemma PostKeeps(cb: Callbacks, ss: Session, popped: seq<Msg>, queued: seq<Msg>)
    requires SessionInv(cb, ss, popped, queued) && ss.outbox != []
    ensures SessionInv(cb, ss.(outbox := ss.outbox[1..]), popped, queued + [ss.outbox[0]])
  {
    assert popped + (queued + [ss.outbox[0]]) + ss.outbox[1..] == popped + queued + ss.outbox;
  }

  lemma WorkKeeps(cb: Callbacks, ss: Session, m: Msg, popped: seq<Msg>, queued: seq<Msg>)
    requires SessionInv(cb, ss, popped, [m] + queued)
    ensures SessionInv(cb, Answer(cb, ss, m), popped + [m], queued)
  {
    assert popped + [m] + queued == popped + ([m] + queued);
    AnswersSnoc(cb, popped, m);
    if m.id in cb.registered {
      SendRuns.StepKeepsInv(ss.sender, Send(Encode(cb.reply(m))));
      SublistSnoc(ss.sender.accepted, Answers(cb, popped), Encode(cb.reply(m)));
    } else {
      assert Answers(cb, popped) + [] == Answers(cb, popped);
    }
  }

  lemma NewSession(cb: Callbacks)
    ensures SessionInv(cb, NEW, [], [])
  {
  }

  lemma AcceptStep(cb: Callbacks, s: State, id: nat)
    requires Inv(cb, s) && Enabled(s, Accept(id))
    ensures At(cb, Step(cb, s, Accept(id)), id)
  {
    NoneOf(s.queue, id);
    NoneOf(s.popped, id);
    NewSession(cb);
    Settles(cb, Step(cb, s, Accept(id)), id, NEW, [], []);
  }

  lemma ReadStep(cb: Callbacks, s: State, id: nat, chunk: seq<byte>)
    requires At(cb, s, id) && Enabled(s, Read(id, chunk))
    ensures At(cb, Step(cb, s, Read(id, chunk)), id)
  {
    ReadKeeps(cb, s.sessions[id], chunk, Of(s.popped, id), Of(s.queue, id));
  }

  lemma ReadErrorStep(cb: Callbacks, s: State, id: nat)
    requires At(cb, s, id) && Enabled(s, ReadError(id))
    ensures At(cb, Step(cb, s, ReadError(id)), id)
  {
  }

  lemma PostStep(cb: Callbacks, s: State, j: nat, id: nat)
    requires At(cb, s, id) && Enabled(s, Post(j))
    ensures At(cb, Step(cb, s, Post(j)), id)
  {
    var ss := s.sessions[j];
    OfSnoc(s.queue, Node(j, ss.outbox[0]), id);
    if id == j {
      PostKeeps(cb, ss, Of(s.popped, id), Of(s.queue, id));
    } else {
      Settles(cb, Step(cb, s, Post(j)), id, s.sessions[id], Of(s.popped, id), Of(s.queue, id));
    }
  }

  lemma WorkStep(cb: Callbacks, s: State, id: nat)
    requires At(cb, s, id) && Enabled(s, Work)
    ensures At(cb, Step(cb, s, Work), id)
  {
    var n, ss, t := s.queue[0], s.sessions[id], Step(cb, s, Work);
    OfCons(s.queue, id);
    OfSnoc(s.popped, n, id);
    if id == n.session {
      WorkKeeps(cb, ss, n.msg, Of(s.popped, id), Of(t.queue, id));
      Settles(cb, t, id, Answer(cb, ss, n.msg), Of(s.popped, id) + [n.msg], Of(t.queue, id));
    } else {
      Settles(cb, t, id, ss, Of(s.popped, id), Of(s.queue, id));
    }
  }

  lemma WriteStep(cb: Callbacks, s: State, id: nat, e: Event)
    requires At(cb, s, id) && Enabled(s, Write(id, e))
    ensures At(cb, Step(cb, s, Write(id, e)), id)
  {
    SendRuns.StepKeepsInv(s.sessions[id].sender, e);
  }

  lemma StaysKnown(cb: Callbacks, s: State, a: Action)
    requires Known(s) && Enabled(s, a)
    ensures Known(Step(cb, s, a))
  {
    assert s.sessions.Keys <= Step(cb, s, a).sessions.Keys;
  }

  /** A step of one session leaves the others alone. */
  lemma OneSessionMoves(cb: Callbacks, s: State, t: State, j: nat)
    requires Inv(cb, s) && Known(t) && t.queue == s.queue && t.popped == s.popped
    requires j in t.sessions && t.sessions == s.sessions[j := t.sessions[j]] && At(cb, t, j)
    ensures Inv(cb, t)
  {
    forall id | id in t.sessions ensures At(cb, t, id) {
      if id != j {
        Settles(cb, t, id, s.sessions[id], Of(s.popped, id), Of(s.queue, id));
      }
    }
  }

  lemma PostKeepsInv(cb: Callbacks, s: State, j: nat)
    requires Inv(cb, s) && Enabled(s, Post(j))
    ensures Inv(cb, Step(cb, s, Post(j)))
  {
    StaysKnown(cb, s, Post(j));
    forall id | id in s.sessions ensures At(cb, Step(cb, s, Post(j)), id) {
      PostStep(cb, s, j, id);
    }
  }

  lemma WorkKeepsInv(cb: Callbacks, s: State)
    requires Inv(cb, s) && Enabled(s, Work)
    ensures Inv(cb, Step(cb, s, Work))
  {
    StaysKnown(cb, s, Work);
    forall id | id in s.sessions ensures At(cb, Step(cb, s, Work), id) {
      WorkStep(cb, s, id);
    }
  }

  lemma StepKeepsInv(cb: Callbacks, s: State, a: Action)
    requires Inv(cb, s) && Enabled(s, a)
    ensures Inv(cb, Step(cb, s, a))
  {
    StaysKnown(cb, s, a);
    match a
    case Post(j) => PostKeepsInv(cb, s, j);
    case Work => WorkKeepsInv(cb, s);
    case Accept(id) => AcceptStep(cb, s, id); OneSessionMoves(cb, s, Step(cb, s, a), id);
    case Read(id, chunk) => ReadStep(cb, s, id, chunk); OneSessionMoves(cb, s, Step(cb, s, a), id);
    case ReadError(id) => ReadErrorStep(cb, s, id); OneSessionMoves(cb, s, Step(cb, s, a), id);
    case Write(id, e) => WriteStep(cb, s, id, e); OneSessionMoves(cb, s, Step(cb, s, a), id);
  }

  lemma {:induction false} RunKeepsInv(cb: Callbacks, s: State, actions: seq<Action>)
    requires Inv(cb, s) && Possible(cb, s, actions)
    ensures Inv(cb, Run(cb, s, actions))
    decreases |actions|
  {
    if actions != [] {
      StepKeepsInv(cb, s, actions[0]);
      RunKeepsInv(cb, Step(cb, s, actions[0]), actions[1..]);
    }
  }

  lemma HeadOrTail<T>(x: T, xs: seq<T>)
    requires xs != []
    ensures x in xs <==> x == xs[0] || x in xs[1..]
  {
    assert xs == [xs[0]] + xs[1..];
  }

  /** The chunks that a session reads in a run. */
  function ChunksRead(actions: seq<Action>, id: nat): seq<seq<byte>> {
    if actions == [] then
      []
    else
      (if actions[0].Read? && actions[0].id == id then [actions[0].chunk] else []) + ChunksRead(actions[1..], id)
  }

  /** The sessions that post in a run, in the order of their posts. */
  function Posters(actions: seq<Action>): seq<nat> {
    if actions == [] then [] else (if actions[0].Post? then [actions[0].id] else []) + Posters(actions[1..])
  }

  function Works(actions: seq<Action>): nat {
    if actions == [] then 0 else (if actions[0].Work? then 1 else 0) + Works(actions[1..])
  }

  function SessionsOf(nodes: seq<Node>): seq<nat> {
    seq(|nodes|, i requires 0 <= i < |nodes| => nodes[i].session)
  }

  function ChunksIn(s: State, id: nat): seq<seq<byte>> {
    if id in s.sessions then s.sessions[id].chunks else []
  }

  lemma ReadsStep(cb: Callbacks, s: State, a: Action, id: nat)
    requires Enabled(s, a)
    ensures var t := Step(cb, s, a);
            && (id in t.sessions <==> id in s.sessions || a == Accept(id))
            && ChunksIn(t, id) == ChunksIn(s, id) + (if a.Read? && a.id == id then [a.chunk] else [])
  {
    assert ChunksIn(s, id) + [] == ChunksIn(s, id);
  }

  lemma {:induction false} ReadsFrom(cb: Callbacks, s: State, actions: seq<Action>, id: nat)
    requires Possible(cb, s, actions)
    ensures var t := Run(cb, s, actions);
            && (id in t.sessions <==> id in s.sessions || Accept(id) in actions)
            && ChunksIn(t, id) == ChunksIn(s, id) + ChunksRead(actions, id)
    decreases |actions|
  {
    if actions == [] {
      assert ChunksIn(s, id) + [] == ChunksIn(s, id);
    } else {
      var a, rest := actions[0], actions[1..];
      ReadsStep(cb, s, a, id);
      ReadsFrom(cb, Step(cb, s, a), rest, id);
      HeadOrTail(Accept(id), actions);
      Assoc(ChunksIn(s, id), if a.Read? && a.id == id then [a.chunk] else [], ChunksRead(rest, id));
    }
  }

  lemma SessionsSnoc(nodes: seq<Node>, n: Node)
    ensures SessionsOf(nodes + [n]) == SessionsOf(nodes) + [n.session]
  {
  }

  lemma NodesStep(cb: Callbacks, s: State, a: Action)
    requires Enabled(s, a)
    ensures var t := Step(cb, s, a);
            && SessionsOf(t.popped + t.queue) == SessionsOf(s.popped + s.queue) + (if a.Post? then [a.id] else [])
            && |t.popped| == |s.popped| + (if a.Work? then 1 else 0)
  {
    var t, before := Step(cb, s, a), s.popped + s.queue;
    if a.Post? {
      var n := Node(a.id, s.sessions[a.id].outbox[0]);
      assert t.popped + t.queue == before + [n];
      SessionsSnoc(before, n);
    } else {
      assert t.popped + t.queue == before;
      assert SessionsOf(before) + [] == SessionsOf(before);
    }
  }

  lemma {:induction false} NodesFrom(cb: Callbacks, s: State, actions: seq<Action>)
    requires Possible(cb, s, actions)
    ensures var t := Run(cb, s, actions);
            && SessionsOf(t.popped + t.queue) == SessionsOf(s.popped + s.queue) + Posters(actions)
            && |t.popped| == |s.popped| + Works(actions)
    decreases |actions|
  {
    if actions == [] {
      assert SessionsOf(s.popped + s.queue) + [] == SessionsOf(s.popped + s.queue);
    } else {
      var a, rest := actions[0], actions[1..];
      NodesStep(cb, s, a);
      NodesFrom(cb, Step(cb, s, a), rest);
      Assoc(SessionsOf(s.popped + s.queue), if a.Post? then [a.id] else [], Posters(rest));
    }
  }

  /** The states are those of the events: the sessions are those accepted, each has the
      chunks that were read of it, in order; the worker has popped one node in each of
      its steps; and the nodes, popped and queued, are in the order of all posts. */
  lemma AccountOfActions(cb: Callbacks, actions: seq<Action>, id: nat)
    requires Possible(cb, INIT, actions)
    ensures var s := Run(cb, INIT, actions);
            && (id in s.sessions <==> Accept(id) in actions)
            && (id in s.sessions ==> s.sessions[id].chunks == ChunksRead(actions, id))
            && SessionsOf(s.popped + s.queue) == Posters(actions) && |s.popped| == Works(actions)
  {
    ReadsFrom(cb, INIT, actions, id);
    NodesFrom(cb, INIT, actions);
    assert [] + ChunksRead(actions, id) == ChunksRead(actions, id);
    assert SessionsOf([] + []) + Posters(actions) == Posters(actions);
  }

  /** Exactly once and in order, from bytes to callbacks: in every reachable state,
      each session's popped messages, then its queued ones, then those its handler is
      about to post, are the messages that the chunks read of it decode to, and with no
      read boundary inside a header they are the frames of its byte stream. */
  lemma ExactlyOnceInOrder(cb: Callbacks, actions: seq<Action>, id: nat)
    requires Possible(cb, INIT, actions) && Accept(id) in actions
    ensures var s, chunks := Run(cb, INIT, actions), ChunksRead(actions, id);
            && id in s.sessions
            && var seen := Of(s.popped, id) + Of(s.queue, id) + s.sessions[id].outbox;
            && seen == ReceiveAll(chunks).msgs
            && (Admissible(chunks) ==> seen == Deframe(Concat(chunks)).msgs)
  {
    RunKeepsInv(cb, INIT, actions);
    AccountOfActions(cb, actions, id);
    var s := Run(cb, INIT, actions);
    assert At(cb, s, id);
    if Admissible(s.sessions[id].chunks) {
      ChunkIndependence(s.sessions[id].chunks);
    }
  }

  /** In order, from callbacks to the wire: a session's wire is a prefix of the nodes
      it accepted, those are the answers to its popped messages with the dropped ones
      left out, and if none was dropped they are all the answers. */
  lemma AnswersInOrder(cb: Callbacks, actions: seq<Action>, id: nat)
    requires Possible(cb, INIT, actions) && id in Run(cb, INIT, actions).sessions
    ensures var s := Run(cb, INIT, actions);
            var out := s.sessions[id].sender;
            && out.wire <= Flatten(out.accepted)
            && Sublist(out.accepted, Answers(cb, Of(s.popped, id)))
            && (out.dropped == 0 <==> out.accepted == Answers(cb, Of(s.popped, id)))
  {
    RunKeepsInv(cb, INIT, actions);
    var s := Run(cb, INIT, actions);
    assert At(cb, s, id);
    var out := s.sessions[id].sender;
    WireIsPrefix(out);
    FullSublist(out.accepted, Answers(cb, Of(s.popped, id)));
  }

  /** The replies to the registered messages among `ms`. */
  function Replies(cb: Callbacks, ms: seq<Msg>): seq<Msg> {
    if ms == [] then
      []
    else
      var last := ms[|ms| - 1];
      Replies(cb, ms[..|ms| - 1]) + if last.id in cb.registered then [cb.reply(last)] else []
  }

  lemma {:induction false} AnswersEncodeReplies(cb: Callbacks, ms: seq<Msg>)
    ensures AllSendable(Replies(cb, ms)) && Flatten(Answers(cb, ms)) == EncodeAll(Replies(cb, ms))
    ensures |Replies(cb, ms)| == |Answers(cb, ms)|
    decreases |ms|
  {
    if ms != [] {
      var last, init := ms[|ms| - 1], ms[..|ms| - 1];
      AnswersEncodeReplies(cb, init);
      if last.id in cb.registered {
        var r: Reply := cb.reply(last);
        assert [r][1..] == [];
        assert EncodeAll([r]) == Encode(r) + [];
        EncodeConcat(Replies(cb, init), [r]);
        FlattenConcat(Answers(cb, init), [Encode(r)]);
        assert Flatten([Encode(r)]) == Encode(r);
      } else {
        assert Answers(cb, init) + [] == Answers(cb, init) && Replies(cb, init) + [] == Replies(cb, init);
      }
    }
  }

  lemma FirstFrame(w: seq<byte>, m: Msg, tail: seq<byte>)
    requires Sendable(m) && WholeFrame(w) && w <= Encode(m) + tail
    ensures FirstMsg(w) == m && Later(w) <= tail
  {
    var rest := (Encode(m) + tail)[|w|..];
    assert w + rest == Encode(m) + tail;
    PrefixHeader(w, rest);
    EncodedHeader(m, tail);
    EncodedFrame(m, tail);
  }

  /** The beginning of a stream of frames reads as the beginning of their messages;
      a reader that rejects one of them stops there. */
  lemma {:induction false} PrefixReads(w: seq<byte>, ms: seq<Msg>)
    requires AllSendable(ms) && w <= EncodeAll(ms)
    ensures Deframe(w).msgs <= ms
    decreases |ms|
  {
    if WholeFrame(w) {
      FirstFrame(w, ms[0], EncodeAll(ms[1..]));
      PrefixReads(Later(w), ms[1..]);
      assert ms == [ms[0]] + ms[1..];
    }
  }

  lemma {:induction false} SublistOfPrefix<T>(a: seq<T>, b: seq<T>, c: seq<T>)
    requires Sublist(a, b) && b <= c
    ensures Sublist(a, c)
    decreases |c|
  {
    if |b| == |c| {
      assert b == c;
    } else {
      SublistOfPrefix(a, b, c[..|c| - 1]);
    }
  }

  lemma {:induction false} PrefixOfSublist<T>(a: seq<T>, b: seq<T>, c: seq<T>)
    requires a <= b && Sublist(b, c)
    ensures Sublist(a, c)
    decreases |c|
  {
    if c == [] || |a| == |b| {
      assert a == b;
    } else if Sublist(b, c[..|c| - 1]) {
      PrefixOfSublist(a, b, c[..|c| - 1]);
    } else {
      PrefixOfSublist(a, b[..|b| - 1], c[..|c| - 1]);
    }
  }

  /** What the sender accepted encodes some of the replies, in their order. */
  lemma {:induction false} AcceptedReplies(cb: Callbacks, accepted: seq<bytes>, ms: seq<Msg>) returns (rs: seq<Msg>)
    requires Sublist(accepted, Answers(cb, ms))
    ensures Sublist(rs, Replies(cb, ms)) && |rs| == |accepted|
    ensures AllSendable(rs) && Flatten(accepted) == EncodeAll(rs)
    decreases |ms|
  {
    if ms == [] {
      rs := [];
    } else {
      var last, init, k := ms[|ms| - 1], ms[..|ms| - 1], |accepted| - 1;
      if last.id !in cb.registered {
        assert Answers(cb, init) + [] == Answers(cb, init) && Replies(cb, init) + [] == Replies(cb, init);
        rs := AcceptedReplies(cb, accepted, init);
      } else {
        var r: Reply := cb.reply(last);
        assert Answers(cb, ms)[..|Answers(cb, ms)| - 1] == Answers(cb, init);
        if Sublist(accepted, Answers(cb, init)) {
          rs := AcceptedReplies(cb, accepted, init);
          SublistSnoc(rs, Replies(cb, init), r);
        } else {
          var some := AcceptedReplies(cb, accepted[..k], init);
          rs := some + [r];
          SublistSnoc(some, Replies(cb, init), r);
          assert [r][1..] == [];
          assert EncodeAll([r]) == Encode(r) + [];
          EncodeConcat(some, [r]);
        }
      }
    }
  }

  /** End to end, for a session that is read without cutting headers: a peer that reads
      the session's wire with the same framing has, at any moment, some of the replies
      to the messages of its own byte stream, in that order and each at most once; if
      no answer was dropped, these are the first ones, without a gap. */
  lemma EndToEnd(cb: Callbacks, actions: seq<Action>, id: nat)
    requires Possible(cb, INIT, actions) && Accept(id) in actions && Admissible(ChunksRead(actions, id))
    ensures var s := Run(cb, INIT, actions);
            && id in s.sessions
            && var out := s.sessions[id].sender;
               var got, stream := Deframe(out.wire).msgs, Concat(ChunksRead(actions, id));
               var replies := Replies(cb, Deframe(stream).msgs);
               Sublist(got, replies) && (out.dropped == 0 ==> got <= replies)
  {
    RunKeepsInv(cb, INIT, actions);
    AccountOfActions(cb, actions, id);
    var s := Run(cb, INIT, actions);
    assert At(cb, s, id);
    EndToEndOf(cb, s.sessions[id], Of(s.popped, id), Of(s.queue, id));
  }

  lemma EndToEndOf(cb: Callbacks, ss: Session, popped: seq<Msg>, queued: seq<Msg>)
    requires SessionInv(cb, ss, popped, queued) && Admissible(ss.chunks)
    ensures var got, replies := Deframe(ss.sender.wire).msgs, Replies(cb, Deframe(Concat(ss.chunks)).msgs);
            Sublist(got, replies) && (ss.sender.dropped == 0 ==> got <= replies)
  {
    ChunkIndependence(ss.chunks);
    WireIsPrefix(ss.sender);
    assert popped + queued + ss.outbox == popped + (queued + ss.outbox);
    WireReadsSome(cb, ss.sender, popped, queued + ss.outbox);
    if ss.sender.dropped == 0 {
      FullSublist(ss.sender.accepted, Answers(cb, popped));
      WireReads(cb, ss.sender.wire, popped, queued + ss.outbox);
    }
  }

  lemma WireReadsSome(cb: Callbacks, out: Sender, popped: seq<Msg>, later: seq<Msg>)
    requires Sublist(out.accepted, Answers(cb, popped)) && out.wire <= Flatten(out.accepted)
    ensures Sublist(Deframe(out.wire).msgs, Replies(cb, popped + later))
  {
    var rs := AcceptedReplies(cb, out.accepted, popped);
    PrefixReads(out.wire, rs);
    PrefixOfSublist(Deframe(out.wire).msgs, rs, Replies(cb, popped));
    RepliesPrefix(cb, popped, later);
    SublistOfPrefix(Deframe(out.wire).msgs, Replies(cb, popped), Replies(cb, popped + later));
  }

  /** Only a session's own writes and answers touch its sender; a session that was not
      there before is new. */
  lemma OthersLeaveSender(cb: Callbacks, s: State, a: Action, id: nat)
    requires Enabled(s, a) && !(a.Write? && a.id == id) && !(a.Work? && s.queue[0].session == id)
    ensures var t := Step(cb, s, a);
            && (id in s.sessions ==> id in t.sessions && t.sessions[id].sender == s.sessions[id].sender)
            && (id !in s.sessions && id in t.sessions ==> t.sessions[id] == NEW)
  {
  }

  lemma AnswerDead(cb: Callbacks, ss: Session, m: Msg)
    requires SendRuns.Inv(ss.sender)
    ensures Answer(cb, ss, m).sender.q.Dead() <==> ss.sender.q.Dead()
  {
    if m.id in cb.registered {
      SendRuns.DeadStep(ss.sender, Send(Encode(cb.reply(m))));
    }
  }

  /** A session keeps existing, and only its failed write makes its queue dead. */
  lemma DeadStep(cb: Callbacks, s: State, a: Action, id: nat)
    requires Inv(cb, s) && Enabled(s, a) && id in s.sessions
    ensures var t := Step(cb, s, a);
            id in t.sessions &&
            (t.sessions[id].sender.q.Dead() <==> s.sessions[id].sender.q.Dead() || a == Write(id, WriteFailed))
  {
    assert At(cb, s, id);
    if a.Write? && a.id == id {
      SendRuns.DeadStep(s.sessions[id].sender, a.event);
    } else if a.Work? && s.queue[0].session == id {
      AnswerDead(cb, s.sessions[id], s.queue[0].msg);
    } else {
      OthersLeaveSender(cb, s, a, id);
    }
  }

  lemma {:induction false} DeadExactly(cb: Callbacks, s: State, actions: seq<Action>, id: nat)
    requires Inv(cb, s) && Possible(cb, s, actions) && id in s.sessions
    ensures var t := Run(cb, s, actions);
            id in t.sessions &&
            (t.sessions[id].sender.q.Dead() <==>
              s.sessions[id].sender.q.Dead() || Write(id, WriteFailed) in actions)
    decreases |actions|
  {
    if actions != [] {
      var t, rest := Step(cb, s, actions[0]), actions[1..];
      StepKeepsInv(cb, s, actions[0]);
      DeadStep(cb, s, actions[0], id);
      DeadExactly(cb, t, rest, id);
      HeadOrTail(Write(id, WriteFailed), actions);
    }
  }

  lemma {:induction false} DeadExactlyFromStart(cb: Callbacks, s: State, actions: seq<Action>, id: nat)
    requires Inv(cb, s) && Possible(cb, s, actions)
    requires id in s.sessions ==> !s.sessions[id].sender.q.Dead()
    requires id in Run(cb, s, actions).sessions
    ensures Run(cb, s, actions).sessions[id].sender.q.Dead() <==> Write(id, WriteFailed) in actions
    decreases |actions|
  {
    if id in s.sessions {
      DeadExactly(cb, s, actions, id);
    } else {
      StepKeepsInv(cb, s, actions[0]);
      if !actions[0].Work? {
        OthersLeaveSender(cb, s, actions[0], id);
      }
      DeadExactlyFromStart(cb, Step(cb, s, actions[0]), actions[1..], id);
      HeadOrTail(Write(id, WriteFailed), actions);
    }
  }

  /** Nothing else is lost: once such a session is at rest, with nothing queued or
      unposted and no write in flight, and none of its writes has failed, its wire is
      exactly the encoded replies to the frames of its byte stream, in order, with as
      many left out as were dropped, so all of them if none was. */
  lemma AllAnsweredAtRest(cb: Callbacks, actions: seq<Action>, id: nat) returns (sent: seq<Msg>)
    requires Possible(cb, INIT, actions) && Accept(id) in actions && Admissible(ChunksRead(actions, id))
    requires var s := Run(cb, INIT, actions);
             id in s.sessions ==>
             && Of(s.queue, id) == [] && s.sessions[id].outbox == []
             && s.sessions[id].sender.q.inFlight == []
    requires Write(id, WriteFailed) !in actions
    ensures var s := Run(cb, INIT, actions);
            && id in s.sessions
            && var out := s.sessions[id].sender;
               var replies := Replies(cb, Deframe(Concat(ChunksRead(actions, id))).msgs);
            && AllSendable(sent) && out.wire == EncodeAll(sent)
            && Sublist(sent, replies) && |sent| + out.dropped == |replies|
            && (out.dropped == 0 ==> sent == replies)
  {
    RunKeepsInv(cb, INIT, actions);
    AccountOfActions(cb, actions, id);
    DeadExactlyFromStart(cb, INIT, actions, id);
    var s := Run(cb, INIT, actions);
    assert At(cb, s, id);
    sent := AtRestOf(cb, s.sessions[id], Of(s.popped, id));
  }

  lemma AtRestOf(cb: Callbacks, ss: Session, popped: seq<Msg>) returns (sent: seq<Msg>)
    requires SessionInv(cb, ss, popped, [])
    requires Admissible(ss.chunks) && ss.outbox == []
    requires ss.sender.q.inFlight == [] && !ss.sender.q.Dead()
    ensures var replies := Replies(cb, Deframe(Concat(ss.chunks)).msgs);
            && AllSendable(sent) && ss.sender.wire == EncodeAll(sent)
            && Sublist(sent, replies) && |sent| + ss.sender.dropped == |replies|
            && (ss.sender.dropped == 0 ==> sent == replies)
  {
    ChunkIndependence(ss.chunks);
    assert popped + [] + [] == popped;
    assert ss.sender.completed + [] == ss.sender.completed;
    sent := AcceptedReplies(cb, ss.sender.accepted, popped);
    AnswersEncodeReplies(cb, popped);
    FullSublist(sent, Replies(cb, popped));
  }

  /** No read of the session has failed, or it is still to be accepted. */
  predicate StillReading(s: State, id: nat) {
    id in s.sessions ==> s.sessions[id].reading
  }

  lemma {:induction false} ReadingExactly(cb: Callbacks, s: State, actions: seq<Action>, id: nat)
    requires Possible(cb, s, actions)
    ensures StillReading(Run(cb, s, actions), id) <==> StillReading(s, id) && ReadError(id) !in actions
    decreases |actions|
  {
    if actions != [] {
      ReadingExactly(cb, Step(cb, s, actions[0]), actions[1..], id);
      HeadOrTail(ReadError(id), actions);
    }
  }

  /** The session's socket has been closed, after a failed read or a failed write. */
  predicate Closed(ss: Session) {
    !ss.reading || ss.sender.q.Dead()
  }

  /** Nothing is sent on a closed socket, in any continuation. */
  lemma {:induction false} NothingSentOnceClosed(cb: Callbacks, s: State, actions: seq<Action>, id: nat)
    requires Possible(cb, s, actions) && id in s.sessions && Closed(s.sessions[id])
    ensures var t := Run(cb, s, actions);
            id in t.sessions && t.sessions[id].sender.wire == s.sessions[id].sender.wire
    decreases |actions|
  {
    if actions != [] {
      NothingSentOnceClosed(cb, Step(cb, s, actions[0]), actions[1..], id);
    }
  }

  lemma WireReads(cb: Callbacks, wire: bytes, popped: seq<Msg>, later: seq<Msg>)
    requires wire <= Flatten(Answers(cb, popped))
    ensures Deframe(wire).msgs <= Replies(cb, popped + later)
  {
    AnswersEncodeReplies(cb, popped);
    PrefixReads(wire, Replies(cb, popped));
    RepliesPrefix(cb, popped, later);
  }

  lemma {:induction false} RepliesPrefix(cb: Callbacks, a: seq<Msg>, b: seq<Msg>)
    ensures Replies(cb, a) <= Replies(cb, a + b)
    decreases |b|
  {
    if b == [] {
      assert a + b == a;
    } else {
      RepliesPrefix(cb, a, b[..|b| - 1]);
      assert (a + b)[..|a + b| - 1] == a + b[..|b| - 1];
    }
  }
}

/** The reading coroutine of BoostCoServer: exact reads of a header and a body.  It
    is the simple form of the deframer; the two differ on empty payloads only. */
module CoReader {
  import opened Wire
  import opened MsgNodes
  import opened LogicQueues
  import opened LogicServer
  import opened Receiver

  /** The messages in front of the first empty one. */
  function BeforeEmpty(ms: seq<Msg>): seq<Msg> {
    if ms == [] || ms[0].payload == [] then [] else [ms[0]] + BeforeEmpty(ms[1..])
  }

  predicate NoneEmpty(ms: seq<Msg>) {
    forall i | 0 <= i < |ms| :: ms[i].payload != []
  }

  lemma {:induction false} BeforeEmptyAppend(a: seq<Msg>, b: seq<Msg>)
    requires NoneEmpty(a) && (b == [] || b[0].payload == [])
    ensures BeforeEmpty(a + b) == a
  {
    if a == [] {
      assert a + b == b;
    } else {
      BeforeEmptyAppend(a[1..], b);
      assert (a + b)[1..] == a[1..] + b;
    }
  }

  lemma {:induction false} BeforeEmptyIsAll(ms: seq<Msg>)
    ensures BeforeEmpty(ms) <= ms
    ensures BeforeEmpty(ms) == ms <==> NoneEmpty(ms)
  {
    if ms != [] && ms[0].payload != [] {
      BeforeEmptyIsAll(ms[1..]);
      assert ms == [ms[0]] + ms[1..];
      assert NoneEmpty(ms) ==> NoneEmpty(ms[1..]);
      if NoneEmpty(ms[1..]) {
        forall i | 0 <= i < |ms| ensures ms[i].payload != [] {
          assert i > 0 ==> ms[i] == ms[1..][i - 1];
        }
      }
      assert BeforeEmpty(ms)[1..] == BeforeEmpty(ms[1..]);
    }
  }

  /** Under any admissible chunking `HandleRead` posts what the coroutine posts, and
      possibly more: the same sequence exactly when no message is empty. */
  lemma RefinesCoroutine(chunks: seq<seq<byte>>)
    requires Admissible(chunks)
    ensures var co := BeforeEmpty(Deframe(Concat(chunks)).msgs);
            && co <= ReceiveAll(chunks).msgs
            && (ReceiveAll(chunks).msgs == co <==> NoneEmpty(Deframe(Concat(chunks)).msgs))
  {
    ChunkIndependence(chunks);
    BeforeEmptyIsAll(Deframe(Concat(chunks)).msgs);
  }

  /** The smallest input on which the two differ: one whole frame, with id 0 and an
      empty payload. */
  lemma EmptyFrameTellsThemApart()
    ensures var chunks: seq<seq<byte>> := [[0, 0, 0, 0]];
            && ReceiveAll(chunks).msgs == [Msg(0, [])]
            && BeforeEmpty(Deframe(Concat(chunks)).msgs) == []
  {
    var chunks: seq<seq<byte>>, w: seq<byte> := [[0, 0, 0, 0]], [0, 0, 0, 0];
    assert chunks[..0] == [] && START.pending + w == w && Concat(chunks) == w;
    assert FirstMsg(w) == Msg(0, []) && Later(w) == [];
    assert Deframe(w).msgs == [Msg(0, [])];
  }

  lemma TurnOnValues(w: seq<byte>, done: seq<Msg>, whole: Deframed)
    requires NoneEmpty(done) && whole == Deframe(w).After(done)
    ensures if WholeFrame(w) && FirstMsg(w).payload != [] then
              && whole == Deframe(Later(w)).After(done + [FirstMsg(w)]) && NoneEmpty(done + [FirstMsg(w)])
            else
              && done == BeforeEmpty(whole.msgs)
              && (whole.status.Cleared? && NoneEmpty(whole.msgs) <==> !WholeFrame(w) && Verdict(w).Cleared?)
  {
    if WholeFrame(w) {
      OneFrame(w, done);
      if FirstMsg(w).payload == [] {
        var later := Deframe(w).msgs;
        BeforeEmptyAppend(done, later);
        assert (done + later)[|done|] == FirstMsg(w);
      }
    } else {
      BeforeEmptyAppend(done, []);
    }
  }

  ghost predicate Carried(nodes: seq<LogicNode<CoSession>>, s: CoSession, ms: seq<Msg>)
    reads set n <- nodes :: n.recvnode, set n <- nodes :: n.recvnode.data
  {
    && |nodes| == |ms|
    && forall i | 0 <= i < |nodes| :: nodes[i].session == s && nodes[i].recvnode.Carries(ms[i])
  }

  /** The logic queue with its count of notifications. */
  ghost function Queued(logic: LogicSystem<CoSession>): Log<LogicNode<CoSession>>
    reads logic`msgQue, logic`notifies
  {
    Log(logic.msgQue, logic.notifies, [], [])
  }

  class CoSession {
    const uuid: nat
    const server: CServer
    const recvHeadNode: MsgNode
    var recvMsgNode: MsgNode?
    var bClose: bool

    constructor (uuid: nat, server: CServer)
      ensures this.uuid == uuid && this.server == server && !bClose
      ensures fresh(recvHeadNode) && fresh(recvHeadNode.data)
      ensures recvHeadNode.Valid() && recvHeadNode.totalLen == HEAD_TOTAL_LEN
    {
      this.uuid, this.server := uuid, server;
      recvHeadNode := new MsgNode(HEAD_TOTAL_LEN);
      recvMsgNode, bClose := null, false;
    }

    method Close()
      modifies this`bClose
      ensures bClose
    {
      bClose := true;
    }

    /** The exception handler, and what a read of no bytes leads to as well. */
    method Quit()
      modifies this`bClose, server
      ensures bClose && server.sessions == old(server.sessions) - {uuid}
    {
      Close();
      server.ClearSession(uuid);
    }

    /** Read the header at `pos` of the stream and check it. */
    method ReadHeader(stream: seq<byte>, pos: nat) returns (status: Status)
      requires recvHeadNode.Valid() && recvHeadNode.totalLen == HEAD_TOTAL_LEN
      requires pos + HEAD_TOTAL_LEN <= |stream|
      modifies recvHeadNode`curLen, recvHeadNode.data, this`bClose, this`recvMsgNode, server
      ensures recvHeadNode.Valid()
      ensures var w := stream[pos..];
              && status == (if WholeFrame(w) then Open else Verdict(w))
              && (status.Open? ==>
                   && recvMsgNode != null && fresh(recvMsgNode) && fresh(recvMsgNode.data)
                   && recvMsgNode.Valid() && recvMsgNode.msgId == HeadId(w) && recvMsgNode.totalLen == HeadLen(w)
                   && recvMsgNode.data[recvMsgNode.totalLen] == 0)
      ensures bClose == (old(bClose) || status.Faulted?)
      ensures server.sessions == old(server.sessions) - if status.Open? then {} else {uuid}
    {
      recvHeadNode.Clear();
      Memcpy(recvHeadNode.data, 0, stream[pos..pos + HEAD_TOTAL_LEN]);
      ghost var w := stream[pos..];
      assert recvHeadNode.data[0] == w[0] && recvHeadNode.data[1] == w[1];
      assert recvHeadNode.data[2] == w[2] && recvHeadNode.data[3] == w[3];
      var msgId := ReadShort(recvHeadNode.data[0], recvHeadNode.data[1]);
      if msgId > MAX_LENGTH {
        server.ClearSession(uuid);
        return Cleared;
      }
      var msgLen := ReadShort(recvHeadNode.data[2], recvHeadNode.data[3]);
      if msgLen > MAX_LENGTH {
        server.ClearSession(uuid);
        return Cleared;
      }
      if msgLen < 0 {
        Quit();
        return Faulted;
      }
      recvMsgNode := new MsgNode.Recv(msgLen, msgId);
      status := Open;
    }

    /** One turn of the coroutine's loop, at `pos` of the stream.  An exact read that
        finds too few bytes throws; a read of an empty body returns 0 bytes, which
        is taken for the end of the connection. */
    method ReadMessage(stream: seq<byte>, pos: nat, logic: LogicSystem<CoSession>) returns (over: bool, pos': nat)
      requires recvHeadNode.Valid() && recvHeadNode.totalLen == HEAD_TOTAL_LEN && !bClose && pos <= |stream|
      modifies this`bClose, this`recvMsgNode, recvHeadNode`curLen, recvHeadNode.data,
               logic`msgQue, logic`notifies, server
      ensures recvHeadNode.Valid()
      ensures var w := stream[pos..];
              if WholeFrame(w) && FirstMsg(w).payload != [] then
                && !over && !bClose && pos < pos' <= |stream| && stream[pos'..] == Later(w)
                && recvMsgNode != null && fresh(recvMsgNode) && fresh(recvMsgNode.data)
                && recvMsgNode.Carries(FirstMsg(w))
                && Queued(logic).SameQueue(old(Queued(logic)).Grown([LogicNode(this, recvMsgNode)], []))
                && server.sessions == old(server.sessions)
              else
                && over && Queued(logic) == old(Queued(logic))
                && bClose == (WholeFrame(w) || !Verdict(w).Cleared?)
                && server.sessions == old(server.sessions) - {uuid}
    {
      over, pos' := true, pos;
      ghost var w := stream[pos..];
      if |stream| - pos < HEAD_TOTAL_LEN {
        Quit();
        return;
      }
      var status := ReadHeader(stream, pos);
      if !status.Open? {
        return;
      }
      pos' := pos + HEAD_TOTAL_LEN;
      if |stream| - pos' < recvMsgNode.totalLen {
        Quit();
        return;
      }
      var n := recvMsgNode.totalLen;
      Memcpy(recvMsgNode.data, 0, stream[pos'..pos' + n]);
      assert stream[pos'..pos' + n] == FirstMsg(w).payload;
      if n == 0 {
        Quit();
        return;
      }
      recvMsgNode.data[n] := 0;
      logic.PostMsgToQue(LogicNode(this, recvMsgNode));
      pos', over := pos' + n, false;
    }

    /** The nodes are not the session's own head node, nor do they share its buffer. */
    ghost predicate Separate(nodes: seq<LogicNode<CoSession>>)
      reads set n <- nodes :: n.recvnode
    {
      forall i | 0 <= i < |nodes| ::
        nodes[i].recvnode != recvHeadNode && nodes[i].recvnode.data != recvHeadNode.data
    }

    /** The same turn in the run of the coroutine: `nodes`, posted so far, carry `done`,
        which are the messages of the `whole` stream in front of `pos`. */
    method TakeTurn(stream: seq<byte>, pos: nat, logic: LogicSystem<CoSession>,
                    ghost nodes: seq<LogicNode<CoSession>>, ghost done: seq<Msg>, ghost whole: Deframed,
                    ghost log: Log<LogicNode<CoSession>>)
      returns (over: bool, pos': nat, ghost nodes': seq<LogicNode<CoSession>>, ghost done': seq<Msg>)
      requires recvHeadNode.Valid() && recvHeadNode.totalLen == HEAD_TOTAL_LEN && !bClose && pos <= |stream|
      requires Separate(nodes) && Carried(nodes, this, done)
      requires NoneEmpty(done) && whole == Deframe(stream[pos..]).After(done)
      requires Queued(logic).SameQueue(log.Grown(nodes, []))
      modifies this`bClose, this`recvMsgNode, recvHeadNode`curLen, recvHeadNode.data,
               logic`msgQue, logic`notifies, server
      ensures recvHeadNode.Valid() && Separate(nodes') && Carried(nodes', this, done')
      ensures Queued(logic).SameQueue(log.Grown(nodes', []))
      ensures over ==>
                && done' == BeforeEmpty(whole.msgs)
                && bClose == !(whole.status.Cleared? && NoneEmpty(whole.msgs))
                && server.sessions == old(server.sessions) - {uuid}
      ensures !over ==>
                && !bClose && pos < pos' <= |stream| && server.sessions == old(server.sessions)
                && NoneEmpty(done') && whole == Deframe(stream[pos'..]).After(done')
    {
      TurnOnValues(stream[pos..], done, whole);
      nodes', done' := nodes, done;
      over, pos' := ReadMessage(stream, pos, logic);
      assert Carried(nodes, this, done);
      if !over {
        GrownTwice(log, nodes, [], [LogicNode(this, recvMsgNode)], []);
        nodes', done' := nodes + [LogicNode(this, recvMsgNode)], done + [FirstMsg(stream[pos..])];
      }
    }

    /** The coroutine, over all the bytes that the peer sends before it closes the
        connection.  It posts the messages in front of the first empty one, and the
        session ends in every case. */
    method Start(stream: seq<byte>, logic: LogicSystem<CoSession>) returns (ghost nodes: seq<LogicNode<CoSession>>)
      requires recvHeadNode.Valid() && recvHeadNode.totalLen == HEAD_TOTAL_LEN && !bClose
      modifies this`bClose, this`recvMsgNode, recvHeadNode`curLen, recvHeadNode.data,
               logic`msgQue, logic`notifies, server
      ensures logic.msgQue == old(logic.msgQue) + nodes
      ensures logic.notifies == old(logic.notifies) + if old(logic.msgQue) == [] && nodes != [] then 1 else 0
      ensures Carried(nodes, this, BeforeEmpty(Deframe(stream).msgs))
      ensures server.sessions == old(server.sessions) - {uuid}
      ensures bClose <==> !(Deframe(stream).status.Cleared? && NoneEmpty(Deframe(stream).msgs))
    {
      nodes := [];
      var pos := 0;
      ghost var done: seq<Msg>, whole, log := [], Deframe(stream), Queued(logic);
      assert stream[0..] == stream;
      while !bClose
        invariant recvHeadNode.Valid() && pos <= |stream| && Separate(nodes)
        invariant Queued(logic).SameQueue(log.Grown(nodes, [])) && Carried(nodes, this, done)
        invariant NoneEmpty(done) && whole == Deframe(stream[pos..]).After(done)
        invariant !bClose && server.sessions == old(server.sessions)
        decreases |stream| - pos
      {
        var over;
        over, pos, nodes, done := TakeTurn(stream, pos, logic, nodes, done, whole, log);
        if over {
          return;
        }
      }
    }
  }
}

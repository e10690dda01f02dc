/** The logic server's session: the incremental deframer `HandleRead` over its
    buffers, and the write queue of `Send` and `HandleWrite`. */
module LogicServer {
  import opened Wire
  import opened MsgNodes
  import opened LogicQueues
  import opened WriteQueues
  import opened Receiver

  class CServer {
    var sessions: set<nat>

    constructor ()
      ensures sessions == {}
    {
      sessions := {};
    }

    method ClearSession(uuid: nat)
      modifies this
      ensures sessions == old(sessions) - {uuid}
    {
      sessions := sessions - {uuid};
    }
  }

  /** One turn of the reading loop on values: a frame comes off the front of `w`, or
      the reading of it ends. */
  function TurnOf(w: seq<byte>): Deframed {
    if WholeFrame(w) then Deframed([FirstMsg(w)], Later(w), Open)
    else Deframed([], if Verdict(w).Open? then w else w[..HEAD_TOTAL_LEN], Verdict(w))
  }

  predicate LastTurn(w: seq<byte>) {
    !WholeFrame(w) || Later(w) == []
  }

  /** A reader of whole streams reads `w` by taking the turn and going on. */
  ghost predicate TakesTurn(reader: seq<byte> -> Deframed, w: seq<byte>, done: seq<Msg>) {
    reader(w).After(done) ==
    if LastTurn(w) then TurnOf(w).After(done) else reader(TurnOf(w).rest).After(done + TurnOf(w).msgs)
  }

  ghost predicate TakesTurns(reader: seq<byte> -> Deframed) {
    forall w, done :: TakesTurn(reader, w, done)
  }

  lemma DeframeTakesTurns()
    ensures TakesTurns(Deframe)
  {
    forall w, done ensures TakesTurn(Deframe, w, done) {
      if WholeFrame(w) {
        OneFrame(w, done);
      }
    }
  }

  lemma Suffix(a: seq<byte>, b: seq<byte>, n: nat)
    requires n <= |b|
    ensures (a + b)[|a + b| - n..] == b[|b| - n..]
  {
  }

  lemma FrontOf<T>(s: seq<T>, from: nat, n: nat, k: nat)
    requires from + n <= |s| && k <= n
    ensures s[from..from + n][..k] == s[from..from + k]
  {
  }

  /** A body completed from the front of `rest` is that of the first message. */
  lemma BodyCompleted(frame: seq<byte>, rest: seq<byte>, n: nat)
    requires |frame| >= HEAD_TOTAL_LEN && WholeFrame(frame + rest)
    requires |frame| + n == HEAD_TOTAL_LEN + HeadLen(frame + rest)
    ensures n <= |rest| && Later(frame + rest) == rest[n..]
    ensures FirstMsg(frame + rest).payload == (frame + rest[..n])[HEAD_TOTAL_LEN..]
  {
  }

  /** The logic queue with its count of notifications, and what a session has posted. */
  datatype Log<T(==)> = Log(que: seq<T>, notifies: nat, posted: seq<T>, posts: seq<Msg>) {
    /** After posting `nodes` that carry `ms`: one notification if the queue was empty. */
    function Grown(nodes: seq<T>, ms: seq<Msg>): Log<T> {
      Log(que + nodes, notifies + (if que == [] && nodes != [] then 1 else 0), posted + nodes, posts + ms)
    }

    predicate SameQueue(other: Log<T>) {
      que == other.que && notifies == other.notifies
    }
  }

  lemma GrownTwice<T>(log: Log<T>, a: seq<T>, x: seq<Msg>, b: seq<T>, y: seq<Msg>)
    ensures log.Grown(a, x).Grown(b, y) == log.Grown(a + b, x + y)
  {
    assert log.que + a + b == log.que + (a + b);
    assert log.posted + a + b == log.posted + (a + b);
    assert log.posts + x + y == log.posts + (x + y);
  }

  class CSession {
    const uuid: nat
    const server: CServer
    const data: array<byte>
    const recvHeadNode: MsgNode
    var recvMsgNode: MsgNode?
    var bHeadParse: bool
    var bClose: bool
    var sendQue: seq<MsgNode>
    // the asynchronous operations of the socket that are outstanding
    var readsArmed: nat
    var writesInFlight: seq<MsgNode>
    // everything ever posted: the nodes, which now belong to the logic queue, and
    // the messages that they were posted with
    ghost var handedOver: set<MsgNode>
    ghost var posted: seq<LogicNode<CSession>>
    ghost var posts: seq<Msg>

    constructor (uuid: nat, server: CServer)
      ensures Valid() && Held() == START && readsArmed == 0 && posts == [] && posted == []
      ensures fresh(data) && fresh(recvHeadNode) && fresh(recvHeadNode.data) && Current() == {}
      ensures Writes() == Empty() && !bClose
      ensures this.uuid == uuid && this.server == server
    {
      this.uuid, this.server := uuid, server;
      data := new byte[MAX_LENGTH](_ => 0);
      recvHeadNode := new MsgNode(HEAD_TOTAL_LEN);
      recvMsgNode, bHeadParse, bClose := null, false, false;
      sendQue, writesInFlight, posted, posts, handedOver := [], [], [], [], {};
      readsArmed := 0;
    }

    /** The node whose body is still being read, with its buffer. */
    ghost function Current(): set<object>
      reads `bHeadParse, `recvMsgNode
    {
      if bHeadParse && recvMsgNode != null then {recvMsgNode, recvMsgNode.data} else {}
    }

    /** The body in progress is the one there was, or in a node made since. */
    twostate predicate SameOrNewBody()
      reads this
    {
      bHeadParse && recvMsgNode != null ==>
        || (old(bHeadParse) && recvMsgNode == old(recvMsgNode))
        || (fresh(recvMsgNode) && fresh(recvMsgNode.data))
    }

    /** A node shares neither itself nor its buffer with any node handed over. */
    ghost predicate Separate(n: MsgNode)
      reads `handedOver
    {
      n !in handedOver && forall o <- handedOver :: o.data != n.data
    }

    ghost predicate Buffers()
      reads `handedOver, recvHeadNode
    {
      && data.Length == MAX_LENGTH && data != recvHeadNode.data
      && recvHeadNode.Valid() && recvHeadNode.totalLen == HEAD_TOTAL_LEN && recvHeadNode.curLen == 0
      && Separate(recvHeadNode)
      && forall n <- handedOver :: n.data != data
    }

    /** The session's own body node: made for the header in the head node, and not
        shared with anybody. */
    ghost predicate OwnsBody()
      reads `handedOver, `recvMsgNode, recvHeadNode, recvHeadNode.data, recvMsgNode,
            if recvMsgNode != null then {recvMsgNode.data} else {}
      requires Buffers()
    {
      && recvMsgNode != null && recvMsgNode.Valid() && recvMsgNode != recvHeadNode
      && recvMsgNode.data != data && recvMsgNode.data != recvHeadNode.data
      && Separate(recvMsgNode)
      && recvMsgNode.data[recvMsgNode.totalLen] == 0
      && var head := recvHeadNode.data[..HEAD_TOTAL_LEN];
         GoodHeader(head) && HeadId(head) == recvMsgNode.msgId && HeadLen(head) == recvMsgNode.totalLen
    }

    /** The buffers are in order; a body in progress is incomplete. */
    ghost predicate Ready()
      reads `handedOver, `bHeadParse, `recvMsgNode, recvHeadNode, recvHeadNode.data, Current()
    {
      Buffers() && (bHeadParse ==> OwnsBody() && recvMsgNode.curLen < recvMsgNode.totalLen)
    }

    /** Every node ever posted still carries the message it was posted with. */
    ghost predicate Kept()
      reads `handedOver, `posted, `posts, handedOver, set n <- handedOver :: n.data
    {
      && |posted| == |posts|
      && forall i | 0 <= i < |posted| ::
           posted[i].session == this && posted[i].recvnode in handedOver && posted[i].recvnode.Holds(posts[i])
    }

    ghost predicate Valid()
      reads `handedOver, `bHeadParse, `recvMsgNode, `posted, `posts, recvHeadNode, recvHeadNode.data,
            Current(), handedOver, set n <- handedOver :: n.data
    {
      Ready() && Kept()
    }

    ghost function Frame(): seq<byte>
      reads `handedOver, `recvMsgNode, recvHeadNode, recvHeadNode.data, recvMsgNode,
            if recvMsgNode != null then {recvMsgNode.data} else {}
      requires Buffers() && OwnsBody()
    {
      recvHeadNode.data[..HEAD_TOTAL_LEN] + recvMsgNode.data[..recvMsgNode.curLen]
    }

    lemma FrameHeader(more: seq<byte>)
      requires Buffers() && OwnsBody()
      ensures var w := Frame() + more;
              && GoodHeader(w) && HeadId(w) == recvMsgNode.msgId && HeadLen(w) == recvMsgNode.totalLen
              && |w| == HEAD_TOTAL_LEN + recvMsgNode.curLen + |more|
    {
      PrefixHeader(recvHeadNode.data[..HEAD_TOTAL_LEN], recvMsgNode.data[..recvMsgNode.curLen] + more);
      assert Frame() + more
          == recvHeadNode.data[..HEAD_TOTAL_LEN] + (recvMsgNode.data[..recvMsgNode.curLen] + more);
    }

    /** What the session holds between reads, as a value. */
    ghost function Held(): Rx
      reads `handedOver, `bHeadParse, `recvMsgNode, recvHeadNode, recvHeadNode.data, Current()
      requires Ready()
    {
      Rx(if bHeadParse then Frame() else [], Open)
    }

    ghost function Logged(logic: LogicSystem<CSession>): Log<LogicNode<CSession>>
      reads `posted, `posts, logic`msgQue, logic`notifies
    {
      Log(logic.msgQue, logic.notifies, posted, posts)
    }

    ghost function Writes(): WriteQueue<MsgNode>
      reads `sendQue, `writesInFlight
    {
      WriteQueue(sendQue, writesInFlight)
    }

    /** Clear the read buffer and start another read into it. */
    method ArmRead()
      requires data.Length == MAX_LENGTH
      modifies this`readsArmed, data
      ensures readsArmed == old(readsArmed) + 1 && forall i | 0 <= i < data.Length :: data[i] == 0
    {
      Memzero(data, data.Length);
      readsArmed := readsArmed + 1;
    }

    /** Begin reading. */
    method Start()
      requires Valid() && readsArmed == 0
      modifies this`readsArmed, data
      ensures Valid() && Held() == old(Held()) && readsArmed == 1
    {
      ArmRead();
    }

    method Close()
      modifies this`bClose
      ensures bClose
    {
      bClose := true;
    }

    /** Copy the part of the body that lies at `at` in the read buffer. */
    method CopyBody(at: nat, n: nat)
      requires Buffers() && OwnsBody()
      requires at + n <= data.Length && recvMsgNode.curLen + n <= recvMsgNode.totalLen
      modifies recvMsgNode`curLen, recvMsgNode.data
      ensures Buffers() && OwnsBody() && recvMsgNode.curLen == old(recvMsgNode.curLen) + n
      ensures Frame() == old(Frame()) + data[at..at + n]
    {
      Memcpy(recvMsgNode.data, recvMsgNode.curLen, data[at..at + n]);
      recvMsgNode.curLen := recvMsgNode.curLen + n;
      assert recvMsgNode.data[..recvMsgNode.curLen] == old(recvMsgNode.data[..recvMsgNode.curLen]) + data[at..at + n];
    }

    /** Post the complete message and get ready for the next header. */
    method HandOver(logic: LogicSystem<CSession>)
      requires Buffers() && OwnsBody() && recvMsgNode.curLen == recvMsgNode.totalLen
      modifies this`handedOver, this`posted, this`posts, this`bHeadParse, logic`msgQue, logic`notifies,
               recvHeadNode`curLen, recvHeadNode.data, recvMsgNode.data
      ensures Ready() && !bHeadParse
      ensures forall i | 0 <= i < HEAD_TOTAL_LEN :: recvHeadNode.data[i] == 0
      ensures var m := Msg(recvMsgNode.msgId, old(Frame()[HEAD_TOTAL_LEN..]));
              && recvMsgNode.Holds(m) && posts == old(posts) + [m]
              && posted == old(posted) + [LogicNode(this, recvMsgNode)] && handedOver == old(handedOver) + {recvMsgNode}
      ensures logic.msgQue == old(logic.msgQue) + [LogicNode(this, recvMsgNode)]
      ensures logic.notifies == old(logic.notifies) + if old(logic.msgQue) == [] then 1 else 0
    {
      ghost var payload := recvMsgNode.data[..recvMsgNode.totalLen];
      assert Frame()[HEAD_TOTAL_LEN..] == payload;
      recvMsgNode.data[recvMsgNode.curLen] := 0;
      logic.PostMsgToQue(LogicNode(this, recvMsgNode));
      handedOver := handedOver + {recvMsgNode};
      posted, posts := posted + [LogicNode(this, recvMsgNode)], posts + [Msg(recvMsgNode.msgId, payload)];
      bHeadParse := false;
      recvHeadNode.Clear();
    }

    /** Copy the rest of the body and post the message. */
    method CompleteBody(at: nat, n: nat, logic: LogicSystem<CSession>)
      requires Buffers() && OwnsBody() && recvMsgNode.curLen + n == recvMsgNode.totalLen && at + n <= data.Length
      modifies this`handedOver, this`posted, this`posts, this`bHeadParse, logic`msgQue, logic`notifies,
               recvHeadNode`curLen, recvHeadNode.data, recvMsgNode`curLen, recvMsgNode.data
      ensures Ready() && !bHeadParse
      ensures var m := Msg(recvMsgNode.msgId, (old(Frame()) + data[at..at + n])[HEAD_TOTAL_LEN..]);
              && recvMsgNode.Holds(m) && posts == old(posts) + [m]
              && posted == old(posted) + [LogicNode(this, recvMsgNode)] && handedOver == old(handedOver) + {recvMsgNode}
      ensures logic.msgQue == old(logic.msgQue) + [LogicNode(this, recvMsgNode)]
      ensures logic.notifies == old(logic.notifies) + if old(logic.msgQue) == [] then 1 else 0
    {
      CopyBody(at, n);
      HandOver(logic);
    }

    /** Read the header at `copyLen` into the head node, check it, and make the node
        for the body; `w` is the unread part of the chunk. */
    method TakeHeader(copyLen: nat, ghost w: seq<byte>) returns (status: Status)
      requires Ready() && !bHeadParse && copyLen + HEAD_TOTAL_LEN <= data.Length
      requires |w| >= HEAD_TOTAL_LEN && w[..HEAD_TOTAL_LEN] == data[copyLen..copyLen + HEAD_TOTAL_LEN]
      modifies this`recvMsgNode, recvHeadNode.data, server
      ensures Ready()
      ensures status.Open? <==> GoodHeader(w)
      ensures if status.Open? then
                && recvMsgNode != null && fresh(recvMsgNode) && fresh(recvMsgNode.data)
                && OwnsBody() && Frame() == w[..HEAD_TOTAL_LEN] && recvMsgNode.curLen == 0
              else
                recvMsgNode == old(recvMsgNode) && status == Verdict(w)
      ensures status.Open? ==>
                var id, len := w[0] as int * 256 + w[1] as int, w[2] as int * 256 + w[3] as int;
                recvMsgNode.msgId == (if id < 0x8000 then id else id - 0x1_0000) && recvMsgNode.totalLen == len
      ensures server.sessions == old(server.sessions) - (if status.Cleared? then {uuid} else {})
    {
      var headRemain := HEAD_TOTAL_LEN - recvHeadNode.curLen;
      Memcpy(recvHeadNode.data, recvHeadNode.curLen, data[copyLen..copyLen + headRemain]);
      assert recvHeadNode.data[..HEAD_TOTAL_LEN] == w[..HEAD_TOTAL_LEN];
      var msgId := ReadShort(recvHeadNode.data[0], recvHeadNode.data[1]);
      if msgId > MAX_LENGTH {
        server.ClearSession(uuid);
        return Cleared;
      }
      var msgLen := ReadShort(recvHeadNode.data[2], recvHeadNode.data[3]);
      if msgLen > MAX_LENGTH {
        server.ClearSession(uuid);
        return Cleared;
      }
      if msgLen < 0 {
        // the allocation of the node throws; the handler logs and returns
        return Faulted;
      }
      recvMsgNode := new MsgNode.Recv(msgLen, msgId);
      status := Open;
    }

    /** What one turn of the reading loop does to the bytes `w`, the frame so far
        followed by the unread part of the chunk; `left` bytes stay unread. */
    twostate predicate Turned(w: seq<byte>, logic: LogicSystem<CSession>, exit: bool, status: Status, left: nat)
      reads this, recvHeadNode, recvHeadNode.data, Current(), logic,
            recvMsgNode, if recvMsgNode != null then {recvMsgNode.data} else {}
    {
      && Ready()
      && (if WholeFrame(w) then
            && recvMsgNode != null && recvMsgNode.Holds(FirstMsg(w))
            && posted == old(posted) + [LogicNode(this, recvMsgNode)] && posts == old(posts) + [FirstMsg(w)]
            && handedOver == old(handedOver) + {recvMsgNode}
            && logic.msgQue == old(logic.msgQue) + [LogicNode(this, recvMsgNode)]
            && logic.notifies == old(logic.notifies) + (if old(logic.msgQue) == [] then 1 else 0)
            && !bHeadParse && status.Open? && left == |Later(w)| && exit == (left == 0)
          else
            && posted == old(posted) && posts == old(posts) && handedOver == old(handedOver)
            && logic.msgQue == old(logic.msgQue) && logic.notifies == old(logic.notifies)
            && exit && status == Verdict(w)
            && (status.Open? ==> Held() == Rx(if |w| < HEAD_TOTAL_LEN then [] else w, Open)))
      && readsArmed == old(readsArmed) + (if exit && status.Open? then 1 else 0)
    }

    /** The body's share of the unread bytes, for a body just begun or carried over
        from an earlier read. */
    method TakeBody(copyLen: nat, left: nat, logic: LogicSystem<CSession>) returns (exit: bool, left': nat)
      requires Buffers() && OwnsBody() && copyLen + left <= data.Length
      requires bHeadParse ==> recvMsgNode.curLen < recvMsgNode.totalLen
      modifies this`readsArmed, this`bHeadParse, this`handedOver, this`posted, this`posts, data,
               recvHeadNode`curLen, recvHeadNode.data, recvMsgNode`curLen, recvMsgNode.data,
               logic`msgQue, logic`notifies
      ensures Turned(old(Frame() + data[copyLen..copyLen + left]), logic, exit, Open, left')
      ensures left' <= left && (old(bHeadParse) && left > 0 ==> left' < left)
      ensures exit || data[..] == old(data[..])
    {
      ghost var frame, rest := Frame(), data[copyLen..copyLen + left];
      FrameHeader(rest);
      var remain := recvMsgNode.totalLen - recvMsgNode.curLen;
      if left < remain {
        CopyBody(copyLen, left);
        ArmRead();
        bHeadParse := true;
        return true, 0;
      }
      BodyCompleted(frame, rest, remain);
      FrontOf(data[..], copyLen, left, remain);
      left' := left - remain;
      CompleteBody(copyLen, remain, logic);
      exit := left' <= 0;
      if exit {
        ArmRead();
      }
    }

    /** Too little for a header: the cursor of the head node is not advanced. */
    method KeepShortHeader(copyLen: nat, left: nat)
      requires Ready() && !bHeadParse && left < HEAD_TOTAL_LEN && copyLen + left <= data.Length
      modifies this`readsArmed, data, recvHeadNode.data
      ensures Ready() && Held() == START && readsArmed == old(readsArmed) + 1
    {
      Memcpy(recvHeadNode.data, recvHeadNode.curLen, data[copyLen..copyLen + left]);
      ArmRead();
    }

    /** A header, and as much of its body as the chunk holds. */
    method TakeFrame(copyLen: nat, left: nat, logic: LogicSystem<CSession>)
      returns (exit: bool, status: Status, left': nat)
      requires Ready() && !bHeadParse && HEAD_TOTAL_LEN <= left && copyLen + left <= data.Length
      modifies this`readsArmed, this`recvMsgNode, this`bHeadParse, this`handedOver, this`posted, this`posts, data,
               recvHeadNode`curLen, recvHeadNode.data, logic`msgQue, logic`notifies, server
      ensures Turned(old(data[copyLen..copyLen + left]), logic, exit, status, left')
      ensures left' < left && (exit || data[..] == old(data[..]))
      ensures recvMsgNode == old(recvMsgNode) || (recvMsgNode != null && fresh(recvMsgNode) && fresh(recvMsgNode.data))
      ensures bHeadParse ==> recvMsgNode != old(recvMsgNode)
      ensures server.sessions == old(server.sessions) - (if status.Cleared? then {uuid} else {})
    {
      ghost var w := data[copyLen..copyLen + left];
      assert w[..HEAD_TOTAL_LEN] == data[copyLen..copyLen + HEAD_TOTAL_LEN];
      status := TakeHeader(copyLen, w);
      exit, left' := true, 0;
      if status.Open? {
        assert w == w[..HEAD_TOTAL_LEN] + data[copyLen + HEAD_TOTAL_LEN..copyLen + left];
        exit, left' := TakeBody(copyLen + HEAD_TOTAL_LEN, left - HEAD_TOTAL_LEN, logic);
      }
    }

    /** One turn of the reading loop. */
    method Turn(copyLen: nat, left: nat, logic: LogicSystem<CSession>) returns (exit: bool, status: Status, left': nat)
      requires Ready() && left > 0 && copyLen + left <= data.Length
      modifies this`readsArmed, this`recvMsgNode, this`bHeadParse, this`handedOver, this`posted, this`posts, data,
               recvHeadNode`curLen, recvHeadNode.data, Current(), logic`msgQue, logic`notifies, server
      ensures Turned(old(Held().pending + data[copyLen..copyLen + left]), logic, exit, status, left')
      ensures left' < left && (exit || data[..] == old(data[..]))
      ensures SameOrNewBody()
      ensures server.sessions == old(server.sessions) - (if status.Cleared? then {uuid} else {})
    {
      status := Open;
      if bHeadParse {
        exit, left' := TakeBody(copyLen, left, logic);
        return;
      }
      assert [] + data[copyLen..copyLen + left] == data[copyLen..copyLen + left];
      if left + recvHeadNode.curLen < HEAD_TOTAL_LEN {
        KeepShortHeader(copyLen, left);
        exit, left' := true, 0;
      } else {
        exit, status, left' := TakeFrame(copyLen, left, logic);
      }
    }

    /** The same turn leaves the nodes handed over earlier alone: what it may modify is
        not theirs. */
    method KeepingTurn(copyLen: nat, left: nat, logic: LogicSystem<CSession>)
      returns (exit: bool, status: Status, left': nat)
      requires Valid() && left > 0 && copyLen + left <= data.Length
      modifies this`readsArmed, this`recvMsgNode, this`bHeadParse, this`handedOver, this`posted, this`posts, data,
               recvHeadNode`curLen, recvHeadNode.data, Current(), logic`msgQue, logic`notifies, server
      ensures Turned(old(Held().pending + data[copyLen..copyLen + left]), logic, exit, status, left') && Kept()
      ensures left' < left && (exit || data[..] == old(data[..]))
      ensures SameOrNewBody()
      ensures server.sessions == old(server.sessions) - (if status.Cleared? then {uuid} else {})
    {
      exit, status, left' := Turn(copyLen, left, logic);
      forall i | 0 <= i < |posted|
        ensures posted[i].session == this && posted[i].recvnode in handedOver && posted[i].recvnode.Holds(posts[i])
      {
        if i < old(|posted|) {
          assert posted[i] == old(posted[i]) && posts[i] == old(posts[i]);
        }
      }
    }

    /** The same turn on values: `w` is the frame so far followed by the unread part of
        the chunk, and `TurnOf` says what becomes of it. */
    method CountedTurn(copyLen: nat, left: nat, logic: LogicSystem<CSession>, ghost w: seq<byte>)
      returns (exit: bool, status: Status, left': nat, ghost more: seq<LogicNode<CSession>>)
      requires Valid() && left > 0 && copyLen + left <= data.Length
      requires w == Held().pending + data[copyLen..copyLen + left]
      modifies this`readsArmed, this`recvMsgNode, this`bHeadParse, this`handedOver, this`posted, this`posts, data,
               recvHeadNode`curLen, recvHeadNode.data, Current(), logic`msgQue, logic`notifies, server
      ensures Valid() && left' < left && SameOrNewBody()
      ensures Logged(logic) == old(Logged(logic)).Grown(more, TurnOf(w).msgs)
      ensures exit == LastTurn(w) && status == TurnOf(w).status
      ensures exit && status.Open? ==>
                Held() == Rx(if LeavesHeaderPart(TurnOf(w)) then [] else TurnOf(w).rest, Open)
      ensures !exit ==> !bHeadParse && left' > 0
      ensures !exit ==> TurnOf(w).rest == Held().pending + data[copyLen + left - left'..copyLen + left]
      ensures readsArmed == old(readsArmed) + (if exit && status.Open? then 1 else 0)
      ensures server.sessions == old(server.sessions) - (if status.Cleared? then {uuid} else {})
    {
      ghost var held, chunk := Held().pending, data[copyLen..copyLen + left];
      exit, status, left' := KeepingTurn(copyLen, left, logic);
      more := if WholeFrame(w) then [LogicNode(this, recvMsgNode)] else [];
      if !exit {
        Suffix(held, chunk, left');
        assert data[copyLen + left - left'..copyLen + left] == chunk[left - left'..];
      }
    }

    /** The same turn in the eyes of a reader of whole streams, after the messages
        `done` of the chunk. */
    method ReadTurn(copyLen: nat, left: nat, logic: LogicSystem<CSession>, ghost reader: seq<byte> -> Deframed,
                    ghost w: seq<byte>, ghost done: seq<Msg>)
      returns (exit: bool, status: Status, left': nat,
               ghost w': seq<byte>, ghost more: seq<LogicNode<CSession>>, ghost ms: seq<Msg>)
      requires Valid() && left > 0 && copyLen + left <= data.Length
      requires w == Held().pending + data[copyLen..copyLen + left] && TakesTurn(reader, w, done)
      modifies this`readsArmed, this`recvMsgNode, this`bHeadParse, this`handedOver, this`posted, this`posts, data,
               recvHeadNode`curLen, recvHeadNode.data, Current(), logic`msgQue, logic`notifies, server
      ensures Valid() && left' < left && SameOrNewBody()
      ensures Logged(logic) == old(Logged(logic)).Grown(more, ms)
      ensures exit ==>
                var whole := reader(w).After(done);
                && whole.msgs == done + ms && whole.status == status
                && (status.Open? ==> Held() == Rx(if LeavesHeaderPart(whole) then [] else whole.rest, Open))
      ensures !exit ==>
                && !bHeadParse && status.Open? && left' > 0
                && w' == Held().pending + data[copyLen + left - left'..copyLen + left]
                && reader(w).After(done) == reader(w').After(done + ms)
      ensures readsArmed == old(readsArmed) + (if exit && status.Open? then 1 else 0)
      ensures server.sessions == old(server.sessions) - (if status.Cleared? then {uuid} else {})
    {
      exit, status, left', more := CountedTurn(copyLen, left, logic, w);
      w', ms := TurnOf(w).rest, TurnOf(w).msgs;
    }

    /** The reading loop over one chunk, which is not empty: it does what any reader
        does that takes the same turns. */
    method ReadLoop(bytesTransferred: nat, logic: LogicSystem<CSession>, ghost reader: seq<byte> -> Deframed)
      returns (status: Status, ghost nodes: seq<LogicNode<CSession>>)
      requires Valid() && 0 < bytesTransferred <= data.Length
      requires TakesTurns(reader)
      modifies this`readsArmed, this`recvMsgNode, this`bHeadParse, this`handedOver, this`posted, this`posts, data,
               recvHeadNode`curLen, recvHeadNode.data, Current(), logic`msgQue, logic`notifies, server
      ensures Valid() && SameOrNewBody()
      ensures var whole := reader(old(Held().pending + data[..bytesTransferred]));
              && Logged(logic) == old(Logged(logic)).Grown(nodes, whole.msgs)
              && status == whole.status
              && (status.Open? ==> Held() == Rx(if LeavesHeaderPart(whole) then [] else whole.rest, Open))
      ensures readsArmed == old(readsArmed) + if status.Open? then 1 else 0
      ensures server.sessions == old(server.sessions) - if status.Cleared? then {uuid} else {}
    {
      nodes := [];
      var copyLen, left := 0, bytesTransferred;
      ghost var w, done: seq<Msg> := Held().pending + data[..bytesTransferred], [];
      ghost var log, whole := Logged(logic), reader(w);
      while true
        invariant Valid() && left > 0 && copyLen + left == bytesTransferred
        invariant w == Held().pending + data[copyLen..copyLen + left]
        invariant whole == reader(w).After(done)
        invariant Logged(logic) == log.Grown(nodes, done)
        invariant bHeadParse ==> old(bHeadParse) && recvMsgNode == old(recvMsgNode)
        invariant readsArmed == old(readsArmed) && server.sessions == old(server.sessions)
        decreases left
      {
        var exit, left';
        ghost var more;
        ghost var ms;
        assert TakesTurn(reader, w, done);
        exit, status, left', w, more, ms := ReadTurn(copyLen, left, logic, reader, w, done);
        GrownTwice(log, nodes, done, more, ms);
        nodes, done := nodes + more, done + ms;
        if exit {
          return;
        }
        copyLen, left := copyLen + left - left', left';
      }
    }

    lemma NothingRead()
      requires Ready()
      ensures Receive(Held(), data[..0]) == Received(Held(), [])
    {
      var w := Held().pending;
      assert w + data[..0] == w;
      if bHeadParse {
        FrameHeader([]);
        assert Frame() + [] == Frame();
      }
    }

    /** The branch without an error: `Receive`, on the buffers. */
    method ReadChunk(bytesTransferred: nat, logic: LogicSystem<CSession>)
      returns (status: Status, ghost nodes: seq<LogicNode<CSession>>)
      requires Valid() && readsArmed == 1 && bytesTransferred <= data.Length
      modifies this`readsArmed, this`recvMsgNode, this`bHeadParse, this`handedOver, this`posted, this`posts, data,
               recvHeadNode`curLen, recvHeadNode.data, Current(), logic`msgQue, logic`notifies, server
      ensures Valid() && SameOrNewBody()
      ensures var r := old(Receive(Held(), data[..bytesTransferred]));
              && Logged(logic) == old(Logged(logic)).Grown(nodes, r.msgs)
              && status == r.rx.status && (status.Open? ==> Held() == r.rx)
      ensures readsArmed == if status.Open? && bytesTransferred > 0 then 1 else 0
      ensures server.sessions == old(server.sessions) - if status.Cleared? then {uuid} else {}
    {
      readsArmed := readsArmed - 1;
      if bytesTransferred > 0 {
        DeframeTakesTurns();
        status, nodes := ReadLoop(bytesTransferred, logic, Deframe);
      } else {
        NothingRead();
        status, nodes := Open, [];
      }
    }

    /** The branch with an error. */
    method FailRead()
      requires readsArmed == 1
      modifies this`readsArmed, this`bClose, server
      ensures readsArmed == 0 && bClose && server.sessions == old(server.sessions) - {uuid}
    {
      readsArmed := readsArmed - 1;
      Close();
      server.ClearSession(uuid);
    }

    /** Ownership transfer: nothing that `HandleRead` may modify belongs to a node that
        was handed over. */
    lemma OutOfReach(n: MsgNode)
      requires Valid() && n in handedOver
      ensures n != recvHeadNode && n.data != recvHeadNode.data && n.data != data
      ensures n !in Current() && n.data !in Current()
    {
    }

    /** The completion handler of the one outstanding read.  Its effect is `Receive` on
        what the session held, its posts are the messages that `Receive` finds, every
        node ever posted keeps its message (`Valid`), and exactly one read is outstanding
        again unless the session was cleared or faulted (or the chunk was empty). */
    method HandleRead(error: bool, bytesTransferred: nat, logic: LogicSystem<CSession>)
      returns (status: Status, ghost nodes: seq<LogicNode<CSession>>)
      requires Valid() && readsArmed == 1 && bytesTransferred <= data.Length
      modifies this`readsArmed, this`recvMsgNode, this`bHeadParse, this`handedOver, this`posted, this`posts,
               this`bClose, data, recvHeadNode`curLen, recvHeadNode.data, Current(),
               logic`msgQue, logic`notifies, server
      ensures Valid() && SameOrNewBody()
      ensures !error ==>
                var r := old(Receive(Held(), data[..bytesTransferred]));
                && Logged(logic) == old(Logged(logic)).Grown(nodes, r.msgs)
                && status == r.rx.status && (status.Open? ==> Held() == r.rx)
      ensures !error ==> readsArmed == (if status.Open? && bytesTransferred > 0 then 1 else 0)
      ensures !error ==> server.sessions == old(server.sessions) - if status.Cleared? then {uuid} else {}
      ensures bClose == (error || old(bClose))
      ensures error ==>
                && Logged(logic) == old(Logged(logic)) && readsArmed == 0
                && server.sessions == old(server.sessions) - {uuid}
    {
      if !error {
        status, nodes := ReadChunk(bytesTransferred, logic);
      } else {
        status, nodes := Open, [];
        FailRead();
      }
    }

    /** The socket's part of a read: the chunk arrives in the read buffer. */
    method Arrive(chunk: seq<byte>)
      requires Valid() && |chunk| <= data.Length
      modifies data
      ensures Valid() && Held() == old(Held()) && data[..|chunk|] == chunk
    {
      Memcpy(data, 0, chunk);
    }

    /** One read from its arrival to the end of its handler. */
    method ReadOnce(chunk: seq<byte>, logic: LogicSystem<CSession>)
      returns (status: Status, ghost nodes: seq<LogicNode<CSession>>)
      requires Valid() && readsArmed == 1 && 1 <= |chunk| <= MAX_LENGTH
      modifies this`readsArmed, this`recvMsgNode, this`bHeadParse, this`handedOver, this`posted, this`posts,
               this`bClose, data, recvHeadNode`curLen, recvHeadNode.data, Current(),
               logic`msgQue, logic`notifies, server
      ensures Valid() && SameOrNewBody()
      ensures var r := old(Receive(Held(), chunk));
              && Logged(logic) == old(Logged(logic)).Grown(nodes, r.msgs)
              && status == r.rx.status && (status.Open? ==> Held() == r.rx)
      ensures readsArmed == if status.Open? then 1 else 0
      ensures server.sessions == old(server.sessions) - if status.Cleared? then {uuid} else {}
    {
      Arrive(chunk);
      status, nodes := HandleRead(false, |chunk|, logic);
    }

    /** A run of reads of a session that has just started, through the given stages. */
    method ReadStages(chunks: seq<seq<byte>>, logic: LogicSystem<CSession>, ghost stages: seq<Received>)
      returns (status: Status, ghost nodes: seq<LogicNode<CSession>>)
      requires Valid() && Held() == START && readsArmed == 1
      requires forall i | 0 <= i < |chunks| :: 1 <= |chunks[i]| <= MAX_LENGTH
      requires AreStages(stages, chunks)
      modifies this`readsArmed, this`recvMsgNode, this`bHeadParse, this`handedOver, this`posted, this`posts,
               this`bClose, data, recvHeadNode`curLen, recvHeadNode.data, logic`msgQue, logic`notifies, server
      ensures Valid() && SameOrNewBody()
      ensures Logged(logic) == old(Logged(logic)).Grown(nodes, stages[|chunks|].msgs)
      ensures status == stages[|chunks|].rx.status && (status.Open? ==> Held() == stages[|chunks|].rx)
      ensures readsArmed == if status.Open? then 1 else 0
      ensures server.sessions == old(server.sessions) - if status.Cleared? then {uuid} else {}
    {
      status, nodes := Open, [];
      ghost var log := Logged(logic);
      for i := 0 to |chunks|
        invariant Valid() && SameOrNewBody()
        invariant Logged(logic) == log.Grown(nodes, stages[i].msgs)
        invariant status == stages[i].rx.status && (status.Open? ==> Held() == stages[i].rx)
        invariant readsArmed == if status.Open? then 1 else 0
        invariant server.sessions == old(server.sessions) - if status.Cleared? then {uuid} else {}
      {
        ghost var r := Receive(stages[i].rx, chunks[i]);
        if readsArmed == 1 {
          ghost var more;
          status, more := ReadOnce(chunks[i], logic);
          GrownTwice(log, nodes, stages[i].msgs, more, r.msgs);
          nodes := nodes + more;
        }
        assert stages[i + 1] == Received(r.rx, stages[i].msgs + r.msgs);
      }
    }

    /** A whole run of reads of a session that has just started.  Its posts are those
        of `ReceiveAll`, every node ever posted still carries its message at the end
        (`Valid`), and at the end exactly one read is outstanding if the session is
        still open, none otherwise; the handler finds exactly one each time. */
    method ReadAll(chunks: seq<seq<byte>>, logic: LogicSystem<CSession>)
      returns (status: Status, ghost nodes: seq<LogicNode<CSession>>)
      requires Valid() && Held() == START && readsArmed == 1
      requires forall i | 0 <= i < |chunks| :: 1 <= |chunks[i]| <= MAX_LENGTH
      modifies this`readsArmed, this`recvMsgNode, this`bHeadParse, this`handedOver, this`posted, this`posts,
               this`bClose, data, recvHeadNode`curLen, recvHeadNode.data, logic`msgQue, logic`notifies, server
      ensures Valid() && SameOrNewBody()
      ensures Logged(logic) == old(Logged(logic)).Grown(nodes, ReceiveAll(chunks).msgs)
      ensures status == ReceiveAll(chunks).rx.status && (status.Open? ==> Held() == ReceiveAll(chunks).rx)
      ensures readsArmed == if status.Open? then 1 else 0
      ensures server.sessions == old(server.sessions) - if status.Cleared? then {uuid} else {}
    {
      StageByStage(chunks);
      status, nodes := ReadStages(chunks, logic, Stages(chunks));
    }

    /** Start an asynchronous write of the front of the queue. */
    method WriteFront()
      requires sendQue != []
      modifies this`writesInFlight
      ensures writesInFlight == old(writesInFlight) + [sendQue[0]]
    {
      writesInFlight := writesInFlight + [sendQue[0]];
    }

    /** Queue an encoded message, unless the queue is over its limit, and start
        writing it if no other message is queued. */
    method Send(msg: seq<byte>, msgId: Short) returns (ghost node: MsgNode?)
      requires |msg| <= MAX_PAYLOAD
      modifies this`sendQue, this`writesInFlight
      ensures node == null <==> |old(sendQue)| > MAX_SENDQUE
      ensures node == null ==> Writes() == old(Writes())
      ensures node != null ==>
                && Writes() == WriteQueues.Send(old(Writes()), node)
                && fresh(node) && node.Valid() && node.data[..node.totalLen] == Encode(Msg(msgId, msg))
    {
      node := null;
      var sendQueSize := |sendQue|;
      if sendQueSize > MAX_SENDQUE {
        return;
      }
      var msgnode := new MsgNode.Send(msg, msgId);
      node := msgnode;
      sendQue := sendQue + [msgnode];
      if sendQueSize > 0 {
        return;
      }
      WriteFront();
    }

    /** The completion handler of the write in flight. */
    method HandleWrite(error: bool)
      requires Writes().Valid() && writesInFlight != []
      modifies this`sendQue, this`writesInFlight, this`bClose, server
      ensures Writes() == if error then old(Writes()).Failed() else old(Writes()).Completed()
      ensures bClose == (error || old(bClose))
      ensures server.sessions == old(server.sessions) - if error then {uuid} else {}
    {
      writesInFlight := writesInFlight[1..];
      if !error {
        sendQue := sendQue[1..];
        if sendQue != [] {
          WriteFront();
        }
      } else {
        Close();
        server.ClearSession(uuid);
      }
    }
  }
}

/** The chat's two classes.  `Chat` treats the interleavings of the parts of `Send`;
    here each method is one thread's own doing, and a session's state is, as a value,
    a session of `Chat`, kept valid by every handler.  A message is represented by its
    tag, the shared string itself being immutable. */
module ChatServer {
  import opened WriteQueues
  import opened Chat

  /** The messages of this sender among the tags all have a number below `n`. */
  predicate NumberedBelow(tags: seq<Tag>, sender: nat, n: nat) {
    forall i | 0 <= i < |tags| && tags[i].sender == sender :: tags[i].no < n
  }

  lemma StaysInOrder(w: Ws, sender: nat, no: nat)
    requires SelfInv(w) && NumberedBelow(w.got, sender, no)
    ensures SelfInv(if w.life.Live? then w.Posted(Tag(sender, no)) else w)
  {
    if w.life.Live? {
      PostedSelf(w, Tag(sender, no));
    }
  }

  lemma NumberedOneMore(w: Ws, sender: nat, n: nat, tag: Tag)
    requires NumberedBelow(w.got, sender, n) && (tag.sender == sender ==> tag.no < n)
    ensures NumberedBelow(if w.life.Live? then w.Posted(tag).got else w.got, sender, n)
  {
  }

  class SharedState {
    var sessions: set<WebsocketSession>

    /** The members are valid; each has been accepted, and none has been destroyed. */
    ghost predicate MembersValid()
      reads this, sessions
    {
      forall p <- sessions :: p.state == this && p.Valid() && !p.accepting && !p.life.Gone?
    }

    ghost predicate DifferentIds()
      reads this`sessions
    {
      forall p <- sessions, q <- sessions | p.id == q.id :: p == q
    }

    /** Nobody has got a message that its sender has yet to read. */
    ghost predicate GotWasRead()
      reads this, sessions`got, sessions`read
    {
      forall p <- sessions, q <- sessions :: NumberedBelow(p.got, q.id, q.read)
    }

    ghost predicate Consistent()
      reads this, sessions
    {
      MembersValid() && DifferentIds() && GotWasRead()
    }

    constructor ()
      ensures sessions == {} && Consistent()
    {
      sessions := {};
    }

    method Join(session: WebsocketSession)
      modifies this
      ensures sessions == old(sessions) + {session}
    {
      sessions := sessions + {session};
    }

    method Leave(session: WebsocketSession)
      modifies this
      ensures sessions == old(sessions) - {session}
    {
      sessions := sessions - {session};
    }

    /** The members, each once, in some order. */
    method Snapshot() returns (v: seq<WebsocketSession>)
      ensures forall i, j | 0 <= i < j < |v| :: v[i] != v[j]
      ensures forall i | 0 <= i < |v| :: v[i] in sessions
      ensures forall p <- sessions :: p in v
    {
      v := [];
      var rest := sessions;
      while rest != {}
        invariant rest <= sessions && forall i | 0 <= i < |v| :: v[i] in sessions
        invariant forall p <- sessions :: p in v || p in rest
        invariant forall i | 0 <= i < |v| :: v[i] !in rest
        invariant forall i, j | 0 <= i < j < |v| :: v[i] != v[j]
        decreases rest
      {
        var p :| p in rest;
        v, rest := v + [p], rest - {p};
      }
    }

    /** Post the message once to each member whose weak pointer can still be locked,
        and to nobody else. */
    method Send(message: Tag)
      modifies sessions`strand, sessions`got
      ensures forall p <- sessions :: p.View() == if p.life.Live? then old(p.View()).Posted(message) else old(p.View())
    {
      var v := Snapshot();
      for i := 0 to |v|
        invariant forall j | 0 <= j < |v| :: v[j] in old(sessions)
        invariant forall j | 0 <= j < i ::
                    v[j].View() == if v[j].life.Live? then old(v[j].View()).Posted(message) else old(v[j].View())
        invariant forall j | i <= j < |v| :: v[j].View() == old(v[j].View())
      {
        if v[i].life.Live? {
          v[i].Send(message);
        }
      }
    }
  }

  class WebsocketSession {
    const id: nat
    const state: SharedState
    var life: Life
    var accepting: bool       // the accept is outstanding
    var readsArmed: nat       // outstanding reads
    var queue: seq<Tag>
    var inFlight: seq<Tag>    // outstanding writes
    var strand: seq<Tag>      // posted `on_send` handlers
    var read: nat             // messages read; it numbers the tags
    // the messages completely written, and ever posted to this session
    ghost var written: seq<Tag>
    ghost var got: seq<Tag>

    constructor (id: nat, state: SharedState)
      ensures this.id == id && this.state == state && Valid() && View() == NEW
    {
      this.id, this.state := id, state;
      life, accepting, readsArmed := Live, true, 0;
      queue, inFlight, strand, read, written, got := [], [], [], 0, [], [];
    }

    /** The session as a value of `Chat`, between two of its handlers. */
    ghost function View(): Ws
      reads this
    {
      Ws(life, if accepting then Accepting else if readsArmed > 0 then Armed else Stopped,
         read, strand, WriteQueue(queue, inFlight), written, got)
    }

    /** One operation that reads or accepts at most, nothing read or got before the
        accept, and the invariant of `Chat`: the write discipline, nothing lost between
        posting and writing, each sender's messages in order, and nothing pending once
        the session has expired. */
    ghost predicate Valid()
      reads this
    {
      && readsArmed + (if accepting then 1 else 0) <= 1
      && (accepting ==> read == 0 && got == [])
      && SelfInv(View())
    }

    method ArmRead()
      requires state.Consistent() && this in state.sessions && View().reading.Stopped? && life.Live?
      modifies this`readsArmed
      ensures state.Consistent() && View() == old(View()).(reading := Armed)
    {
      assert Valid();
      readsArmed := readsArmed + 1;
      assert Valid();
    }

    /** The accept has completed; the id is one that nobody has used. */
    method OnAccept(error: bool)
      requires Valid() && accepting && state.Consistent()
      requires forall p <- state.sessions :: p.id != id && NumberedBelow(p.got, id, 0)
      modifies this`accepting, this`readsArmed, state
      ensures Valid() && state.Consistent()
      ensures View() == old(View()).(reading := if error then Stopped else Armed)
      ensures state.sessions == old(state.sessions) + if error then {} else {this}
    {
      accepting := false;
      assert Valid();
      if error {
        return;
      }
      state.Join(this);
      forall p <- state.sessions, q <- state.sessions ensures NumberedBelow(p.got, q.id, q.read) {
        assert p != this && q != this ==> NumberedBelow(old(p.got), q.id, old(q.read));
      }
      ArmRead();
    }

    /** The tag of the message read last goes to each live member, once. */
    method Broadcast()
      requires state.Consistent() && this in state.sessions && read > 0
      requires forall p <- state.sessions :: NumberedBelow(p.got, id, read - 1)
      modifies state.sessions`strand, state.sessions`got
      ensures state.Consistent()
      ensures forall p <- state.sessions ::
                p.View() == if p.life.Live? then old(p.View()).Posted(Tag(id, read - 1)) else old(p.View())
    {
      var tag := Tag(id, read - 1);
      state.Send(tag);
      forall p <- state.sessions ensures p.Valid() {
        StaysInOrder(old(p.View()), id, tag.no);
      }
      assert state.GotWasRead() by {
        forall p <- state.sessions, q <- state.sessions ensures NumberedBelow(p.got, q.id, q.read) {
          NumberedOneMore(old(p.View()), q.id, q.read, tag);
        }
      }
    }

    /** The outstanding read has ended, with a message unless there is an error. */
    method TakeRead(error: bool)
      requires state.Consistent() && this in state.sessions && readsArmed == 1
      modifies this`readsArmed, this`read
      ensures state.Consistent() && forall p <- state.sessions :: NumberedBelow(p.got, id, old(read))
      ensures View() == old(View()).(reading := Stopped, read := if error then old(read) else old(read) + 1)
      ensures readsArmed == 0
    {
      assert Valid();
      readsArmed := readsArmed - 1;
      read := if error then read else read + 1;
      assert Valid();
      forall p <- state.sessions, q <- state.sessions ensures NumberedBelow(p.got, q.id, q.read) {
        assert NumberedBelow(p.got, q.id, old(q.read));
      }
    }

    /** The read of a member has completed: broadcast its message, then read the next.
        Every live member, this session among them, is posted the message once. */
    method OnRead(error: bool)
      requires state.Consistent() && this in state.sessions && readsArmed == 1
      modifies this`readsArmed, this`read, state.sessions`strand, state.sessions`got
      ensures state.Consistent()
      ensures forall p <- state.sessions | p != this ::
                p.View() == if error || !p.life.Live? then old(p.View()) else old(p.View()).Posted(Tag(id, old(read)))
      ensures View() == if error then old(View()).(reading := Stopped)
                        else old(View()).(read := old(read) + 1).Posted(Tag(id, old(read)))
    {
      assert Valid();
      TakeRead(error);
      if error {
        return;
      }
      Broadcast();
      ArmRead();
    }

    /** Post an `on_send` handler to the session's strand. */
    method Send(ss: Tag)
      modifies this`strand, this`got
      ensures View() == old(View()).Posted(ss)
    {
      strand := strand + [ss];
      got := got + [ss];
    }

    method WriteFront()
      requires queue != []
      modifies this`inFlight
      ensures inFlight == old(inFlight) + [queue[0]]
    {
      inFlight := inFlight + [queue[0]];
    }

    /** The first posted handler runs. */
    method OnSend()
      requires Valid() && strand != []
      modifies this`strand, this`queue, this`inFlight
      ensures Valid() && View() == old(View()).HandlerRun()
      ensures old(state.Consistent()) ==> state.Consistent()
    {
      HandlerRunSelf(View());
      queue, strand := queue + [strand[0]], strand[1..];
      if |queue| > 1 {
        return;
      }
      WriteFront();
    }

    /** The write in flight has ended. */
    method OnWrite(error: bool)
      requires Valid() && inFlight != []
      modifies this`queue, this`inFlight, this`written
      ensures Valid() && View() == old(View()).WriteEnded(!error)
      ensures old(state.Consistent()) ==> state.Consistent()
    {
      WriteEndedSelf(View(), !error);
      inFlight := inFlight[1..];
      if !error {
        written := written + [queue[0]];
        queue := queue[1..];
        if queue != [] {
          WriteFront();
        }
      }
      assert View() == old(View()).WriteEnded(!error);
      assert old(state.GotWasRead()) ==> state.GotWasRead();
    }

    /** The last strong pointer is gone: no handler of the session is outstanding or
        posted, so none will run again. */
    method Expire()
      requires Valid() && life.Live?
      requires !accepting && readsArmed == 0 && strand == [] && inFlight == []
      modifies this`life
      ensures Valid() && View() == old(View()).(life := Expired)
      ensures old(state.Consistent()) ==> state.Consistent()
    {
      life := Expired;
    }

    /** The destructor. */
    method Destroy()
      requires Valid() && life.Expired?
      modifies this`life, state
      ensures Valid() && View() == old(View()).(life := Gone)
      ensures old(state.Consistent()) ==> state.Consistent()
      ensures state.sessions == old(state.sessions) - {this}
    {
      state.Leave(this);
      life := Gone;
    }
  }
}

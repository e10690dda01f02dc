/** Progress of the whole logic server: from every reachable state, and without any
    help from outside, its handlers, the worker and the sockets that are open can bring
    every session to rest. */
module Progress {
  import opened Wire
  import opened Receiver
  import opened Pipeline
  import SendRuns

  /** Nothing arrives and no write fails. */
  predicate Inward(actions: seq<Action>) {
    forall i | 0 <= i < |actions| ::
      actions[i].Post? || actions[i].Work? || (actions[i].Write? && !actions[i].event.WriteFailed?)
  }

  lemma Prepend(cb: Callbacks, s: State, a: Action, more: seq<Action>)
    requires Enabled(s, a) && Possible(cb, Step(cb, s, a), more)
    ensures Possible(cb, s, [a] + more)
    ensures Run(cb, s, [a] + more) == Run(cb, Step(cb, s, a), more)
  {
    assert ([a] + more)[1..] == more;
  }

  lemma {:induction false} Append(cb: Callbacks, s: State, a: seq<Action>, b: seq<Action>)
    requires Possible(cb, s, a) && Possible(cb, Run(cb, s, a), b)
    ensures Possible(cb, s, a + b)
    ensures Run(cb, s, a + b) == Run(cb, Run(cb, s, a), b)
    decreases |a|
  {
    if a == [] {
      assert a + b == b;
    } else {
      Append(cb, Step(cb, s, a[0]), a[1..], b);
      Prepend(cb, s, a[0], a[1..] + b);
      assert a + b == [a[0]] + (a[1..] + b);
    }
  }

  /** The run of `actions` from s is possible, inward, and ends in t. */
  ghost predicate Leads(cb: Callbacks, s: State, actions: seq<Action>, t: State) {
    Inward(actions) && Possible(cb, s, actions) && Run(cb, s, actions) == t
  }

  lemma LeadsOn(cb: Callbacks, s: State, a: seq<Action>, t: State, b: seq<Action>, u: State)
    requires Leads(cb, s, a, t) && Leads(cb, t, b, u)
    ensures Leads(cb, s, a + b, u)
  {
    Append(cb, s, a, b);
  }

  /** A handler posts what it still has to post. */
  lemma {:induction false} PostOut(cb: Callbacks, s: State, id: nat) returns (actions: seq<Action>, t: State)
    requires id in s.sessions
    ensures Leads(cb, s, actions, t)
    ensures t.sessions == s.sessions[id := s.sessions[id].(outbox := [])]
    decreases |s.sessions[id].outbox|
  {
    if s.sessions[id].outbox == [] {
      actions, t := [], s;
      assert s.sessions[id := s.sessions[id].(outbox := [])] == s.sessions;
    } else {
      var more;
      more, t := PostOut(cb, Step(cb, s, Post(id)), id);
      Prepend(cb, s, Post(id), more);
      actions := [Post(id)] + more;
    }
  }

  /** Two states whose sessions have read the same, on sockets equally open. */
  predicate SameReads(s: State, t: State) {
    t.sessions.Keys == s.sessions.Keys &&
    forall id <- s.sessions ::
      t.sessions[id].chunks == s.sessions[id].chunks && t.sessions[id].reading == s.sessions[id].reading
  }

  predicate Posted(s: State, ids: set<nat>) {
    forall id <- ids :: id in s.sessions ==> s.sessions[id].outbox == []
  }

  lemma {:induction false} PostAll(cb: Callbacks, s: State, ids: set<nat>) returns (actions: seq<Action>, t: State)
    requires ids <= s.sessions.Keys
    ensures Leads(cb, s, actions, t) && SameReads(s, t)
    ensures Posted(t, ids) && forall id <- s.sessions :: s.sessions[id].outbox == [] ==> t.sessions[id].outbox == []
    decreases ids
  {
    if ids == {} {
      actions, t := [], s;
    } else {
      var id :| id in ids;
      var a, s' := PostOut(cb, s, id);
      var b;
      b, t := PostAll(cb, s', ids - {id});
      LeadsOn(cb, s, a, s', b, t);
      actions := a + b;
      assert t.sessions[id].outbox == [];
    }
  }

  /** The worker takes everything off the queue. */
  lemma {:induction false} WorkAll(cb: Callbacks, s: State) returns (actions: seq<Action>, t: State)
    requires Known(s)
    ensures Leads(cb, s, actions, t) && SameReads(s, t) && t.queue == []
    ensures Posted(s, s.sessions.Keys) ==> Posted(t, t.sessions.Keys)
    decreases |s.queue|
  {
    if s.queue == [] {
      actions, t := [], s;
    } else {
      var s' := Step(cb, s, Work);
      StaysKnown(cb, s, Work);
      var more;
      more, t := WorkAll(cb, s');
      Prepend(cb, s, Work, more);
      actions := [Work] + more;
    }
  }

  predicate Written(s: State, ids: set<nat>) {
    forall id <- ids :: id in s.sessions ==>
      s.sessions[id].sender.q.que == [] || s.sessions[id].sender.q.Dead()
  }

  /** The socket transmits the front of the queue, and its write completes. */
  lemma WriteOne(cb: Callbacks, s: State, id: nat) returns (actions: seq<Action>, t: State)
    requires id in s.sessions && s.sessions[id].reading && SendRuns.Inv(s.sessions[id].sender)
    requires s.sessions[id].sender.q.que != [] && !s.sessions[id].sender.q.Dead()
    ensures Leads(cb, s, actions, t)
    ensures id in t.sessions && SendRuns.Inv(t.sessions[id].sender) && !t.sessions[id].sender.q.Dead()
    ensures |t.sessions[id].sender.q.que| < |s.sessions[id].sender.q.que|
    ensures t == s.(sessions := s.sessions[id := s.sessions[id].(sender := t.sessions[id].sender)])
  {
    var out := s.sessions[id].sender;
    var e := SendRuns.Transmit(|out.q.que[0]| - out.sent);
    SendRuns.StepKeepsInv(out, e);
    var mid := SendRuns.Step(out, e);
    SendRuns.StepKeepsInv(mid, SendRuns.WriteDone);
    SendRuns.DeadStep(mid, SendRuns.WriteDone);
    var s' := Step(cb, s, Write(id, e));
    t := Step(cb, s', Write(id, SendRuns.WriteDone));
    actions := [Write(id, e)] + [Write(id, SendRuns.WriteDone)];
    assert Possible(cb, t, []) && Run(cb, t, []) == t;
    Prepend(cb, s', Write(id, SendRuns.WriteDone), []);
    Prepend(cb, s, Write(id, e), [Write(id, SendRuns.WriteDone)]);
    assert [Write(id, SendRuns.WriteDone)] + [] == [Write(id, SendRuns.WriteDone)];
  }

  lemma {:induction false} WriteOut(cb: Callbacks, s: State, id: nat) returns (actions: seq<Action>, t: State)
    requires id in s.sessions && s.sessions[id].reading && SendRuns.Inv(s.sessions[id].sender)
    ensures Leads(cb, s, actions, t)
    ensures id in t.sessions && (t.sessions[id].sender.q.que == [] || t.sessions[id].sender.q.Dead())
    ensures t == s.(sessions := s.sessions[id := s.sessions[id].(sender := t.sessions[id].sender)])
    decreases |s.sessions[id].sender.q.que|
  {
    var q := s.sessions[id].sender.q;
    if q.que == [] || q.Dead() {
      actions, t := [], s;
      assert s.sessions[id := s.sessions[id].(sender := s.sessions[id].sender)] == s.sessions;
    } else {
      var a, s' := WriteOne(cb, s, id);
      var b;
      b, t := WriteOut(cb, s', id);
      LeadsOn(cb, s, a, s', b, t);
      actions := a + b;
    }
  }

  lemma {:induction false} WriteAll(cb: Callbacks, s: State, ids: set<nat>) returns (actions: seq<Action>, t: State)
    requires ids <= s.sessions.Keys
    requires forall id <- ids :: s.sessions[id].reading && SendRuns.Inv(s.sessions[id].sender)
    ensures Leads(cb, s, actions, t) && SameReads(s, t) && t.queue == s.queue
    ensures Posted(s, s.sessions.Keys) ==> Posted(t, t.sessions.Keys)
    ensures Written(t, ids) && (forall id <- s.sessions :: id !in ids ==> t.sessions[id] == s.sessions[id])
    decreases ids
  {
    if ids == {} {
      actions, t := [], s;
    } else {
      var id :| id in ids;
      var a, s' := WriteOut(cb, s, id);
      var b;
      b, t := WriteAll(cb, s', ids - {id});
      LeadsOn(cb, s, a, s', b, t);
      actions := a + b;
    }
  }

  /** Everything that the sender accepted is completely written. */
  predicate Finished(out: SendRuns.Sender) {
    out.completed == out.accepted && out.wire == SendRuns.Flatten(out.accepted)
  }

  lemma AllSent(out: SendRuns.Sender)
    requires SendRuns.Inv(out) && out.q.que == []
    ensures Finished(out)
  {
    assert out.completed + [] == out.completed;
  }

  lemma NoFailure(actions: seq<Action>, id: nat)
    requires Inward(actions)
    ensures Write(id, SendRuns.WriteFailed) !in actions
  {
  }

  lemma StaysAlive(cb: Callbacks, before: seq<Action>, actions: seq<Action>, id: nat)
    requires Possible(cb, INIT, before) && Possible(cb, Run(cb, INIT, before), actions) && Inward(actions)
    requires id in Run(cb, INIT, before).sessions && Write(id, SendRuns.WriteFailed) !in before
    ensures var t := Run(cb, Run(cb, INIT, before), actions);
            id in t.sessions && !t.sessions[id].sender.q.Dead() && SendRuns.Inv(t.sessions[id].sender)
  {
    var s := Run(cb, INIT, before);
    RunKeepsInv(cb, INIT, before);
    DeadExactlyFromStart(cb, INIT, before, id);
    NoFailure(actions, id);
    DeadExactly(cb, s, actions, id);
    RunKeepsInv(cb, s, actions);
    assert At(cb, Run(cb, s, actions), id);
  }

  /** Everything accepted is written, unless a read or write had failed before, in which
      case nothing more is sent. */
  predicate Delivered(before: seq<Action>, s: State, t: State, id: nat)
    requires id in s.sessions && id in t.sessions
  {
    if ReadError(id) in before || Write(id, SendRuns.WriteFailed) in before then
      t.sessions[id].sender.wire == s.sessions[id].sender.wire
    else
      Finished(t.sessions[id].sender)
  }

  lemma AllWritten(cb: Callbacks, before: seq<Action>, actions: seq<Action>, id: nat)
    requires Possible(cb, INIT, before) && Possible(cb, Run(cb, INIT, before), actions) && Inward(actions)
    requires var s, t := Run(cb, INIT, before), Run(cb, Run(cb, INIT, before), actions);
             && id in s.sessions && id in t.sessions && (s.sessions[id].reading ==> Written(t, {id}))
    ensures Delivered(before, Run(cb, INIT, before), Run(cb, Run(cb, INIT, before), actions), id)
  {
    ReadingExactly(cb, INIT, before, id);
    if ReadError(id) in before || Write(id, SendRuns.WriteFailed) in before {
      RunKeepsInv(cb, INIT, before);
      DeadExactlyFromStart(cb, INIT, before, id);
      NothingSentOnceClosed(cb, Run(cb, INIT, before), actions, id);
    } else {
      StaysAlive(cb, before, actions, id);
      AllSent(Run(cb, Run(cb, INIT, before), actions).sessions[id].sender);
    }
  }

  /** The handlers post, then the worker empties the queue. */
  lemma PostAndWork(cb: Callbacks, s: State) returns (actions: seq<Action>, t: State)
    requires Inv(cb, s)
    ensures Leads(cb, s, actions, t) && SameReads(s, t) && t.queue == [] && Posted(t, t.sessions.Keys)
  {
    var a, mid := PostAll(cb, s, s.sessions.Keys);
    RunKeepsInv(cb, s, a);
    var b;
    b, t := WorkAll(cb, mid);
    LeadsOn(cb, s, a, mid, b, t);
    actions := a + b;
  }

  predicate OpenWritten(s: State) {
    forall id <- s.sessions :: s.sessions[id].reading ==> Written(s, {id})
  }

  /** The open sockets write what is queued on them. */
  lemma WriteOpen(cb: Callbacks, s: State) returns (actions: seq<Action>, t: State)
    requires Inv(cb, s)
    ensures Leads(cb, s, actions, t) && SameReads(s, t) && t.queue == s.queue && OpenWritten(t)
    ensures Posted(s, s.sessions.Keys) ==> Posted(t, t.sessions.Keys)
  {
    forall id <- s.sessions ensures SendRuns.Inv(s.sessions[id].sender) {
      assert At(cb, s, id);
    }
    var open := set id | id in s.sessions && s.sessions[id].reading;
    actions, t := WriteAll(cb, s, open);
    forall id <- t.sessions ensures t.sessions[id].reading ==> Written(t, {id}) {
      assert t.sessions[id].reading ==> id in open;
    }
  }

  lemma Settle(cb: Callbacks, s: State) returns (actions: seq<Action>, t: State)
    requires Inv(cb, s)
    ensures Leads(cb, s, actions, t) && SameReads(s, t)
    ensures t.queue == [] && Posted(t, t.sessions.Keys) && OpenWritten(t)
  {
    var a, mid := PostAndWork(cb, s);
    RunKeepsInv(cb, s, a);
    var b;
    b, t := WriteOpen(cb, mid);
    LeadsOn(cb, s, a, mid, b, t);
    actions := a + b;
  }

  /** From every reachable state some run, in which nothing arrives and no write fails,
      ends with nothing unposted, nothing queued, and everything accepted written in
      every session none of whose reads or writes has failed before.  On the others,
      whose sockets are closed, nothing is sent any more (`NothingSentOnceClosed`). */
  lemma CanRest(cb: Callbacks, before: seq<Action>) returns (actions: seq<Action>)
    requires Possible(cb, INIT, before)
    ensures var s := Run(cb, INIT, before);
            && Inward(actions) && Possible(cb, s, actions)
            && var t := Run(cb, s, actions);
            && SameReads(s, t) && t.queue == []
            && forall id <- t.sessions ::
                 t.sessions[id].outbox == [] && Delivered(before, s, t, id)
  {
    RunKeepsInv(cb, INIT, before);
    var s := Run(cb, INIT, before);
    var t;
    actions, t := Settle(cb, s);
    forall id <- t.sessions ensures t.sessions[id].outbox == [] && Delivered(before, s, t, id) {
      assert t.sessions[id].reading == s.sessions[id].reading;
      AllWritten(cb, before, actions, id);
    }
  }

  /** What may happen next never depends on more than the source demands: once the
      handler of the last read has posted, any chunk may arrive, or an error; anybody may
      connect; a write in flight may fail, and an open socket may transmit any part of
      it. */
  lemma AnythingMayHappen(cb: Callbacks, s: State, id: nat) returns (actions: seq<Action>, t: State)
    requires id in s.sessions && s.sessions[id].reading
    ensures Leads(cb, s, actions, t)
    ensures t.sessions == s.sessions[id := s.sessions[id].(outbox := [])]
    ensures Enabled(t, ReadError(id)) && forall k: nat | k !in s.sessions :: Enabled(s, Accept(k))
    ensures forall chunk | s.sessions[id].rx.status.Open? && 1 <= |chunk| <= 2048 :: Enabled(t, Read(id, chunk))
    ensures var out := s.sessions[id].sender;
            out.q.inFlight != [] ==>
              && Enabled(s, Write(id, SendRuns.WriteFailed))
              && forall n: nat | out.sent + n <= |out.q.inFlight[0]| :: Enabled(s, Write(id, SendRuns.Transmit(n)))
  {
    actions, t := PostOut(cb, s, id);
  }

  /** Chunks that may all be read: none is empty or larger than the read buffer, and
      none comes after a rejection. */
  predicate Readable(chunks: seq<seq<byte>>)
    decreases |chunks|
  {
    chunks == [] ||
    var before, last := chunks[..|chunks| - 1], chunks[|chunks| - 1];
    Readable(before) && 1 <= |last| <= 2048 && ReceiveAll(before).rx.status.Open?
  }

  /** The session has read the chunks, and its sender has done nothing. */
  ghost predicate JustRead(cb: Callbacks, actions: seq<Action>, id: nat, chunks: seq<seq<byte>>) {
    && Possible(cb, INIT, actions)
    && var s := Run(cb, INIT, actions);
    && id in s.sessions && s.sessions[id].reading && s.sessions[id].chunks == chunks
    && s.sessions[id].sender == SendRuns.FRESH
  }

  lemma ReadOneMore(cb: Callbacks, before: seq<Action>, id: nat, chunks: seq<seq<byte>>, chunk: seq<byte>)
    returns (actions: seq<Action>)
    requires JustRead(cb, before, id, chunks)
    requires ReceiveAll(chunks).rx.status.Open? && 1 <= |chunk| <= 2048
    ensures JustRead(cb, actions, id, chunks + [chunk])
  {
    var s := Run(cb, INIT, before);
    RunKeepsInv(cb, INIT, before);
    assert At(cb, s, id);
    var posts, t := AnythingMayHappen(cb, s, id);
    var u := Step(cb, t, Read(id, chunk));
    assert Possible(cb, u, []) && Run(cb, u, []) == u;
    Prepend(cb, t, Read(id, chunk), []);
    Append(cb, s, posts, [Read(id, chunk)] + []);
    actions := posts + ([Read(id, chunk)] + []);
    Append(cb, INIT, before, actions);
    actions := before + actions;
  }

  lemma JustAccepted(cb: Callbacks, id: nat)
    ensures JustRead(cb, [Accept(id)], id, [])
  {
    var t := Step(cb, INIT, Accept(id));
    assert Possible(cb, t, []) && Run(cb, t, []) == t;
    Prepend(cb, INIT, Accept(id), []);
    assert [Accept(id)] + [] == [Accept(id)];
  }

  lemma {:induction false} CanRead(cb: Callbacks, id: nat, chunks: seq<seq<byte>>) returns (actions: seq<Action>)
    requires Readable(chunks)
    ensures JustRead(cb, actions, id, chunks)
    decreases |chunks|
  {
    if chunks == [] {
      JustAccepted(cb, id);
      actions := [Accept(id)];
    } else {
      var n := |chunks| - 1;
      var before := CanRead(cb, id, chunks[..n]);
      actions := ReadOneMore(cb, before, id, chunks[..n], chunks[n]);
      assert chunks[..n] + [chunks[n]] == chunks;
    }
  }

  /** Every list of chunks that may be read can be served: some run reads exactly these
      and comes to rest, and unless they cut a header, what it has then sent are the
      encoded replies to the frames of the stream, except those dropped. */
  lemma CanServe(cb: Callbacks, id: nat, chunks: seq<seq<byte>>) returns (actions: seq<Action>, sent: seq<Msg>)
    requires Readable(chunks)
    ensures Possible(cb, INIT, actions) && ChunksRead(actions, id) == chunks
    ensures var s := Run(cb, INIT, actions);
            && id in s.sessions && s.queue == [] && s.sessions[id].outbox == [] && Finished(s.sessions[id].sender)
            && (Admissible(chunks) ==>
                 var out, replies := s.sessions[id].sender, Replies(cb, Deframe(Concat(chunks)).msgs);
                 && AllSendable(sent) && out.wire == EncodeAll(sent)
                 && Sublist(sent, replies) && |sent| + out.dropped == |replies|)
  {
    var before := CanRead(cb, id, chunks);
    NothingFailed(cb, before, id);
    var more := CanRest(cb, before);
    Append(cb, INIT, before, more);
    actions := before + more;
    var s, t := Run(cb, INIT, before), Run(cb, INIT, actions);
    assert t.sessions[id].chunks == chunks;
    AccountOfActions(cb, actions, id);
    RunKeepsInv(cb, INIT, actions);
    assert At(cb, t, id);
    NoFailure(more, id);
    sent := [];
    if Admissible(chunks) {
      sent := AllAnsweredAtRest(cb, actions, id);
    }
  }

  lemma NothingFailed(cb: Callbacks, actions: seq<Action>, id: nat)
    requires Possible(cb, INIT, actions)
    requires var s := Run(cb, INIT, actions);
             id in s.sessions && s.sessions[id].reading && s.sessions[id].sender == SendRuns.FRESH
    ensures ReadError(id) !in actions && Write(id, SendRuns.WriteFailed) !in actions
  {
    RunKeepsInv(cb, INIT, actions);
    ReadingExactly(cb, INIT, actions, id);
    DeadExactlyFromStart(cb, INIT, actions, id);
  }
}

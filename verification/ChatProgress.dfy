/** Progress of the chat: anybody can join; a broadcast that has begun can always be finished, by the
    thread that runs it alone; and a session that has stopped reading can always be
    released, because nothing keeps it alive for ever. */
module ChatProgress {
  import opened WriteQueues
  import opened Chat

  /** The run of `actions` from st is possible and ends in t. */
  ghost predicate Leads(st: State, actions: seq<Action>, t: State) {
    Possible(st, actions) && Run(st, actions) == t
  }

  lemma Prepend(st: State, a: Action, more: seq<Action>, t: State)
    requires Enabled(st, a) && Leads(Step(st, a), more, t)
    ensures Leads(st, [a] + more, t)
  {
    assert ([a] + more)[1..] == more;
  }

  lemma {:induction false} Append(st: State, a: seq<Action>, mid: State, b: seq<Action>, t: State)
    requires Leads(st, a, mid) && Leads(mid, b, t)
    ensures Leads(st, a + b, t)
    decreases |a|
  {
    if a == [] {
      assert a + b == b;
    } else {
      Append(Step(st, a[0]), a[1..], mid, b, t);
      Prepend(st, a[0], a[1..] + b, t);
      assert a + b == [a[0]] + (a[1..] + b);
    }
  }

  /** Steps of the broadcast of session r itself. */
  predicate Broadcasting(actions: seq<Action>, r: nat) {
    forall i | 0 <= i < |actions| :: actions[i] in {TryLock(r), PostHeld(r), SendDone(r)}
  }

  /** The same sessions, as much alive, in the same membership. */
  predicate SameLives(st: State, t: State) {
    && t.members == st.members && t.ws.Keys == st.ws.Keys
    && forall k <- st.ws :: t.ws[k].life == st.ws[k].life
  }

  function Remaining(w: Ws): nat {
    if w.reading.Sending? then 2 * |w.reading.todo| + if w.reading.held.Holding? then 1 else 0 else 0
  }

  function NextOf(st: State, r: nat): Action
    requires r in st.ws && st.ws[r].reading.Sending?
  {
    var w := st.ws[r];
    if w.reading.held.Holding? then PostHeld(r) else if w.reading.todo != [] then TryLock(r) else SendDone(r)
  }

  lemma NextEnabled(st: State, r: nat)
    requires Inv(st) && r in st.ws && st.ws[r].reading.Sending?
    ensures Enabled(st, NextOf(st, r))
  {
    assert SelfInv(st.ws[r]) && MentionsKnown(st, st.ws[r]);
  }

  lemma NextStep(st: State, r: nat)
    requires r in st.ws && st.ws[r].reading.Sending? && Enabled(st, NextOf(st, r))
    ensures var t := Step(st, NextOf(st, r));
            && SameLives(st, t) && t.snaps == st.snaps && t.ws[r].read == st.ws[r].read
            && (t.ws[r].reading.Armed? || (t.ws[r].reading.Sending? && Remaining(t.ws[r]) < Remaining(st.ws[r])))
  {
  }

  lemma {:induction false} CanFinish(st: State, r: nat) returns (actions: seq<Action>, t: State)
    requires Inv(st) && r in st.ws && st.ws[r].reading.Sending?
    ensures Leads(st, actions, t) && Broadcasting(actions, r)
    ensures Inv(t) && SameLives(st, t) && t.snaps == st.snaps
    ensures t.ws[r].reading.Armed? && t.ws[r].read == st.ws[r].read
    decreases Remaining(st.ws[r])
  {
    var a := NextOf(st, r);
    NextEnabled(st, r);
    NextStep(st, r);
    StepKeepsInv(st, a);
    var s := Step(st, a);
    var more := [];
    if s.ws[r].reading.Armed? {
      t := s;
    } else {
      more, t := CanFinish(s, r);
    }
    Prepend(st, a, more, t);
    actions := [a] + more;
  }

  lemma {:induction false} SomeOrder(ids: set<nat>) returns (order: seq<nat>)
    ensures IsOrderOf(order, ids)
  {
    if ids == {} {
      order := [];
    } else {
      var id :| id in ids;
      var rest := SomeOrder(ids - {id});
      order := [id] + rest;
      assert forall k <- ids :: k == id || k in rest;
    }
  }

  lemma ReadBegins(st: State, r: nat, order: seq<nat>)
    requires Enabled(st, OnRead(r, order))
    ensures var t := Step(st, OnRead(r, order));
            && SameLives(st, t) && t.snaps == st.snaps[Tag(r, st.ws[r].read) := st.members]
            && t.ws[r].reading.Sending? && t.ws[r].read == st.ws[r].read + 1
  {
  }

  /** A session that is reading can read a message and get it to every live member,
      exactly once each, in whatever order it takes them, with steps of its own only;
      then it reads again. */
  lemma CanBroadcast(st: State, r: nat, order: seq<nat>) returns (actions: seq<Action>, t: State)
    requires Inv(st) && r in st.ws && st.ws[r].reading.Armed? && IsOrderOf(order, st.members)
    ensures Leads(st, [OnRead(r, order)] + actions, t) && Broadcasting(actions, r)
    ensures SameLives(st, t) && t.ws[r].reading.Armed? && t.ws[r].read == st.ws[r].read + 1
    ensures forall k <- st.members | k in t.ws && t.ws[k].life.Live? ::
              multiset(t.ws[k].got)[Tag(r, st.ws[r].read)] == 1
  {
    var a, tag := OnRead(r, order), Tag(r, st.ws[r].read);
    StepKeepsInv(st, a);
    ReadBegins(st, r, order);
    actions, t := CanFinish(Step(st, a), r);
    Prepend(st, a, actions, t);
    forall k <- st.members | k in t.ws && t.ws[k].life.Live? ensures multiset(t.ws[k].got)[tag] == 1 {
      GotExactlyOnce(t, tag, k);
    }
  }

  /** The session is alive but has stopped reading. */
  predicate Stopping(st: State, r: nat) {
    r in st.ws && st.ws[r].life.Live? && st.ws[r].reading.Stopped?
  }

  predicate Holds(st: State, k: nat, r: nat) {
    k in st.ws && st.ws[k].reading.Sending? && st.ws[k].reading.held == Held.Holding(r)
  }

  lemma LetGo(st: State, k: nat, r: nat)
    requires Inv(st) && Stopping(st, r) && Holds(st, k, r)
    ensures Enabled(st, PostHeld(k))
    ensures var t := Step(st, PostHeld(k));
            && Inv(t) && Stopping(t, r) && t.ws.Keys == st.ws.Keys
            && forall j :: Holds(t, j, r) <==> j != k && Holds(st, j, r)
  {
    assert SelfInv(st.ws[k]) && MentionsKnown(st, st.ws[k]);
    StepKeepsInv(st, PostHeld(k));
  }

  /** The broadcasts that hold r post to it and let it go. */
  lemma {:induction false} LetGoAll(st: State, r: nat, ks: set<nat>) returns (actions: seq<Action>, t: State)
    requires Inv(st) && Stopping(st, r) && forall k :: Holds(st, k, r) ==> k in ks
    ensures Leads(st, actions, t) && Inv(t) && Stopping(t, r) && forall k :: !Holds(t, k, r)
    decreases ks
  {
    if k :| k in ks && Holds(st, k, r) {
      LetGo(st, k, r);
      var more;
      more, t := LetGoAll(Step(st, PostHeld(k)), r, ks - {k});
      Prepend(st, PostHeld(k), more, t);
      actions := [PostHeld(k)] + more;
    } else {
      actions, t := [], st;
    }
  }

  /** The session's own handlers run until none is left; its write fails. */
  lemma {:induction false} RunOut(st: State, r: nat) returns (actions: seq<Action>, t: State)
    requires Inv(st) && Stopping(st, r) && forall k :: !Holds(st, k, r)
    ensures Leads(st, actions, t) && Inv(t) && Stopping(t, r) && forall k :: !Holds(t, k, r)
    ensures t.ws[r].strand == [] && t.ws[r].q.inFlight == []
    decreases |st.ws[r].strand| + |st.ws[r].q.inFlight|, |st.ws[r].strand|
  {
    var w := st.ws[r];
    assert SelfInv(w);
    if w.q.inFlight == [] && w.strand == [] {
      actions, t := [], st;
    } else {
      var a := if w.q.inFlight != [] then OnWrite(r, false) else OnSend(r);
      StepKeepsInv(st, a);
      var s := Step(st, a);
      assert forall k :: Holds(s, k, r) <==> Holds(st, k, r);
      var more;
      more, t := RunOut(s, r);
      Prepend(st, a, more, t);
      actions := [a] + more;
    }
  }

  /** A session that has stopped reading can be released: some run destroys it, and it
      is no member any more. */
  lemma CanLeave(st: State, r: nat) returns (actions: seq<Action>, t: State)
    requires Inv(st) && Stopping(st, r)
    ensures Leads(st, actions, t) && r in t.ws && t.ws[r].life.Gone? && r !in t.members
  {
    var a, s1 := LetGoAll(st, r, st.ws.Keys);
    var b, s2 := RunOut(s1, r);
    Append(st, a, s1, b, s2);
    assert forall k <- s2.ws :: !Holds(s2, k, r);
    var s3 := Step(s2, Chat.Expire(r));
    t := Step(s3, Chat.Leave(r));
    assert Leads(t, [], t);
    Prepend(s3, Chat.Leave(r), [], t);
    Prepend(s2, Chat.Expire(r), [Chat.Leave(r)] + [], t);
    actions := a + b + ([Chat.Expire(r)] + ([Chat.Leave(r)] + []));
    Append(st, a + b, s2, [Chat.Expire(r)] + ([Chat.Leave(r)] + []), t);
  }

  /** Anybody can join from any state: a new session is accepted and reads. */
  lemma CanJoin(st: State, r: nat) returns (actions: seq<Action>, t: State)
    requires r !in st.ws
    ensures Leads(st, actions, t)
    ensures t.members == st.members + {r} && t.ws == st.ws[r := NEW.(reading := Armed)]
  {
    var s := Step(st, Create(r));
    t := Step(s, AcceptDone(r, true));
    assert Leads(t, [], t);
    Prepend(s, AcceptDone(r, true), [], t);
    Prepend(st, Create(r), [AcceptDone(r, true)] + [], t);
    actions := [Create(r)] + ([AcceptDone(r, true)] + []);
  }

  /** What the network decides may go either way at any time: an accept, a read and a
      write may each fail. */
  lemma MayFail(st: State, r: nat, order: seq<nat>)
    requires Inv(st) && r in st.ws
    ensures st.ws[r].reading.Accepting? ==> Enabled(st, AcceptDone(r, true)) && Enabled(st, AcceptDone(r, false))
    ensures st.ws[r].reading.Armed? ==>
              Enabled(st, ReadFailed(r)) && (IsOrderOf(order, st.members) ==> Enabled(st, OnRead(r, order)))
    ensures st.ws[r].q.inFlight != [] ==> Enabled(st, OnWrite(r, true)) && Enabled(st, OnWrite(r, false))
    ensures st.ws[r].strand != [] ==> Enabled(st, OnSend(r))
  {
    assert SelfInv(st.ws[r]);
  }
}

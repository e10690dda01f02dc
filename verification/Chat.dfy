/** The WebSocket chat: `shared_state::send` takes the members under a lock and then
    posts to each of them outside it, while sessions join, die and write.  The steps
    may interleave in any way; the strand of a session is used only as a queue of
    handlers, so the results do not rest on its handlers never overlapping. */
module Chat {
  import opened WriteQueues

  /** The `no`-th message that session `sender` has read. */
  datatype Tag = Tag(sender: nat, no: nat)

  /** The reading side of a session; while it is inside `shared_state::send`, `todo`
      are the weak pointers still to be tried and `held` the strong one obtained. */
  datatype Reading = Accepting | Armed | Sending(todo: seq<nat>, held: Held) | Stopped

  datatype Held = NoOne | Holding(id: nat)

  /** `Expired`: no strong pointer is left and the destructor runs, but the session is
      still among the members.  `Gone`: the destructor has removed it. */
  datatype Life = Live | Expired | Gone

  /** `strand` holds the posted `on_send` handlers, `got` everything ever posted to the
      session, `written` the messages completely written. */
  datatype Ws = Ws(life: Life, reading: Reading, read: nat, strand: seq<Tag>,
                   q: WriteQueue<Tag>, written: seq<Tag>, got: seq<Tag>)
  {
    /** `send`: post an `on_send` handler for the message. */
    function Posted(tag: Tag): Ws {
      this.(strand := strand + [tag], got := got + [tag])
    }

    /** `on_send`: the first posted handler runs. */
    function HandlerRun(): Ws
      requires strand != []
    {
      this.(q := q.Push(strand[0]), strand := strand[1..])
    }

    /** `on_write`: the write in flight has ended. */
    function WriteEnded(ok: bool): Ws
      requires q.inFlight != [] && q.que != []
    {
      if ok then this.(q := q.Completed(), written := written + [q.que[0]]) else this.(q := q.Failed())
    }
  }

  /** `snaps` records the members that each broadcast found. */
  datatype State = State(ws: map<nat, Ws>, members: set<nat>, snaps: map<Tag, set<nat>>)

  datatype Action =
    | Create(id: nat)
    | AcceptDone(id: nat, ok: bool)
    | OnRead(id: nat, order: seq<nat>) // read completed; the members taken in this order
    | ReadFailed(id: nat)
    | TryLock(id: nat)
    | PostHeld(id: nat)
    | SendDone(id: nat)
    | OnSend(id: nat)
    | OnWrite(id: nat, ok: bool)
    | Expire(id: nat)
    | Leave(id: nat)

  const INIT := State(map[], {}, map[])
  const NEW := Ws(Live, Accepting, 0, [], WriteQueue([], []), [], [])

  predicate Distinct(s: seq<nat>) {
    forall i, j | 0 <= i < j < |s| :: s[i] != s[j]
  }

  predicate IsOrderOf(order: seq<nat>, ids: set<nat>) {
    Distinct(order) && (forall i | 0 <= i < |order| :: order[i] in ids) && forall r <- ids :: r in order
  }

  /** Nothing refers to the session any more: no handler of its own, posted or
      outstanding, and no broadcast that holds it. */
  predicate Unreferenced(s: State, id: nat)
    requires id in s.ws
  {
    var w := s.ws[id];
    && w.reading.Stopped? && w.strand == [] && w.q.inFlight == []
    && forall k <- s.ws :: !(s.ws[k].reading.Sending? && s.ws[k].reading.held == Holding(id))
  }

  predicate Enabled(s: State, a: Action) {
    match a
    case Create(id) => id !in s.ws
    case AcceptDone(id, _) => id in s.ws && s.ws[id].reading.Accepting?
    case OnRead(id, order) => id in s.ws && s.ws[id].reading.Armed? && IsOrderOf(order, s.members)
    case ReadFailed(id) => id in s.ws && s.ws[id].reading.Armed?
    case TryLock(id) =>
      id in s.ws && s.ws[id].reading.Sending? && s.ws[id].reading.held.NoOne? && s.ws[id].reading.todo != []
    case PostHeld(id) =>
      && id in s.ws && s.ws[id].reading.Sending? && s.ws[id].reading.held.Holding?
      && s.ws[id].reading.held.id in s.ws && s.ws[id].read > 0
    case SendDone(id) =>
      id in s.ws && s.ws[id].reading.Sending? && s.ws[id].reading.held.NoOne? && s.ws[id].reading.todo == []
    case OnSend(id) => id in s.ws && s.ws[id].strand != []
    case OnWrite(id, _) => id in s.ws && s.ws[id].q.inFlight != [] && s.ws[id].q.que != []
    case Expire(id) => id in s.ws && s.ws[id].life.Live? && Unreferenced(s, id)
    case Leave(id) => id in s.ws && s.ws[id].life.Expired?
  }

  /** `weak_ptr::lock` succeeds as long as the session has not expired. */
  function Lock(s: State, id: nat): Held {
    if id in s.ws && s.ws[id].life.Live? then Holding(id) else NoOne
  }

  /** The message that a broadcasting session is sending. */
  function Current(s: State, id: nat): Tag
    requires id in s.ws && s.ws[id].read > 0
  {
    Tag(id, s.ws[id].read - 1)
  }

  function With(s: State, id: nat, w: Ws): State {
    s.(ws := s.ws[id := w])
  }

  function Step(s: State, a: Action): State
    requires Enabled(s, a)
  {
    match a
    case Create(id) => With(s, id, NEW)
    case AcceptDone(id, ok) =>
      if ok then With(s, id, s.ws[id].(reading := Armed)).(members := s.members + {id})
      else With(s, id, s.ws[id].(reading := Stopped))
    case OnRead(id, order) =>
      var w := s.ws[id];
      With(s, id, w.(read := w.read + 1, reading := Sending(order, NoOne)))
        .(snaps := s.snaps[Tag(id, w.read) := s.members])
    case ReadFailed(id) => With(s, id, s.ws[id].(reading := Stopped))
    case TryLock(id) =>
      var todo := s.ws[id].reading.todo;
      With(s, id, s.ws[id].(reading := Sending(todo[1..], Lock(s, todo[0]))))
    case PostHeld(id) =>
      var tag, r := Current(s, id), s.ws[id].reading.held.id;
      var t := With(s, id, s.ws[id].(reading := Sending(s.ws[id].reading.todo, NoOne)));
      With(t, r, t.ws[r].Posted(tag))
    case SendDone(id) => With(s, id, s.ws[id].(reading := Armed))
    case OnSend(id) => With(s, id, s.ws[id].HandlerRun())
    case OnWrite(id, ok) => With(s, id, s.ws[id].WriteEnded(ok))
    case Expire(id) => With(s, id, s.ws[id].(life := Expired))
    case Leave(id) => With(s, id, s.ws[id].(life := Gone)).(members := s.members - {id})
  }

  predicate Possible(s: State, actions: seq<Action>)
    decreases |actions|
  {
    actions == [] || (Enabled(s, actions[0]) && Possible(Step(s, actions[0]), actions[1..]))
  }

  function Run(s: State, actions: seq<Action>): State
    requires Possible(s, actions)
    decreases |actions|
  {
    if actions == [] then s else Run(Step(s, actions[0]), actions[1..])
  }

  /** The current broadcast of `w` has still to reach session r. */
  predicate Pending(w: Ws, r: nat) {
    w.reading.Sending? && (r in w.reading.todo || w.reading.held == Holding(r))
  }

  /** Messages of one sender are in the order in which it read them, without repeats. */
  predicate InOrder(tags: seq<Tag>) {
    forall i, j | 0 <= i < j < |tags| && tags[i].sender == tags[j].sender :: tags[i].no < tags[j].no
  }

  /** The invariant of one session. */
  predicate SelfInv(w: Ws) {
    && w.q.Valid()
    && w.got == w.written + w.q.que + w.strand && InOrder(w.got)
    // a session that anything refers to is alive
    && (!w.life.Live? ==> w.reading.Stopped? && w.strand == [] && w.q.inFlight == [])
    && (w.reading.Sending? ==>
         && w.read > 0 && Distinct(w.reading.todo)
         && (w.reading.held.Holding? ==> w.reading.held.id !in w.reading.todo))
  }

  /** The invariant of a sender s with `read` messages read and a receiver r. */
  predicate PairInv(s: nat, r: nat, read: nat, pending: bool, got: seq<Tag>, live: bool,
                    snaps: map<Tag, set<nat>>)
  {
    var bound := if pending then read - 1 else read;
    && (pending ==> read > 0 && r in Snap(snaps, Tag(s, read - 1)))
    && (forall i | 0 <= i < |got| && got[i].sender == s :: got[i].no < bound && r in Snap(snaps, got[i]))
    && (forall no: nat | no < bound && r in Snap(snaps, Tag(s, no)) && live :: Tag(s, no) in got)
  }

  function Snap(snaps: map<Tag, set<nat>>, tag: Tag): set<nat> {
    if tag in snaps then snaps[tag] else {}
  }

  predicate PairAt(st: State, s: nat, r: nat)
    requires s in st.ws && r in st.ws
  {
    PairInv(s, r, st.ws[s].read, Pending(st.ws[s], r), st.ws[r].got, st.ws[r].life.Live?, st.snaps)
  }

  /** A session mentions only existing sessions, and holds only live ones. */
  predicate MentionsKnown(st: State, w: Ws) {
    && (w.reading.Sending? ==>
         && (forall k <- w.reading.todo :: k in st.ws)
         && (w.reading.held.Holding? ==> w.reading.held.id in st.ws && st.ws[w.reading.held.id].life.Live?))
    && forall i | 0 <= i < |w.got| :: w.got[i].sender in st.ws
  }

  predicate Closed(st: State) {
    // no member is destroyed
    && (forall id <- st.members :: id in st.ws && !st.ws[id].life.Gone?)
    && (forall id <- st.ws :: MentionsKnown(st, st.ws[id]))
    && (forall tag <- st.snaps :: tag.sender in st.ws && tag.no < st.ws[tag.sender].read && st.snaps[tag] <= st.ws.Keys)
  }

  ghost predicate AllSelf(st: State) {
    forall id <- st.ws :: SelfInv(st.ws[id])
  }

  ghost predicate AllPairs(st: State) {
    forall s <- st.ws, r <- st.ws :: PairAt(st, s, r)
  }

  ghost predicate Inv(st: State) {
    Closed(st) && AllSelf(st) && AllPairs(st)
  }

  lemma StaysClosed(st: State, id: nat, w: Ws)
    requires Closed(st) && id in st.ws && w.life == st.ws[id].life && w.read == st.ws[id].read
    requires MentionsKnown(st, w)
    ensures Closed(With(st, id, w))
  {
    forall k <- With(st, id, w).ws ensures MentionsKnown(With(st, id, w), With(st, id, w).ws[k]) {
      assert MentionsKnown(st, if k == id then w else st.ws[k]);
    }
  }

  /** A change of one session that no pair of sessions notices. */
  lemma QuietPairs(st: State, t: State, j: nat)
    requires AllPairs(st) && j in st.ws && j in t.ws && t.ws == st.ws[j := t.ws[j]] && t.snaps == st.snaps
    requires t.ws[j].read == st.ws[j].read && t.ws[j].got == st.ws[j].got
    requires t.ws[j].life.Live? ==> st.ws[j].life.Live?
    requires forall r :: Pending(t.ws[j], r) == Pending(st.ws[j], r)
    ensures AllPairs(t)
  {
    forall s <- t.ws, r <- t.ws ensures PairAt(t, s, r) {
      assert PairAt(st, s, r);
    }
  }

  lemma QuietMove(st: State, j: nat, w: Ws)
    requires Inv(st) && j in st.ws && SelfInv(w)
    requires w.read == st.ws[j].read && w.got == st.ws[j].got && w.life == st.ws[j].life
    requires w.reading == st.ws[j].reading || (!w.reading.Sending? && forall r :: !Pending(st.ws[j], r))
    ensures Inv(With(st, j, w))
  {
    assert MentionsKnown(st, st.ws[j]);
    StaysClosed(st, j, w);
    QuietPairs(st, With(st, j, w), j);
  }

  lemma MemberAdded(st: State, id: nat)
    requires Inv(st) && id in st.ws && !st.ws[id].life.Gone?
    ensures Inv(st.(members := st.members + {id}))
  {
    var t := st.(members := st.members + {id});
    forall k <- t.ws ensures MentionsKnown(t, t.ws[k]) {
      assert MentionsKnown(st, st.ws[k]);
    }
    forall s <- t.ws, r <- t.ws ensures PairAt(t, s, r) {
      assert PairAt(st, s, r);
    }
  }

  lemma CreateClosed(st: State, id: nat)
    requires Closed(st) && id !in st.ws
    ensures Closed(With(st, id, NEW))
  {
    var t := With(st, id, NEW);
    forall k <- t.ws ensures MentionsKnown(t, t.ws[k]) {
      assert k != id ==> MentionsKnown(st, st.ws[k]);
    }
  }

  lemma CreateKeeps(st: State, id: nat)
    requires Inv(st) && Enabled(st, Create(id))
    ensures Inv(Step(st, Create(id)))
  {
    var t := With(st, id, NEW);
    CreateClosed(st, id);
    forall s <- t.ws, r <- t.ws ensures PairAt(t, s, r) {
      assert s != id ==> MentionsKnown(st, st.ws[s]);
      assert r != id ==> MentionsKnown(st, st.ws[r]);
      assert s != id && r != id ==> PairAt(st, s, r);
    }
  }

  lemma AcceptDoneKeeps(st: State, id: nat, ok: bool)
    requires Inv(st) && Enabled(st, AcceptDone(id, ok))
    ensures Inv(Step(st, AcceptDone(id, ok)))
  {
    var w := st.ws[id].(reading := if ok then Armed else Stopped);
    assert SelfInv(st.ws[id]);
    QuietMove(st, id, w);
    if ok {
      MemberAdded(With(st, id, w), id);
    }
  }

  lemma ReadEndKeeps(st: State, id: nat, reading: Reading)
    requires Inv(st) && id in st.ws && (reading.Armed? || reading.Stopped?) && st.ws[id].life.Live?
    requires forall r :: !Pending(st.ws[id], r)
    ensures Inv(With(st, id, st.ws[id].(reading := reading)))
  {
    assert SelfInv(st.ws[id]);
    QuietMove(st, id, st.ws[id].(reading := reading));
  }

  lemma HandlerRunSelf(w: Ws)
    requires SelfInv(w) && w.strand != []
    ensures SelfInv(w.HandlerRun())
  {
    KeepsOneWriter(w.q, w.strand[0]);
    assert w.written + (w.q.que + [w.strand[0]]) + w.strand[1..] == w.written + w.q.que + w.strand;
  }

  lemma WriteEndedSelf(w: Ws, ok: bool)
    requires SelfInv(w) && w.q.inFlight != []
    ensures SelfInv(w.WriteEnded(ok))
  {
    KeepsOneWriter(w.q, w.q.que[0]);
    assert w.q.que == [w.q.que[0]] + w.q.que[1..];
    assert w.written + [w.q.que[0]] + w.q.que[1..] + w.strand == w.written + w.q.que + w.strand;
  }

  lemma ExpireKeeps(st: State, id: nat)
    requires Inv(st) && Enabled(st, Expire(id))
    ensures Inv(Step(st, Expire(id)))
  {
    var t := Step(st, Expire(id));
    forall k <- t.ws ensures MentionsKnown(t, t.ws[k]) {
      assert MentionsKnown(st, st.ws[k]);
    }
    assert SelfInv(st.ws[id]);
    QuietPairs(st, t, id);
  }

  lemma LeaveKeeps(st: State, id: nat)
    requires Inv(st) && Enabled(st, Leave(id))
    ensures Inv(Step(st, Leave(id)))
  {
    var t := Step(st, Leave(id));
    forall k <- t.ws ensures MentionsKnown(t, t.ws[k]) {
      assert MentionsKnown(st, st.ws[k]);
    }
    assert SelfInv(st.ws[id]);
    QuietPairs(st, t, id);
  }

  lemma ReadPair(s: nat, r: nat, read: nat, got: seq<Tag>, live: bool, snaps: map<Tag, set<nat>>, members: set<nat>)
    requires PairInv(s, r, read, false, got, live, snaps)
    ensures PairInv(s, r, read + 1, r in members, got, live, snaps[Tag(s, read) := members])
  {
  }

  lemma OtherReadPair(s: nat, r: nat, read: nat, pending: bool, got: seq<Tag>, live: bool,
                      snaps: map<Tag, set<nat>>, tag: Tag, members: set<nat>)
    requires PairInv(s, r, read, pending, got, live, snaps) && tag.sender != s
    ensures PairInv(s, r, read, pending, got, live, snaps[tag := members])
  {
  }

  lemma OnReadPairs(st: State, id: nat, order: seq<nat>)
    requires Inv(st) && Enabled(st, OnRead(id, order))
    ensures AllPairs(Step(st, OnRead(id, order)))
  {
    var t := Step(st, OnRead(id, order));
    var n := st.ws[id].read;
    forall s <- t.ws, r <- t.ws ensures PairAt(t, s, r) {
      assert PairAt(st, s, r);
      if s == id {
        assert Pending(t.ws[id], r) == (r in st.members);
        ReadPair(id, r, n, st.ws[r].got, st.ws[r].life.Live?, st.snaps, st.members);
      } else {
        OtherReadPair(s, r, st.ws[s].read, Pending(st.ws[s], r), st.ws[r].got, st.ws[r].life.Live?, st.snaps,
                      Tag(id, n), st.members);
      }
    }
  }

  lemma OnReadClosed(st: State, id: nat, order: seq<nat>)
    requires Inv(st) && Enabled(st, OnRead(id, order))
    ensures Closed(Step(st, OnRead(id, order)))
  {
    var t := Step(st, OnRead(id, order));
    forall k <- t.ws ensures MentionsKnown(t, t.ws[k]) {
      assert MentionsKnown(st, st.ws[k]);
    }
  }

  lemma OnReadKeeps(st: State, id: nat, order: seq<nat>)
    requires Inv(st) && Enabled(st, OnRead(id, order))
    ensures Inv(Step(st, OnRead(id, order)))
  {
    assert SelfInv(st.ws[id]);
    OnReadPairs(st, id, order);
    OnReadClosed(st, id, order);
  }

  lemma TryLockKeeps(st: State, id: nat)
    requires Inv(st) && Enabled(st, TryLock(id))
    ensures Inv(Step(st, TryLock(id)))
  {
    var t := Step(st, TryLock(id));
    var todo := st.ws[id].reading.todo;
    assert SelfInv(st.ws[id]);
    StaysClosed(st, id, t.ws[id]);
    forall s <- t.ws, r <- t.ws ensures PairAt(t, s, r) {
      assert PairAt(st, s, r);
      if s == id {
        assert r in todo <==> r == todo[0] || r in todo[1..];
      }
    }
  }

  lemma InOrderSnoc(got: seq<Tag>, tag: Tag)
    requires InOrder(got)
    requires forall i | 0 <= i < |got| && got[i].sender == tag.sender :: got[i].no < tag.no
    ensures InOrder(got + [tag])
  {
  }

  lemma PostPair(s: nat, r: nat, read: nat, got: seq<Tag>, live: bool, snaps: map<Tag, set<nat>>)
    requires PairInv(s, r, read, true, got, live, snaps)
    ensures PairInv(s, r, read, false, got + [Tag(s, read - 1)], live, snaps)
  {
    var got' := got + [Tag(s, read - 1)];
    forall no: nat | no < read && r in Snap(snaps, Tag(s, no)) && live ensures Tag(s, no) in got' {
      if no == read - 1 {
        assert got'[|got|] == Tag(s, no);
      }
    }
  }

  lemma OtherPostPair(s: nat, r: nat, read: nat, pending: bool, got: seq<Tag>, live: bool,
                      snaps: map<Tag, set<nat>>, tag: Tag)
    requires PairInv(s, r, read, pending, got, live, snaps) && tag.sender != s
    ensures PairInv(s, r, read, pending, got + [tag], live, snaps)
  {
  }

  lemma PostedSelf(w: Ws, tag: Tag)
    requires SelfInv(w) && w.life.Live?
    requires forall i | 0 <= i < |w.got| && w.got[i].sender == tag.sender :: w.got[i].no < tag.no
    ensures SelfInv(w.(strand := w.strand + [tag], got := w.got + [tag]))
  {
    InOrderSnoc(w.got, tag);
    assert w.written + w.q.que + (w.strand + [tag]) == w.got + [tag];
  }

  /** What posting changes in the eyes of a pair of sessions. */
  lemma PostHeldSeen(st: State, id: nat, s: nat, r: nat)
    requires AllSelf(st) && Enabled(st, PostHeld(id)) && s in st.ws && r in st.ws
    ensures var t, r0 := Step(st, PostHeld(id)), st.ws[id].reading.held.id;
            && t.ws[s].read == st.ws[s].read && t.ws[r].life == st.ws[r].life && t.snaps == st.snaps
            && t.ws[r].got == st.ws[r].got + (if r == r0 then [Current(st, id)] else [])
            && Pending(t.ws[s], r) == (Pending(st.ws[s], r) && !(s == id && r == r0))
  {
    assert SelfInv(st.ws[id]);
  }

  /** The pair (s, r) after the message `no` of sender id was posted to receiver r0. */
  lemma PairAfterPost(s: nat, r: nat, id: nat, r0: nat, no: nat, read: nat, pending: bool, got: seq<Tag>, live: bool,
                      snaps: map<Tag, set<nat>>)
    requires PairInv(s, r, read, pending, got, live, snaps)
    requires s == id && r == r0 ==> pending && read == no + 1
    ensures PairInv(s, r, read, pending && !(s == id && r == r0), got + (if r == r0 then [Tag(id, no)] else []),
                    live, snaps)
  {
    if r != r0 {
      assert got + [] == got;
    } else if s == id {
      PostPair(s, r, read, got, live, snaps);
    } else {
      OtherPostPair(s, r, read, pending, got, live, snaps, Tag(id, no));
    }
  }

  lemma PostHeldPair(st: State, id: nat, s: nat, r: nat)
    requires AllSelf(st) && Enabled(st, PostHeld(id)) && s in st.ws && r in st.ws && PairAt(st, s, r)
    ensures PairAt(Step(st, PostHeld(id)), s, r)
  {
    PostHeldSeen(st, id, s, r);
    PairAfterPost(s, r, id, st.ws[id].reading.held.id, st.ws[id].read - 1, st.ws[s].read, Pending(st.ws[s], r),
                  st.ws[r].got, st.ws[r].life.Live?, st.snaps);
  }

  lemma PostHeldSelf(st: State, id: nat)
    requires Inv(st) && Enabled(st, PostHeld(id))
    ensures AllSelf(Step(st, PostHeld(id)))
  {
    var w := st.ws[id];
    var r0 := w.reading.held.id;
    assert SelfInv(w) && SelfInv(st.ws[r0]) && PairAt(st, id, r0);
    var w' := w.(reading := Sending(w.reading.todo, NoOne));
    assert SelfInv(w');
    PostedSelf(if r0 == id then w' else st.ws[r0], Current(st, id));
  }

  lemma PostHeldClosed(st: State, id: nat)
    requires Closed(st) && Enabled(st, PostHeld(id))
    ensures Closed(Step(st, PostHeld(id)))
  {
    var w := st.ws[id];
    var r := w.reading.held.id;
    var w' := w.(reading := Sending(w.reading.todo, NoOne));
    StaysClosed(st, id, w');
    var t, tag := With(st, id, w'), Current(st, id);
    StaysClosed(t, r, t.ws[r].(strand := t.ws[r].strand + [tag], got := t.ws[r].got + [tag]));
  }

  lemma PostHeldKeeps(st: State, id: nat)
    requires Inv(st) && Enabled(st, PostHeld(id))
    ensures Inv(Step(st, PostHeld(id)))
  {
    var t := Step(st, PostHeld(id));
    PostHeldSelf(st, id);
    PostHeldClosed(st, id);
    forall s <- t.ws, r <- t.ws ensures PairAt(t, s, r) {
      PostHeldPair(st, id, s, r);
    }
  }

  lemma StepKeepsInv(st: State, a: Action)
    requires Inv(st) && Enabled(st, a)
    ensures Inv(Step(st, a))
  {
    match a
    case Create(id) => CreateKeeps(st, id);
    case AcceptDone(id, ok) => AcceptDoneKeeps(st, id, ok);
    case OnRead(id, order) => OnReadKeeps(st, id, order);
    case ReadFailed(id) =>
      assert SelfInv(st.ws[id]);
      ReadEndKeeps(st, id, Stopped);
    case TryLock(id) => TryLockKeeps(st, id);
    case PostHeld(id) => PostHeldKeeps(st, id);
    case SendDone(id) =>
      assert SelfInv(st.ws[id]);
      ReadEndKeeps(st, id, Armed);
    case OnSend(id) =>
      HandlerRunSelf(st.ws[id]);
      QuietMove(st, id, st.ws[id].HandlerRun());
    case OnWrite(id, ok) =>
      WriteEndedSelf(st.ws[id], ok);
      QuietMove(st, id, st.ws[id].WriteEnded(ok));
    case Expire(id) => ExpireKeeps(st, id);
    case Leave(id) => LeaveKeeps(st, id);
  }

  lemma {:induction false} RunKeepsInv(st: State, actions: seq<Action>)
    requires Inv(st) && Possible(st, actions)
    ensures Inv(Run(st, actions))
    decreases |actions|
  {
    if actions != [] {
      StepKeepsInv(st, actions[0]);
      RunKeepsInv(Step(st, actions[0]), actions[1..]);
    }
  }

  /** The broadcasts that a session begins in a run. */
  function Begun(actions: seq<Action>, r: nat): nat
    decreases |actions|
  {
    if actions == [] then
      0
    else
      var last := actions[|actions| - 1];
      Begun(actions[..|actions| - 1], r) + if last.OnRead? && last.id == r then 1 else 0
  }

  function Ended(actions: seq<Action>, r: nat): nat
    decreases |actions|
  {
    if actions == [] then
      0
    else
      Ended(actions[..|actions| - 1], r) + if actions[|actions| - 1] == SendDone(r) then 1 else 0
  }

  lemma {:induction false} RunLast(st: State, actions: seq<Action>)
    requires Possible(st, actions) && actions != []
    ensures var before, last := actions[..|actions| - 1], actions[|actions| - 1];
            && Possible(st, before) && Enabled(Run(st, before), last)
            && Run(st, actions) == Step(Run(st, before), last)
    decreases |actions|
  {
    if |actions| > 1 {
      var rest := actions[1..];
      RunLast(Step(st, actions[0]), rest);
      assert actions[..|actions| - 1][1..] == rest[..|rest| - 1];
    }
  }

  /** What the actions of a run so far say of a session: whether it exists, is alive and
      is a member, ... */
  predicate LifeRecorded(st: State, actions: seq<Action>, r: nat) {
    && (r in st.ws <==> Create(r) in actions)
    && (r in st.members <==> AcceptDone(r, true) in actions && Leave(r) !in actions)
    && (r in st.ws ==>
         && (st.ws[r].life.Live? <==> Expire(r) !in actions)
         && (st.ws[r].life.Gone? <==> Leave(r) in actions))
    && (r !in st.ws ==> AcceptDone(r, true) !in actions && Expire(r) !in actions && Leave(r) !in actions)
  }

  /** ... and what its reading side is doing.  It reads again after every broadcast, and
      stops only when its accept or a read has failed. */
  predicate ReadingRecorded(st: State, actions: seq<Action>, r: nat) {
    if r in st.ws then
      var w := st.ws[r];
      && (w.reading.Stopped? <==> ReadFailed(r) in actions || AcceptDone(r, false) in actions)
      && (w.reading.Accepting? <==> AcceptDone(r, true) !in actions && AcceptDone(r, false) !in actions)
      && w.read == Begun(actions, r) == Ended(actions, r) + (if w.reading.Sending? then 1 else 0)
    else
      && AcceptDone(r, true) !in actions && AcceptDone(r, false) !in actions && ReadFailed(r) !in actions
      && Begun(actions, r) == Ended(actions, r) == 0
  }

  lemma InCons<T>(xs: seq<T>, x: T)
    requires xs != []
    ensures x in xs <==> x == xs[0] || x in xs[1..]
  {
    assert xs == [xs[0]] + xs[1..];
  }

  lemma InSnoc<T>(xs: seq<T>, x: T)
    requires xs != []
    ensures x in xs <==> x in xs[..|xs| - 1] || x == xs[|xs| - 1]
  {
    assert xs == xs[..|xs| - 1] + [xs[|xs| - 1]];
  }

  lemma LifeStep(st: State, actions: seq<Action>, r: nat)
    requires actions != [] && Inv(st) && Enabled(st, actions[|actions| - 1])
    requires LifeRecorded(st, actions[..|actions| - 1], r)
    ensures LifeRecorded(Step(st, actions[|actions| - 1]), actions, r)
  {
    InSnoc(actions, Create(r));
    InSnoc(actions, AcceptDone(r, true));
    InSnoc(actions, Expire(r));
    InSnoc(actions, Leave(r));
    assert r in st.ws ==> SelfInv(st.ws[r]);
  }

  lemma ReadingStep(st: State, actions: seq<Action>, r: nat)
    requires actions != [] && Enabled(st, actions[|actions| - 1])
    requires ReadingRecorded(st, actions[..|actions| - 1], r)
    ensures ReadingRecorded(Step(st, actions[|actions| - 1]), actions, r)
  {
    InSnoc(actions, AcceptDone(r, true));
    InSnoc(actions, AcceptDone(r, false));
    InSnoc(actions, ReadFailed(r));
  }

  /** In every run from the start. */
  lemma {:induction false} AccountOfActions(actions: seq<Action>, r: nat)
    requires Possible(INIT, actions)
    ensures LifeRecorded(Run(INIT, actions), actions, r) && ReadingRecorded(Run(INIT, actions), actions, r)
    decreases |actions|
  {
    if actions != [] {
      var before := actions[..|actions| - 1];
      RunLast(INIT, actions);
      AccountOfActions(before, r);
      RunKeepsInv(INIT, before);
      LifeStep(Run(INIT, before), actions, r);
      ReadingStep(Run(INIT, before), actions, r);
    }
  }

  lemma {:induction false} AtMostOneCopy(got: seq<Tag>, tag: Tag)
    requires InOrder(got)
    ensures multiset(got)[tag] == if tag in got then 1 else 0
    decreases |got|
  {
    if got != [] {
      var k := |got| - 1;
      AtMostOneCopy(got[..k], tag);
      assert got == got[..k] + [got[k]];
      assert forall i | 0 <= i < k :: got[..k][i] == got[i] && got[i] != got[k];
    }
  }

  /** Only a session's own handlers touch its write queue. */
  lemma OthersLeaveQueue(st: State, a: Action, r: nat)
    requires Enabled(st, a) && r in st.ws && !(a.OnSend? && a.id == r) && !(a.OnWrite? && a.id == r)
    ensures var t := Step(st, a);
            r in t.ws && t.ws[r].q == st.ws[r].q && t.ws[r].written == st.ws[r].written
  {
  }

  /** A session keeps existing, and only its failed write makes its queue dead. */
  lemma DeadStep(st: State, a: Action, r: nat)
    requires AllSelf(st) && Enabled(st, a) && r in st.ws
    ensures var t := Step(st, a);
            && r in t.ws && (t.ws[r].q.Dead() <==> st.ws[r].q.Dead() || a == OnWrite(r, false))
            && (st.ws[r].q.Dead() ==> t.ws[r].written == st.ws[r].written)
  {
    assert SelfInv(st.ws[r]);
    if a == OnSend(r) {
      KeepsOneWriter(st.ws[r].q, st.ws[r].strand[0]);
    } else if !(a.OnWrite? && a.id == r) {
      OthersLeaveQueue(st, a, r);
    }
  }

  lemma {:induction false} DeadExactly(st: State, actions: seq<Action>, r: nat)
    requires Inv(st) && Possible(st, actions) && r in st.ws
    ensures var t := Run(st, actions);
            && r in t.ws && (t.ws[r].q.Dead() <==> st.ws[r].q.Dead() || OnWrite(r, false) in actions)
            && (st.ws[r].q.Dead() ==> t.ws[r].written == st.ws[r].written)
    decreases |actions|
  {
    if actions != [] {
      StepKeepsInv(st, actions[0]);
      DeadStep(st, actions[0], r);
      DeadExactly(Step(st, actions[0]), actions[1..], r);
      InCons(actions, OnWrite(r, false));
    }
  }

  /** The same for a session that may be created on the way. */
  lemma {:induction false} DeadExactlyFromStart(st: State, actions: seq<Action>, r: nat)
    requires Inv(st) && Possible(st, actions) && (r in st.ws ==> !st.ws[r].q.Dead())
    requires r in Run(st, actions).ws
    ensures Run(st, actions).ws[r].q.Dead() <==> OnWrite(r, false) in actions
    decreases |actions|
  {
    if r in st.ws {
      DeadExactly(st, actions, r);
    } else {
      StepKeepsInv(st, actions[0]);
      DeadExactlyFromStart(Step(st, actions[0]), actions[1..], r);
      InCons(actions, OnWrite(r, false));
    }
  }

  /** In every run: a session gets the messages of each sender in the order in which
      the sender read them and without repeats; what it has written is the beginning
      of what it got; one write, of the front of the queue, is in flight exactly while
      the queue is not empty, until a write fails, and none from then on; and no
      member is destroyed. */
  lemma BroadcastOrder(actions: seq<Action>, r: nat)
    requires Possible(INIT, actions) && r in Run(INIT, actions).ws
    ensures var st := Run(INIT, actions);
            var w := st.ws[r];
            && InOrder(w.got) && w.written <= w.got
            && (w.q.inFlight == [] || (w.q.que != [] && w.q.inFlight == [w.q.que[0]]))
            && (OnWrite(r, false) !in actions ==> (w.q.que != [] <==> w.q.inFlight != []))
            && (OnWrite(r, false) in actions ==> w.q.que != [] && w.q.inFlight == [])
            && (r in st.members ==> !w.life.Gone?)
  {
    RunKeepsInv(INIT, actions);
    DeadExactlyFromStart(INIT, actions, r);
    WritesInOrder(Run(INIT, actions), r);
  }

  lemma WritesInOrder(st: State, r: nat)
    requires Inv(st) && r in st.ws
    ensures var w := st.ws[r];
            && InOrder(w.got) && w.written <= w.got && w.q.Valid()
            && (r in st.members ==> !w.life.Gone?)
  {
    var w := st.ws[r];
    assert SelfInv(w);
    assert w.got == w.written + (w.q.que + w.strand);
  }

  /** A session whose write failed never writes again, in any continuation. */
  lemma NoWriteAfterFailure(before: seq<Action>, r: nat, more: seq<Action>)
    requires Possible(INIT, before) && Enabled(Run(INIT, before), OnWrite(r, false))
    requires Possible(Step(Run(INIT, before), OnWrite(r, false)), more)
    ensures var now := Run(Step(Run(INIT, before), OnWrite(r, false)), more);
            && r in now.ws && now.ws[r].q.inFlight == []
            && now.ws[r].written == Run(INIT, before).ws[r].written
  {
    RunKeepsInv(INIT, before);
    var st := Run(INIT, before);
    DeadStep(st, OnWrite(r, false), r);
    StepKeepsInv(st, OnWrite(r, false));
    DeadExactly(Step(st, OnWrite(r, false)), more, r);
  }

  /** Delivery: a session whose reads and writes have not failed can write all that it
      got, by steps of its own. */
  lemma {:induction false} CanDeliver(st: State, r: nat) returns (actions: seq<Action>)
    requires Inv(st) && r in st.ws && !st.ws[r].q.Dead() && !st.ws[r].reading.Stopped?
    ensures Possible(st, actions)
    ensures forall i | 0 <= i < |actions| :: actions[i] == OnSend(r) || actions[i] == OnWrite(r, true)
    ensures var t := Run(st, actions);
            r in t.ws && t.ws[r].got == st.ws[r].got && t.ws[r].written == t.ws[r].got
    decreases 2 * |st.ws[r].strand| + |st.ws[r].q.que|
  {
    var w := st.ws[r];
    assert SelfInv(w);
    if w.strand == [] && w.q.que == [] {
      actions := [];
    } else {
      var a := if w.strand != [] then OnSend(r) else OnWrite(r, true);
      StepKeepsInv(st, a);
      DeadStep(st, a, r);
      var more := CanDeliver(Step(st, a), r);
      actions := [a] + more;
      assert actions[1..] == more;
    }
  }

  /** The broadcast of this message is still going on. */
  predicate Busy(st: State, tag: Tag) {
    tag.sender in st.ws && st.ws[tag.sender].reading.Sending? && tag.no == st.ws[tag.sender].read - 1
  }

  lemma {:induction false} SnapsPersist(st: State, actions: seq<Action>, tag: Tag)
    requires Inv(st) && Possible(st, actions) && tag in st.snaps
    ensures tag in Run(st, actions).snaps && Run(st, actions).snaps[tag] == st.snaps[tag]
    decreases |actions|
  {
    if actions != [] {
      StepKeepsInv(st, actions[0]);
      SnapsPersist(Step(st, actions[0]), actions[1..], tag);
    }
  }

  /** A broadcast, from the moment it looks at the members: no session that is not a
      member then ever gets the message, no session ever gets it twice, and once the
      broadcast is over each member that is still alive has got it exactly once,
      whatever else happened in between. */
  lemma BroadcastExactlyOnce(before: seq<Action>, s: nat, order: seq<nat>, more: seq<Action>, r: nat)
    requires Possible(INIT, before) && Enabled(Run(INIT, before), OnRead(s, order))
    requires Possible(Step(Run(INIT, before), OnRead(s, order)), more)
    requires r in Run(Step(Run(INIT, before), OnRead(s, order)), more).ws
    ensures var start := Run(INIT, before);
            var now := Run(Step(start, OnRead(s, order)), more);
            var tag := Tag(s, start.ws[s].read);
            var copies := multiset(now.ws[r].got)[tag];
            && copies <= 1
            && (r !in start.members ==> copies == 0)
            && (r in start.members && now.ws[r].life.Live? && !Busy(now, tag) ==> copies == 1)
  {
    RunKeepsInv(INIT, before);
    var start := Run(INIT, before);
    var next, tag := Step(start, OnRead(s, order)), Tag(s, start.ws[s].read);
    StepKeepsInv(start, OnRead(s, order));
    SnapsPersist(next, more, tag);
    RunKeepsInv(next, more);
    GotExactlyOnce(Run(next, more), tag, r);
  }

  lemma GotExactlyOnce(st: State, tag: Tag, r: nat)
    requires Inv(st) && tag in st.snaps && r in st.ws
    ensures var copies := multiset(st.ws[r].got)[tag];
            && copies <= 1
            && (r !in st.snaps[tag] ==> copies == 0)
            && (r in st.snaps[tag] && st.ws[r].life.Live? && !Busy(st, tag) ==> copies == 1)
  {
    assert tag.sender in st.ws && SelfInv(st.ws[r]) && PairAt(st, tag.sender, r);
    AtMostOneCopy(st.ws[r].got, tag);
  }
}

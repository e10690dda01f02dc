/** The handshake between the producers of the logic queue and its one worker, as
    steps of threads that share a mutex and a condition variable.  A producer
    notifies only if its message was the first of the queue, and after it has
    released the mutex.  Wakeups may be spurious. */
module Wakeup {
  /** A producer inside `PostMsgToQue`, by what it does next. */
  datatype Producer<T> =
    | Outside
    | Locking(msg: T)       // about to take the mutex
    | Pushing(msg: T)       // has the mutex
    | Unlocking(first: bool) // has the mutex and has pushed
    | Notifying             // has released the mutex

  /** The worker inside `DealMsg`. */
  datatype Worker =
    | Starting  // about to take the mutex at the top of the loop
    | Testing   // has the mutex, about to test whether the queue is empty
    | Waiting   // in the condition variable, the mutex released
    | Woken     // woken up, about to take the mutex again
    | Handling  // has the mutex, about to run the callback and pop

  datatype Holder = Nobody | ByWorker | ByProducer(who: nat)

  /** `posted` and `popped` are histories. */
  datatype State<T> = State(queue: seq<T>, holder: Holder, worker: Worker, producers: seq<Producer<T>>,
                            posted: seq<T>, popped: seq<T>)

  datatype Action<T> =
    | Post(i: nat, msg: T) | Lock(i: nat) | Push(i: nat) | Unlock(i: nat) | Notify(i: nat)
    | WorkerLock | Test | Handle | SpuriousWakeup

  predicate Enabled<T>(s: State<T>, a: Action<T>) {
    match a
    case Post(i, _) => i < |s.producers| && s.producers[i].Outside?
    case Lock(i) => i < |s.producers| && s.producers[i].Locking? && s.holder.Nobody?
    case Push(i) => i < |s.producers| && s.producers[i].Pushing?
    case Unlock(i) => i < |s.producers| && s.producers[i].Unlocking?
    case Notify(i) => i < |s.producers| && s.producers[i].Notifying?
    case WorkerLock => (s.worker.Starting? || s.worker.Woken?) && s.holder.Nobody?
    case Test => s.worker.Testing?
    case Handle => s.worker.Handling? && s.queue != []
    case SpuriousWakeup => s.worker.Waiting?
  }

  function Step<T>(s: State<T>, a: Action<T>): State<T>
    requires Enabled(s, a)
  {
    match a
    case Post(i, m) => s.(producers := s.producers[i := Locking(m)])
    case Lock(i) => s.(holder := ByProducer(i), producers := s.producers[i := Pushing(s.producers[i].msg)])
    case Push(i) =>
      var m := s.producers[i].msg;
      s.(queue := s.queue + [m], posted := s.posted + [m],
         producers := s.producers[i := Unlocking(|s.queue + [m]| == 1)])
    case Unlock(i) =>
      s.(holder := Nobody, producers := s.producers[i := if s.producers[i].first then Notifying else Outside])
    case Notify(i) =>
      s.(worker := if s.worker.Waiting? then Woken else s.worker, producers := s.producers[i := Outside])
    case WorkerLock => s.(holder := ByWorker, worker := Testing)
    case Test => if s.queue == [] then s.(holder := Nobody, worker := Waiting) else s.(worker := Handling)
    case Handle =>
      s.(queue := s.queue[1..], popped := s.popped + [s.queue[0]], holder := Nobody, worker := Starting)
    case SpuriousWakeup => s.(worker := Woken)
  }

  function Init<T>(n: nat): State<T> {
    State([], Nobody, Starting, seq(n, _ => Outside), [], [])
  }

  predicate Possible<T>(s: State<T>, actions: seq<Action<T>>)
    decreases |actions|
  {
    actions == [] || (Enabled(s, actions[0]) && Possible(Step(s, actions[0]), actions[1..]))
  }

  function Run<T>(s: State<T>, actions: seq<Action<T>>): State<T>
    requires Possible(s, actions)
    decreases |actions|
  {
    if actions == [] then s else Run(Step(s, actions[0]), actions[1..])
  }

  predicate HasMutex<T>(p: Producer<T>) {
    p.Pushing? || p.Unlocking?
  }

  /** Producer i still has to notify. */
  predicate OwesNotify<T>(s: State<T>, i: nat) {
    i < |s.producers| && (s.producers[i].Notifying? || (s.producers[i].Unlocking? && s.producers[i].first))
  }

  ghost predicate NoLostWakeup<T>(s: State<T>) {
    s.worker.Waiting? && s.queue != [] ==> exists i :: OwesNotify(s, i)
  }

  ghost predicate Inv<T>(s: State<T>) {
    // mutual exclusion
    && (s.holder == ByWorker <==> s.worker.Testing? || s.worker.Handling?)
    && (forall i | 0 <= i < |s.producers| :: s.holder == ByProducer(i) <==> HasMutex(s.producers[i]))
    && (s.holder.ByProducer? ==> s.holder.who < |s.producers|)
    && (s.worker.Handling? ==> s.queue != [])
    && NoLostWakeup(s)
    // first in, first out
    && s.posted == s.popped + s.queue
  }

  lemma StepKeepsInv<T>(s: State<T>, a: Action<T>)
    requires Inv(s) && Enabled(s, a)
    ensures Inv(Step(s, a))
  {
    var t := Step(s, a);
    if t.worker.Waiting? && t.queue != [] {
      if a.Push? && s.queue == [] {
        assert OwesNotify(t, a.i);
      } else {
        var k :| OwesNotify(s, k);
        assert OwesNotify(t, k);
      }
    }
  }

  lemma {:induction false} RunKeepsInv<T>(s: State<T>, actions: seq<Action<T>>)
    requires Inv(s) && Possible(s, actions)
    ensures Inv(Run(s, actions))
    decreases |actions|
  {
    if actions != [] {
      StepKeepsInv(s, actions[0]);
      RunKeepsInv(Step(s, actions[0]), actions[1..]);
    }
  }

  /** The messages that producer i is asked to post in a run. */
  function PostsOf<T>(actions: seq<Action<T>>, i: nat): seq<T>
    decreases |actions|
  {
    if actions == [] then
      []
    else
      var last := actions[|actions| - 1];
      PostsOf(actions[..|actions| - 1], i) + if last.Post? && last.i == i then [last.msg] else []
  }

  /** The producers that push, in the order of their pushes. */
  function Pushers<T>(actions: seq<Action<T>>): seq<nat>
    decreases |actions|
  {
    if actions == [] then
      []
    else
      var last := actions[|actions| - 1];
      Pushers(actions[..|actions| - 1]) + if last.Push? then [last.i] else []
  }

  function Handles<T>(actions: seq<Action<T>>): nat
    decreases |actions|
  {
    if actions == [] then 0
    else Handles(actions[..|actions| - 1]) + if actions[|actions| - 1].Handle? then 1 else 0
  }

  /** The pushes of producer i that find everything pushed before handled already. */
  function FoundEmpty<T>(actions: seq<Action<T>>, i: nat): nat
    decreases |actions|
  {
    if actions == [] then
      0
    else
      var before, last := actions[..|actions| - 1], actions[|actions| - 1];
      FoundEmpty(before, i) + if last.Push? && last.i == i && |Pushers(before)| == Handles(before) then 1 else 0
  }

  function Notifies<T>(actions: seq<Action<T>>, i: nat): nat
    decreases |actions|
  {
    if actions == [] then
      0
    else
      var last := actions[|actions| - 1];
      Notifies(actions[..|actions| - 1], i) + if last.Notify? && last.i == i then 1 else 0
  }

  /** Those of the messages that producer i has pushed. */
  function By<T>(msgs: seq<T>, pushers: seq<nat>, i: nat): seq<T>
    requires |msgs| == |pushers|
  {
    if msgs == [] then
      []
    else
      var n := |msgs| - 1;
      By(msgs[..n], pushers[..n], i) + if pushers[n] == i then [msgs[n]] else []
  }

  lemma BySnoc<T>(msgs: seq<T>, pushers: seq<nat>, i: nat, m: T, j: nat)
    requires |msgs| == |pushers|
    ensures By(msgs + [m], pushers + [j], i) == By(msgs, pushers, i) + if j == i then [m] else []
  {
    assert (msgs + [m])[..|msgs|] == msgs && (pushers + [j])[..|msgs|] == pushers;
  }

  /** The message that a producer has still to push. */
  function Unpushed<T>(p: Producer<T>): seq<T> {
    match p
    case Locking(m) => [m]
    case Pushing(m) => [m]
    case _ => []
  }

  /** What the actions of a run so far say: those posted are handled one by one, ... */
  ghost predicate Counted<T>(s: State<T>, actions: seq<Action<T>>) {
    |s.posted| == |Pushers(actions)| && |s.popped| == Handles(actions)
  }

  /** ... each producer's messages are posted in the order in which it was asked to, ... */
  ghost predicate PostedInOrder<T>(s: State<T>, actions: seq<Action<T>>, i: nat)
    requires i < |s.producers| && Counted(s, actions)
  {
    By(s.posted, Pushers(actions), i) + Unpushed(s.producers[i]) == PostsOf(actions, i)
  }

  /** ... and a producer notifies once for each push of its that found the queue empty. */
  ghost predicate NotifiedOnce<T>(s: State<T>, actions: seq<Action<T>>, i: nat) {
    Notifies(actions, i) + (if OwesNotify(s, i) then 1 else 0) == FoundEmpty(actions, i)
  }

  lemma {:induction false} RunLast<T>(s: State<T>, actions: seq<Action<T>>)
    requires Possible(s, actions) && actions != []
    ensures var before, last := actions[..|actions| - 1], actions[|actions| - 1];
            && Possible(s, before) && Enabled(Run(s, before), last)
            && Run(s, actions) == Step(Run(s, before), last)
    decreases |actions|
  {
    if |actions| > 1 {
      var rest := actions[1..];
      RunLast(Step(s, actions[0]), rest);
      assert actions[..|actions| - 1][1..] == rest[..|rest| - 1];
    }
  }

  lemma CountedStep<T>(s: State<T>, actions: seq<Action<T>>)
    requires actions != [] && Enabled(s, actions[|actions| - 1]) && Counted(s, actions[..|actions| - 1])
    ensures Counted(Step(s, actions[|actions| - 1]), actions)
  {
  }

  lemma OrderStep<T>(s: State<T>, actions: seq<Action<T>>, i: nat)
    requires actions != [] && Enabled(s, actions[|actions| - 1]) && i < |s.producers|
    requires Counted(s, actions[..|actions| - 1]) && PostedInOrder(s, actions[..|actions| - 1], i)
    requires Counted(Step(s, actions[|actions| - 1]), actions)
    ensures PostedInOrder(Step(s, actions[|actions| - 1]), actions, i)
  {
    var before, a := actions[..|actions| - 1], actions[|actions| - 1];
    var mine := By(s.posted, Pushers(before), i);
    assert mine + [] == mine;
    if a.Push? {
      var m := s.producers[a.i].msg;
      assert Pushers(actions) == Pushers(before) + [a.i];
      BySnoc(s.posted, Pushers(before), i, m, a.i);
      assert mine + [m] + [] == mine + [m];
    } else {
      assert Pushers(actions) == Pushers(before);
    }
  }

  lemma NotifiedStep<T>(s: State<T>, actions: seq<Action<T>>, i: nat)
    requires actions != [] && Inv(s) && Enabled(s, actions[|actions| - 1]) && i < |s.producers|
    requires Counted(s, actions[..|actions| - 1]) && NotifiedOnce(s, actions[..|actions| - 1], i)
    ensures NotifiedOnce(Step(s, actions[|actions| - 1]), actions, i)
  {
  }

  lemma {:induction false} AllCounted<T>(n: nat, actions: seq<Action<T>>)
    requires Possible(Init(n), actions)
    ensures Counted(Run(Init(n), actions), actions)
    decreases |actions|
  {
    if actions != [] {
      var before := actions[..|actions| - 1];
      RunLast(Init(n), actions);
      AllCounted(n, before);
      CountedStep(Run(Init(n), before), actions);
    }
  }

  /** In every run from the start, with any number of producers. */
  lemma {:induction false} AccountOfActions<T>(n: nat, actions: seq<Action<T>>, i: nat)
    requires Possible(Init(n), actions) && i < n
    ensures var s := Run(Init(n), actions);
            && |s.producers| == n && Counted(s, actions)
            && PostedInOrder(s, actions, i) && NotifiedOnce(s, actions, i)
    decreases |actions|
  {
    if actions != [] {
      var before := actions[..|actions| - 1];
      RunLast(Init(n), actions);
      AccountOfActions(n, before, i);
      RunKeepsInv(Init(n), before);
      AllCounted(n, actions);
      var s := Run(Init(n), before);
      OrderStep(s, actions, i);
      NotifiedStep(s, actions, i);
    }
  }

  /** The worker waits until it is notified or wakes up spuriously, which it may at any
      time, and no longer. */
  lemma WaitsUntil<T>(s: State<T>, a: Action<T>)
    requires Inv(s) && Enabled(s, a) && s.worker.Waiting?
    ensures Enabled(s, SpuriousWakeup)
    ensures Step(s, a).worker.Waiting? <==> !a.Notify? && !a.SpuriousWakeup?
  {
  }

  /** In every reachable state, with any number of producers: if the worker waits
      while the queue is not empty then some producer still owes it a notification;
      and the messages popped so far followed by the queue are the messages posted. */
  lemma NeverLostWakeup<T>(n: nat, actions: seq<Action<T>>)
    requires Possible(Init(n), actions)
    ensures var s := Run(Init(n), actions);
            NoLostWakeup(s) && s.posted == s.popped + s.queue
  {
    RunKeepsInv(Init(n), actions);
  }

  /** While messages are queued some thread can move, without a spurious wakeup and
      without another post. */
  lemma SomebodyMoves<T>(s: State<T>) returns (a: Action<T>)
    requires Inv(s) && s.queue != []
    ensures Enabled(s, a) && !a.Post? && !a.SpuriousWakeup?
  {
    match s.holder
    case ByWorker => a := if s.worker.Testing? then Test else Handle;
    case ByProducer(i) => a := if s.producers[i].Pushing? then Push(i) else Unlock(i);
    case Nobody =>
      if s.worker.Waiting? {
        var i :| OwesNotify(s, i);
        assert s.holder != ByProducer(i);
        a := Notify(i);
      } else {
        a := WorkerLock;
      }
  }

  function ProducerRank<T>(p: Producer<T>): nat {
    match p
    case Outside => 0
    case Notifying => 1
    case Unlocking(_) => 2
    case Pushing(_) => 6
    case Locking(_) => 7
  }

  function WorkerRank(w: Worker): nat {
    match w
    case Handling => 0
    case Testing => 1
    case Starting => 2
    case Woken => 3
    case Waiting => 4
  }

  function Debt<T>(ps: seq<Producer<T>>): nat {
    if ps == [] then 0 else ProducerRank(ps[0]) + Debt(ps[1..])
  }

  lemma {:induction false} DebtUpdate<T>(ps: seq<Producer<T>>, i: nat, p: Producer<T>)
    requires i < |ps|
    ensures Debt(ps[i := p]) == Debt(ps) - ProducerRank(ps[i]) + ProducerRank(p)
  {
    if i == 0 {
      assert ps[0 := p][1..] == ps[1..];
    } else {
      DebtUpdate(ps[1..], i - 1, p);
      assert ps[i := p][1..] == ps[1..][i - 1 := p];
    }
  }

  /** A bound on the steps before the queue is empty, if nobody begins a new post. */
  function Measure<T>(s: State<T>): nat {
    3 * |s.queue| + Debt(s.producers) + WorkerRank(s.worker)
  }

  lemma EveryStepCounts<T>(s: State<T>, a: Action<T>)
    requires Inv(s) && s.queue != [] && Enabled(s, a) && !a.Post?
    ensures Measure(Step(s, a)) < Measure(s)
  {
    var t := Step(s, a);
    if a.Lock? || a.Push? || a.Unlock? || a.Notify? {
      DebtUpdate(s.producers, a.i, t.producers[a.i]);
    }
  }

  /** No step but a new post makes a producer's part longer, and its own makes it
      shorter. */
  lemma DebtStep<T>(s: State<T>, a: Action<T>)
    requires Enabled(s, a) && !a.Post?
    ensures |Step(s, a).producers| == |s.producers|
    ensures Debt(Step(s, a).producers) <= Debt(s.producers)
    ensures a.Lock? || a.Push? || a.Unlock? || a.Notify? ==> Debt(Step(s, a).producers) < Debt(s.producers)
  {
    if a.Lock? || a.Push? || a.Unlock? || a.Notify? {
      DebtUpdate(s.producers, a.i, Step(s, a).producers[a.i]);
    }
  }

  predicate NoPosts<T>(actions: seq<Action<T>>) {
    forall i | 0 <= i < |actions| :: !actions[i].Post?
  }

  /** Some state of the run has an empty queue. */
  predicate Empties<T>(s: State<T>, actions: seq<Action<T>>)
    requires Possible(s, actions)
    decreases |actions|
  {
    s.queue == [] || (actions != [] && Empties(Step(s, actions[0]), actions[1..]))
  }

  /** However the threads are scheduled, a run without new posts that is longer than
      the measure has emptied the queue. */
  lemma {:induction false} EveryRunDrains<T>(s: State<T>, actions: seq<Action<T>>)
    requires Inv(s) && Possible(s, actions) && NoPosts(actions) && |actions| > Measure(s)
    ensures Empties(s, actions)
    decreases |actions|
  {
    if s.queue != [] {
      EveryStepCounts(s, actions[0]);
      StepKeepsInv(s, actions[0]);
      EveryRunDrains(Step(s, actions[0]), actions[1..]);
    }
  }

  /** And the threads can always be scheduled so: from every reachable state there is
      a run without posts and without spurious wakeups to an empty queue, at which
      everything posted has been handled. */
  lemma {:induction false} CanDrain<T>(s: State<T>) returns (actions: seq<Action<T>>)
    requires Inv(s)
    ensures Possible(s, actions) && NoPosts(actions)
    ensures forall i | 0 <= i < |actions| :: !actions[i].SpuriousWakeup?
    ensures Run(s, actions).queue == [] && Run(s, actions).popped == Run(s, actions).posted
    ensures |Run(s, actions).producers| == |s.producers| && Debt(Run(s, actions).producers) <= Debt(s.producers)
    decreases Measure(s)
  {
    if s.queue == [] {
      actions := [];
    } else {
      var a := SomebodyMoves(s);
      EveryStepCounts(s, a);
      DebtStep(s, a);
      StepKeepsInv(s, a);
      var more := CanDrain(Step(s, a));
      actions := [a] + more;
      assert actions[1..] == more;
    }
  }

  lemma {:induction false} RunOn<T>(s: State<T>, a: seq<Action<T>>, b: seq<Action<T>>)
    requires Possible(s, a) && Possible(Run(s, a), b)
    ensures Possible(s, a + b) && Run(s, a + b) == Run(Run(s, a), b)
    decreases |a|
  {
    if a == [] {
      assert a + b == b;
    } else {
      RunOn(Step(s, a[0]), a[1..], b);
      assert (a + b)[1..] == a[1..] + b;
    }
  }

  /** The steps of `actions` from s are possible, and neither posts nor spurious wakeups,
      and lead to t. */
  ghost predicate Leads<T>(s: State<T>, actions: seq<Action<T>>, t: State<T>) {
    && Possible(s, actions) && Run(s, actions) == t
    && forall i | 0 <= i < |actions| :: !actions[i].Post? && !actions[i].SpuriousWakeup?
  }

  lemma LeadsOn<T>(s: State<T>, a: seq<Action<T>>, t: State<T>, b: seq<Action<T>>, u: State<T>)
    requires Leads(s, a, t) && Leads(t, b, u)
    ensures Leads(s, a + b, u)
  {
    RunOn(s, a, b);
  }

  lemma OneStep<T>(s: State<T>, a: Action<T>)
    requires Enabled(s, a) && !a.Post? && !a.SpuriousWakeup?
    ensures Leads(s, [a], Step(s, a))
  {
    assert [a][1..] == [];
  }

  lemma {:induction false} SomebodyOwes<T>(ps: seq<Producer<T>>)
    ensures Debt(ps) == 0 <==> forall i | 0 <= i < |ps| :: ps[i].Outside?
  {
    if ps != [] {
      SomebodyOwes(ps[1..]);
      assert forall i | 1 <= i < |ps| :: ps[i] == ps[1..][i - 1];
      assert ps[0].Outside? <==> ProducerRank(ps[0]) == 0;
      if forall i | 0 <= i < |ps| :: ps[i].Outside? {
        assert forall i | 0 <= i < |ps[1..]| :: ps[1..][i] == ps[i + 1];
      }
    }
  }

  /** A producer that has something left to do when the queue is empty and the worker
      does not have the mutex can do it, or the one that has the mutex can. */
  lemma ProducerMoves<T>(s: State<T>) returns (a: Action<T>)
    requires Inv(s) && s.holder != ByWorker && Debt(s.producers) > 0
    ensures Enabled(s, a) && (a.Lock? || a.Push? || a.Unlock? || a.Notify?)
  {
    match s.holder
    case ByProducer(i) => a := if s.producers[i].Pushing? then Push(i) else Unlock(i);
    case Nobody =>
      SomebodyOwes(s.producers);
      var i :| 0 <= i < |s.producers| && !s.producers[i].Outside?;
      assert s.holder != ByProducer(i);
      a := if s.producers[i].Notifying? then Notify(i) else Lock(i);
  }

  /** From every reachable state the threads can run until no producer is inside
      `PostMsgToQue` and the queue is empty; then anybody may post again. */
  lemma {:induction false} CanFinish<T>(s: State<T>) returns (actions: seq<Action<T>>, t: State<T>)
    requires Inv(s)
    ensures Leads(s, actions, t) && Inv(t) && t.queue == [] && |t.producers| == |s.producers|
    ensures forall i | 0 <= i < |t.producers| :: t.producers[i].Outside?
    ensures forall i: nat, m: T | i < |t.producers| :: Enabled(t, Post(i, m))
    decreases Debt(s.producers)
  {
    var drain := CanDrain(s);
    var u := Run(s, drain);
    RunKeepsInv(s, drain);
    SomebodyOwes(u.producers);
    if Debt(u.producers) == 0 {
      actions, t := drain, u;
    } else {
      var rest := [];
      var v := u;
      if u.holder == ByWorker {
        OneStep(u, Test);
        StepKeepsInv(u, Test);
        DebtStep(u, Test);
        rest, v := [Test], Step(u, Test);
      }
      var a := ProducerMoves(v);
      OneStep(v, a);
      StepKeepsInv(v, a);
      DebtStep(v, a);
      var more;
      more, t := CanFinish(Step(v, a));
      LeadsOn(v, [a], Step(v, a), more, t);
      LeadsOn(u, rest, v, [a] + more, t);
      LeadsOn(s, drain, u, rest + ([a] + more), t);
      actions := drain + (rest + ([a] + more));
    }
  }

  lemma {:induction false} NoMorePosts<T>(before: seq<Action<T>>, more: seq<Action<T>>, i: nat)
    requires NoPosts(more)
    ensures PostsOf(before + more, i) == PostsOf(before, i)
    decreases |more|
  {
    if more == [] {
      assert before + more == before;
    } else {
      var n := |more| - 1;
      assert (before + more)[..|before| + n] == before + more[..n];
      NoMorePosts(before, more[..n], i);
    }
  }

  /** Whatever has happened, it can end well: some continuation without posts handles
      everything that the producers were asked to post, each producer's in order. */
  lemma CanHandleAll<T>(n: nat, before: seq<Action<T>>) returns (actions: seq<Action<T>>)
    requires Possible(Init(n), before)
    ensures Possible(Init(n), before + actions) && NoPosts(actions)
    ensures var s := Run(Init(n), before + actions);
            var pushers := Pushers(before + actions);
            && s.queue == [] && |s.popped| == |pushers|
            && forall i | 0 <= i < n :: By(s.popped, pushers, i) == PostsOf(before, i)
  {
    RunKeepsInv(Init(n), before);
    var t;
    actions, t := CanFinish(Run(Init(n), before));
    RunOn(Init(n), before, actions);
    var all := before + actions;
    AllCounted(n, all);
    assert t.popped + [] == t.popped;
    forall i | 0 <= i < n ensures By(t.popped, Pushers(all), i) == PostsOf(before, i) {
      AccountOfActions(n, all, i);
      NoMorePosts(before, actions, i);
      assert By(t.posted, Pushers(all), i) + [] == By(t.posted, Pushers(all), i);
    }
  }
}

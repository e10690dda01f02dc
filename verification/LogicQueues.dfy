/** The queue between the sessions and the one worker thread. */
module LogicQueues {
  import opened Wire
  import opened MsgNodes

  datatype LogicNode<S> = LogicNode(session: S, recvnode: MsgNode)

  /** What other threads did before the worker got the mutex once more: the posts
      they made, whether the waiting predicate then saw the stop flag, and whether
      the test after the wait saw it.  The destructor sets the flag without the
      mutex, so it may become visible between the two. */
  datatype Turn<S> = Turn(posts: seq<LogicNode<S>>, stopAtWait: bool, stopAfterWait: bool)

  function Posted<S>(turns: seq<Turn<S>>): seq<LogicNode<S>> {
    if turns == [] then [] else Posted(turns[..|turns| - 1]) + turns[|turns| - 1].posts
  }

  /** The nodes among these for whose id a callback is registered, in order. */
  function Callable<S>(registered: set<Short>, nodes: seq<LogicNode<S>>): seq<LogicNode<S>> {
    if nodes == [] then
      []
    else
      var last := nodes[|nodes| - 1];
      Callable(registered, nodes[..|nodes| - 1]) + if last.recvnode.msgId in registered then [last] else []
  }

  lemma CallableSnoc<S>(registered: set<Short>, nodes: seq<LogicNode<S>>, n: LogicNode<S>)
    ensures Callable(registered, nodes + [n])
         == Callable(registered, nodes) + if n.recvnode.msgId in registered then [n] else []
  {
    assert (nodes + [n])[..|nodes|] == nodes;
  }

  lemma PostedSnoc<S>(turns: seq<Turn<S>>, used: nat)
    requires used < |turns|
    ensures Posted(turns[..used + 1]) == Posted(turns[..used]) + turns[used].posts
  {
    assert turns[..used + 1][..used] == turns[..used];
  }

  /** The number of messages handled in these turns by a worker that handles one in
      every turn in which it finds one. */
  function Handled<S>(turns: seq<Turn<S>>): nat {
    if turns == [] then
      0
    else
      var before, all := Handled(turns[..|turns| - 1]), |Posted(turns)|;
      if before < all then before + 1 else all
  }

  /** The last time that the worker found nothing it had handled what was posted by
      then, and it has handled one message in each turn since. */
  lemma {:induction false} HandledExactly<S>(turns: seq<Turn<S>>)
    ensures forall k | 0 <= k <= |turns| :: Handled(turns) <= |Posted(turns[..k])| + |turns| - k
    ensures exists k | 0 <= k <= |turns| :: Handled(turns) == |Posted(turns[..k])| + |turns| - k
    decreases |turns|
  {
    var n := |turns| - 1;
    assert turns[..|turns|] == turns;
    if n < 0 {
      assert Handled(turns) == |Posted(turns[..0])| + |turns| - 0;
    } else {
      var before := turns[..n];
      HandledExactly(before);
      forall k | 0 <= k <= n ensures before[..k] == turns[..k] {
      }
      var j :| 0 <= j <= n && Handled(before) == |Posted(before[..j])| + n - j;
      var k := if Handled(before) < |Posted(turns)| then j else n + 1;
      assert Handled(turns) == |Posted(turns[..k])| + |turns| - k;
    }
  }

  /** Whatever was posted up to and including turn i, the worker has handled before. */
  predicate FindsNothing<S>(turns: seq<Turn<S>>, i: nat)
    requires i < |turns|
  {
    Handled(turns[..i]) >= |Posted(turns[..i + 1])|
  }

  /** `called` lists the nodes passed to the callback of their id; `popped` lists
      everything the worker has taken off the queue. */
  class LogicSystem<S> {
    const registered: set<Short>
    var msgQue: seq<LogicNode<S>>
    var notifies: nat
    var called: seq<LogicNode<S>>
    var popped: seq<LogicNode<S>>

    constructor (registered: set<Short>)
      ensures msgQue == called == popped == [] && notifies == 0
      ensures this.registered == registered
    {
      this.registered := registered;
      msgQue, notifies, called, popped := [], 0, [], [];
    }

    /** Append; notify only when the queue was empty. */
    method PostMsgToQue(msg: LogicNode<S>)
      modifies this`msgQue, this`notifies
      ensures msgQue == old(msgQue) + [msg]
      ensures notifies == old(notifies) + if old(msgQue) == [] then 1 else 0
    {
      msgQue := msgQue + [msg];
      if |msgQue| == 1 {
        notifies := notifies + 1;
      }
    }

    ghost predicate Accounted(all: seq<LogicNode<S>>)
      reads this
    {
      popped + msgQue == all && called == Callable(registered, popped)
    }

    /** Run the callback of the front message, if its id has one, and pop it. */
    method DealFront(ghost all: seq<LogicNode<S>>)
      requires msgQue != [] && Accounted(all)
      modifies this`msgQue, this`called, this`popped
      ensures Accounted(all)
      ensures msgQue == old(msgQue[1..]) && popped == old(popped) + [old(msgQue[0])]
    {
      var node := msgQue[0];
      CallableSnoc(registered, popped, node);
      if node.recvnode.msgId in registered {
        called := called + [node];
      }
      popped := popped + [node];
      msgQue := msgQue[1..];
    }

    /** The drain before the worker exits; it holds the mutex throughout. */
    method Drain(ghost all: seq<LogicNode<S>>)
      requires Accounted(all)
      modifies this`msgQue, this`called, this`popped
      ensures Accounted(all) && msgQue == []
    {
      while msgQue != []
        invariant Accounted(all)
        decreases |msgQue|
      {
        DealFront(all);
      }
    }

    /** The worker (the BoostCoServer version), up to the point where it leaves its
        loop or the given turns are used up.  Nothing posted is lost, duplicated or
        reordered, the callbacks run are those due for the messages popped, one message
        is popped in every turn that finds one, and a worker leaves its loop in the
        first turn in which it gets past the wait and sees the stop flag, after it has
        dealt with every message posted until then.  The logic server's worker is the same up to that
        point; it lacks the `break` and goes on to the front of the emptied queue. */
    method DealMsg(turns: seq<Turn<S>>) returns (left: bool, used: nat)
      requires msgQue == called == popped == []
      requires forall i | 0 <= i < |turns| :: turns[i].stopAtWait ==> turns[i].stopAfterWait
      modifies this`msgQue, this`called, this`popped
      ensures used <= |turns| && (!left ==> used == |turns|)
      ensures popped + msgQue == Posted(turns[..used])
      ensures called == Callable(registered, popped)
      ensures left ==> msgQue == [] && popped == Posted(turns[..used])
      ensures left ==> 0 < used && turns[used - 1].stopAfterWait
      ensures !left ==> |popped| == Handled(turns[..used])
      ensures left ==> turns[used - 1].stopAtWait || !FindsNothing(turns, used - 1)
      ensures forall i | 0 <= i < used && turns[i].stopAfterWait && !(left && i == used - 1) ::
                !turns[i].stopAtWait && FindsNothing(turns, i)
    {
      used, left := 0, false;
      while used < |turns|
        invariant used <= |turns|
        invariant Accounted(Posted(turns[..used])) && |popped| == Handled(turns[..used])
        invariant forall i | 0 <= i < used && turns[i].stopAfterWait ::
                    !turns[i].stopAtWait && FindsNothing(turns, i)
      {
        var turn := turns[used];
        PostedSnoc(turns, used);
        assert turns[..used + 1][..used] == turns[..used];
        msgQue := msgQue + turn.posts;
        used := used + 1;
        if msgQue == [] && !turn.stopAtWait {
          continue;
        }
        if turn.stopAfterWait {
          Drain(Posted(turns[..used]));
          left := true;
          break;
        }
        DealFront(Posted(turns[..used]));
      }
    }
  }
}

/** The client: a local backtracker, and the distribution of the search over servers
    by the column of the queen in row 0. */
module QueenClient {
  import opened Queens
  import opened QueenServer
  import opened QueenBounds

  function NoRows(n: nat): (b: Board)
    ensures |b| == n && forall i | 0 <= i < n :: b[i] == -1
  {
    seq(n, _ => FREE)
  }

  /** The task with the queen of row 0 in column c. */
  function Task(n: nat, c: nat): (b: Board)
    requires c < n
    ensures |b| == n && forall i | 0 <= i < n :: b[i] == if i == 0 then c else -1
  {
    NoRows(n)[0 := c]
  }

  class LocalNQueenSolver {
    const n: nat
    var totalSolutions: int

    constructor (n: nat)
      ensures this.n == n && totalSolutions == 0
    {
      this.n, totalSolutions := n, 0;
    }

    method Solve() returns (total: int)
      modifies this`totalSolutions
      ensures totalSolutions == old(totalSolutions) + Count(n, NoRows(n)) && total == totalSolutions
    {
      var board := new int[n](_ => FREE);
      assert board[..] == NoRows(n);
      Backtrack(board, 0);
      total := totalSolutions;
    }

    /** Unlike the server's search this one takes every row from `row` on to be free. */
    method Backtrack(board: array<int>, row: nat)
      requires row <= n == board.Length
      requires Placed(board[..], row) && Peaceful(board[..], row)
      requires forall i | row <= i < n :: board[i] == FREE
      modifies this`totalSolutions, board
      ensures board[..] == old(board[..])
      ensures totalSolutions == old(totalSolutions) + Count(n, old(board[..]))
      decreases n - row
    {
      if row == n {
        FullBoard(n, board[..]);
        totalSolutions := totalSolutions + 1;
        return;
      }
      ghost var b0 := board[..];
      NoColumn(n, b0, row);
      for col := 0 to n
        invariant board[..] == b0
        invariant totalSolutions == old(totalSolutions) + |LeftOf(n, b0, row, col)|
      {
        OneMoreColumn(n, b0, row, col);
        PlaceSafely(b0, row, col);
        var safe := QueenServer.IsSafe(board, row, col);
        if safe {
          board[row] := col;
          assert board[..] == b0[row := col];
          Backtrack(board, row + 1);
          board[row] := FREE;
          assert board[..] == b0;
        } else {
          UnsafeMeansNone(n, b0[row := col], row);
        }
      }
      AllColumns(n, b0, row);
    }
  }

  /** One task sent to a server that may or may not be reachable; failure counts 0. */
  method ClientSolve(n: int, partial: Board, reachable: bool) returns (solutions: Int32)
    ensures solutions == if reachable && n >= 0 then Wrap32(Count(n, Padded(n, partial))) else 0
  {
    var result := RpcFailed;
    if reachable {
      result := QueenServer.Solve(n, partial);
    }
    match result
    case Reply(s) => solutions := s;
    case RpcFailed => solutions := 0;
  }

  function TaskReply(n: nat, c: nat, reachable: bool): Int32
    requires c < n
  {
    if reachable then Wrap32(Count(n, Task(n, c))) else 0
  }

  /** The sum of the first k replies. */
  function Collected(n: nat, up: seq<bool>, k: nat): int
    requires k <= n <= |up|
  {
    if k == 0 then 0 else Collected(n, up, k - 1) + TaskReply(n, k - 1, up[k - 1])
  }

  /** The initial tasks, one for each column of row 0. */
  method InitialTasks(n: int) returns (tasks: seq<Board>)
    ensures |tasks| == if n > 0 then n else 0
    ensures forall c | 0 <= c < |tasks| :: tasks[c] == Task(n, c)
  {
    tasks := [];
    var col := 0;
    while col < n
      invariant 0 <= col && (n > 0 ==> col <= n) && (n <= 0 ==> col == 0) && |tasks| == col
      invariant forall c | 0 <= c < col :: c < n && tasks[c] == Task(n, c)
    {
      var partial := NoRows(n);
      partial := partial[0 := col];
      tasks := tasks + [partial];
      col := col + 1;
    }
  }

  function Port(i: nat, serverCount: int): (port: int)
    requires serverCount != 0
    ensures 0 <= port - 50051 < Abs(serverCount)
  {
    50051 + i % serverCount
  }

  lemma Multiple(k: int, m: int)
    requires m > 0
    ensures k >= 1 ==> k * m >= m
    ensures k <= -1 ==> k * m <= -m
  {
    if k >= 1 {
      assert (k - 1) * m >= 0;
    } else if k <= -1 {
      assert (-k - 1) * m >= 0;
    }
  }

  lemma Remainder(x: int, m: nat, q: int, r: nat)
    requires r < m && x == q * m + r
    ensures x % m == r
  {
    var q', r' := x / m, x % m;
    assert x == q' * m + r';
    var d := q - q';
    assert d * m == q * m - q' * m;
    Multiple(d, m);
  }

  /** Round robin over a positive number of servers: the first task goes to the first
      port, and each task to the port after that of the task before it, or to the first
      after the last. */
  lemma RoundRobin(i: nat, serverCount: nat)
    requires serverCount > 0
    ensures Port(0, serverCount) == 50051
    ensures Port(i + 1, serverCount) == if Port(i, serverCount) == 50050 + serverCount then 50051
                                        else Port(i, serverCount) + 1
  {
    Remainder(0, serverCount, 0, 0);
    var q, r := i / serverCount, i % serverCount;
    if r == serverCount - 1 {
      assert i + 1 == (q + 1) * serverCount + 0;
      Remainder(i + 1, serverCount, q + 1, 0);
    } else {
      Remainder(i + 1, serverCount, q, r + 1);
    }
  }

  /** `up[i]` tells whether the RPC of task i succeeds; `ports[i]` is the port the
      task was sent to. */
  method DistributeTasks(n: int, serverCount: int, up: seq<bool>) returns (distributed: int, ports: seq<int>)
    requires n > 0 ==> serverCount != 0 && |up| == n
    ensures distributed == if n > 0 then Collected(n, up, n) else 0
    ensures |ports| == (if n > 0 then n else 0)
    ensures forall i | 0 <= i < |ports| :: ports[i] == Port(i, serverCount)
  {
    var initialTasks := InitialTasks(n);
    var totalTasks := |initialTasks|;
    distributed, ports := 0, [];
    var futures: seq<Int32> := [];
    for i := 0 to totalTasks
      invariant |futures| == i == |ports|
      invariant forall c | 0 <= c < i :: futures[c] == TaskReply(n, c, up[c])
      invariant forall c | 0 <= c < i :: ports[c] == Port(c, serverCount)
    {
      ports := ports + [Port(i, serverCount)];
      var solutions := ClientSolve(n, initialTasks[i], up[i]);
      futures := futures + [solutions];
    }
    for i := 0 to totalTasks
      invariant distributed == if n > 0 then Collected(n, up, i) else 0
    {
      distributed := distributed + futures[i];
    }
  }

  /** The true counts of the first k tasks add up to those of the whole board. */
  lemma {:induction false} TasksPartition(n: nat, up: seq<bool>, k: nat)
    requires 1 <= n && k <= n <= |up|
    ensures Collected(n, up, k) <= |LeftOf(n, NoRows(n), 0, k)|
    ensures Collected(n, up, k) == |LeftOf(n, NoRows(n), 0, k)| <==>
            forall c | 0 <= c < k :: Faithful(n, c, up[c])
  {
    if k == 0 {
      NoColumn(n, NoRows(n), 0);
    } else {
      TasksPartition(n, up, k - 1);
      OneMoreColumn(n, NoRows(n), 0, k - 1);
      WrapFits(Count(n, Task(n, k - 1)));
    }
  }

  /** The reply to a task is its count: the RPC succeeded and the count fits the
      32-bit reply, or it failed and there was nothing to count. */
  predicate Faithful(n: nat, c: nat, reachable: bool)
    requires c < n
  {
    if reachable then Count(n, Task(n, c)) <= INT32_MAX else Count(n, Task(n, c)) == 0
  }

  /** The distributed sum never exceeds the local count when there is a task at all,
      and equals it exactly when there is one and every reply is faithful; for n = 0
      there are no tasks but one (empty) solution. */
  lemma DistributedEqualsLocal(n: nat, up: seq<bool>)
    requires |up| == n
    ensures Collected(n, up, n) <= Count(n, NoRows(n))
    ensures Collected(n, up, n) == Count(n, NoRows(n)) <==>
            n >= 1 && forall c | 0 <= c < n :: Faithful(n, c, up[c])
  {
    if n == 0 {
      FullBoard(0, NoRows(0));
    } else {
      TasksPartition(n, up, n);
      AllColumns(n, NoRows(n), 0);
    }
  }

  lemma CountBounds(n: nat, c: nat)
    ensures Count(n, NoRows(n)) <= Fact(n)
    ensures c < n ==> Count(n, Task(n, c)) <= Fact(n - 1)
  {
    AtMostFact(n, NoRows(n), 0);
    if c < n {
      AtMostFact(n, Task(n, c), 1);
    }
  }

  lemma {:induction false} FactMonotone(m: nat, n: nat)
    requires m <= n
    ensures Fact(m) <= Fact(n)
  {
    if m < n {
      FactMonotone(m, n - 1);
      FactGrows(n);
    }
  }

  lemma FactValues()
    ensures Fact(12) == 479_001_600
    ensures Fact(20) == 2_432_902_008_176_640_000
  {
    assert Fact(4) == 24;
    assert Fact(8) == 40_320;
    assert Fact(12) == 479_001_600;
    assert Fact(16) == 20_922_789_888_000;
  }

  /** Up to 13 queens no reply overflows its 32 bits, so with every server reachable
      the two sides agree; up to 20 queens no 64-bit total overflows. */
  lemma AgreeUpTo13(n: nat, up: seq<bool>)
    requires |up| == n && forall i | 0 <= i < n :: up[i]
    ensures 1 <= n <= 13 ==> Collected(n, up, n) == Count(n, NoRows(n))
    ensures n <= 20 ==> Count(n, NoRows(n)) <= 0x7FFF_FFFF_FFFF_FFFF
  {
    FactValues();
    if n <= 20 {
      CountBounds(n, 0);
      FactMonotone(n, 20);
    }
    if 1 <= n <= 13 {
      DistributedEqualsLocal(n, up);
      forall c | 0 <= c < n ensures Faithful(n, c, up[c]) {
        CountBounds(n, c);
        FactMonotone(n - 1, 12);
      }
    }
  }

  /** The tasks for column c and for its mirror image get the same reply. */
  lemma MirrorTasks(n: nat, c: nat, reachable: bool)
    requires c < n
    ensures TaskReply(n, n - 1 - c, reachable) == TaskReply(n, c, reachable)
  {
    assert Mirror(n, Task(n, c)) == Task(n, n - 1 - c);
    MirrorCount(n, Task(n, c));
  }
}

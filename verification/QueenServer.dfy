/** The server: counting by backtracking in place. */
module QueenServer {
  import opened Queens

  const INT32_MAX := 0x7FFF_FFFF

  /** The counter is an `int`: 32 bits, taken to wrap around. */
  type Int32 = x: int | -0x8000_0000 <= x < 0x8000_0000

  function Wrap32(x: int): Int32 {
    (x + 0x8000_0000) % 0x1_0000_0000 - 0x8000_0000
  }

  /** The 32-bit number that differs from x by a multiple of 2^32. */
  lemma WrapMeans(x: int)
    ensures (x - Wrap32(x)) % 0x1_0000_0000 == 0
    ensures -0x8000_0000 <= Wrap32(x) < 0x8000_0000
  {
  }

  lemma WrapAdd(a: int, b: int)
    ensures Wrap32(Wrap32(a) + b) == Wrap32(a + b)
  {
  }

  lemma WrapFits(x: nat)
    ensures Wrap32(x) <= x
    ensures Wrap32(x) == x <==> x <= INT32_MAX
  {
  }

  method IsSafe(board: array<int>, row: nat, col: int) returns (safe: bool)
    requires row <= board.Length
    ensures safe <==> Safe(board[..], row, col)
  {
    for i := 0 to row
      invariant forall k | 0 <= k < i :: board[k] != col && Abs(board[k] - col) != Abs(k - row)
    {
      if board[i] == col || Abs(board[i] - col) == Abs(i - row) {
        assert board[..][i] == board[i];
        return false;
      }
    }
    return true;
  }

  lemma PlaceSafely(b: Board, row: nat, col: nat)
    requires row < |b| && Placed(b, row) && Peaceful(b, row)
    ensures Safe(b, row, col) == Safe(b[row := col], row, col)
    ensures Safe(b, row, col) ==> Placed(b[row := col], row + 1) && Peaceful(b[row := col], row + 1)
  {
    var b' := b[row := col];
    assert forall i | 0 <= i < row :: b'[i] == b[i];
    if Safe(b, row, col) {
      forall i, j | 0 <= i < j < row + 1 ensures !Attacks(b', i, j) {
        assert j < row ==> !Attacks(b, i, j);
      }
    }
  }

  /** Add to the counter the number of solutions that complete the board, whose rows
      above `row` are placed without attacks, and leave the board as it was. */
  method SolveFrom(n: nat, board: array<int>, row: nat, solutions: Int32) returns (solutions': Int32)
    requires row <= n <= board.Length
    requires Placed(board[..], row) && Peaceful(board[..], row)
    modifies board
    ensures board[..] == old(board[..])
    ensures solutions' == Wrap32(solutions + Count(n, old(board[..])))
    decreases n - row
  {
    if row == n {
      FullBoard(n, board[..]);
      return Wrap32(solutions + 1);
    }
    if board[row] != FREE {
      var safe := IsSafe(board, row, board[row]);
      if safe {
        SafeExtends(board[..], row);
        solutions' := SolveFrom(n, board, row + 1, solutions);
      } else {
        UnsafeMeansNone(n, board[..], row);
        solutions' := solutions;
      }
      return;
    }
    ghost var b0 := board[..];
    NoColumn(n, b0, row);
    solutions' := solutions;
    for col := 0 to n
      invariant board[..] == b0
      invariant solutions' == Wrap32(solutions + |LeftOf(n, b0, row, col)|)
    {
      OneMoreColumn(n, b0, row, col);
      WrapAdd(solutions + |LeftOf(n, b0, row, col)|, Count(n, b0[row := col]));
      PlaceSafely(b0, row, col);
      var safe := IsSafe(board, row, col);
      if safe {
        board[row] := col;
        assert board[..] == b0[row := col];
        solutions' := SolveFrom(n, board, row + 1, solutions');
        board[row] := FREE;
        assert board[..] == b0;
      } else {
        UnsafeMeansNone(n, b0[row := col], row);
      }
    }
    AllColumns(n, b0, row);
  }

  /** An RPC either returns the reply or fails. */
  datatype RpcResult = Reply(solutions: Int32) | RpcFailed

  /** The partial board of a request, brought up to n rows. */
  function Padded(n: nat, partial: Board): (b: Board)
    ensures |b| == if |partial| < n then n else |partial|
    ensures forall i | 0 <= i < |b| :: b[i] == if i < |partial| then partial[i] else -1
  {
    if |partial| < n then partial + seq(n - |partial|, _ => FREE) else partial
  }

  /** The service.  A negative n, compared as an unsigned number, asks for an
      impossible resize: the handler throws. */
  method Solve(n: int, partial: Board) returns (reply: RpcResult)
    ensures reply == if n < 0 then RpcFailed else Reply(Wrap32(Count(n, Padded(n, partial))))
  {
    if n < 0 {
      return RpcFailed;
    }
    var rows := Padded(n, partial);
    var board := new int[|rows|](i requires 0 <= i < |rows| => rows[i]);
    assert board[..] == rows;
    var solutions := SolveFrom(n, board, 0, 0);
    reply := Reply(solutions);
  }
}

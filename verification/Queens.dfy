/** What the N-queens programs count: the completions of a partial board.  A board
    gives the column of the queen in each row; -1 in a partial board is a free row. */
module Queens {
  type Board = seq<int>

  const FREE := -1

  function Abs(x: int): nat {
    if x < 0 then -x else x
  }

  predicate Attacks(b: Board, i: nat, j: nat)
    requires i < |b| && j < |b|
  {
    b[i] == b[j] || Abs(b[i] - b[j]) == Abs(i - j)
  }

  /** No two of the queens in the first `k` rows attack each other. */
  predicate Peaceful(b: Board, k: nat)
    requires k <= |b|
  {
    forall i, j | 0 <= i < j < k :: !Attacks(b, i, j)
  }

  /** A queen in `col` of row `row` is not attacked by the rows above. */
  predicate Safe(b: Board, row: nat, col: int)
    requires row <= |b|
  {
    forall i | 0 <= i < row :: b[i] != col && Abs(b[i] - col) != Abs(i - row)
  }

  /** No queen above stands in the same column or on the same diagonal. */
  lemma SafeMeans(b: Board, row: nat, col: int)
    requires row <= |b|
    ensures Safe(b, row, col) <==>
            forall i | 0 <= i < row :: b[i] != col && b[i] + i != col + row && b[i] - i != col - row
  {
  }

  /** `b` keeps the fixed rows of `partial` and fills its free rows with columns of
      an n by n board. */
  predicate Completes(n: nat, partial: Board, b: Board)
    requires n <= |partial|
  {
    |b| == n && forall i | 0 <= i < n :: if partial[i] == FREE then 0 <= b[i] < n else b[i] == partial[i]
  }

  /** What is being counted. */
  predicate IsSolution(n: nat, partial: Board, b: Board)
    requires n <= |partial|
  {
    Completes(n, partial, b) && Peaceful(b, n)
  }

  function Columns(n: nat): (cs: set<int>)
    ensures forall c :: c in cs <==> 0 <= c < n
  {
    if n == 0 then {} else Columns(n - 1) + {n - 1}
  }

  function Choices(n: nat, v: int): set<int> {
    if v == FREE then Columns(n) else {v}
  }

  /** The ways to fill the first `k` rows, attacks or not. */
  function Fillings(n: nat, partial: Board, k: nat): set<Board>
    requires k <= n <= |partial|
  {
    if k == 0 then {[]} else set b <- Fillings(n, partial, k - 1), c <- Choices(n, partial[k - 1]) :: b + [c]
  }

  lemma {:induction false} FillingsExactly(n: nat, partial: Board, k: nat, b: Board)
    requires k <= n <= |partial|
    ensures b in Fillings(n, partial, k) <==>
            |b| == k && forall i | 0 <= i < k :: b[i] in Choices(n, partial[i])
  {
    if k > 0 {
      if |b| == k {
        assert b == b[..k - 1] + [b[k - 1]];
        FillingsExactly(n, partial, k - 1, b[..k - 1]);
      }
      if b in Fillings(n, partial, k) {
        var f, c :| f in Fillings(n, partial, k - 1) && c in Choices(n, partial[k - 1]) && b == f + [c];
        FillingsExactly(n, partial, k - 1, f);
      }
    }
  }

  /** The set of solutions, as a finite set. */
  function Solutions(n: nat, partial: Board): set<Board>
    requires n <= |partial|
  {
    set b <- Fillings(n, partial, n) | |b| == n && Peaceful(b, n)
  }

  lemma SolutionsExactly(n: nat, partial: Board, b: Board)
    requires n <= |partial|
    ensures b in Solutions(n, partial) <==> IsSolution(n, partial, b)
  {
    FillingsExactly(n, partial, n, b);
  }

  /** The rule of the puzzle: no two queens in a column or on a diagonal. */
  lemma PeacefulMeans(b: Board, k: nat)
    requires k <= |b|
    ensures Peaceful(b, k) <==>
            forall i, j | 0 <= i < j < k :: b[i] != b[j] && b[i] + i != b[j] + j && b[i] - i != b[j] - j
  {
    if Peaceful(b, k) {
      forall i, j | 0 <= i < j < k ensures b[i] != b[j] && b[i] + i != b[j] + j && b[i] - i != b[j] - j {
        assert !Attacks(b, i, j);
      }
    }
  }

  /** What is in the set, in full: boards of n rows that keep the fixed rows, have the
      others on the board, and no two queens in a column or on a diagonal. */
  lemma SolutionsAre(n: nat, partial: Board, b: Board)
    requires n <= |partial|
    ensures b in Solutions(n, partial) <==>
            && |b| == n
            && (forall i | 0 <= i < n :: if partial[i] == -1 then 0 <= b[i] < n else b[i] == partial[i])
            && forall i, j | 0 <= i < j < n :: b[i] != b[j] && b[i] + i != b[j] + j && b[i] - i != b[j] - j
  {
    SolutionsExactly(n, partial, b);
    if |b| == n {
      PeacefulMeans(b, n);
    }
  }

  /** The number that the programs promise to compute. */
  function Count(n: nat, partial: Board): nat
    requires n <= |partial|
  {
    |Solutions(n, partial)|
  }

  /** The smallest board with room for more than one queen: what is left of each column
      of row 0, and the two boards. */
  lemma FourQueensAre(b: Board)
    requires |b| == 4 && forall i | 0 <= i < 4 :: 0 <= b[i] < 4
    requires forall i, j | 0 <= i < j < 4 :: b[i] != b[j] && b[i] + i != b[j] + j && b[i] - i != b[j] - j
    ensures b == [1, 3, 0, 2] || b == [2, 0, 3, 1]
  {
    var p, q, r, s := b[0], b[1], b[2], b[3];
    assert p != q && p != q + 1 && p + 1 != q;
    assert q != r && q != r + 1 && q + 1 != r;
    assert r != s && r != s + 1 && r + 1 != s;
    assert p != r && p != r + 2 && p + 2 != r;
    assert q != s && q != s + 2 && q + 2 != s;
    assert p != s && p != s + 3 && p + 3 != s;
    assert b == [p, q, r, s];
  }

  lemma FourQueensSolve(b: Board)
    ensures b in Solutions(4, [-1, -1, -1, -1]) <==> b == [1, 3, 0, 2] || b == [2, 0, 3, 1]
  {
    SolutionsAre(4, [-1, -1, -1, -1], b);
    if b in Solutions(4, [-1, -1, -1, -1]) {
      FourQueensAre(b);
    }
  }

  lemma FourQueens()
    ensures Solutions(4, [-1, -1, -1, -1]) == {[1, 3, 0, 2], [2, 0, 3, 1]}
    ensures Count(4, [-1, -1, -1, -1]) == 2
  {
    var both: set<Board> := {[1, 3, 0, 2], [2, 0, 3, 1]};
    assert [1, 3, 0, 2][0] != [2, 0, 3, 1][0];
    forall b ensures b in Solutions(4, [-1, -1, -1, -1]) <==> b in both {
      FourQueensSolve(b);
    }
    assert Solutions(4, [-1, -1, -1, -1]) == both;
  }

  /** The solutions whose queen in `row` stands left of `col`. */
  function LeftOf(n: nat, partial: Board, row: nat, col: int): set<Board>
    requires row < n <= |partial|
  {
    set b <- Solutions(n, partial) | |b| == n && b[row] < col
  }

  /** One column more: the solutions with the row's queen in `col` are those of the
      board with the row fixed to `col`. */
  lemma OneMoreColumn(n: nat, partial: Board, row: nat, col: nat)
    requires row < n <= |partial| && partial[row] == FREE && col < n
    ensures |LeftOf(n, partial, row, col + 1)|
         == |LeftOf(n, partial, row, col)| + Count(n, partial[row := col])
  {
    var here := Solutions(n, partial[row := col]);
    var before, after := LeftOf(n, partial, row, col), LeftOf(n, partial, row, col + 1);
    forall b ensures b in after <==> b in before || b in here
             ensures b in here ==> b !in before {
      SolutionsExactly(n, partial, b);
      SolutionsExactly(n, partial[row := col], b);
      if IsSolution(n, partial, b) && b[row] == col {
        assert Completes(n, partial[row := col], b);
      }
      if IsSolution(n, partial[row := col], b) {
        assert b[row] == col;
        assert Completes(n, partial, b) by {
          forall i | 0 <= i < n ensures if partial[i] == FREE then 0 <= b[i] < n else b[i] == partial[i] {
            assert partial[row := col][i] == if i == row then col else partial[i];
          }
        }
      }
    }
    assert after == before + here && before !! here;
  }

  lemma NoColumn(n: nat, partial: Board, row: nat)
    requires row < n <= |partial| && partial[row] == FREE
    ensures LeftOf(n, partial, row, 0) == {}
  {
    forall b | b in LeftOf(n, partial, row, 0) ensures false {
      SolutionsExactly(n, partial, b);
    }
  }

  lemma AllColumns(n: nat, partial: Board, row: nat)
    requires row < n <= |partial| && partial[row] == FREE
    ensures LeftOf(n, partial, row, n) == Solutions(n, partial)
  {
    forall b | b in Solutions(n, partial) ensures b in LeftOf(n, partial, row, n) {
      SolutionsExactly(n, partial, b);
    }
  }

  predicate Placed(b: Board, row: nat)
    requires row <= |b|
  {
    forall i | 0 <= i < row :: b[i] != FREE
  }

  /** A row fixed to an attacked square leaves no solution. */
  lemma UnsafeMeansNone(n: nat, partial: Board, row: nat)
    requires row < n <= |partial| && Placed(partial, row + 1)
    requires !Safe(partial, row, partial[row])
    ensures Solutions(n, partial) == {}
  {
    var i :| 0 <= i < row && (partial[i] == partial[row] || Abs(partial[i] - partial[row]) == Abs(i - row));
    forall b ensures b !in Solutions(n, partial) {
      SolutionsExactly(n, partial, b);
      assert Completes(n, partial, b) ==> Attacks(b, i, row);
    }
  }

  lemma SafeExtends(b: Board, row: nat)
    requires row < |b| && Peaceful(b, row) && Safe(b, row, b[row])
    ensures Peaceful(b, row + 1)
  {
  }

  /** With every row placed and no attacks there is exactly one solution. */
  lemma FullBoard(n: nat, partial: Board)
    requires n <= |partial| && Placed(partial, n) && Peaceful(partial, n)
    ensures Count(n, partial) == 1
  {
    var only := partial[..n];
    forall b ensures b in Solutions(n, partial) <==> b == only {
      SolutionsExactly(n, partial, b);
      if IsSolution(n, partial, b) {
        assert b == only;
      }
      assert IsSolution(n, partial, only) by {
        forall i, j | 0 <= i < j < n ensures !Attacks(only, i, j) {
          assert !Attacks(partial, i, j);
        }
      }
    }
    assert Solutions(n, partial) == {only};
  }
}

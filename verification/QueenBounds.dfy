/** Symmetry and size of the counts. */
module QueenBounds {
  import opened Queens

  function MirrorSquare(n: nat, v: int): int {
    if v == FREE then FREE else n - 1 - v
  }

  /** The board reflected left to right, free rows staying free. */
  function Mirror(n: nat, b: Board): (m: Board)
    ensures |m| == |b| && forall i | 0 <= i < |b| :: m[i] == MirrorSquare(n, b[i])
  {
    seq(|b|, i requires 0 <= i < |b| => MirrorSquare(n, b[i]))
  }

  lemma MirrorSolves(n: nat, partial: Board, b: Board)
    requires n <= |partial| && n !in partial
    requires IsSolution(n, partial, b)
    ensures IsSolution(n, Mirror(n, partial), Mirror(n, b)) && Mirror(n, Mirror(n, b)) == b
  {
    var p', b' := Mirror(n, partial), Mirror(n, b);
    assert forall i | 0 <= i < n :: b[i] != n && b[i] != FREE by {
      forall i | 0 <= i < n ensures b[i] != n && b[i] != FREE {
        assert partial[i] in partial;
      }
    }
    assert Completes(n, p', b') by {
      forall i | 0 <= i < n ensures if p'[i] == FREE then 0 <= b'[i] < n else b'[i] == p'[i] {
        assert partial[i] in partial;
      }
    }
    forall i, j | 0 <= i < j < n ensures !Attacks(b', i, j) {
      assert !Attacks(b, i, j);
    }
  }

  /** Mirroring is one-to-one, so it cannot take a set into a smaller one. */
  lemma {:induction false} MirrorImageFits(n: nat, from: set<Board>, to: set<Board>)
    requires forall b <- from :: Mirror(n, b) in to && Mirror(n, Mirror(n, b)) == b
    ensures |from| <= |to|
  {
    if from != {} {
      var b :| b in from;
      MirrorImageFits(n, from - {b}, to - {Mirror(n, b)});
    }
  }

  lemma MirrorAtMost(n: nat, partial: Board)
    requires n <= |partial| && n !in partial
    ensures Count(n, partial) <= Count(n, Mirror(n, partial))
  {
    var from, to := Solutions(n, partial), Solutions(n, Mirror(n, partial));
    forall b <- from ensures Mirror(n, b) in to && Mirror(n, Mirror(n, b)) == b {
      SolutionsExactly(n, partial, b);
      MirrorSolves(n, partial, b);
      SolutionsExactly(n, Mirror(n, partial), Mirror(n, b));
    }
    MirrorImageFits(n, from, to);
  }

  /** A partial board and its mirror image have equally many completions, as long as
      no row is fixed to column n, whose mirror image would read as a free row. */
  lemma MirrorCount(n: nat, partial: Board)
    requires n <= |partial| && n !in partial
    ensures Count(n, Mirror(n, partial)) == Count(n, partial)
  {
    var m := Mirror(n, partial);
    forall i | 0 <= i < |m| ensures m[i] != n && Mirror(n, m)[i] == partial[i] {
      assert partial[i] in partial;
    }
    assert Mirror(n, m) == partial;
    MirrorAtMost(n, partial);
    MirrorAtMost(n, m);
  }

  function Fact(n: nat): nat {
    if n == 0 then 1 else n * Fact(n - 1)
  }

  lemma {:induction false} FactPositive(n: nat)
    ensures Fact(n) >= 1
  {
    if n > 0 {
      FactPositive(n - 1);
    }
  }

  function Used(b: Board, row: nat): set<int>
    requires row <= |b|
  {
    if row == 0 then {} else Used(b, row - 1) + {b[row - 1]}
  }

  /** Every fixed row is fixed to a column of the board. */
  predicate OnBoard(n: nat, b: Board) {
    forall i | 0 <= i < |b| :: b[i] == FREE || 0 <= b[i] < n
  }

  lemma {:induction false} UsedExactly(b: Board, row: nat)
    requires row <= |b| && Peaceful(b, row)
    ensures |Used(b, row)| == row
    ensures forall c :: c in Used(b, row) <==> exists i | 0 <= i < row :: b[i] == c
  {
    if row > 0 {
      UsedExactly(b, row - 1);
      assert b[row - 1] !in Used(b, row - 1) by {
        forall i | 0 <= i < row - 1 ensures b[i] != b[row - 1] {
          assert !Attacks(b, i, row - 1);
        }
      }
    }
  }

  function FreeColumns(b: Board, row: nat, col: nat): set<int>
    requires row <= |b|
  {
    Columns(col) - Used(b, row)
  }

  lemma {:induction false} ColumnsSize(n: nat)
    ensures |Columns(n)| == n
  {
    if n > 0 {
      ColumnsSize(n - 1);
    }
  }

  lemma AllFreeColumns(n: nat, b: Board, row: nat)
    requires row <= n <= |b| && Placed(b, row) && Peaceful(b, row) && OnBoard(n, b)
    ensures |FreeColumns(b, row, n)| == n - row
  {
    UsedExactly(b, row);
    ColumnsSize(n);
    assert Used(b, row) <= Columns(n);
  }

  /** A search entered at `row`, with the rows above placed, finds at most (n - row)!
      solutions. */
  lemma {:induction false} AtMostFact(n: nat, b: Board, row: nat)
    requires row <= n <= |b| && Placed(b, row) && Peaceful(b, row) && OnBoard(n, b)
    ensures Count(n, b) <= Fact(n - row)
    decreases n - row, n + 1
  {
    if row == n {
      FullBoard(n, b);
    } else if b[row] == FREE {
      AtMostInColumns(n, b, row, n, Fact(n - row - 1));
      AllColumns(n, b, row);
      AllFreeColumns(n, b, row);
    } else if Safe(b, row, b[row]) {
      SafeExtends(b, row);
      AtMostFact(n, b, row + 1);
      FactGrows(n - row);
    } else {
      UnsafeMeansNone(n, b, row);
    }
  }

  lemma FactGrows(n: nat)
    requires n > 0
    ensures Fact(n - 1) <= Fact(n)
  {
    FactPositive(n - 1);
    assert Fact(n) == Fact(n - 1) + (n - 1) * Fact(n - 1);
  }

  /** The columns before `col` hold at most f solutions for each unused column, where
      f bounds the search of one column. */
  lemma {:induction false} AtMostInColumns(n: nat, b: Board, row: nat, col: nat, f: nat)
    requires row < n <= |b| && Placed(b, row) && Peaceful(b, row) && OnBoard(n, b)
    requires b[row] == FREE && col <= n && f == Fact(n - row - 1)
    ensures |LeftOf(n, b, row, col)| <= |FreeColumns(b, row, col)| * f
    decreases n - row, col
  {
    if col == 0 {
      NoColumn(n, b, row);
    } else {
      var c := col - 1;
      AtMostInColumns(n, b, row, c, f);
      OneMoreColumn(n, b, row, c);
      PlacingAt(n, b, row, c);
      FreeColumnsStep(b, row, c);
      OneFactorMore(|LeftOf(n, b, row, c)|, Count(n, b[row := c]), |FreeColumns(b, row, c)|, f, c in Used(b, row));
    }
  }

  lemma FreeColumnsStep(b: Board, row: nat, c: nat)
    requires row <= |b|
    ensures |FreeColumns(b, row, c + 1)| == |FreeColumns(b, row, c)| + if c in Used(b, row) then 0 else 1
  {
    if c in Used(b, row) {
      assert FreeColumns(b, row, c + 1) == FreeColumns(b, row, c);
    } else {
      assert FreeColumns(b, row, c + 1) == FreeColumns(b, row, c) + {c};
    }
  }

  lemma OneFactorMore(x: nat, y: nat, k: nat, f: nat, none: bool)
    requires x <= k * f && y <= if none then 0 else f
    ensures x + y <= (k + if none then 0 else 1) * f
  {
  }

  /** Peace above a row does not depend on the row. */
  lemma StillPeaceful(b: Board, row: nat, c: nat)
    requires row < |b| && Peaceful(b, row)
    ensures Peaceful(b[row := c], row)
  {
    var b' := b[row := c];
    forall i, j | 0 <= i < j < row ensures !Attacks(b', i, j) {
      assert !Attacks(b, i, j);
    }
  }

  lemma {:induction false} PlacingAt(n: nat, b: Board, row: nat, c: nat)
    requires row < n <= |b| && Placed(b, row) && Peaceful(b, row) && OnBoard(n, b) && c < n
    ensures Count(n, b[row := c]) <= if c in Used(b, row) then 0 else Fact(n - row - 1)
    decreases n - row, 0
  {
    var b' := b[row := c];
    assert forall i | 0 <= i < row :: b'[i] == b[i];
    UsedExactly(b, row);
    if Safe(b', row, c) {
      StillPeaceful(b, row, c);
      SafeExtends(b', row);
      AtMostFact(n, b', row + 1);
    } else {
      UnsafeMeansNone(n, b', row);
    }
  }
}

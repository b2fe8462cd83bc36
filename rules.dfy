/**
 The rules of the board: players, cells, the nine-cell board, the table of
 winning lines and win detection, as used by the tic-tac-toe page.
 */
module Rules {

  /** The two players; "X" always moves first. */
  datatype Player = X | O

  /** A cell is empty (null in the page) or holds one player's mark. */
  datatype Cell = Empty | Mark(player: Player)

  datatype Option<T> = None | Some(value: T)

  /** A position on the board, row-major: 0..2 is the top row. */
  type Index = i: nat | i < 9

  /** The board is always exactly nine cells. */
  type Board = b: seq<Cell> | |b| == 9 witness EmptyBoard()

  /** A winning line: three positions. */
  type Line = (Index, Index, Index)

  /** Nine empty cells: the board the page starts from. */
  function EmptyBoard(): seq<Cell>
  {
    seq(9, _ => Empty)
  }

  function Other(p: Player): Player
  {
    if p == X then O else X
  }

  /** The fixed table of winning lines, in the order they are scanned:
      three rows, three columns, two diagonals. */
  const Lines: seq<Line> := [
    (0, 1, 2),
    (3, 4, 5),
    (6, 7, 8),
    (0, 3, 6),
    (1, 4, 7),
    (2, 5, 8),
    (0, 4, 8),
    (2, 4, 6)
  ]

  /** The test the scan applies to one line: its first cell is marked and
      the other two hold the same mark. */
  predicate Filled(b: Board, l: Line)
  {
    b[l.0] != Empty && b[l.0] == b[l.1] && b[l.0] == b[l.2]
  }

  /** Player p holds all three cells of line l. */
  predicate FilledBy(b: Board, l: Line, p: Player)
  {
    b[l.0] == Mark(p) && b[l.1] == Mark(p) && b[l.2] == Mark(p)
  }

  /** Some line of the table is held by p. */
  predicate HasLine(b: Board, p: Player)
  {
    exists k :: 0 <= k < |Lines| && FilledBy(b, Lines[k], p)
  }

  /** The scan of the table from line k on: the mark of the first filled
      line, or None when none of the remaining lines is filled. */
  function WinnerFrom(b: Board, k: nat): Option<Player>
    requires k <= |Lines|
    decreases |Lines| - k
  {
    if k == |Lines| then None
    else if Filled(b, Lines[k]) then Some(b[Lines[k].0].player)
    else WinnerFrom(b, k + 1)
  }

  /** Win detection: the scan of the whole table. */
  function Winner(b: Board): Option<Player>
  {
    WinnerFrom(b, 0)
  }

  /** Win detection as the page runs it: a loop over the table that returns
      at the first filled line. */
  method CheckWinner(board: array<Cell>) returns (w: Option<Player>)
    requires board.Length == 9
    ensures w == Winner(board[..])
  {
    var b: Board := board[..];
    for k := 0 to |Lines|
      invariant WinnerFrom(b, k) == Winner(b)
    {
      var (i, j, l) := Lines[k];
      if board[i] != Empty && board[i] == board[j] && board[i] == board[l] {
        return Some(board[i].player);
      }
    }
    return None;
  }

  /** Every cell is marked. */
  predicate Full(b: Board)
  {
    forall i :: 0 <= i < |b| ==> b[i] != Empty
  }

  /** The number of cells of b holding c. */
  function Count(b: seq<Cell>, c: Cell): nat
  {
    if b == [] then 0 else (if b[0] == c then 1 else 0) + Count(b[1..], c)
  }

  // ---------------------------------------------------------------------
  // Win detection: what the scan returns, stated without the scan.

  /** Line j >= k is held by p and no line between k and j passes the
      test: the first line the scan from k stops at is p's. */
  predicate FirstHeldFrom(b: Board, k: nat, p: Player)
  {
    exists j :: k <= j < |Lines| && FilledBy(b, Lines[j], p) &&
      forall i :: k <= i < j ==> !Filled(b, Lines[i])
  }

  /** The scan from k returns p exactly when the first line from k on that
      passes the test is held by p; it returns None exactly when no line
      from k on passes the test. */
  lemma {:induction false} WinnerFromFirstMatch(b: Board, k: nat)
    requires k <= |Lines|
    ensures forall p :: WinnerFrom(b, k) == Some(p) <==> FirstHeldFrom(b, k, p)
    ensures WinnerFrom(b, k) == None <==>
      forall j :: k <= j < |Lines| ==> !Filled(b, Lines[j])
    decreases |Lines| - k
  {
    if k < |Lines| {
      WinnerFromFirstMatch(b, k + 1);
      if Filled(b, Lines[k]) {
        var p := b[Lines[k].0].player;
        assert FilledBy(b, Lines[k], p);
        forall q | WinnerFrom(b, k) != Some(q)
          ensures !FirstHeldFrom(b, k, q)
        {
          assert !FilledBy(b, Lines[k], q);
        }
      } else {
        forall p
          ensures FirstHeldFrom(b, k, p) <==> FirstHeldFrom(b, k + 1, p)
        {
          if j :| k <= j < |Lines| && FilledBy(b, Lines[j], p) &&
                  forall i :: k <= i < j ==> !Filled(b, Lines[i]) {
            assert j != k;
          }
        }
      }
    }
  }

  /** checkWinner answers p exactly when p holds some line of the table and
      every earlier line fails the test: the first filled line wins. */
  lemma WinnerIsFirstFilledLine(b: Board, p: Player)
    ensures Winner(b) == Some(p) <==>
      exists k :: 0 <= k < |Lines| && FilledBy(b, Lines[k], p) &&
        forall i :: 0 <= i < k ==> !Filled(b, Lines[i])
  {
    WinnerFromFirstMatch(b, 0);
  }

  /** checkWinner answers p only if p holds some line of the table. */
  lemma WinnerSound(b: Board, p: Player)
    requires Winner(b) == Some(p)
    ensures HasLine(b, p)
  {
    WinnerFromFirstMatch(b, 0);
  }

  /** checkWinner answers null exactly when no line of the table holds three
      equal marks. */
  lemma WinnerNoneIffNoLine(b: Board)
    ensures Winner(b) == None <==> forall p :: !HasLine(b, p)
  {
    WinnerFromFirstMatch(b, 0);
    if Winner(b) != None {
      WinnerSound(b, Winner(b).value);
    } else {
      forall p ensures !HasLine(b, p) {
        if k :| 0 <= k < |Lines| && FilledBy(b, Lines[k], p) {
          assert Filled(b, Lines[k]);
        }
      }
    }
  }

  /** The empty board holds no line, so checkWinner answers null on it. */
  lemma EmptyBoardHasNoLine()
    ensures forall p :: !HasLine(EmptyBoard(), p)
    ensures Winner(EmptyBoard()) == None
  {
    var b := EmptyBoard();
    forall p, k | 0 <= k < |Lines| ensures !FilledBy(b, Lines[k], p) {
      assert b[Lines[k].0] == Empty;
    }
    WinnerNoneIffNoLine(b);
  }

  /** When only one player holds lines, the order of the table does not
      matter: checkWinner names that player. */
  lemma WinnerOfSingleHolder(b: Board, p: Player)
    requires HasLine(b, p) && !HasLine(b, Other(p))
    ensures Winner(b) == Some(p)
  {
    WinnerNoneIffNoLine(b);
    var w := Winner(b).value;
    WinnerSound(b, w);
    assert w == p || w == Other(p);
  }

  /** Marking one cell of a board without lines can only complete lines of
      the player who marks it: any line held afterwards passes through that
      cell. */
  lemma OnlyMoverCompletesLines(b: Board, i: Index, p: Player, after: Board)
    requires forall q :: !HasLine(b, q)
    requires after == b[i := Mark(p)]
    ensures forall q :: HasLine(after, q) ==> q == p
  {
    forall q | HasLine(after, q) ensures q == p {
      var k :| 0 <= k < |Lines| && FilledBy(after, Lines[k], q);
      var (x, y, z) := Lines[k];
      if i != x && i != y && i != z {
        assert after[x] == b[x] && after[y] == b[y] && after[z] == b[z];
        assert HasLine(b, q);
        assert false;
      }
    }
  }

  // ---------------------------------------------------------------------
  // The table against the geometry of the 3 x 3 grid.

  function Row(i: Index): nat { i / 3 }
  function Col(i: Index): nat { i % 3 }

  /** Three cells, in increasing order, on one row, one column or one of the
      two diagonals. */
  predicate Straight(a: Index, b: Index, c: Index)
  {
    a < b < c &&
    ( (Row(a) == Row(b) == Row(c))
    || (Col(a) == Col(b) == Col(c))
    || (Row(a) == Col(a) && Row(b) == Col(b) && Row(c) == Col(c))
    || (Row(a) + Col(a) == 2 && Row(b) + Col(b) == 2 && Row(c) + Col(c) == 2))
  }

  /** Every line of the table is straight, and no line is listed twice. */
  lemma LinesAreStraight()
    ensures forall k :: 0 <= k < |Lines| ==> Straight(Lines[k].0, Lines[k].1, Lines[k].2)
    ensures forall i, j :: 0 <= i < j < |Lines| ==> Lines[i] != Lines[j]
  {
    forall k | 0 <= k < |Lines|
      ensures Straight(Lines[k].0, Lines[k].1, Lines[k].2)
    {
      assert k in {0, 1, 2, 3, 4, 5, 6, 7};
    }
    forall i, j | 0 <= i < j < |Lines|
      ensures Lines[i] != Lines[j]
    {
      assert i in {0, 1, 2, 3, 4, 5, 6};
    }
  }

  /** Every straight triple of the grid is a line of the table. */
  lemma StraightTriplesAreLines(a: Index, b: Index, c: Index)
    requires Straight(a, b, c)
    ensures (a, b, c) in Lines
  {
    if Row(a) == Row(b) == Row(c) {
      assert (a, b, c) == Lines[Row(a)];
    } else if Col(a) == Col(b) == Col(c) {
      assert (a, b, c) == Lines[3 + Col(a)];
    } else if Row(a) == Col(a) && Row(b) == Col(b) && Row(c) == Col(c) {
      assert (a, b, c) == Lines[6];
    } else {
      assert (a, b, c) == Lines[7];
    }
  }

  // ---------------------------------------------------------------------
  // Counting marks.

  /** Marking an empty cell with p adds one p and leaves the count of the
      other mark alone. */
  lemma {:induction false} CountAfterMark(b: seq<Cell>, i: nat, p: Player, c: Cell)
    requires i < |b| && b[i] == Empty && c != Empty
    ensures Count(b[i := Mark(p)], c) == Count(b, c) + (if c == Mark(p) then 1 else 0)
  {
    if i > 0 {
      assert b[i := Mark(p)][1..] == b[1..][i - 1 := Mark(p)];
      CountAfterMark(b[1..], i - 1, p, c);
    } else {
      assert b[i := Mark(p)][1..] == b[1..];
    }
  }

  /** An empty board holds no mark. */
  lemma {:induction false} CountEmpty(b: seq<Cell>, c: Cell)
    requires forall i :: 0 <= i < |b| ==> b[i] == Empty
    requires c != Empty
    ensures Count(b, c) == 0
  {
    if b != [] {
      CountEmpty(b[1..], c);
    }
  }
}

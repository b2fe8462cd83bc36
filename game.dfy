/**
 The game state of the tic-tac-toe page as a value: the initial state, the
 status message derived from it, and the move rule as a function from one
 state to the next. The class in module Engine runs the same rule in place.
 */
module Game {
  import opened Rules

  datatype GameStatus = Playing | Won | Drawn

  datatype GameState = GameState(
    board: Board,
    currentPlayer: Player,
    winner: Option<Player>,
    status: GameStatus)

  /** The state the page starts in. */
  function Initial(): GameState
  {
    GameState(EmptyBoard(), X, None, Playing)
  }

  // ---------------------------------------------------------------------
  // The status message the page shows.

  /** The kind of message and its text. */
  datatype StatusView = StatusView(kind: GameStatus, message: string)

  function Name(p: Player): string
  {
    if p == X then "X" else "O"
  }

  /** The derived status: a winner comes first, then a full board, then the
      current player's turn. */
  function Display(s: GameState): (d: StatusView)
    ensures d.kind == Won <==> s.winner.Some?
    ensures d.kind == Drawn <==> s.winner == None && Full(s.board)
    ensures d.kind == Playing ==> d.message == "Player " + Name(s.currentPlayer) + "'s turn"
  {
    if s.winner.Some? then StatusView(Won, "Player " + Name(s.winner.value) + " wins!")
    else if Full(s.board) then StatusView(Drawn, "It's a draw!")
    else StatusView(Playing, "Player " + Name(s.currentPlayer) + "'s turn")
  }

  // ---------------------------------------------------------------------
  // The move rule.

  /** A click on cell i is taken: the game is still on and the cell is empty. */
  predicate Accepts(s: GameState, i: Index)
  {
    s.status == Playing && s.board[i] == Empty
  }

  /** The state after a click on cell i. */
  function Move(s: GameState, i: Index): GameState
  {
    if !Accepts(s, i) then s
    else
      var board := s.board[i := Mark(s.currentPlayer)];
      var winner := Winner(board);
      if winner.Some? then GameState(board, s.currentPlayer, winner, Won)
      else if Full(board) then GameState(board, s.currentPlayer, None, Drawn)
      else GameState(board, Other(s.currentPlayer), None, Playing)
  }

  /** The state after a sequence of clicks, handled one after the other. */
  function Play(s: GameState, clicks: seq<Index>): GameState
    decreases |clicks|
  {
    if clicks == [] then s else Move(Play(s, clicks[..|clicks| - 1]), clicks[|clicks| - 1])
  }

  // ---------------------------------------------------------------------
  // What every state reachable from the initial one satisfies.

  /** The stored winner is what win detection says of the board, and the
      stored status agrees with the winner and the board. */
  predicate Consistent(s: GameState)
  {
    && s.winner == Winner(s.board)
    && (s.status == Won <==> s.winner.Some?)
    && (s.status == Drawn <==> s.winner == None && Full(s.board))
  }

  /** X moves first and the players alternate: X has as many marks as O, or
      one more; while the game is on, X is to move exactly when the counts
      are equal. */
  predicate TurnsAlternate(s: GameState)
  {
    var xs, os := Count(s.board, Mark(X)), Count(s.board, Mark(O));
    && (xs == os || xs == os + 1)
    && (s.status == Playing ==> (s.currentPlayer == X <==> xs == os))
  }

  /** Every line on the board belongs to the stored winner. */
  predicate OnlyWinnerHoldsLines(s: GameState)
  {
    forall p :: HasLine(s.board, p) ==> s.winner == Some(p)
  }

  predicate Inv(s: GameState)
  {
    Consistent(s) && TurnsAlternate(s) && OnlyWinnerHoldsLines(s)
  }

  /** The initial state: nine empty cells, X to move, no winner, status
      playing; it satisfies the invariant and the page shows whose turn it
      is. */
  lemma InitialState()
    ensures forall i :: 0 <= i < 9 ==> Initial().board[i] == Empty
    ensures Initial().currentPlayer == X && Initial().winner == None
    ensures Initial().status == Playing
    ensures Inv(Initial())
    ensures Display(Initial()).kind == Playing
  {
    var b := Initial().board;
    assert !Full(b) by { assert b[0] == Empty; }
    assert Inv(Initial()) by {
      EmptyBoardHasNoLine();
      CountEmpty(b, Mark(X));
      CountEmpty(b, Mark(O));
    }
  }

  /** A click when the game is over or on a marked cell changes nothing. */
  lemma RejectedMoveIsNoOp(s: GameState, i: Index)
    requires s.status != Playing || s.board[i] != Empty
    ensures Move(s, i) == s
  {
  }

  /** An accepted click puts the current player's mark on cell i and leaves
      every other cell as it was. */
  lemma AcceptedMoveMarksOneCell(s: GameState, i: Index)
    requires Accepts(s, i)
    ensures Move(s, i).board[i] == Mark(s.currentPlayer)
    ensures forall j :: 0 <= j < 9 && j != i ==> Move(s, i).board[j] == s.board[j]
  {
  }

  /** After an accepted click: a line on the new board ends the game with its
      owner as winner; otherwise a full board is a draw; otherwise the turn
      passes to the other player. */
  lemma AcceptedMoveOutcome(s: GameState, i: Index)
    requires Accepts(s, i)
    ensures var t := Move(s, i);
      && (t.status == Won <==> exists p :: HasLine(t.board, p))
      && (t.status == Won ==> HasLine(t.board, t.winner.value))
      && (t.status == Drawn <==> Full(t.board) && forall p :: !HasLine(t.board, p))
      && (t.status == Playing ==> t.currentPlayer == Other(s.currentPlayer))
      && (t.status != Playing ==> t.currentPlayer == s.currentPlayer)
  {
    var t := Move(s, i);
    WinnerNoneIffNoLine(t.board);
    if t.status == Won {
      WinnerSound(t.board, t.winner.value);
    }
  }

  /** On a state satisfying the invariant, a click that wins the game makes
      the player who just moved the winner. */
  lemma WinnerIsMover(s: GameState, i: Index)
    requires Inv(s) && Accepts(s, i)
    ensures Move(s, i).status == Won ==> Move(s, i).winner == Some(s.currentPlayer)
  {
    var t := Move(s, i);
    OnlyMoverCompletesLines(s.board, i, s.currentPlayer, t.board);
    if t.status == Won {
      WinnerSound(t.board, t.winner.value);
    }
  }

  /** A click keeps the invariant; in particular the winner is the owner of
      every line on the board, whatever the order of the table. */
  lemma {:induction false} MovePreservesInv(s: GameState, i: Index)
    requires Inv(s)
    ensures Inv(Move(s, i))
  {
    if Accepts(s, i) {
      var t := Move(s, i);
      OnlyMoverCompletesLines(s.board, i, s.currentPlayer, t.board);
      WinnerNoneIffNoLine(t.board);
      if Winner(t.board).Some? {
        WinnerSound(t.board, Winner(t.board).value);
      }
      assert OnlyWinnerHoldsLines(t);
      assert Consistent(t);
      CountAfterMark(s.board, i, s.currentPlayer, Mark(X));
      CountAfterMark(s.board, i, s.currentPlayer, Mark(O));
    }
  }

  /** Clicks keep the invariant. */
  lemma {:induction false} PlayPreservesInv(s: GameState, clicks: seq<Index>)
    requires Inv(s)
    ensures Inv(Play(s, clicks))
    decreases |clicks|
  {
    if clicks != [] {
      var n := |clicks| - 1;
      PlayPreservesInv(s, clicks[..n]);
      MovePreservesInv(Play(s, clicks[..n]), clicks[n]);
    }
  }

  /** Every state the page can reach satisfies the invariant. */
  lemma Reachable(clicks: seq<Index>)
    ensures Inv(Play(Initial(), clicks))
  {
    InitialState();
    PlayPreservesInv(Initial(), clicks);
  }

  /** Once the game is won or drawn, no click changes anything. */
  lemma {:induction false} GameOverIsFinal(s: GameState, clicks: seq<Index>)
    requires s.status != Playing
    ensures Play(s, clicks) == s
    decreases |clicks|
  {
    if clicks != [] {
      GameOverIsFinal(s, clicks[..|clicks| - 1]);
    }
  }

  /** A marked cell keeps its mark whatever is clicked later. */
  lemma {:induction false} MarksAreNeverCleared(s: GameState, clicks: seq<Index>, i: Index)
    requires s.board[i] != Empty
    ensures Play(s, clicks).board[i] == s.board[i]
    decreases |clicks|
  {
    if clicks != [] {
      var n := |clicks| - 1;
      MarksAreNeverCleared(s, clicks[..n], i);
      var t := Play(s, clicks[..n]);
      assert Move(t, clicks[n]).board[i] == t.board[i];
    }
  }

  /** On a reachable state the page's message agrees with the stored status,
      and a full board that holds a line is reported as won, never drawn. */
  lemma DisplayMatchesStatus(s: GameState)
    requires Inv(s)
    ensures Display(s).kind == s.status
    ensures Full(s.board) && (exists p :: HasLine(s.board, p)) ==> Display(s).kind == Won
  {
    WinnerNoneIffNoLine(s.board);
  }
}

/**
 The game engine of the tic-tac-toe page: the current state held in fields,
 the board in a nine-cell array, and the click handler that copies the
 board, marks the copy and installs the new state.
 */
module Engine {
  import opened Rules
  import opened Game

  class GameEngine {
    var board: array<Cell>
    var currentPlayer: Player
    var winner: Option<Player>
    var status: GameStatus

    /** The board has nine cells and the state satisfies the invariant of
        every state reachable from the initial one. */
    ghost predicate Valid()
      reads this, board
    {
      board.Length == 9 && Inv(State())
    }

    /** The fields as a game state. */
    function State(): GameState
      reads this, board
      requires board.Length == 9
    {
      GameState(board[..], currentPlayer, winner, status)
    }

    /** The page's initial state. */
    constructor ()
      ensures Valid() && fresh(board)
      ensures State() == Initial()
    {
      board := new Cell[9](_ => Empty);
      currentPlayer := X;
      winner := None;
      status := Playing;
      new;
      assert board[..] == EmptyBoard();
      InitialState();
    }

    /** The click handler. A click on a marked cell, or after the game has
        ended, changes nothing. Otherwise the board is copied, the copy gets
        the current player's mark at index, and the state moves on by the
        move rule; the array that held the previous board is not written. */
    method ApplyMove(index: Index)
      requires Valid()
      modifies this
      ensures Valid()
      ensures State() == Move(old(State()), index)
      ensures old(board)[..] == old(board[..])
      ensures if Accepts(old(State()), index) then fresh(board) else board == old(board)
    {
      if status != Playing || board[index] != Empty {
        return;
      }
      ghost var before := State();
      var newBoard := CopyBoard(board);
      newBoard[index] := Mark(currentPlayer);
      assert newBoard[..] == before.board[index := Mark(currentPlayer)];
      var newWinner := CheckWinner(newBoard);
      var newStatus, nextPlayer;
      if newWinner.Some? {
        newStatus, nextPlayer := Won, currentPlayer;
      } else if Full(newBoard[..]) {
        newStatus, nextPlayer := Drawn, currentPlayer;
      } else {
        newStatus, nextPlayer := Playing, Other(currentPlayer);
      }
      board, currentPlayer, winner, status := newBoard, nextPlayer, newWinner, newStatus;
      assert State() == Move(before, index);
      MovePreservesInv(before, index);
    }
  }

  /** The copy the click handler writes into: a fresh array with the same
      cells. */
  method CopyBoard(a: array<Cell>) returns (c: array<Cell>)
    ensures fresh(c) && c[..] == a[..]
  {
    c := new Cell[a.Length];
    for i := 0 to a.Length
      modifies c
      invariant c[..i] == a[..i]
    {
      c[i] := a[i];
    }
  }

  /** A client: the engine, driven by a sequence of clicks, ends in the state
      the move rule gives for those clicks. */
  method PlayClicks(clicks: seq<Index>) returns (e: GameEngine)
    ensures e.Valid()
    ensures e.State() == Play(Initial(), clicks)
  {
    e := new GameEngine();
    for k := 0 to |clicks|
      invariant e.Valid() && e.State() == Play(Initial(), clicks[..k])
    {
      e.ApplyMove(clicks[k]);
      assert clicks[..k + 1][..k] == clicks[..k];
    }
    assert clicks[..|clicks|] == clicks;
  }
}

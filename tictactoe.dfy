/** The tic-tac-toe engine of SCT_WD_3/script.js: a nine-cell board, the
    eight winning lines, move acceptance, win/draw evaluation, turn
    alternation, reset, and the computer opponent's priority-ordered move
    selection. */
module TicTacToe {

  datatype Option<T> = None | Some(value: T)

  /** The two marks; X always moves first. */
  datatype Player = X | O

  /** A cell holds '' (Empty) or a player's mark. */
  datatype Cell = Empty | Mark(player: Player)

  datatype Mode = PlayerVsPlayer | PlayerVsComputer

  type Index = i: int | 0 <= i < 9

  /** Nine cells in row-major order. */
  type Board = b: seq<Cell> | |b| == 9 witness seq(9, _ => Empty)

  /** The indices of three cells in a row, a column or a diagonal. */
  type Line = (Index, Index, Index)

  /** `winningConditions`: rows top to bottom, columns left to right, then
      the two diagonals. */
  const WinningConditions: seq<Line> :=
    [(0, 1, 2), (3, 4, 5), (6, 7, 8),
     (0, 3, 6), (1, 4, 7), (2, 5, 8),
     (0, 4, 8), (2, 4, 6)]

  const EmptyBoard: Board := seq(9, _ => Empty)

  const Corners: seq<Index> := [0, 2, 6, 8]

  const Centre: Index := 4

  function Other(p: Player): (q: Player)
    ensures q != p
  {
    if p == X then O else X
  }

  /** Switching twice gives back the player who started. */
  lemma OtherInvolution(p: Player)
    ensures Other(Other(p)) == p
  {
  }

  /** The test of the loop in `checkGameResult`: three equal cells that
      are not empty. */
  predicate Completed(b: Board, l: Line) {
    b[l.0] != Empty && b[l.0] == b[l.1] && b[l.1] == b[l.2]
  }

  /** All three cells of `l` hold `p`'s mark. */
  predicate HeldBy(b: Board, l: Line, p: Player) {
    b[l.0] == Mark(p) && b[l.1] == Mark(p) && b[l.2] == Mark(p)
  }

  /** The first completed line at position `k` or later of
      `WinningConditions`. */
  function FirstCompletedFrom(b: Board, k: nat): (r: Option<nat>)
    requires k <= |WinningConditions|
    ensures r.Some? ==> k <= r.value < |WinningConditions| && Completed(b, WinningConditions[r.value])
    ensures forall j :: k <= j < (if r.Some? then r.value else |WinningConditions|) ==>
      !Completed(b, WinningConditions[j])
    decreases |WinningConditions| - k
  {
    if k == |WinningConditions| then None
    else if Completed(b, WinningConditions[k]) then Some(k)
    else FirstCompletedFrom(b, k + 1)
  }

  /** What `checkGameResult` decides about a board. */
  datatype Outcome = InProgress | Won(line: nat) | Drawn

  /** Win before draw: the first completed line in enumeration order wins;
      otherwise a board without an empty cell is a draw. */
  function Evaluate(b: Board): (r: Outcome)
    ensures r.Won? ==> (r.line < |WinningConditions| && Completed(b, WinningConditions[r.line]) &&
                        forall j :: 0 <= j < r.line ==> !Completed(b, WinningConditions[j]))
    ensures !r.Won? ==> forall j :: 0 <= j < |WinningConditions| ==> !Completed(b, WinningConditions[j])
    ensures r.Drawn? <==> !r.Won? && Empty !in b
  {
    match FirstCompletedFrom(b, 0)
    case Some(k) => Won(k)
    case None => if Empty in b then InProgress else Drawn
  }

  /** The winning line an outcome names, as `lastWinningCondition` keeps it. */
  function WinningLineOf(r: Outcome): Option<Line> {
    if r.Won? && r.line < |WinningConditions| then Some(WinningConditions[r.line]) else None
  }

  /** `checkWinForPlayer`: `some` over the winning lines, from position `k`
      on, asking whether `p` holds all three cells. */
  predicate SomeLineHeld(b: Board, p: Player, k: nat)
    requires k <= |WinningConditions|
    decreases |WinningConditions| - k
  {
    k < |WinningConditions| && (HeldBy(b, WinningConditions[k], p) || SomeLineHeld(b, p, k + 1))
  }

  predicate CheckWinForPlayer(b: Board, p: Player) {
    SomeLineHeld(b, p, 0)
  }

  /** `checkWinForPlayer` holds exactly when some winning line is held by `p`. */
  lemma SomeLineHeldMeans(b: Board, p: Player, k: nat)
    requires k <= |WinningConditions|
    ensures SomeLineHeld(b, p, k) <==>
      exists j :: k <= j < |WinningConditions| && HeldBy(b, WinningConditions[j], p)
  {
  }

  /** A line is completed exactly when one of the two players holds it. */
  lemma CompletedIsHeld(b: Board, l: Line)
    ensures Completed(b, l) <==> HeldBy(b, l, X) || HeldBy(b, l, O)
  {
    match b[l.0]
    case Empty =>
    case Mark(q) => assert q == X || q == O;
  }

  /** `checkGameResult` sees a win exactly when `checkWinForPlayer` holds
      for one of the players. */
  lemma WonIffSomePlayerWins(b: Board)
    ensures Evaluate(b).Won? <==> CheckWinForPlayer(b, X) || CheckWinForPlayer(b, O)
  {
    SomeLineHeldMeans(b, X, 0);
    SomeLineHeldMeans(b, O, 0);
    forall j | 0 <= j < |WinningConditions|
      ensures Completed(b, WinningConditions[j]) <==>
        HeldBy(b, WinningConditions[j], X) || HeldBy(b, WinningConditions[j], O)
    {
      CompletedIsHeld(b, WinningConditions[j]);
    }
  }

  /** A move on a board with no completed line can only complete lines
      through the chosen cell, all held by the mover: the player named in
      "Player ... Wins!" is the winner. */
  lemma WinnerIsMover(b: Board, i: Index, p: Player)
    requires Evaluate(b) == InProgress && b[i] == Empty
    ensures var r := Evaluate(b[i := Mark(p)]);
      r.Won? ==> HeldBy(b[i := Mark(p)], WinningConditions[r.line], p) &&
                 i in {WinningConditions[r.line].0, WinningConditions[r.line].1, WinningConditions[r.line].2}
  {
  }

  /** The number of `p`'s marks on a board. */
  function Count(b: seq<Cell>, p: Player): nat {
    if b == [] then 0 else (if b[0] == Mark(p) then 1 else 0) + Count(b[1..], p)
  }

  lemma {:induction false} CountNone(b: seq<Cell>, p: Player)
    requires Mark(p) !in b
    ensures Count(b, p) == 0
  {
    if b != [] {
      CountNone(b[1..], p);
    }
  }

  /** Marking an empty cell adds one to the mover's count and leaves the
      other player's count alone. */
  lemma {:induction false} CountAfterMark(b: seq<Cell>, i: nat, p: Player)
    requires i < |b| && b[i] == Empty
    ensures Count(b[i := Mark(p)], p) == Count(b, p) + 1
    ensures Count(b[i := Mark(p)], Other(p)) == Count(b, Other(p))
  {
    var b' := b[i := Mark(p)];
    if i == 0 {
      assert b'[1..] == b[1..];
    } else {
      assert b'[1..] == b[1..][i - 1 := Mark(p)];
      CountAfterMark(b[1..], i - 1, p);
    }
  }

  /** The reset board: no line, a free cell, no marks. */
  lemma EmptyBoardFacts()
    ensures Evaluate(EmptyBoard) == InProgress
    ensures Count(EmptyBoard, X) == 0 && Count(EmptyBoard, O) == 0
  {
    assert EmptyBoard[0] == Empty;
    CountNone(EmptyBoard, X);
    CountNone(EmptyBoard, O);
  }

  /** The empty cells at index `k` or later, in ascending order (the
      `available` list of `computerMove`). */
  function AvailableFrom(b: Board, k: nat): (r: seq<Index>)
    requires k <= 9
    ensures forall i :: i in r <==> k <= i < 9 && b[i] == Empty
    ensures forall q :: 0 <= q < |r| ==> k <= r[q]
    ensures forall p, q :: 0 <= p < q < |r| ==> r[p] < r[q]
    decreases 9 - k
  {
    if k == 9 then []
    else if b[k] == Empty then [k as Index] + AvailableFrom(b, k + 1)
    else AvailableFrom(b, k + 1)
  }

  /** The members of `cs` that are in `available`, in the order of `cs`
      (the `corners` filter of `computerMove`). */
  function KeepAvailable(cs: seq<Index>, available: seq<Index>): (r: seq<Index>)
    ensures forall c :: c in r <==> c in cs && c in available
  {
    if cs == [] then []
    else (if cs[0] in available then [cs[0]] else []) + KeepAvailable(cs[1..], available)
  }

  /** Putting `p` on the empty cell `i` gives `p` a line (the test boards
      of `computerMove`). */
  predicate WinsAt(b: Board, i: Index, p: Player) {
    b[i] == Empty && CheckWinForPlayer(b[i := Mark(p)], p)
  }

  /** The computer's policy as a relation between a board and the chosen
      cell: an empty cell, and the first of these that applies: the lowest
      cell where O wins at once, the lowest cell where X would win, the
      centre, one of the free corners, any free cell. */
  ghost predicate HeuristicChoice(b: Board, m: int) {
    0 <= m < 9 && b[m] == Empty &&
    if exists i: Index :: WinsAt(b, i, O) then
      WinsAt(b, m, O) && forall i: Index :: i < m ==> !WinsAt(b, i, O)
    else if exists i: Index :: WinsAt(b, i, X) then
      WinsAt(b, m, X) && forall i: Index :: i < m ==> !WinsAt(b, i, X)
    else if b[Centre] == Empty then
      m == Centre
    else if exists c :: c in Corners && b[c] == Empty then
      m in Corners
    else
      true
  }

  /** `available` lists the free cells of `b` in ascending order. */
  predicate ListsFreeCells(b: Board, available: seq<Index>) {
    (forall i: Index :: i in available <==> b[i] == Empty) &&
    (forall p, q :: 0 <= p < q < |available| ==> available[p] < available[q])
  }

  /** One of the two `for` loops of `computerMove`: the first cell of
      `available` where `p` would complete a line, or -1. */
  method FirstWinFor(b: Board, available: seq<Index>, p: Player) returns (move: int)
    requires ListsFreeCells(b, available)
    ensures move == -1 ==> forall i: Index :: !WinsAt(b, i, p)
    ensures move != -1 ==> (0 <= move < 9 && WinsAt(b, move, p) &&
                            forall i: Index :: i < move ==> !WinsAt(b, i, p))
  {
    move := -1;
    var n := 0;
    while n < |available|
      invariant 0 <= n <= |available|
      invariant move == -1
      invariant forall q :: 0 <= q < n ==> !WinsAt(b, available[q], p)
    {
      var i := available[n];
      var testBoard := b[i := Mark(p)];
      if CheckWinForPlayer(testBoard, p) {
        move := i;
        break;
      }
      n := n + 1;
    }
    forall i: Index | b[i] == Empty && (move != -1 ==> i < move)
      ensures !WinsAt(b, i, p)
    {
      assert i in available;
      var q :| 0 <= q < |available| && available[q] == i;
      assert q < n;
    }
  }

  /** Lines 117-151 of `computerMove`: the choice of `bestMove`, with the
      two random picks as nondeterministic picks of a list position. */
  method SelectMove(b: Board) returns (bestMove: int)
    requires Empty in b
    ensures HeuristicChoice(b, bestMove)
  {
    var available := AvailableFrom(b, 0);
    bestMove := FirstWinFor(b, available, O);
    if bestMove == -1 {
      bestMove := FirstWinFor(b, available, X);
    }
    if bestMove == -1 && b[Centre] == Empty {
      bestMove := Centre;
    }
    if bestMove == -1 {
      var corners := KeepAvailable(Corners, available);
      if |corners| > 0 {
        var r :| 0 <= r < |corners|;
        bestMove := corners[r];
      }
    }
    if bestMove == -1 {
      var r :| 0 <= r < |available|;
      bestMove := available[r];
    }
  }

  /** When O can win at once, X threatens a line, or the centre is free,
      the choice is determined; only the corner and fallback steps pick at
      random. */
  lemma ChoiceIsDeterminedBeforeCorners(b: Board, m1: int, m2: int)
    requires HeuristicChoice(b, m1) && HeuristicChoice(b, m2)
    requires (exists i: Index :: WinsAt(b, i, O)) || (exists i: Index :: WinsAt(b, i, X)) || b[Centre] == Empty
    ensures m1 == m2
  {
  }

  /** X holds 0 and 1, O holds 3: O cannot win at once, so it blocks at 2. */
  lemma BlocksTopRow(m: int)
    requires HeuristicChoice([Mark(X), Mark(X), Empty, Mark(O), Empty, Empty, Empty, Empty, Empty], m)
    ensures m == 2
  {
    var b: Board := [Mark(X), Mark(X), Empty, Mark(O), Empty, Empty, Empty, Empty, Empty];
    assert HeldBy(b[2 := Mark(X)], WinningConditions[0], X);
    assert WinsAt(b, 2, X);
  }

  /** X holds 0 and 6, O holds the centre: O blocks the left column at 3. */
  lemma BlocksLeftColumn(m: int)
    requires HeuristicChoice([Mark(X), Empty, Empty, Empty, Mark(O), Empty, Mark(X), Empty, Empty], m)
    ensures m == 3
  {
    var b: Board := [Mark(X), Empty, Empty, Empty, Mark(O), Empty, Mark(X), Empty, Empty];
    assert HeldBy(b[3 := Mark(X)], WinningConditions[3], X);
    assert WinsAt(b, 3, X);
  }

  /** On the reset board no single mark wins, so the computer takes the
      centre. */
  lemma EmptyBoardChoosesCentre(m: int)
    requires HeuristicChoice(EmptyBoard, m)
    ensures m == Centre
  {
  }

  /** A board with a single mark has no line and a free cell. */
  lemma SingleMarkInProgress(i: Index, p: Player)
    ensures Evaluate(EmptyBoard[i := Mark(p)]) == InProgress
  {
  }

  class Game {
    var board: Board
    var currentPlayer: Player
    var gameActive: bool
    var gameMode: Mode
    /** The 'disabled-cell' class, always put on or taken off all nine
        cells together. */
    var boardDisabled: bool
    var lastWinningCondition: Option<Line>

    /** While the game runs no line is completed and a cell is free; once it
        has ended the board is disabled and `lastWinningCondition` names the
        deciding line of a win. X moves first: X has as many marks as O or
        one more, and `currentPlayer` is the player to move while the game
        runs and the player who ended it afterwards. */
    ghost predicate Valid()
      reads this
    {
      (gameActive ==> Evaluate(board) == InProgress && lastWinningCondition == None) &&
      (!gameActive ==> Evaluate(board) != InProgress && boardDisabled &&
                       lastWinningCondition == WinningLineOf(Evaluate(board))) &&
      Count(board, O) <= Count(board, X) <= Count(board, O) + 1 &&
      (gameActive ==> (currentPlayer == X <==> Count(board, X) == Count(board, O))) &&
      (!gameActive ==> (currentPlayer == X <==> Count(board, X) == Count(board, O) + 1))
    }

    /** The state when the page has loaded (`initializeGame` on
        DOMContentLoaded). */
    constructor ()
      ensures Valid()
      ensures board == EmptyBoard && currentPlayer == X && gameActive
      ensures gameMode == PlayerVsPlayer && !boardDisabled && lastWinningCondition == None
    {
      board := EmptyBoard;
      currentPlayer := X;
      gameActive := true;
      gameMode := PlayerVsPlayer;
      boardDisabled := false;
      lastWinningCondition := None;
      EmptyBoardFacts();
    }

    /** `initializeGame`: nine empty cells, X to move, game running, board
        enabled; the mode is kept. */
    method InitializeGame()
      modifies this
      ensures Valid()
      ensures board == EmptyBoard && currentPlayer == X && gameActive
      ensures !boardDisabled && lastWinningCondition == None && gameMode == old(gameMode)
    {
      board := EmptyBoard;
      currentPlayer := X;
      gameActive := true;
      lastWinningCondition := None;
      boardDisabled := false;
      EmptyBoardFacts();
    }

    /** The mode selector's change handler: set the mode and start afresh. */
    method ChangeMode(mode: Mode)
      modifies this
      ensures Valid()
      ensures gameMode == mode && board == EmptyBoard && currentPlayer == X && gameActive
      ensures !boardDisabled && lastWinningCondition == None
    {
      gameMode := mode;
      InitializeGame();
    }

    /** `switchPlayer`. */
    method SwitchPlayer()
      modifies this`currentPlayer
      ensures currentPlayer == Other(old(currentPlayer))
    {
      currentPlayer := Other(currentPlayer);
    }

    /** `checkGameResult`: ends the game on the first completed line, else
        on a full board; otherwise changes nothing. */
    method CheckGameResult()
      modifies this`gameActive, this`boardDisabled, this`lastWinningCondition
      ensures Evaluate(board).Won? ==>
        !gameActive && boardDisabled && lastWinningCondition == WinningLineOf(Evaluate(board))
      ensures Evaluate(board).Drawn? ==>
        !gameActive && boardDisabled && lastWinningCondition == old(lastWinningCondition)
      ensures Evaluate(board).InProgress? ==> unchanged(this)
    {
      var roundWon := false;
      var currentWinningCondition: Option<Line> := None;
      var k := 0;
      while k < |WinningConditions|
        invariant 0 <= k <= |WinningConditions|
        invariant !roundWon && currentWinningCondition == None
        invariant forall j :: 0 <= j < k ==> !Completed(board, WinningConditions[j])
      {
        var (a, b, c) := WinningConditions[k];
        if board[a] != Empty && board[a] == board[b] && board[b] == board[c] {
          roundWon := true;
          currentWinningCondition := Some(WinningConditions[k]);
          break;
        }
        k := k + 1;
      }
      if roundWon {
        gameActive := false;
        boardDisabled := true;
        lastWinningCondition := currentWinningCondition;
        return;
      }
      if Empty !in board {
        gameActive := false;
        boardDisabled := true;
      }
    }

    /** `handleCellClick`: a click is accepted only on a free cell of a
        running, enabled board; an accepted click marks that cell for the
        current player and nothing else on the board, and the turn passes
        unless the game has ended. When the computer is to answer, the board
        is disabled until its delayed move. */
    method HandleCellClick(index: int) returns (accepted: bool)
      requires Valid()
      modifies this
      ensures Valid() && gameMode == old(gameMode)
      ensures accepted <==>
        old(gameActive) && 0 <= index < 9 && old(board)[index] == Empty && !old(boardDisabled)
      ensures !accepted ==> unchanged(this)
      ensures accepted ==> board == old(board)[index := Mark(old(currentPlayer))]
      ensures accepted ==> (gameActive <==> Evaluate(board) == InProgress)
      ensures accepted ==> currentPlayer == if gameActive then Other(old(currentPlayer)) else old(currentPlayer)
      ensures accepted ==> (boardDisabled <==> !gameActive || (gameMode == PlayerVsComputer && currentPlayer == O))
    {
      if !gameActive || !(0 <= index < 9) || board[index] != Empty || boardDisabled {
        return false;
      }
      accepted := true;
      CountAfterMark(board, index, currentPlayer);
      board := board[index := Mark(currentPlayer)];
      CheckGameResult();
      if gameActive {
        SwitchPlayer();
        if gameMode == PlayerVsComputer && currentPlayer == O {
          boardDisabled := true;
        }
      } else {
        boardDisabled := true;
      }
    }

    /** `computerMove`: nothing when the game has ended; otherwise the
        heuristic's cell is marked for the current player, the result is
        checked and the turn passes unless the game has ended. */
    method ComputerMove()
      requires Valid()
      modifies this`board, this`currentPlayer, this`gameActive, this`boardDisabled, this`lastWinningCondition
      ensures Valid()
      ensures !old(gameActive) ==> unchanged(this)
      ensures old(gameActive) ==> exists m :: HeuristicChoice(old(board), m) &&
                                              board == old(board)[m := Mark(old(currentPlayer))]
      ensures old(gameActive) ==> (gameActive <==> Evaluate(board) == InProgress)
      ensures old(gameActive) ==> currentPlayer == if gameActive then Other(old(currentPlayer)) else old(currentPlayer)
      ensures boardDisabled == (old(boardDisabled) || !gameActive)
    {
      if !gameActive {
        return;
      }
      if Empty !in board {
        return;
      }
      var bestMove := SelectMove(board);
      ghost var before := board;
      CountAfterMark(board, bestMove, currentPlayer);
      board := board[bestMove := Mark(currentPlayer)];
      CheckGameResult();
      if gameActive {
        SwitchPlayer();
      }
      assert HeuristicChoice(before, bestMove);
    }

    /** The callback the click handler schedules with `setTimeout`: the
        computer moves, then the board is enabled again if the game goes
        on. */
    method ComputerTurnAfterDelay()
      requires Valid()
      modifies this`board, this`currentPlayer, this`gameActive, this`boardDisabled, this`lastWinningCondition
      ensures Valid()
      ensures !old(gameActive) ==> unchanged(this)
      ensures old(gameActive) ==> exists m :: HeuristicChoice(old(board), m) &&
                                              board == old(board)[m := Mark(old(currentPlayer))]
      ensures old(gameActive) ==> (gameActive <==> Evaluate(board) == InProgress)
      ensures old(gameActive) ==> currentPlayer == if gameActive then Other(old(currentPlayer)) else old(currentPlayer)
      ensures boardDisabled == !gameActive
    {
      ComputerMove();
      if gameActive {
        boardDisabled := false;
      }
    }
  }

  /** A client run of the two delays the page can interleave: against the
      computer, X clicks cell 0, the board is reset before the delayed
      computer move fires, and that move then lands on the fresh board
      with the current player's mark, X, in the centre. */
  method StaleComputerMoveAfterReset()
  {
    var g := new Game();
    g.ChangeMode(PlayerVsComputer);
    var accepted := g.HandleCellClick(0);
    assert accepted && g.currentPlayer == O && g.boardDisabled;
    g.InitializeGame();
    g.ComputerTurnAfterDelay();
    forall m | HeuristicChoice(EmptyBoard, m) ensures m == Centre {
      EmptyBoardChoosesCentre(m);
    }
    assert g.board == EmptyBoard[Centre := Mark(X)];
    SingleMarkInProgress(Centre, X);
    assert g.currentPlayer == O && g.gameActive && !g.boardDisabled;
  }
}

/**
 The game screen's state machine: a click on a cell in dig or flag mode, the
 mode button, the timer, the end of a game, the mine-by-mine reveal after a
 loss, the result handed to the results screen, and starting a new game.
 */
module Game {
  import opened Grid
  import opened Minefield
  import opened Wrappers
  import JavaArith

  /** The mode button: `isPickaxeMode` true digs, false flags. */
  datatype Mode = Digging | Flagging

  /** The activity's game fields: board, mode, timer state and the two
      game-phase flags. */
  datatype Session = Session(
    board: Board,
    mode: Mode,
    timerRunning: bool,
    startTime: int,
    gameStarted: bool,
    gameOver: bool)

  /** What a click on a cell did, as the screen shows it. */
  datatype Event =
    | Ignored                           // the game is over
    | NoSuchCell                        // the view is not one of the 100 cells
    | Rejected                          // digging a flag or an open cell, flagging an open cell
    | Exploded(at: Cell)                // dug a mine: the game is lost
    | Uncovered(at: Cell, adjacent: nat) // dug a safe cell, showing its count
    | Victory(at: Cell, adjacent: nat)   // dug the last safe cell: the game is won
    | FlagPlaced(at: Cell)
    | FlagRemoved(at: Cell)

  datatype Outcome = Outcome(session: Session, event: Event)

  /** What holds of every session the game can reach: five mines, no flag on
      an open cell, at most one mine dug open, and the game is over exactly
      when a mine is open or every safe cell is, never both; a finished game
      has its timer stopped. */
  predicate Inv(s: Session)
  {
    && Valid(s.board)
    && |MineCells(s.board)| == MineCount
    && |MineCells(s.board) * RevealedCells(s.board)| <= 1
    && (s.gameOver <==> MineRevealed(s.board) || AllSafeRevealed(s.board))
    && !(MineRevealed(s.board) && AllSafeRevealed(s.board))
    && (s.gameOver ==> !s.timerRunning)
    && (s.timerRunning ==> s.gameStarted)
  }

  /** The state newGame leaves behind: a fresh board, timer stopped, game not
      started and not over. */
  predicate Fresh(s: Session)
  {
    && Valid(s.board)
    && |MineCells(s.board)| == MineCount
    && RevealedCells(s.board) == {}
    && FlaggedCells(s.board) == {}
    && !s.timerRunning && !s.gameStarted && !s.gameOver
  }

  /** The mode button flips between digging and flagging and touches nothing else. */
  function ToggleMode(s: Session): (r: Session)
    ensures r.mode != s.mode
    ensures r.(mode := s.mode) == s
  {
    s.(mode := if s.mode == Digging then Flagging else Digging)
  }

  lemma ToggleModeTwice(s: Session)
    ensures ToggleMode(ToggleMode(s)) == s
    ensures Inv(s) ==> Inv(ToggleMode(s))
  {
  }

  /** endGame: the game is over and the timer stops. */
  function EndGame(s: Session): (r: Session)
    ensures r.gameOver && !r.timerRunning
    ensures r.(gameOver := s.gameOver, timerRunning := s.timerRunning) == s
  {
    s.(gameOver := true, timerRunning := false)
  }

  /** startTimer as called on a click: starts the clock only if it is not running. */
  function StartTimerOnClick(s: Session, now: int): (r: Session)
    ensures r.timerRunning
    ensures s.timerRunning ==> r == s
    ensures !s.timerRunning ==> r.gameStarted && r.startTime == now
    ensures r.(timerRunning := s.timerRunning, startTime := s.startTime, gameStarted := s.gameStarted) == s
  {
    if !s.timerRunning then s.(timerRunning := true, startTime := now, gameStarted := true)
    else s
  }

  /** The dig branch of onClickTV on cell `c`. */
  function Dig(s: Session, c: Cell): (r: Outcome)
    requires WellFormed(s.board) && OnBoard(c)
    ensures WellFormed(r.session.board)
    ensures Valid(s.board) ==> Valid(r.session.board)
    ensures c in FlaggedCells(s.board) || c in RevealedCells(s.board) ==> r == Outcome(s, Rejected)
    ensures c !in FlaggedCells(s.board) && c !in RevealedCells(s.board) ==>
      && RevealedCells(r.session.board) == RevealedCells(s.board) + {c}
      && r.session.board.mines == s.board.mines
      && r.session.board.flagged == s.board.flagged
      && r.session.(board := s.board, gameOver := s.gameOver, timerRunning := s.timerRunning) == s
      && (r.event == Exploded(c) <==> c in MineCells(s.board))
      && (c !in MineCells(s.board) && !AllSafeRevealed(r.session.board) ==>
            r.event == Uncovered(c, |AdjacentMines(s.board, c)|))
      && (c !in MineCells(s.board) && AllSafeRevealed(r.session.board) ==>
            r.event == Victory(c, |AdjacentMines(s.board, c)|))
      && (r.session.gameOver <==>
            s.gameOver || c in MineCells(s.board) || AllSafeRevealed(r.session.board))
      && (r.session.timerRunning <==>
            s.timerRunning && c !in MineCells(s.board) && !AllSafeRevealed(r.session.board))
  {
    if Get(s.board.flagged, c) then Outcome(s, Rejected)
    else if Get(s.board.revealed, c) then Outcome(s, Rejected)
    else
      var b := Reveal(s.board, c);
      if IsMine(b, c.row, c.col) then Outcome(EndGame(s.(board := b)), Exploded(c))
      else
        var adjacent := |AdjacentMines(b, c)|;
        if AllSafeRevealed(b) then Outcome(EndGame(s.(board := b)), Victory(c, adjacent))
        else Outcome(s.(board := b), Uncovered(c, adjacent))
  }

  /** The flag branch of onClickTV on cell `c`. */
  function FlagClick(s: Session, c: Cell): (r: Outcome)
    requires WellFormed(s.board) && OnBoard(c)
    ensures WellFormed(r.session.board)
    ensures Valid(s.board) ==> Valid(r.session.board)
    ensures c in RevealedCells(s.board) ==> r == Outcome(s, Rejected)
    ensures c !in RevealedCells(s.board) ==>
      && r.session.(board := s.board) == s
      && r.session.board.mines == s.board.mines
      && r.session.board.revealed == s.board.revealed
      && (c in FlaggedCells(s.board) ==>
            FlaggedCells(r.session.board) == FlaggedCells(s.board) - {c} && r.event == FlagRemoved(c))
      && (c !in FlaggedCells(s.board) ==>
            FlaggedCells(r.session.board) == FlaggedCells(s.board) + {c} && r.event == FlagPlaced(c))
  {
    if Get(s.board.revealed, c) then Outcome(s, Rejected)
    else
      var event := if Get(s.board.flagged, c) then FlagRemoved(c) else FlagPlaced(c);
      Outcome(s.(board := ToggleFlag(s.board, c)), event)
  }

  /** Flagging a hidden cell twice gives back the session. */
  lemma FlagClickTwice(s: Session, c: Cell)
    requires WellFormed(s.board) && OnBoard(c)
    requires c !in RevealedCells(s.board)
    ensures FlagClick(FlagClick(s, c).session, c).session == s
  {
    ToggleFlagTwice(s.board, c);
  }

  /** onClickTV for the view with index `n` (the index is -1 for a view that
      is not a cell) at clock time `now`. */
  function Click(s: Session, n: int, now: int): (r: Outcome)
    requires WellFormed(s.board)
    ensures WellFormed(r.session.board)
    ensures Valid(s.board) ==> Valid(r.session.board)
    ensures s.gameOver ==> r == Outcome(s, Ignored)
    ensures !s.gameOver ==>
      && r.session.gameStarted == (s.gameStarted || !s.timerRunning)
      && r.session.mode == s.mode
      && r.session.startTime == (if s.timerRunning then s.startTime else now)
      && (r.session.timerRunning <==> !r.session.gameOver)
    ensures !s.gameOver && !(0 <= n < CellTotal) ==>
      r.event == NoSuchCell && r.session.board == s.board && !r.session.gameOver
    ensures !s.gameOver && 0 <= n < CellTotal && s.mode == Flagging ==>
      && r.session.board.mines == s.board.mines
      && r.session.board.revealed == s.board.revealed
      && !r.session.gameOver
    ensures !s.gameOver && 0 <= n < CellTotal && s.mode == Digging ==>
      && r.session.board.mines == s.board.mines
      && r.session.board.flagged == s.board.flagged
      && RevealedCells(r.session.board) <= RevealedCells(s.board) + {CellAt(n)}
    ensures !s.gameOver && 0 <= n < CellTotal && s.mode == Digging ==>
      var c := CellAt(n);
      && (c in FlaggedCells(s.board) || c in RevealedCells(s.board) ==>
            r.event == Rejected && r.session.board == s.board && !r.session.gameOver)
      && (c !in FlaggedCells(s.board) && c !in RevealedCells(s.board) ==>
            && RevealedCells(r.session.board) == RevealedCells(s.board) + {c}
            && (r.event == Exploded(c) <==> c in MineCells(s.board))
            && (c !in MineCells(s.board) && !AllSafeRevealed(r.session.board) ==>
                  r.event == Uncovered(c, |AdjacentMines(s.board, c)|))
            && (c !in MineCells(s.board) && AllSafeRevealed(r.session.board) ==>
                  r.event == Victory(c, |AdjacentMines(s.board, c)|))
            && (r.session.gameOver <==> c in MineCells(s.board) || AllSafeRevealed(r.session.board)))
    ensures !s.gameOver && 0 <= n < CellTotal && s.mode == Flagging ==>
      var c := CellAt(n);
      && (c in RevealedCells(s.board) ==> r.event == Rejected && r.session.board == s.board)
      && (c !in RevealedCells(s.board) && c in FlaggedCells(s.board) ==>
            FlaggedCells(r.session.board) == FlaggedCells(s.board) - {c} && r.event == FlagRemoved(c))
      && (c !in RevealedCells(s.board) && c !in FlaggedCells(s.board) ==>
            FlaggedCells(r.session.board) == FlaggedCells(s.board) + {c} && r.event == FlagPlaced(c))
  {
    if s.gameOver then Outcome(s, Ignored)
    else
      var started := StartTimerOnClick(s, now);
      if n < 0 || n >= CellTotal then Outcome(started, NoSuchCell)
      else
        var c := CellAt(n);
        match started.mode
        case Digging => Dig(started, c)
        case Flagging => FlagClick(started, c)
  }

  /** Flag mode: clicking the same hidden cell twice restores the board. */
  lemma ClickFlagTwice(s: Session, n: int, t1: int, t2: int)
    requires WellFormed(s.board) && !s.gameOver && s.mode == Flagging
    requires 0 <= n < CellTotal && CellAt(n) !in RevealedCells(s.board)
    ensures Click(Click(s, n, t1).session, n, t2).session.board == s.board
  {
    var c := CellAt(n);
    var started := StartTimerOnClick(s, t1);
    FlagClickTwice(started, c);
  }

  /** Dig mode on a flagged cell: the click starts the clock but the board
      does not change, and the flag stays. */
  lemma DigFlaggedRejected(s: Session, n: int, now: int)
    requires Valid(s.board) && !s.gameOver && s.mode == Digging
    requires 0 <= n < CellTotal && CellAt(n) in FlaggedCells(s.board)
    ensures Click(s, n, now) == Outcome(StartTimerOnClick(s, now), Rejected)
    ensures CellAt(n) in FlaggedCells(Click(s, n, now).session.board)
    ensures CellAt(n) !in RevealedCells(Click(s, n, now).session.board)
  {
  }

  /** Every click keeps the invariant (for the mode flip see ToggleModeTwice). */
  lemma ClickPreservesInv(s: Session, n: int, now: int)
    requires Inv(s)
    ensures Inv(Click(s, n, now).session)
  {
    if !s.gameOver && 0 <= n < CellTotal && s.mode == Digging {
      var started := StartTimerOnClick(s, now);
      var c := CellAt(n);
      if c !in FlaggedCells(s.board) && c !in RevealedCells(s.board) {
        DigPreservesInv(started, c);
      }
    }
  }

  lemma DigPreservesInv(s: Session, c: Cell)
    requires Inv(s) && !s.gameOver && s.timerRunning && OnBoard(c)
    requires c !in FlaggedCells(s.board) && c !in RevealedCells(s.board)
    ensures Inv(Dig(s, c).session)
  {
    var b := s.board;
    var b' := Dig(s, c).session.board;
    var m := MineCells(b);
    assert m * RevealedCells(b) == {};
    assert MineCells(b') == m;
    if c in m {
      assert m * RevealedCells(b') == {c};
      assert AllCells() - m <= RevealedCells(b') <==> AllCells() - m <= RevealedCells(b);
    } else {
      assert m * RevealedCells(b') == {};
    }
  }

  /** Digging a hidden mine: the click explodes, the game is over, the one
      open mine is the one just dug, and the board is not won. */
  lemma ExplodedEndsLost(s: Session, n: int, now: int)
    requires Inv(s) && !s.gameOver && s.mode == Digging && 0 <= n < CellTotal
    requires CellAt(n) in MineCells(s.board) && CellAt(n) !in FlaggedCells(s.board)
    ensures var r := Click(s, n, now);
      && r.event == Exploded(CellAt(n))
      && r.session.gameOver
      && MineCells(r.session.board) * RevealedCells(r.session.board) == {CellAt(n)}
      && !AllSafeRevealed(r.session.board)
  {
    ClickPreservesInv(s, n, now);
    var r := Click(s, n, now);
    var c := CellAt(n);
    assert MineCells(s.board) * RevealedCells(s.board) == {};
    NotInDisjoint(MineCells(s.board), RevealedCells(s.board), c);
    var started := StartTimerOnClick(s, now);
    assert started.board == s.board;
    assert r == Dig(started, c);
    assert r.event == Exploded(c);
    assert c in MineCells(r.session.board) * RevealedCells(r.session.board);
    OneElement(MineCells(r.session.board) * RevealedCells(r.session.board), c);
  }

  lemma NotInDisjoint<T>(a: set<T>, b: set<T>, x: T)
    requires a * b == {} && x in a
    ensures x !in b
  {
    assert x !in a * b;
  }

  lemma OneElement<T>(s: set<T>, x: T)
    requires x in s && |s| <= 1
    ensures s == {x}
  {
    if s != {x} {
      assert s - {x} != {};
      var y :| y in s - {x};
      assert {x, y} <= s;
      SubsetCard({x, y}, s);
    }
  }

  /** The ordered steps of revealMineAtIndex: show the mine at the index, or
      once the list is used up, go to the results. */
  datatype RevealStep = ShowMine(at: Cell) | GoToResults

  /** The chain of delayed revealMineAtIndex calls from index `i` on: each
      call shows the mine at its index and schedules the next index, until
      the index passes the end of the list. */
  function RevealTrace(mines: seq<Cell>, i: nat): (t: seq<RevealStep>)
    ensures |t| == if i < |mines| then |mines| - i + 1 else 1
    ensures t[|t| - 1] == GoToResults
    ensures forall k :: 0 <= k < |t| - 1 ==> t[k] == ShowMine(mines[i + k])
    decreases |mines| - i
  {
    if i >= |mines| then [GoToResults]
    else [ShowMine(mines[i])] + RevealTrace(mines, i + 1)
  }

  /** After digging a hidden mine the reveal sequence shows the four other
      mines, each once, in row-major order, and then goes to the results. */
  lemma LossRevealSequence(s: Session, n: int, now: int)
    requires Inv(s) && !s.gameOver && s.mode == Digging && 0 <= n < CellTotal
    requires CellAt(n) in MineCells(s.board) && CellAt(n) !in FlaggedCells(s.board)
    ensures var r := Click(s, n, now);
      var list := MinesToReveal(r.session.board);
      var t := RevealTrace(list, 0);
      && (set c | c in list) == MineCells(r.session.board) - {CellAt(n)}
      && |list| == MineCount - 1
      && (forall i, j :: 0 <= i < j < |list| ==> IndexOf(list[i]) < IndexOf(list[j]))
      && |t| == MineCount
      && t[MineCount - 1] == GoToResults
      && (forall k :: 0 <= k < MineCount - 1 ==> t[k] == ShowMine(list[k]))
  {
    var r := Click(s, n, now);
    ExplodedEndsLost(s, n, now);
    ClickPreservesInv(s, n, now);
    HiddenMinesAfterLoss(r.session.board, r.event.at);
  }

  /** With one mine dug open, the list of mines still to show is every other mine. */
  lemma HiddenMinesAfterLoss(b: Board, c: Cell)
    requires WellFormed(b) && |MineCells(b)| == MineCount
    requires MineCells(b) * RevealedCells(b) == {c}
    ensures (set x | x in MinesToReveal(b)) == MineCells(b) - {c}
    ensures |MinesToReveal(b)| == MineCount - 1
  {
    assert MineCells(b) - RevealedCells(b) == MineCells(b) - {c};
    MinesToRevealExact(b);
    assert MineCells(b) == (MineCells(b) - {c}) + {c};
  }

  /** The elapsed time handed to the results screen: whole seconds since the
      timer started, by Java's truncating division, or 0 if it never started. */
  function ElapsedSeconds(startTime: int, now: int): (secs: int)
    ensures startTime <= 0 ==> secs == 0
    ensures startTime > 0 && now >= startTime ==>
      0 <= secs && secs * 1000 <= now - startTime < secs * 1000 + 1000
    ensures startTime > 0 && now < startTime ==>
      secs <= 0 && secs * 1000 - 1000 < now - startTime <= secs * 1000
  {
    if startTime > 0 then JavaArith.Div(now - startTime, 1000) else 0
  }

  /** The text of the timer display on one tick, or `None` when the timer is
      not running and nothing is shown. */
  function TimerTick(s: Session, now: int): (r: Option<int>)
    ensures r.Some? <==> s.timerRunning
    ensures s.timerRunning && 0 <= now - s.startTime < 1000 * (JavaArith.IntMax + 1) ==>
      0 <= r.value && r.value * 1000 <= now - s.startTime < r.value * 1000 + 1000
    ensures s.timerRunning && 1000 * JavaArith.IntMin - 1000 < now - s.startTime < 0 ==>
      r.value <= 0 && r.value * 1000 - 1000 < now - s.startTime <= r.value * 1000
  {
    if s.timerRunning then Some(JavaArith.ToInt(JavaArith.Div(now - s.startTime, 1000)))
    else None
  }

  /** What the results screen is told: won or lost, and the time in seconds. */
  datatype Results = Results(won: bool, seconds: int)

  /** showResults: the win flag is recomputed from the board, and the time
      narrowed to a Java `int`. */
  function ShowResults(s: Session, now: int): (r: Results)
    requires WellFormed(s.board)
    ensures JavaArith.IntMin <= r.seconds <= JavaArith.IntMax
    ensures s.startTime <= 0 ==> r.seconds == 0
    ensures r.won <==> forall c :: OnBoard(c) && c !in MineCells(s.board) ==> c in RevealedCells(s.board)
    ensures s.startTime > 0 && 0 <= now - s.startTime < 1000 * (JavaArith.IntMax + 1) ==>
      0 <= r.seconds && r.seconds * 1000 <= now - s.startTime < r.seconds * 1000 + 1000
    ensures s.startTime > 0 && 1000 * JavaArith.IntMin - 1000 < now - s.startTime < 0 ==>
      r.seconds <= 0 && r.seconds * 1000 - 1000 < now - s.startTime <= r.seconds * 1000
  {
    Results(AllSafeRevealed(s.board), JavaArith.ToInt(ElapsedSeconds(s.startTime, now)))
  }

  /** The recomputed result agrees with how the game ended: in a finished game
      it reports a win exactly when no mine was dug open. */
  lemma ResultsMatchEnding(s: Session, now: int)
    requires Inv(s) && s.gameOver
    ensures ShowResults(s, now).won <==> !MineRevealed(s.board)
  {
  }

  /** A click that explodes reports a loss; one that clears the board, a win. */
  lemma ClickResults(s: Session, n: int, now: int, later: int)
    requires Inv(s)
    ensures Click(s, n, now).event.Exploded? ==> !ShowResults(Click(s, n, now).session, later).won
    ensures Click(s, n, now).event.Victory? ==> ShowResults(Click(s, n, now).session, later).won
  {
    if Click(s, n, now).event.Exploded? {
      assert !s.gameOver && s.mode == Digging && 0 <= n < CellTotal;
      assert CellAt(n) in MineCells(s.board) && CellAt(n) !in FlaggedCells(s.board);
      ExplodedEndsLost(s, n, now);
    }
  }

  /** newGame: stop the timer, lay a fresh minefield, clear every cell on
      screen, and mark the game neither started nor over. The mode and the
      last start time are kept. */
  method NewGame(s: Session, draws: seq<Digit>) returns (r: Option<Session>)
    ensures r.Some? ==> Inv(r.value) && Fresh(r.value)
    ensures r.Some? ==> r.value.mode == s.mode && r.value.startTime == s.startTime
    ensures r.Some? ==> FirstFive(draws, MineCells(r.value.board))
    ensures r.None? ==> |Drawn(draws, |draws| / 2)| < MineCount
  {
    var board := InitializeMineField(draws);
    if board.None? {
      return None;
    }
    FreshBoardNotWon(board.value);
    r := Some(s.(board := board.value, timerRunning := false, gameStarted := false, gameOver := false));
  }

  /** The session when the activity is created: field defaults (dig mode, no
      start time, not started, not over) over a fresh minefield. */
  method Launch(draws: seq<Digit>) returns (r: Option<Session>)
    ensures r.Some? ==> Inv(r.value) && Fresh(r.value)
    ensures r.Some? ==> r.value.mode == Digging && r.value.startTime == 0
    ensures r.Some? ==> FirstFive(draws, MineCells(r.value.board))
    ensures r.None? ==> |Drawn(draws, |draws| / 2)| < MineCount
  {
    var board := InitializeMineField(draws);
    if board.None? {
      return None;
    }
    FreshBoardNotWon(board.value);
    r := Some(Session(board.value, Digging, false, 0, false, false));
  }
}

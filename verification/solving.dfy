/** Solver.java above the single search step: the two searches run in
    lockstep, the solution path read off the parent links, and the Solver
    object with its cached answer. The unbounded loop of runAstarInLockStep
    runs on a step budget (fuel). */
module Solving {
  import opened Wrappers
  import opened Grid
  import opened Boards
  import opened Heuristics
  import opened Search

  /** The ways a solver run ends without an answer: the Java exceptions it
      can throw, and the model's step budget running out. */
  datatype Failure =
    | IllegalArgument     // new Solver(null)
    | IndexOutOfBounds    // twin() on a 1-by-1 board
    | NoSuchElement       // min() on an empty priority queue
    | FuelExhausted       // the step budget ended before either search popped a goal

  /* ---------- One search on its own ---------- */

  /** How one search ends within a step budget: it popped a goal after
      `pops` expansions, found its queue empty after `pops` expansions, or
      is still running. */
  datatype SoloOutcome =
    | Reached(pops: nat, arena: seq<SearchNode>, node: nat)
    | Underflowed(pops: nat)
    | Pending(state: SearchState)

  predicate Ended(o: SoloOutcome) {
    !o.Pending?
  }

  /** The same outcome, one expansion later. */
  function Later(o: SoloOutcome): (r: SoloOutcome)
    ensures Ended(r) == Ended(o)
    ensures Ended(o) ==> r.pops == o.pops + 1
  {
    match o
    case Reached(p, a, x) => Reached(p + 1, a, x)
    case Underflowed(p) => Underflowed(p + 1)
    case Pending(_) => o
  }

  /** What a step result promises about the state it came from. */
  predicate Sound(s: SearchState, r: StepResult)
    requires Indexed(s)
  {
    && (r.Underflow? <==> |s.queue| == 0)
    && (r.Expanded? ==> Indexed(r.next))
    && (r.GoalPopped? ==> r.node < |s.arena| && IsGoal(s.arena[r.node].board))
  }

  /** A step function applies to every indexed state and keeps its
      promises. The runs below take the step as a parameter; the solver
      passes Search.Step, which behaves (StepBehaves). */
  ghost predicate Behaves(step: SearchState --> StepResult) {
    forall s :: Indexed(s) ==> step.requires(s) && Sound(s, step(s))
  }

  lemma StepBehaves()
    ensures Behaves(Step)
  {
  }

  /** One search left to itself for at most fuel steps. */
  function RunSolo(step: SearchState --> StepResult, s: SearchState, fuel: nat): (r: SoloOutcome)
    requires Behaves(step) && Indexed(s)
    ensures Ended(r) ==> r.pops < fuel
    ensures r.Reached? ==> ArenaSquare(r.arena) && r.node < |r.arena| && IsGoal(r.arena[r.node].board)
    ensures r.Pending? ==> Indexed(r.state)
    decreases fuel
  {
    if fuel == 0 then Pending(s)
    else
      match step(s)
      case Underflow => Underflowed(0)
      case GoalPopped(x) => Reached(0, s.arena, x)
      case Expanded(next) => Later(RunSolo(step, next, fuel - 1))
  }

  /* ---------- Two searches in lockstep ---------- */

  datatype LockstepOutcome =
    | GameGoal(arena: seq<SearchNode>, node: nat)   // the game search popped a goal: solvable
    | TwinGoal                                      // the twin search popped a goal: unsolvable
    | QueueEmpty                                    // a search found its queue empty
    | OutOfSteps                                    // the step budget ended

  /** The while (true) loop of runAstarInLockStep for at most fuel steps.
      The search whose turn it is (the mover) takes one step, then the
      other search (waiting) becomes the mover; moverIsGame says whether
      the mover is the game search. The loop starts with the game search. */
  function Lockstep(step: SearchState --> StepResult, mover: SearchState, waiting: SearchState, moverIsGame: bool, fuel: nat): (r: LockstepOutcome)
    requires Behaves(step) && Indexed(mover) && Indexed(waiting)
    ensures r.GameGoal? ==> ArenaSquare(r.arena) && r.node < |r.arena| && IsGoal(r.arena[r.node].board)
    decreases fuel
  {
    if fuel == 0 then OutOfSteps
    else
      match step(mover)
      case Underflow => QueueEmpty
      case GoalPopped(x) => if moverIsGame then GameGoal(mover.arena, x) else TwinGoal
      case Expanded(next) => Lockstep(step, waiting, next, !moverIsGame, fuel - 1)
  }

  /** What a search's ending means for the lockstep loop. */
  function Resolve(o: SoloOutcome, isGame: bool): LockstepOutcome
    requires Ended(o)
  {
    match o
    case Reached(_, a, x) => if isGame then GameGoal(a, x) else TwinGoal
    case Underflowed(_) => QueueEmpty
  }

  /** Two independent searches merged in strict alternation, `first`
      moving first: its k-th step comes before the other's k-th step. The
      search whose ending comes first in that order decides. */
  function Interleave(first: SoloOutcome, second: SoloOutcome, firstIsGame: bool): LockstepOutcome {
    if Ended(first) && (!Ended(second) || first.pops <= second.pops) then Resolve(first, firstIsGame)
    else if Ended(second) then Resolve(second, !firstIsGame)
    else OutOfSteps
  }

  lemma InterleaveLater(a: SoloOutcome, b: SoloOutcome, firstIsGame: bool)
    ensures Interleave(Later(a), b, firstIsGame) == Interleave(b, a, !firstIsGame)
  {
  }

  /** A search that ends on its first step decides at once. */
  lemma InterleaveAtOnce(a: SoloOutcome, b: SoloOutcome, firstIsGame: bool)
    requires Ended(a) && a.pops == 0
    ensures Interleave(a, b, firstIsGame) == Resolve(a, firstIsGame)
  {
  }

  /** The lockstep loop is exactly the alternation of two searches that
      never see each other: in now + later steps the mover takes now steps
      and the waiting search later steps (now is later or later + 1), and
      the first of them to pop a goal (or to find its queue empty),
      counting the searches' steps in turn order, decides the answer. */
  lemma {:induction false} LockstepInterleaves(
    step: SearchState --> StepResult, mover: SearchState, waiting: SearchState, moverIsGame: bool, now: nat, later: nat)
    requires Behaves(step) && Indexed(mover) && Indexed(waiting)
    requires now == later || now == later + 1
    ensures Lockstep(step, mover, waiting, moverIsGame, now + later) ==
              Interleave(RunSolo(step, mover, now), RunSolo(step, waiting, later), moverIsGame)
    decreases now + later
  {
    if now + later > 0 {
      var a := RunSolo(step, mover, now);
      match step(mover)
      case Underflow =>
        assert a == Underflowed(0);
        InterleaveAtOnce(a, RunSolo(step, waiting, later), moverIsGame);
      case GoalPopped(x) =>
        assert a == Reached(0, mover.arena, x);
        InterleaveAtOnce(a, RunSolo(step, waiting, later), moverIsGame);
      case Expanded(next) =>
        var rest := RunSolo(step, next, now - 1);
        var b := RunSolo(step, waiting, later);
        assert a == Later(rest);
        assert Lockstep(step, mover, waiting, moverIsGame, now + later) ==
               Lockstep(step, waiting, next, !moverIsGame, later + (now - 1));
        LockstepInterleaves(step, waiting, next, !moverIsGame, later, now - 1);
        InterleaveLater(rest, b, moverIsGame);
    } else {
      assert RunSolo(step, mover, now) == Pending(mover) && RunSolo(step, waiting, later) == Pending(waiting);
    }
  }

  /** Expanding keeps every search arena a tree rooted at its first board. */
  ghost predicate KeepsTree(step: SearchState --> StepResult)
    requires Behaves(step)
  {
    forall s, root :: Indexed(s) && IsTree(s.arena, root) && step(s).Expanded? ==> IsTree(step(s).next.arena, root)
  }

  lemma StepKeepsTree()
    ensures Behaves(Step) && KeepsTree(Step)
  {
    forall s, root | Indexed(s) && IsTree(s.arena, root) && Step(s).Expanded?
      ensures IsTree(Step(s).next.arena, root)
    {
      ExpansionPreservesTree(s, Step(s).next, root);
    }
  }

  /** The game search's arena stays a search tree rooted at its initial
      board, so a goal it pops has a parent chain back to that board. */
  lemma {:induction false} LockstepKeepsTree(
    step: SearchState --> StepResult, mover: SearchState, waiting: SearchState, moverIsGame: bool, fuel: nat, root: Board)
    requires Behaves(step) && KeepsTree(step) && Indexed(mover) && Indexed(waiting)
    requires IsTree((if moverIsGame then mover else waiting).arena, root)
    ensures Lockstep(step, mover, waiting, moverIsGame, fuel).GameGoal? ==>
              IsTree(Lockstep(step, mover, waiting, moverIsGame, fuel).arena, root)
    decreases fuel
  {
    if fuel > 0 {
      match step(mover)
      case Underflow =>
      case GoalPopped(_) =>
      case Expanded(next) =>
        LockstepKeepsTree(step, waiting, next, !moverIsGame, fuel - 1, root);
    }
  }

  /** On valid n-by-n boards an expansion keeps the boards valid and does
      not shrink the queue. */
  ghost predicate KeepsQueue(step: SearchState --> StepResult, n: nat)
    requires Behaves(step)
  {
    forall s :: Indexed(s) && AllValid(s.arena, n) && step(s).Expanded? ==>
      AllValid(step(s).next.arena, n) && |step(s).next.queue| >= |s.queue|
  }

  lemma StepKeepsQueue(n: nat)
    requires n >= 2
    ensures Behaves(Step) && KeepsQueue(Step, n)
  {
    forall s | Indexed(s) && AllValid(s.arena, n) && Step(s).Expanded?
      ensures AllValid(Step(s).next.arena, n) && |Step(s).next.queue| >= |s.queue|
    {
      ExpansionPushes(s, Step(s).next, n);
      ExpansionPreservesValid(s, Step(s).next, n);
    }
  }

  /** With valid boards and a node in each queue, neither queue ever runs
      empty when expansions never shrink a queue. */
  lemma {:induction false} LockstepNeverUnderflows(
    step: SearchState --> StepResult, mover: SearchState, waiting: SearchState, moverIsGame: bool, fuel: nat, n: nat)
    requires Behaves(step) && KeepsQueue(step, n) && Indexed(mover) && Indexed(waiting)
    requires AllValid(mover.arena, n) && AllValid(waiting.arena, n)
    requires |mover.queue| >= 1 && |waiting.queue| >= 1
    ensures !Lockstep(step, mover, waiting, moverIsGame, fuel).QueueEmpty?
    decreases fuel
  {
    if fuel > 0 {
      match step(mover)
      case Underflow =>
      case GoalPopped(_) =>
      case Expanded(next) =>
        LockstepNeverUnderflows(step, waiting, next, !moverIsGame, fuel - 1, n);
    }
  }

  /* ---------- The solution path ---------- */

  /** Consecutive boards are one slide apart: each board after the first
      is a neighbour of the board before it. */
  predicate IsPath(p: seq<Board>)
    decreases |p|
  {
    |p| <= 1 || (IsSquare(p[0].tiles) && p[1] in Neighbors(p[0]) && IsPath(p[1..]))
  }

  /** populateMovesStack: push the boards of node, its parent, its
      grandparent, ... up to the root onto stack (a sequence whose front is
      the top). Iterated from the top, the stack reads root first. */
  function PopulateMovesStack(arena: seq<SearchNode>, node: nat, stack: seq<Board>): (r: seq<Board>)
    requires Rooted(arena) && node < |arena|
    ensures |r| == arena[node].moves + 1 + |stack|
    ensures r[0] == arena[0].board
    ensures r[arena[node].moves] == arena[node].board
    ensures r[arena[node].moves + 1..] == stack
    decreases node
  {
    match arena[node].parent
    case None =>
      assert node == 0 by {
        assert node != 0 ==> Linked(arena, node);
      }
      Push(stack, arena[node].board)
    case Some(p) =>
      assert Linked(arena, node);
      PopulateMovesStack(arena, p, Push(stack, arena[node].board))
  }

  /** Pushing the boards of a node and its ancestors onto a stack that
      is already a path from a neighbour of the node's board leaves a path:
      read from the top, the boards go root first, one slide at a time. */
  lemma {:induction false} PopulatedIsPath(arena: seq<SearchNode>, node: nat, stack: seq<Board>)
    requires |arena| >= 1 && IsTree(arena, arena[0].board) && node < |arena|
    requires IsPath(stack) && (stack == [] || stack[0] in Neighbors(arena[node].board))
    ensures IsPath(PopulateMovesStack(arena, node, stack))
    decreases node
  {
    var pushed := Push(stack, arena[node].board);
    assert pushed[1..] == stack;
    assert IsSquare(arena[node].board.tiles);
    assert IsPath(pushed);
    match arena[node].parent
    case None =>
      assert node == 0 by {
        assert node != 0 ==> Linked(arena, node);
      }
    case Some(p) =>
      assert ChildOf(arena, node) by {
        assert node != 0 ==> ChildOf(arena, node);
        assert node != 0;
      }
      PopulatedIsPath(arena, p, pushed);
  }

  /* ---------- A complete run ---------- */

  /** What runAstarInLockStep leaves behind: its answer, and the moves
      and movesStack fields it sets on success. */
  datatype Outcome = Outcome(solvable: bool, moves: nat, path: seq<Board>)

  /** Board.twin as the source calls it: for a 1-by-1 board the row index
      (or column 1) lies outside the grid and the call throws. */
  function TwinAsWritten(b: Board): (r: Result<Board, Failure>)
    requires IsSquare(b.tiles)
    ensures r.Failure? <==> |b.tiles| < 2
    ensures r.Success? ==> r.value == Twin(b)
  {
    if TwinRow(b) >= |b.tiles| || 1 >= |b.tiles| then Failure(IndexOutOfBounds)
    else Success(Twin(b))
  }

  /** The board the twin search starts from: the twin when the board has
      two rows, and otherwise the board itself, which for a valid 1-by-1
      board is the goal, so the game search that moves first decides. */
  function TwinRoot(b: Board): (r: Board)
    requires Valid(b)
    ensures Valid(r) && |r.tiles| == |b.tiles|
    ensures |b.tiles| >= 2 ==> r == Twin(b) && TwinAsWritten(b) == Success(r)
  {
    if |b.tiles| >= 2 then
      TwinSwapsTwoTiles(b);
      Twin(b)
    else b
  }

  /** The outcome of the lockstep loop as the solver records it. */
  function Record(o: LockstepOutcome): (r: Result<Outcome, Failure>)
    requires o.GameGoal? ==> |o.arena| >= 1 && IsTree(o.arena, o.arena[0].board) && o.node < |o.arena|
    ensures r.Success? <==> o.GameGoal? || o.TwinGoal?
    ensures r.Success? ==> (r.value.solvable <==> o.GameGoal?)
    ensures o.TwinGoal? ==> r.value.moves == 0 && r.value.path == []
    ensures o.GameGoal? ==>
              && r.value.moves == o.arena[o.node].moves
              && |r.value.path| == r.value.moves + 1
              && r.value.path[0] == o.arena[0].board
              && r.value.path[r.value.moves] == o.arena[o.node].board
              && IsPath(r.value.path)
  {
    match o
    case GameGoal(arena, x) =>
      var p := PopulateMovesStack(arena, x, []);
      PopulatedIsPath(arena, x, []);
      Success(Outcome(true, arena[x].moves, p))
    case TwinGoal => Success(Outcome(false, 0, []))
    case QueueEmpty => Failure(NoSuchElement)
    case OutOfSteps => Failure(FuelExhausted)
  }

  /** The lockstep loop from the two start states, as recorded: a game
      goal yields a path of slides from the initial board to a goal. */
  function RunWith(step: SearchState --> StepResult, initial: Board, twinRoot: Board, fuel: nat): (r: Result<Outcome, Failure>)
    requires Behaves(step) && KeepsTree(step) && IsSquare(initial.tiles) && IsSquare(twinRoot.tiles)
    ensures r.Success? && !r.value.solvable ==> r.value.moves == 0 && r.value.path == []
    ensures r.Success? && r.value.solvable ==>
              && |r.value.path| == r.value.moves + 1
              && r.value.path[0] == initial
              && IsSquare(r.value.path[r.value.moves].tiles)
              && IsGoal(r.value.path[r.value.moves])
              && IsPath(r.value.path)
    ensures (r.Success? && r.value.solvable) <==> Lockstep(step, Start(initial), Start(twinRoot), true, fuel).GameGoal?
    ensures r == Failure(NoSuchElement) <==> Lockstep(step, Start(initial), Start(twinRoot), true, fuel).QueueEmpty?
  {
    var o := Lockstep(step, Start(initial), Start(twinRoot), true, fuel);
    LockstepKeepsTree(step, Start(initial), Start(twinRoot), true, fuel, initial);
    Record(o)
  }

  /** runAstarInLockStep as the source writes it: the twin is built before
      either search moves. */
  function RunAStarAsWritten(initial: Board, fuel: nat): (r: Result<Outcome, Failure>)
    requires Valid(initial)
    ensures |initial.tiles| < 2 ==> r == Failure(IndexOutOfBounds)
    ensures r.Success? && !r.value.solvable ==> r.value.moves == 0 && r.value.path == []
    ensures r.Success? && r.value.solvable ==>
              && |r.value.path| == r.value.moves + 1
              && r.value.path[0] == initial
              && IsSquare(r.value.path[r.value.moves].tiles)
              && IsGoal(r.value.path[r.value.moves])
              && IsPath(r.value.path)
  {
    match TwinAsWritten(initial)
    case Failure(e) => Failure(e)
    case Success(twin) =>
      TwinSwapsTwoTiles(initial);
      StepKeepsTree();
      RunWith(Step, initial, twin, fuel)
  }

  /** runAstarInLockStep with the 1-by-1 case repaired: the twin search
      starts from TwinRoot. Same as the source for every board with two or
      more rows. */
  function RunAStar(initial: Board, fuel: nat): (r: Result<Outcome, Failure>)
    requires Valid(initial)
    ensures r.Success? && !r.value.solvable ==> r.value.moves == 0 && r.value.path == []
    ensures r.Success? && r.value.solvable ==>
              && |r.value.path| == r.value.moves + 1
              && r.value.path[0] == initial
              && IsSquare(r.value.path[r.value.moves].tiles)
              && IsGoal(r.value.path[r.value.moves])
              && IsPath(r.value.path)
  {
    StepKeepsTree();
    RunWith(Step, initial, TwinRoot(initial), fuel)
  }

  /** For every board the source can handle, the repaired run is the
      source's run. */
  lemma RunAStarMatchesSource(initial: Board, fuel: nat)
    requires Valid(initial) && |initial.tiles| >= 2
    ensures RunAStar(initial, fuel) == RunAStarAsWritten(initial, fuel)
  {
  }

  /** The game search wins the alternation exactly when it pops a goal
      no later than the twin search ends. */
  lemma InterleaveGameGoal(g: SoloOutcome, t: SoloOutcome)
    ensures Interleave(g, t, true).GameGoal? <==> g.Reached? && (!Ended(t) || g.pops <= t.pops)
  {
  }

  /** The answer of a run depends only on the two searches run alone. */
  lemma RunWithSolvableIffGameFirst(step: SearchState --> StepResult, initial: Board, twinRoot: Board, fuel: nat)
    requires Behaves(step) && KeepsTree(step) && IsSquare(initial.tiles) && IsSquare(twinRoot.tiles)
    ensures var g := RunSolo(step, Start(initial), (fuel + 1) / 2);
            var t := RunSolo(step, Start(twinRoot), fuel / 2);
            (RunWith(step, initial, twinRoot, fuel).Success? && RunWith(step, initial, twinRoot, fuel).value.solvable)
            <==> g.Reached? && (!Ended(t) || g.pops <= t.pops)
  {
    var g := RunSolo(step, Start(initial), (fuel + 1) / 2);
    var t := RunSolo(step, Start(twinRoot), fuel / 2);
    LockstepInterleaves(step, Start(initial), Start(twinRoot), true, (fuel + 1) / 2, fuel / 2);
    assert (fuel + 1) / 2 + fuel / 2 == fuel;
    InterleaveGameGoal(g, t);
  }

  /** isSolvable answers true exactly when the game search, run alone,
      pops a goal no later (counting steps game-first) than the twin search
      run alone pops a goal or finds its queue empty. */
  lemma SolvableIffGameFirst(initial: Board, fuel: nat)
    requires Valid(initial)
    ensures Behaves(Step)
    ensures var g := RunSolo(Step, Start(initial), (fuel + 1) / 2);
            var t := RunSolo(Step, Start(TwinRoot(initial)), fuel / 2);
            (RunAStar(initial, fuel).Success? && RunAStar(initial, fuel).value.solvable)
            <==> g.Reached? && (!Ended(t) || g.pops <= t.pops)
  {
    StepKeepsTree();
    RunWithSolvableIffGameFirst(Step, initial, TwinRoot(initial), fuel);
  }

  /** With valid boards of dimension two or more on both sides, a run
      never finds a queue empty. */
  lemma RunWithNeverUnderflows(step: SearchState --> StepResult, initial: Board, twinRoot: Board, fuel: nat, n: nat)
    requires Behaves(step) && KeepsTree(step) && KeepsQueue(step, n)
    requires Valid(initial) && Valid(twinRoot) && |initial.tiles| == n && |twinRoot.tiles| == n
    ensures RunWith(step, initial, twinRoot, fuel) != Failure(NoSuchElement)
  {
    LockstepNeverUnderflows(step, Start(initial), Start(twinRoot), true, fuel, n);
  }

  /** For a valid board of dimension two or more the run never throws
      NoSuchElementException. */
  lemma RunNeverUnderflows(initial: Board, fuel: nat)
    requires Valid(initial) && |initial.tiles| >= 2
    ensures RunAStar(initial, fuel) != Failure(NoSuchElement)
  {
    StepKeepsTree();
    StepKeepsQueue(|initial.tiles|);
    RunWithNeverUnderflows(Step, initial, TwinRoot(initial), fuel, |initial.tiles|);
  }

  /* ---------- The Solver object ---------- */

  /** The fields of a Solver: the initial board, whether the search has
      been attempted, the cached answer, and what a successful search set. */
  datatype Solver = Solver(initial: Board, attempted: bool, cachedIsSolvable: bool, moves: nat, movesStack: seq<Board>)

  /** isSolvable: the cached answer once attempted, otherwise run the
      search as the source writes it and record its answer, moves and
      solution. Returns the answer and the updated solver. */
  function IsSolvable(s: Solver, fuel: nat): (r: Result<(bool, Solver), Failure>)
    requires Valid(s.initial)
    ensures s.attempted ==> r == Success((s.cachedIsSolvable, s))
    ensures !s.attempted && RunAStarAsWritten(s.initial, fuel).Failure? ==> r == Failure(RunAStarAsWritten(s.initial, fuel).error)
    ensures !s.attempted && RunAStarAsWritten(s.initial, fuel).Success? ==>
              var o := RunAStarAsWritten(s.initial, fuel).value;
              && r.Success?
              && r.value.0 == o.solvable
              && r.value.1.moves == o.moves
              && r.value.1.movesStack == o.path
    ensures r.Success? ==>
              && r.value.1.attempted
              && r.value.1.initial == s.initial
              && r.value.1.cachedIsSolvable == r.value.0
  {
    if s.attempted then Success((s.cachedIsSolvable, s))
    else
      match RunAStarAsWritten(s.initial, fuel)
      case Failure(e) => Failure(e)
      case Success(o) =>
        Success((o.solvable, s.(attempted := true, cachedIsSolvable := o.solvable, moves := o.moves, movesStack := o.path)))
  }

  /** Asking again returns the cached answer and changes nothing, whatever
      the step budget. */
  lemma IsSolvableIdempotent(s: Solver, fuel1: nat, fuel2: nat)
    requires Valid(s.initial)
    ensures IsSolvable(s, fuel1).Success? ==>
              IsSolvable(IsSolvable(s, fuel1).value.1, fuel2) == IsSolvable(s, fuel1)
  {
  }

  /** new Solver(initial): null is rejected with IllegalArgumentException;
      otherwise the search runs once, in the constructor. */
  function Create(initial: Option<Board>, fuel: nat): (r: Result<Solver, Failure>)
    requires initial.Some? ==> Valid(initial.value)
    ensures initial.None? ==> r == Failure(IllegalArgument)
    ensures initial.Some? && |initial.value.tiles| < 2 ==> r == Failure(IndexOutOfBounds)
    ensures r.Success? ==> initial.Some? && r.value.initial == initial.value && r.value.attempted
  {
    match initial
    case None => Failure(IllegalArgument)
    case Some(b) =>
      match IsSolvable(Solver(b, false, false, 0, []), fuel)
      case Failure(e) => Failure(e)
      case Success((_, s)) => Success(s)
  }

  /** Solver.moves. */
  function Moves(s: Solver): int {
    s.moves
  }

  /** Solver.solution: the moves stack, iterated from the top. */
  function Solution(s: Solver): seq<Board> {
    s.movesStack
  }

  /** A constructed solver that answers solvable holds a solution of
      moves() slides: it starts at the initial board, ends at a goal
      board, and each board is a neighbour of the one before; one that
      answers unsolvable keeps moves() at 0 and an empty solution. */
  lemma CreatedSolution(initial: Board, fuel: nat)
    requires Valid(initial)
    ensures Create(Some(initial), fuel).Success? ==>
            var s := Create(Some(initial), fuel).value;
            && (s.cachedIsSolvable ==>
                  && |Solution(s)| == Moves(s) + 1
                  && Solution(s)[0] == initial
                  && IsSquare(Solution(s)[Moves(s)].tiles)
                  && IsGoal(Solution(s)[Moves(s)])
                  && IsPath(Solution(s)))
            && (!s.cachedIsSolvable ==> Moves(s) == 0 && Solution(s) == [])
  {
  }

  /** A 1-by-1 board makes the source throw while building the twin, so
      its constructor throws too. */
  lemma OneByOneThrows(fuel: nat)
    ensures RunAStarAsWritten(Board([[0]]), fuel) == Failure(IndexOutOfBounds)
    ensures Create(Some(Board([[0]])), fuel) == Failure(IndexOutOfBounds)
  {
    assert Valid(Board([[0]]));
  }

  /** When the game search pops its root at once, the run answers
      solvable with zero moves and the root alone as its solution. */
  lemma RunWithRootGoal(step: SearchState --> StepResult, initial: Board, twinRoot: Board, fuel: nat)
    requires Behaves(step) && KeepsTree(step) && IsSquare(initial.tiles) && IsSquare(twinRoot.tiles)
    requires fuel >= 1 && step(Start(initial)).GoalPopped?
    ensures RunWith(step, initial, twinRoot, fuel) == Success(Outcome(true, 0, [initial]))
  {
    var r := RunWith(step, initial, twinRoot, fuel);
    assert r.Success? && r.value.solvable;
    assert r.value.moves == 0;
    assert r.value.path == [initial];
  }

  /** With the repair, a 1-by-1 board is solved in zero moves, its
      solution being the board alone. */
  lemma OneByOneSolved(b: Board, fuel: nat)
    requires Valid(b) && |b.tiles| == 1 && fuel >= 1
    ensures RunAStar(b, fuel) == Success(Outcome(true, 0, [b]))
  {
    var t := b.tiles;
    assert t[0][0] == 0;
    assert RowSum(t, 0, 1, Count) == 0;
    assert Hamming(b) == GridSum(t, 1, Count) == 0;
    StepKeepsTree();
    assert Step(Start(b)).GoalPopped?;
    RunWithRootGoal(Step, b, TwinRoot(b), fuel);
  }
}

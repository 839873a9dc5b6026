/** One A* search of Solver.java: the search nodes, the ByManhattanPriority
    comparator, the priority queue, and one expansion step. The nodes live
    in an arena (a sequence indexed by creation order) and refer to their
    parent by index; the priority queue holds arena indices. */
module Search {
  import opened Wrappers
  import opened Grid
  import opened Boards
  import opened Heuristics

  /** Solver.SearchNode: a board, the moves made from the initial board to
      reach it, and the arena index of the node it was generated from. */
  datatype SearchNode = SearchNode(board: Board, moves: nat, parent: Option<nat>)

  predicate SquareNode(x: SearchNode) {
    IsSquare(x.board.tiles)
  }

  /** The A* priority: moves so far plus the Manhattan distance. */
  function Priority(x: SearchNode): int
    requires SquareNode(x)
  {
    Manhattan(x.board) + x.moves
  }

  /** ByManhattanPriority.compare: by priority, ties broken by the lower
      Hamming distance. */
  function Compare(a: SearchNode, b: SearchNode): (r: int)
    requires SquareNode(a) && SquareNode(b)
    ensures r == -1 || r == 0 || r == 1
    ensures r == 0 <==> Priority(a) == Priority(b) && Hamming(a.board) == Hamming(b.board)
    ensures r == -1 <==>
              Priority(a) < Priority(b) || (Priority(a) == Priority(b) && Hamming(a.board) < Hamming(b.board))
  {
    var priority1 := Manhattan(a.board) + a.moves;
    var priority2 := Manhattan(b.board) + b.moves;
    if priority1 < priority2 then -1
    else if priority1 > priority2 then 1
    else if Hamming(a.board) < Hamming(b.board) then -1
    else if Hamming(a.board) > Hamming(b.board) then 1
    else 0
  }

  /** The comparator obeys the java.util.Comparator contract: it flips
      sign when its arguments are swapped and its "at most" is transitive. */
  lemma CompareIsComparator(a: SearchNode, b: SearchNode, c: SearchNode)
    requires SquareNode(a) && SquareNode(b) && SquareNode(c)
    ensures Compare(a, b) == -Compare(b, a)
    ensures Compare(a, a) == 0
    ensures Compare(a, b) <= 0 && Compare(b, c) <= 0 ==> Compare(a, c) <= 0
    ensures Compare(a, b) < 0 && Compare(b, c) <= 0 ==> Compare(a, c) < 0
  {
  }

  /* ---------- The arena and the priority queue ---------- */

  predicate ArenaSquare(arena: seq<SearchNode>) {
    forall i :: 0 <= i < |arena| ==> SquareNode(arena[i])
  }

  predicate QueueIn(queue: seq<nat>, size: nat) {
    forall k :: 0 <= k < |queue| ==> queue[k] < size
  }

  /** One search: all nodes created so far, the priority queue (MinPQ) as
      arena indices, and the node popped by the previous step. */
  datatype SearchState = SearchState(arena: seq<SearchNode>, queue: seq<nat>, previous: Option<nat>)

  /** The indices of a search point into its arena. */
  predicate Indexed(s: SearchState) {
    && ArenaSquare(s.arena)
    && QueueIn(s.queue, |s.arena|)
    && (s.previous.Some? ==> s.previous.value < |s.arena|)
  }

  /** No queued node comes before arena node x. */
  predicate IsMinimal(arena: seq<SearchNode>, queue: seq<nat>, x: nat)
    requires ArenaSquare(arena) && QueueIn(queue, |arena|) && x < |arena|
  {
    forall j :: 0 <= j < |queue| ==> Compare(arena[x], arena[queue[j]]) <= 0
  }

  /** The queue position MinPQ.delMin takes: a minimum under Compare (the
      first one in queue order when several tie). */
  function MinPosition(arena: seq<SearchNode>, queue: seq<nat>): (k: nat)
    requires ArenaSquare(arena) && QueueIn(queue, |arena|) && |queue| > 0
    ensures k < |queue|
    ensures IsMinimal(arena, queue, queue[k])
    ensures forall j :: 0 <= j < k ==> Compare(arena[queue[j]], arena[queue[k]]) > 0
  {
    if |queue| == 1 then 0
    else
      var front := queue[..|queue| - 1];
      var k := MinPosition(arena, front);
      var last := |queue| - 1;
      if Compare(arena[queue[last]], arena[queue[k]]) < 0 then last else k
  }

  /** The queue without the entry at position k. */
  function RemoveAt(queue: seq<nat>, k: nat): (r: seq<nat>)
    requires k < |queue|
    ensures multiset(r) == multiset(queue) - multiset{queue[k]}
    ensures |r| == |queue| - 1
  {
    assert queue == queue[..k] + [queue[k]] + queue[k + 1..];
    queue[..k] + queue[k + 1..]
  }

  /* ---------- One expansion ---------- */

  /** Whether an expansion pushes neighbour b: always in the first
      expansion, and afterwards unless b equals the board popped before. */
  predicate Kept(b: Board, previous: Option<Board>) {
    previous.None? || !Equals(b, BoardObject(previous.value))
  }

  /** a is b with some elements left out and the rest in the same order. */
  predicate IsSubsequence<T(==)>(a: seq<T>, b: seq<T>)
    decreases |b|
  {
    if a == [] then true
    else if b == [] then false
    else if a[0] == b[0] then IsSubsequence(a[1..], b[1..])
    else IsSubsequence(a, b[1..])
  }

  /** The boards one expansion pushes, in iteration order: every neighbour,
      except (once there is a previously popped node) one equal to that
      node's board. Each kept neighbour is pushed as often as it is listed,
      each other one never, and the order is that of the list. */
  function Pushed(neighbors: seq<Board>, previous: Option<Board>): (r: seq<Board>)
    ensures forall b :: b in r <==> b in neighbors && Kept(b, previous)
    ensures previous.None? ==> r == neighbors
    ensures |r| <= |neighbors|
  {
    if neighbors == [] then []
    else
      var rest := Pushed(neighbors[1..], previous);
      if Kept(neighbors[0], previous) then [neighbors[0]] + rest
      else rest
  }

  /** Pushed keeps the list's order, keeps each kept neighbour as often as
      it is listed, and drops every other one. */
  lemma {:induction false} PushedSelects(neighbors: seq<Board>, previous: Option<Board>)
    ensures IsSubsequence(Pushed(neighbors, previous), neighbors)
    ensures forall b :: multiset(Pushed(neighbors, previous))[b] ==
              if Kept(b, previous) then multiset(neighbors)[b] else 0
    decreases |neighbors|
  {
    if neighbors != [] {
      assert neighbors == [neighbors[0]] + neighbors[1..];
      PushedSelects(neighbors[1..], previous);
    }
  }

  /** A subsequence holds each element at most as often as the whole. */
  lemma {:induction false} SubsequenceCounts<T>(a: seq<T>, b: seq<T>)
    requires IsSubsequence(a, b)
    ensures multiset(a) <= multiset(b)
    decreases |b|
  {
    if a != [] {
      assert b == [b[0]] + b[1..];
      if a[0] == b[0] {
        assert a == [a[0]] + a[1..];
        SubsequenceCounts(a[1..], b[1..]);
      } else {
        SubsequenceCounts(a, b[1..]);
      }
    }
  }

  /** If a subsequence of b holds b's first element more often than the
      rest of b does, it starts with that element. */
  lemma SubsequenceHead<T>(a: seq<T>, b: seq<T>)
    requires IsSubsequence(a, b) && b != []
    requires multiset(a)[b[0]] > multiset(b[1..])[b[0]]
    ensures a != [] && a[0] == b[0]
  {
    if a != [] && a[0] != b[0] {
      SubsequenceCounts(a, b[1..]);
    }
  }

  /** Pushed is the only order-keeping selection of the neighbours that
      keeps each kept neighbour as often as it is listed and drops every
      other one. */
  lemma {:induction false} PushedIsOnlyFilter(neighbors: seq<Board>, previous: Option<Board>, r: seq<Board>)
    requires IsSubsequence(r, neighbors)
    requires forall b :: multiset(r)[b] == if Kept(b, previous) then multiset(neighbors)[b] else 0
    ensures r == Pushed(neighbors, previous)
    decreases |neighbors|
  {
    if neighbors == [] {
      assert multiset(r) == multiset{};
    } else {
      var n0 := neighbors[0];
      var tail := neighbors[1..];
      assert neighbors == [n0] + tail;
      if Kept(n0, previous) {
        SubsequenceHead(r, neighbors);
        assert r == [n0] + r[1..];
        forall b ensures multiset(r[1..])[b] == if Kept(b, previous) then multiset(tail)[b] else 0 {
          assert multiset(r)[b] == multiset(r[1..])[b] + (if b == n0 then 1 else 0);
        }
        PushedIsOnlyFilter(tail, previous, r[1..]);
      } else {
        assert r == [] || r[0] != n0 by {
          if r != [] {
            assert multiset(r)[r[0]] > 0;
          }
        }
        assert IsSubsequence(r, tail);
        forall b ensures multiset(r)[b] == if Kept(b, previous) then multiset(tail)[b] else 0 {
          if b != n0 {
            assert multiset(neighbors)[b] == multiset(tail)[b];
          }
        }
        PushedIsOnlyFilter(tail, previous, r);
      }
    }
  }

  /** With no neighbour listed twice, an expansion pushes all of them but
      the previously popped board, when that board is among them. */
  lemma {:induction false} PushedCount(neighbors: seq<Board>, previous: Option<Board>)
    requires forall i, j :: 0 <= i < j < |neighbors| ==> neighbors[i] != neighbors[j]
    ensures |Pushed(neighbors, previous)| ==
              |neighbors| - (if previous.Some? && previous.value in neighbors then 1 else 0)
    decreases |neighbors|
  {
    if neighbors != [] {
      var tail := neighbors[1..];
      assert neighbors[0] !in tail;
      assert forall b :: b in neighbors <==> b == neighbors[0] || b in tail;
      PushedCount(tail, previous);
    }
  }

  /** New search nodes for boards, all with the same moves and parent. */
  function Children(boards: seq<Board>, moves: nat, parent: nat): (r: seq<SearchNode>)
    ensures |r| == |boards|
    ensures forall k :: 0 <= k < |r| ==> r[k] == SearchNode(boards[k], moves, Some(parent))
  {
    seq(|boards|, k requires 0 <= k < |boards| => SearchNode(boards[k], moves, Some(parent)))
  }

  /** The indices from .. from+count-1. */
  function Indices(from: nat, count: nat): (r: seq<nat>)
    ensures |r| == count
    ensures forall k :: 0 <= k < count ==> r[k] == from + k
  {
    seq(count, k requires 0 <= k < count => from + k)
  }

  datatype StepResult =
    | GoalPopped(node: nat)         // the popped node's board is the goal
    | Expanded(next: SearchState)   // the popped node was expanded
    | Underflow                     // min() on an empty queue throws

  function PreviousBoard(s: SearchState): Option<Board>
    requires Indexed(s)
  {
    if s.previous.Some? then Some(s.arena[s.previous.value].board) else None
  }

  /** One iteration of the search loop of runAstarInLockStep, for either
      search: pop the minimum; stop if it is the goal; otherwise push every
      neighbour (bar the previously popped board) with one more move and
      the popped node as parent, and remember the popped node. */
  function Step(s: SearchState): (r: StepResult)
    requires Indexed(s)
    ensures r.Underflow? <==> |s.queue| == 0
    ensures r.GoalPopped? ==>
              && r.node in s.queue
              && IsMinimal(s.arena, s.queue, r.node)
              && IsGoal(s.arena[r.node].board)
    ensures r.Expanded? ==> Indexed(r.next) && ExpandedFrom(s, r.next)
  {
    if |s.queue| == 0 then Underflow
    else
      var k := MinPosition(s.arena, s.queue);
      var x := s.queue[k];
      var latest := s.arena[x];
      if IsGoal(latest.board) then GoalPopped(x)
      else
        ExpansionFacts(s, k);
        Expanded(Expand(s, k))
  }

  /** The state after expanding the node at queue position k: the popped
      node becomes the previous one, the arena only grows, and every node
      appended is one move further than the popped node, with it as parent. */
  function Expand(s: SearchState, k: nat): (r: SearchState)
    requires Indexed(s) && k < |s.queue|
    ensures r.previous == Some(s.queue[k])
    ensures Extends(s.arena, r.arena)
    ensures forall i :: |s.arena| <= i < |r.arena| ==>
              r.arena[i].moves == s.arena[s.queue[k]].moves + 1 && r.arena[i].parent == Some(s.queue[k])
  {
    GrowNodes(s, k, Pushed(Neighbors(s.arena[s.queue[k]].board), PreviousBoard(s)));
    Grow(s, k, Pushed(Neighbors(s.arena[s.queue[k]].board), PreviousBoard(s)))
  }

  /** The state after popping queue position k and pushing one node per
      board, each with one more move than the popped node and the popped
      node as parent; the popped node becomes the previous one. */
  function Grow(s: SearchState, k: nat, boards: seq<Board>): SearchState
    requires Indexed(s) && k < |s.queue|
  {
    var x := s.queue[k];
    SearchState(
      s.arena + Children(boards, s.arena[x].moves + 1, x),
      RemoveAt(s.queue, k) + Indices(|s.arena|, |boards|),
      Some(x))
  }

  /** The arena b is the arena a with nodes appended. */
  predicate Extends(a: seq<SearchNode>, b: seq<SearchNode>) {
    |a| <= |b| && b[..|a|] == a
  }

  /** Each node appended to s's arena in t is a neighbour of node x, one
      move further, with x as parent, and not equal to the board popped
      before x. */
  predicate NewNodesFrom(s: SearchState, t: seq<SearchNode>, x: nat)
    requires Indexed(s) && x < |s.arena| && |s.arena| <= |t|
  {
    forall i :: |s.arena| <= i < |t| ==>
      && t[i].parent == Some(x)
      && t[i].moves == s.arena[x].moves + 1
      && t[i].board in Neighbors(s.arena[x].board)
      && (s.previous.Some? ==> !Equals(t[i].board, BoardObject(s.arena[s.previous.value].board)))
  }

  /** Every neighbour of node x other than the board popped before it got a
      node appended to s's arena in t. */
  predicate AllPushed(s: SearchState, t: seq<SearchNode>, x: nat)
    requires Indexed(s) && x < |s.arena| && |s.arena| <= |t|
  {
    forall b :: b in Neighbors(s.arena[x].board) && (s.previous.None? || !Equals(b, BoardObject(s.arena[s.previous.value].board)))
      ==> exists i :: |s.arena| <= i < |t| && t[i].board == b
  }

  /** What an expansion step did to s to obtain t: it popped a minimal
      non-goal node, appended one node per pushed neighbour in push order,
      and moved the popped node out of the queue and the new ones in. */
  predicate ExpandedFrom(s: SearchState, t: SearchState)
    requires Indexed(s) && Indexed(t)
  {
    && t.previous.Some?
    && var x := t.previous.value;
    && x < |s.arena|
    && x in s.queue
    && IsMinimal(s.arena, s.queue, x)
    && !IsGoal(s.arena[x].board)
    && Extends(s.arena, t.arena)
    && NewNodesFrom(s, t.arena, x)
    && AllPushed(s, t.arena, x)
    && var pushed := Pushed(Neighbors(s.arena[x].board), PreviousBoard(s));
    && |t.arena| == |s.arena| + |pushed|
    && (forall i :: |s.arena| <= i < |t.arena| ==> t.arena[i].board == pushed[i - |s.arena|])
    && multiset(t.queue) == multiset(s.queue) - multiset{x} + multiset(Indices(|s.arena|, |t.arena| - |s.arena|))
  }

  lemma ExpansionFacts(s: SearchState, k: nat)
    requires Indexed(s) && |s.queue| > 0 && k == MinPosition(s.arena, s.queue)
    requires !IsGoal(s.arena[s.queue[k]].board)
    ensures Indexed(Expand(s, k)) && ExpandedFrom(s, Expand(s, k))
  {
    NewNodesFacts(s, k);
    AllPushedFacts(s, k);
    QueueFacts(s, k);
    GrowNodes(s, k, Pushed(Neighbors(s.arena[s.queue[k]].board), PreviousBoard(s)));
  }

  /** Growing keeps queue entries pointing into the arena: the popped
      entry leaves the queue and the new nodes' indices join it. */
  lemma GrowQueue(s: SearchState, k: nat, boards: seq<Board>)
    requires Indexed(s) && k < |s.queue|
    ensures QueueIn(Grow(s, k, boards).queue, |Grow(s, k, boards).arena|)
    ensures multiset(Grow(s, k, boards).queue) ==
              multiset(s.queue) - multiset{s.queue[k]} + multiset(Indices(|s.arena|, |Grow(s, k, boards).arena| - |s.arena|))
  {
    var t := Grow(s, k, boards);
    var r := RemoveAt(s.queue, k);
    assert t.queue == r + Indices(|s.arena|, |boards|);
    forall j | 0 <= j < |t.queue| ensures t.queue[j] < |t.arena| {
      if j < |r| {
        assert t.queue[j] in multiset(s.queue);
      }
    }
  }

  /** Growing appends exactly one node per board, in board order. */
  lemma GrowNodes(s: SearchState, k: nat, boards: seq<Board>)
    requires Indexed(s) && k < |s.queue|
    ensures Extends(s.arena, Grow(s, k, boards).arena)
    ensures |Grow(s, k, boards).arena| == |s.arena| + |boards|
    ensures forall i :: |s.arena| <= i < |Grow(s, k, boards).arena| ==>
              Grow(s, k, boards).arena[i] == SearchNode(boards[i - |s.arena|], s.arena[s.queue[k]].moves + 1, Some(s.queue[k]))
  {
    var x := s.queue[k];
    var t := Grow(s, k, boards).arena;
    assert t == s.arena + Children(boards, s.arena[x].moves + 1, x);
    assert t[..|s.arena|] == s.arena;
  }

  lemma QueueFacts(s: SearchState, k: nat)
    requires Indexed(s) && k < |s.queue|
    ensures QueueIn(Expand(s, k).queue, |Expand(s, k).arena|)
    ensures multiset(Expand(s, k).queue) ==
              multiset(s.queue) - multiset{s.queue[k]} + multiset(Indices(|s.arena|, |Expand(s, k).arena| - |s.arena|))
  {
    GrowQueue(s, k, Pushed(Neighbors(s.arena[s.queue[k]].board), PreviousBoard(s)));
  }

  /** Growing with neighbours of the popped board, none equal to the
      previous board, appends nodes that meet NewNodesFrom. */
  lemma GrowNewNodes(s: SearchState, k: nat, boards: seq<Board>)
    requires Indexed(s) && k < |s.queue|
    requires forall b :: b in boards ==>
               && b in Neighbors(s.arena[s.queue[k]].board)
               && (s.previous.None? || !Equals(b, BoardObject(s.arena[s.previous.value].board)))
    ensures ArenaSquare(Grow(s, k, boards).arena)
    ensures NewNodesFrom(s, Grow(s, k, boards).arena, s.queue[k])
  {
    var x := s.queue[k];
    GrowNodes(s, k, boards);
    var t := Grow(s, k, boards).arena;
    var base := |s.arena|;
    forall i | 0 <= i < |t| ensures SquareNode(t[i]) {
      if i < base {
        assert t[i] == s.arena[i];
      } else {
        assert t[i].board == boards[i - base];
        assert boards[i - base] in boards;
        NeighborsSameSize(s.arena[x].board, t[i].board);
      }
    }
    forall i | base <= i < |t|
      ensures t[i].board in Neighbors(s.arena[x].board)
      ensures s.previous.Some? ==> !Equals(t[i].board, BoardObject(s.arena[s.previous.value].board))
    {
      assert t[i].board == boards[i - base];
      assert boards[i - base] in boards;
    }
  }

  lemma NewNodesFacts(s: SearchState, k: nat)
    requires Indexed(s) && k < |s.queue|
    ensures ArenaSquare(Expand(s, k).arena)
    ensures Extends(s.arena, Expand(s, k).arena)
    ensures NewNodesFrom(s, Expand(s, k).arena, s.queue[k])
  {
    var boards := Pushed(Neighbors(s.arena[s.queue[k]].board), PreviousBoard(s));
    GrowNodes(s, k, boards);
    GrowNewNodes(s, k, boards);
  }

  /** Every board handed to Grow gets a node appended to the arena. */
  lemma GrowCovers(s: SearchState, k: nat, boards: seq<Board>, b: Board)
    requires Indexed(s) && k < |s.queue| && b in boards
    ensures exists i :: |s.arena| <= i < |Grow(s, k, boards).arena| && Grow(s, k, boards).arena[i].board == b
  {
    GrowNodes(s, k, boards);
    var m :| 0 <= m < |boards| && boards[m] == b;
    assert Grow(s, k, boards).arena[|s.arena| + m].board == b;
  }

  lemma AllPushedFacts(s: SearchState, k: nat)
    requires Indexed(s) && k < |s.queue|
    ensures |s.arena| <= |Expand(s, k).arena|
    ensures AllPushed(s, Expand(s, k).arena, s.queue[k])
  {
    var x := s.queue[k];
    var boards := Pushed(Neighbors(s.arena[x].board), PreviousBoard(s));
    var g := Grow(s, k, boards);
    assert Expand(s, k) == g;
    GrowNodes(s, k, boards);
    forall b | b in Neighbors(s.arena[x].board) && (s.previous.None? || !Equals(b, BoardObject(s.arena[s.previous.value].board)))
      ensures exists i :: |s.arena| <= i < |g.arena| && g.arena[i].board == b
    {
      assert b in boards;
      GrowCovers(s, k, boards, b);
    }
    assert AllPushed(s, g.arena, x);
  }

  /* ---------- What every search keeps ---------- */

  /** The search as runAstarInLockStep creates it: the root alone in the
      queue, and no node popped yet. */
  function Start(root: Board): (s: SearchState)
    requires IsSquare(root.tiles)
    ensures Indexed(s) && IsTree(s.arena, root)
    ensures |s.arena| == 1 && s.queue == [0] && s.previous.None?
  {
    SearchState([SearchNode(root, 0, None)], [0], None)
  }

  /** Arena node i (not the root) hangs below an earlier node, one move
      further from the root. */
  predicate Linked(arena: seq<SearchNode>, i: nat) {
    && i < |arena|
    && arena[i].parent.Some?
    && arena[i].parent.value < i
    && arena[i].moves == arena[arena[i].parent.value].moves + 1
  }

  /** Arena node i (not the root) was generated from its parent: it is
      linked below it and its board is a neighbour of the parent's board. */
  predicate ChildOf(arena: seq<SearchNode>, i: nat)
    requires ArenaSquare(arena) && i < |arena|
  {
    Linked(arena, i) && arena[i].board in Neighbors(arena[arena[i].parent.value].board)
  }

  /** The parent links of an arena: node 0 is reached with no moves and
      without a parent, and every other node is linked below an earlier one,
      so following parents always ends at node 0. */
  predicate Rooted(arena: seq<SearchNode>) {
    && |arena| >= 1
    && arena[0].parent.None?
    && arena[0].moves == 0
    && forall i :: 1 <= i < |arena| ==> Linked(arena, i)
  }

  /** The shape of every search arena: rooted at node 0, which holds the
      initial board, and every other node a child of an earlier one. */
  predicate IsTree(arena: seq<SearchNode>, root: Board) {
    && ArenaSquare(arena)
    && Rooted(arena)
    && arena[0] == SearchNode(root, 0, None)
    && forall i :: 1 <= i < |arena| ==> ChildOf(arena, i)
  }

  lemma ExpansionPreservesTree(s: SearchState, t: SearchState, root: Board)
    requires Indexed(s) && Indexed(t) && ExpandedFrom(s, t) && IsTree(s.arena, root)
    ensures IsTree(t.arena, root)
  {
    var x := t.previous.value;
    forall i | 1 <= i < |t.arena| ensures Linked(t.arena, i) && ChildOf(t.arena, i) {
      if i < |s.arena| {
        assert t.arena[i] == s.arena[i];
        assert ChildOf(s.arena, i);
        var p := s.arena[i].parent.value;
        assert t.arena[p] == s.arena[p];
      } else {
        assert t.arena[x] == s.arena[x];
      }
    }
    assert t.arena[0] == s.arena[0];
  }

  /** Every board of the arena is a valid n-by-n board. */
  predicate AllValid(arena: seq<SearchNode>, n: nat) {
    forall i :: 0 <= i < |arena| ==> Valid(arena[i].board) && |arena[i].board.tiles| == n
  }

  lemma ExpansionPreservesValid(s: SearchState, t: SearchState, n: nat)
    requires Indexed(s) && Indexed(t) && ExpandedFrom(s, t) && AllValid(s.arena, n)
    ensures AllValid(t.arena, n)
  {
    var x := t.previous.value;
    forall i | 0 <= i < |t.arena| ensures Valid(t.arena[i].board) && |t.arena[i].board.tiles| == n {
      if i < |s.arena| {
        assert t.arena[i] == s.arena[i];
      } else {
        NeighborsReversible(s.arena[x].board, t.arena[i].board);
        NeighborsSameSize(s.arena[x].board, t.arena[i].board);
      }
    }
  }

  /** An expansion removes one queue entry and adds one per new node. */
  lemma ExpansionQueueLength(s: SearchState, t: SearchState)
    requires Indexed(s) && Indexed(t) && ExpandedFrom(s, t)
    ensures |t.queue| == |s.queue| - 1 + (|t.arena| - |s.arena|)
  {
    var x := t.previous.value;
    assert |multiset(t.queue)| == |multiset(s.queue) - multiset{x}| + |multiset(Indices(|s.arena|, |t.arena| - |s.arena|))|;
  }

  /** An expansion of a valid board appends a node for every neighbour
      but the board popped before, when that board is a neighbour. */
  lemma ExpansionCount(s: SearchState, t: SearchState, n: nat)
    requires Indexed(s) && Indexed(t) && ExpandedFrom(s, t) && AllValid(s.arena, n)
    ensures var b := s.arena[t.previous.value].board;
            |t.arena| - |s.arena| ==
              |Neighbors(b)| - (if s.previous.Some? && s.arena[s.previous.value].board in Neighbors(b) then 1 else 0)
  {
    var b := s.arena[t.previous.value].board;
    NeighborsDistinct(b);
    PushedCount(Neighbors(b), PreviousBoard(s));
  }

  /** For boards of dimension two or more an expansion pushes at least one
      node: the popped board has at least two distinct neighbours, and at
      most one of them equals the board popped before it. So the queue never
      shrinks and MinPQ.min never meets an empty queue. */
  lemma ExpansionPushes(s: SearchState, t: SearchState, n: nat)
    requires Indexed(s) && Indexed(t) && ExpandedFrom(s, t) && AllValid(s.arena, n) && n >= 2
    ensures |t.arena| > |s.arena|
    ensures |t.queue| >= |s.queue|
  {
    var x := t.previous.value;
    var b := s.arena[x].board;
    var other := if s.previous.Some? then s.arena[s.previous.value].board else b;
    var c := NeighborAvoiding(b, other);
    assert AllPushed(s, t.arena, x);
    var i :| |s.arena| <= i < |t.arena| && t.arena[i].board == c;
    ExpansionQueueLength(s, t);
  }
}

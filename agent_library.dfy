/** GetShortestPath of AgentLibary.hpp: an A* search over the four
    neighbours of a cell. Nodes refer to their parent through a std::shared_ptr; here
    they live in a sequence and refer to the parent by its index (-1 for the
    nullptr). The cost table, a vector of vectors indexed by column and
    row, is a map from cell to cost. The world's IsTraversable(agent, pos) is
    the parameter `traversable`. */
module AgentLibrary {
  import opened Wrappers
  import opened Position
  import opened Grid

  /** INT_MAX, the initial cost of every cell. */
  const INITIAL_COST: int := 0x7FFF_FFFF

  /** The movements dx/dy: left, right, up, down. */
  const DX: seq<int> := [-1, 1, 0, 0]
  const DY: seq<int> := [0, 0, -1, 1]

  datatype SearchNode = SearchNode(pos: GridPosition, g: int, h: int, parent: int)

  function F(n: SearchNode): int { n.g + n.h }

  predicate OnGrid(p: GridPosition, w: nat, h: nat)
  {
    p.Pos? && 0 <= p.x < w && 0 <= p.y < h
  }

  /** Two cells one unit step apart along one axis. */
  predicate Adjacent(p: GridPosition, q: GridPosition)
  {
    MDistance(p, q) == Some(1)
  }

  /** The search tree: node 0 is the start with no parent; every other node
      lies on the grid, is traversable, and is one step from its parent,
      which was created before it. */
  ghost predicate Tree(nodes: seq<SearchNode>, start: GridPosition, w: nat, h: nat, traversable: GridPosition -> bool)
  {
    |nodes| >= 1 && nodes[0] == SearchNode(start, 0, 0, -1) &&
    forall i :: 0 <= i < |nodes| ==>
      OnGrid(nodes[i].pos, w, h) && nodes[i].g >= 0 && nodes[i].h >= 0 &&
      (i > 0 ==> 0 <= nodes[i].parent < i && traversable(nodes[i].pos) &&
                 Adjacent(nodes[nodes[i].parent].pos, nodes[i].pos))
  }

  /** The cost table holds a non-negative cost for every cell. */
  ghost predicate CostTable(cost: map<(int, int), int>, w: nat, h: nat)
  {
    forall x, y :: 0 <= x < w && 0 <= y < h ==> (x, y) in cost && 0 <= cost[(x, y)] <= INITIAL_COST
  }

  /** The pairs (cell, value) with value below the cell's cost: every lowered
      entry removes some of them, so the search cannot go on forever. */
  ghost function Budget(cost: map<(int, int), int>): set<((int, int), int)>
  {
    set c, v | c in cost && 0 <= v < cost[c] :: (c, v)
  }

  lemma BudgetShrinks(cost: map<(int, int), int>, c: (int, int), f: int)
    requires c in cost && 0 <= f < cost[c]
    ensures Budget(cost[c := f]) < Budget(cost)
  {
    assert (c, f) in Budget(cost) && (c, f) !in Budget(cost[c := f]);
  }

  /** A position of minimal total cost among the open nodes: the top of the
      priority queue. */
  function ArgMin(open: seq<nat>, nodes: seq<SearchNode>): (k: nat)
    requires |open| > 0 && forall j :: 0 <= j < |open| ==> open[j] < |nodes|
    ensures k < |open| && forall j :: 0 <= j < |open| ==> F(nodes[open[k]]) <= F(nodes[open[j]])
  {
    if |open| == 1 then 0
    else
      var k := ArgMin(open[1..], nodes);
      if F(nodes[open[0]]) <= F(nodes[open[k + 1]]) then 0 else k + 1
  }

  /** The inner loop over the four neighbours of the current node: each
      neighbour on the grid and traversable whose total cost beats its table
      entry becomes a new node, is pushed, and lowers the entry. Entries
      only ever decrease. */
  method Explore(nodes: seq<SearchNode>, open: seq<nat>, cost: map<(int, int), int>, cur: nat, end: GridPosition,
                 ghost start: GridPosition, w: nat, h: nat, traversable: GridPosition -> bool)
    returns (nodes': seq<SearchNode>, open': seq<nat>, cost': map<(int, int), int>)
    requires Tree(nodes, start, w, h, traversable) && cur < |nodes| && end.Pos?
    requires forall j :: 0 <= j < |open| ==> open[j] < |nodes|
    requires CostTable(cost, w, h)
    ensures Tree(nodes', start, w, h, traversable) && CostTable(cost', w, h)
    ensures nodes <= nodes' && open <= open' && |nodes'| - |nodes| == |open'| - |open|
    ensures forall j :: 0 <= j < |open'| ==> open'[j] < |nodes'|
    ensures forall i :: |nodes| <= i < |nodes'| ==> nodes'[i].parent == cur
    ensures cost'.Keys == cost.Keys && forall c :: c in cost ==> cost'[c] <= cost[c]
    ensures Budget(cost') <= Budget(cost)
    ensures |nodes'| > |nodes| ==> Budget(cost') < Budget(cost)
  {
    nodes', open', cost' := nodes, open, cost;
    var here := nodes[cur];
    for i := 0 to 4
      invariant Tree(nodes', start, w, h, traversable) && CostTable(cost', w, h)
      invariant nodes <= nodes' && open <= open' && |nodes'| - |nodes| == |open'| - |open|
      invariant forall j :: 0 <= j < |open'| ==> open'[j] < |nodes'|
      invariant forall k :: |nodes| <= k < |nodes'| ==> nodes'[k].parent == cur
      invariant cost'.Keys == cost.Keys && forall c :: c in cost ==> cost'[c] <= cost[c]
      invariant Budget(cost') <= Budget(cost)
      invariant |nodes'| > |nodes| ==> Budget(cost') < Budget(cost)
    {
      var np := Pos(here.pos.x + DX[i], here.pos.y + DY[i]);
      if OnGrid(np, w, h) && traversable(np) {
        var newG := here.g + 1;
        var newH := Abs(np.x - end.x) + Abs(np.y - end.y);
        if newG + newH < cost'[(np.x, np.y)] {
          var node := SearchNode(np, newG, newH, cur);
          assert Tree(nodes' + [node], start, w, h, traversable) by {
            StepAdjacent(here.pos, i);
            TreeExtend(nodes', start, w, h, traversable, node);
          }
          assert CostTable(cost'[(np.x, np.y) := newG + newH], w, h) && Budget(cost'[(np.x, np.y) := newG + newH]) < Budget(cost') by {
            Lowered(cost', (np.x, np.y), newG + newH, w, h);
          }
          nodes' := nodes' + [node];
          open' := open' + [|nodes'| - 1];
          cost' := cost'[(np.x, np.y) := newG + newH];
        }
      }
    }
  }

  /** One of the four movements leads to an adjacent cell. */
  lemma StepAdjacent(p: GridPosition, i: nat)
    requires p.Pos? && i < 4
    ensures Adjacent(p, Pos(p.x + DX[i], p.y + DY[i]))
  {
  }

  /** Appending a node one step from an existing parent keeps the tree. */
  lemma TreeExtend(nodes: seq<SearchNode>, start: GridPosition, w: nat, h: nat, traversable: GridPosition -> bool,
                   node: SearchNode)
    requires Tree(nodes, start, w, h, traversable)
    requires 0 <= node.parent < |nodes| && OnGrid(node.pos, w, h) && node.g >= 0 && node.h >= 0
    requires traversable(node.pos) && Adjacent(nodes[node.parent].pos, node.pos)
    ensures Tree(nodes + [node], start, w, h, traversable)
  {
  }

  /** Lowering one entry of the cost table to a non-negative value keeps it
      a cost table and uses up part of the budget. */
  lemma Lowered(cost: map<(int, int), int>, c: (int, int), f: int, w: nat, h: nat)
    requires CostTable(cost, w, h) && c in cost && 0 <= f < cost[c]
    ensures CostTable(cost[c := f], w, h) && Budget(cost[c := f]) < Budget(cost)
  {
    BudgetShrinks(cost, c, f);
  }

  /** The initial cost table: INT_MAX everywhere. */
  function InitialCosts(w: nat, h: nat): (cost: map<(int, int), int>)
    ensures CostTable(cost, w, h)
  {
    map x, y | 0 <= x < w && 0 <= y < h :: (x, y) := INITIAL_COST
  }

  /** GetShortestPath: empty when start or end is off the grid or the search
      does not reach end; otherwise a path from end back to start in which
      consecutive cells are one unit step apart and every cell but the start
      lies on the grid and is traversable. */
  method GetShortestPath(start: GridPosition, end: GridPosition, grid: WorldGrid, traversable: GridPosition -> bool)
    returns (path: seq<GridPosition>)
    ensures !(grid.IsValidPos(start) && grid.IsValidPos(end)) ==> path == []
    ensures path != [] ==> path[0] == end && path[|path| - 1] == start
    ensures forall i :: 0 <= i < |path| - 1 ==> Adjacent(path[i], path[i + 1])
    ensures forall i :: 0 <= i < |path| ==> grid.IsValidPos(path[i])
    ensures forall i :: 0 <= i < |path| - 1 ==> traversable(path[i])
  {
    var w, h := grid.width, grid.height;
    if !(OnGrid(start, w, h) && OnGrid(end, w, h)) {
      return [];
    }
    path := Search(start, end, w, h, traversable);
  }

  /** The A* loop of GetShortestPath, once start and end are known to lie on
      the grid: pop a node of least total cost, stop when it is the end and
      trace the path back, otherwise explore its neighbours. */
  method Search(start: GridPosition, end: GridPosition, w: nat, h: nat, traversable: GridPosition -> bool)
    returns (path: seq<GridPosition>)
    requires OnGrid(start, w, h) && OnGrid(end, w, h)
    ensures path != [] ==> path[0] == end && path[|path| - 1] == start
    ensures forall i :: 0 <= i < |path| - 1 ==> Adjacent(path[i], path[i + 1])
    ensures forall i :: 0 <= i < |path| ==> OnGrid(path[i], w, h)
    ensures forall i :: 0 <= i < |path| - 1 ==> traversable(path[i])
  {
    var nodes: seq<SearchNode>, open: seq<nat>, cost: map<(int, int), int> := StartSearch(start, w, h, traversable);
    while open != []
      invariant Tree(nodes, start, w, h, traversable) && CostTable(cost, w, h)
      invariant forall j :: 0 <= j < |open| ==> open[j] < |nodes|
      decreases Budget(cost), |open|
    {
      ghost var budget, size := Budget(cost), |open|;
      var k := ArgMin(open, nodes);
      var cur := open[k];
      open := RemoveAt(open, k);
      if SamePosition(nodes[cur].pos, end) {
        path := TracePath(nodes, cur, start, w, h, traversable);
        return;
      }
      var nodes': seq<SearchNode>, open': seq<nat>, cost': map<(int, int), int> := Explore(nodes, open, cost, cur, end, start, w, h, traversable);
      assert Budget(cost') < budget || (Budget(cost') == budget && |open'| < size) by {
        if |nodes'| == |nodes| {
          assert |open'| == |open|;
        }
      }
      nodes, open, cost := nodes', open', cost';
    }
    path := [];
  }

  /** The state before the first iteration: INT_MAX everywhere in the cost
      table except 0 at the start, which is the only node and is open. */
  method StartSearch(start: GridPosition, w: nat, h: nat, ghost traversable: GridPosition -> bool)
    returns (nodes: seq<SearchNode>, open: seq<nat>, cost: map<(int, int), int>)
    requires OnGrid(start, w, h)
    ensures nodes == [SearchNode(start, 0, 0, -1)] && open == [0]
    ensures Tree(nodes, start, w, h, traversable) && CostTable(cost, w, h)
    ensures cost == InitialCosts(w, h)[(start.x, start.y) := 0]
  {
    cost := InitialCosts(w, h);
    nodes := [SearchNode(start, 0, 0, -1)];
    open := [0];
    cost := cost[(start.x, start.y) := 0];
  }

  /** The open list after its top is popped. */
  function RemoveAt(open: seq<nat>, k: nat): (r: seq<nat>)
    requires k < |open|
    ensures |r| == |open| - 1
    ensures forall j :: 0 <= j < |r| ==> r[j] == if j < k then open[j] else open[j + 1]
  {
    open[..k] + open[k + 1..]
  }

  /** Following the parent links from node cur back to the start. */
  method TracePath(nodes: seq<SearchNode>, cur: nat, ghost start: GridPosition, w: nat, h: nat,
                   traversable: GridPosition -> bool)
    returns (path: seq<GridPosition>)
    requires Tree(nodes, start, w, h, traversable) && cur < |nodes|
    ensures path != [] && path[0] == nodes[cur].pos && path[|path| - 1] == start
    ensures forall i :: 0 <= i < |path| - 1 ==> Adjacent(path[i], path[i + 1])
    ensures forall i :: 0 <= i < |path| ==> OnGrid(path[i], w, h)
    ensures forall i :: 0 <= i < |path| - 1 ==> traversable(path[i])
  {
    path := [nodes[cur].pos];
    var c: int := cur;
    while c != 0
      invariant 0 <= c < |nodes| && path != []
      invariant path[0] == nodes[cur].pos && path[|path| - 1] == nodes[c].pos
      invariant c > 0 ==> traversable(path[|path| - 1])
      invariant forall i :: 0 <= i < |path| - 1 ==> Adjacent(path[i], path[i + 1])
      invariant forall i :: 0 <= i < |path| ==> OnGrid(path[i], w, h)
      invariant forall i :: 0 <= i < |path| - 1 ==> traversable(path[i])
      decreases c
    {
      var p := nodes[c].parent;
      MDistanceMetric(nodes[p].pos, nodes[c].pos, nodes[c].pos);
      path := path + [nodes[p].pos];
      c := p;
    }
  }
}

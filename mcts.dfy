/**
 * The `SearchTree` of src/mcts.rs as an object: the arena of nodes and the index
 * of the root are fields that the methods update in place.  Each method is proved
 * to do what the function of the same name in MctsSpec does, and to keep the tree
 * invariant `Valid()`.
 */
module Mcts {
  import opened Wrappers
  import opened Cells
  import opened BoardSpec
  import opened MctsSpec

  class SearchTree {
    var nodes: seq<Node>
    var root: nat

    predicate Valid()
      reads this
    {
      TreeOk(nodes, root)
    }

    /** SearchTree::new: a tree of one root node holding the board. */
    constructor (s: BoardState)
      requires Wf(s)
      ensures Valid() && nodes == [NewRoot(s)] && root == 0
    {
      nodes := [NewRoot(s)];
      root := 0;
      NewTreeOk(s);
    }

    /** The loop of select over the children of node i: the position of the child
        with the first maximal score. */
    method PickBest(i: nat, score: (nat, nat) -> real) returns (best: nat)
      requires ChildrenAfter(nodes) && i < |nodes| && !IsLeaf(nodes[i])
      ensures best == PickUpTo(nodes, i, score, |nodes[i].children|).value
    {
      var cs := nodes[i].children;
      var maxIdx: Option<nat> := None;
      var maxScore := Infinite;
      for k := 0 to |cs|
        invariant maxIdx == PickUpTo(nodes, i, score, k)
        invariant maxIdx.Some? ==> maxScore == ChildScore(nodes, i, cs[maxIdx.value], score)
      {
        var child := nodes[cs[k]];
        var ucb1 := if child.n == 0 then Infinite else Finite(score(i, cs[k]));
        if maxIdx.None? || Beats(ucb1, maxScore) {
          maxIdx := Some(k);
          maxScore := ucb1;
        }
      }
      best := maxIdx.value;
    }

    /** SearchTree::select: the path from the root to a leaf. */
    method Select(score: (nat, nat) -> real) returns (path: seq<nat>)
      requires ChildrenAfter(nodes) && root < |nodes|
      ensures path == SelectFrom(nodes, root, score)
    {
      var node := root;
      path := [];
      while true
        invariant node < |nodes|
        invariant path + SelectFrom(nodes, node, score) == SelectFrom(nodes, root, score)
        decreases |nodes| - node
      {
        if IsLeaf(nodes[node]) {
          path := path + [node];
          return;
        }
        var best := PickBest(node, score);
        var child := nodes[node].children[best];
        assert path + SelectFrom(nodes, node, score) == (path + [node]) + SelectFrom(nodes, child, score);
        path := path + [node];
        node := child;
      }
    }

    /** Node::expand on node i, with its board's actions computed by
        BoardSpec.Actions; an error leaves the tree as it was. */
    method Expand(i: nat, coin: (nat, nat) -> bool, pick: nat) returns (r: Result<nat, ExpandError>)
      requires i < |nodes| && Wf(nodes[i].state)
      modifies this
      ensures (r, nodes) == MctsSpec.Expand(old(nodes), i, coin, pick)
      ensures root == old(root)
    {
      var children := nodes[i].children;
      if children != [] {
        r := Ok(children[pick % |children|]);
      } else {
        r := ExpandLeaf(i, coin, pick);
      }
    }

    /** The loop of Node::expand on a leaf: its actions become its children,
        appended to the arena. */
    method ExpandLeaf(i: nat, coin: (nat, nat) -> bool, pick: nat) returns (r: Result<nat, ExpandError>)
      requires i < |nodes| && Wf(nodes[i].state) && IsLeaf(nodes[i])
      modifies this
      ensures (r, nodes) == MctsSpec.Expand(old(nodes), i, coin, pick)
      ensures root == old(root)
    {
      var actions := Actions(nodes[i].state, coin);
      ActionsRepeat(nodes[i].state, coin);
      var kids := MakeChildren(actions.1, actions.0);
      r := AttachChildren(i, actions.1, kids, pick);
    }

    /** Node i takes board t and, when the loop made any, the children kids. */
    method AttachChildren(i: nat, t: BoardState, kids: Result<seq<Node>, PlacingError>, pick: nat)
      returns (r: Result<nat, ExpandError>)
      requires i < |nodes|
      modifies this
      ensures (r, nodes) == Attach(old(nodes), i, t, kids, pick)
      ensures root == old(root)
    {
      if kids.Err? {
        r := Err(PlaceFailed(kids.error));
      } else if kids.value == [] {
        r := Err(NoChildren);
      } else {
        var ks := kids.value;
        var start := |nodes|;
        nodes := nodes[i := nodes[i].(state := t, children := Range(start, start + |ks|))] + ks;
        r := Ok(start + pick % |ks|);
      }
    }

    /** SearchTree::back_propagation: Node::update on every node of the path. */
    method BackPropagation(path: seq<nat>, util: real, n: nat)
      requires forall j :: 0 <= j < |path| ==> path[j] < |nodes|
      modifies this
      ensures nodes == BackProp(old(nodes), path, util, n, |path|)
      ensures root == old(root)
    {
      for j := 0 to |path|
        invariant nodes == BackProp(old(nodes), path, util, n, j)
        invariant root == old(root)
      {
        nodes := nodes[path[j] := Update(nodes[path[j]], util, n)];
      }
    }

    /** One pass of the loop of monte_carlo. */
    method Iterate(score: (nat, nat) -> real, coin: (nat, nat) -> bool, pick: nat, util: real)
      returns (r: Result<seq<nat>, ExpandError>)
      requires Valid()
      modifies this
      ensures root == old(root) && Valid()
      ensures (r, nodes) == MctsSpec.Iterate(old(nodes), old(root), score, coin, pick, util)
    {
      IterateKeepsTree(nodes, root, score, coin, pick, util);
      SelectFromSpec(nodes, root, score);
      var path := Select(score);
      var leaf := path[|path| - 1];
      if nodes[leaf].n == 0 {
        BackPropagation(path, util, NUM_THREADS);
        r := Ok(path);
      } else {
        ghost var before := nodes;
        ExpandGrows(nodes, leaf, coin, pick);
        var e := Expand(leaf, coin, pick);
        if e.Err? {
          r := Err(e.error);
          return;
        }
        ExtendedPath(before, leaf, nodes, path, e.value);
        path := path + [e.value];
        BackPropagation(path, util, NUM_THREADS);
        r := Ok(path);
      }
    }

    /** The loop of monte_carlo over the children of the root: the position of the
        first child with the most playouts, if any has playouts. */
    method MostVisited() returns (maxIdx: Option<nat>)
      requires ChildrenAfter(nodes) && root < |nodes|
      ensures maxIdx == MostVisitedUpTo(nodes, nodes[root].children, |nodes[root].children|)
    {
      var arena := nodes;
      var cs := arena[root].children;
      var maxN := 0;
      maxIdx := None;
      for k := 0 to |cs|
        invariant maxIdx == MostVisitedUpTo(arena, cs, k)
        invariant maxN == if maxIdx.None? then 0 else arena[cs[maxIdx.value]].n
      {
        var child := arena[cs[k]];
        if child.n > maxN {
          maxIdx := Some(k);
          maxN := child.n;
        }
      }
    }

    /** The end of monte_carlo: the move of the most visited child of the root. */
    method BestMove(coin: (nat, nat) -> bool, pick: nat) returns (r: Result<Move, ExpandError>)
      requires Valid()
      modifies this
      ensures root == old(root) && Valid()
      ensures (r, nodes) == MctsSpec.BestMove(old(nodes), old(root), coin, pick)
    {
      ExpandKeepsTree(nodes, root, root, coin, pick);
      var maxIdx := MostVisited();
      var cs := nodes[root].children;
      match maxIdx {
        case Some(b) =>
          ChildMoved(nodes, root, cs[b]);
          r := Ok(nodes[cs[b]].prevAction.value);
        case None =>
          ExpandPicksChild(nodes, root, coin, pick);
          var e := Expand(root, coin, pick);
          if e.Err? {
            r := Err(e.error);
            return;
          }
          ChildMoved(nodes, root, e.value);
          r := Ok(nodes[e.value].prevAction.value);
      }
    }

    /**
     * SearchTree::monte_carlo: one iteration per round, the first expansion error
     * stopping the search, then the best move.  The time limit is replaced by the
     * number of rounds.
     */
    method MonteCarlo(rounds: seq<Round>, coin: (nat, nat) -> bool, pick: nat) returns (r: Result<Move, ExpandError>)
      requires Valid()
      modifies this
      ensures root == old(root) && Valid()
      ensures var (e, searched) := Search(old(nodes), old(root), rounds);
              && (e.Some? ==> r == Err(e.value))
              && (e.None? ==> (r, nodes) == MctsSpec.BestMove(searched, old(root), coin, pick))
    {
      for k := 0 to |rounds|
        invariant Valid() && root == old(root)
        invariant Search(old(nodes), root, rounds) == Search(nodes, root, rounds[k..])
      {
        var round := rounds[k];
        assert rounds[k..][1..] == rounds[k + 1..];
        var res := Iterate(round.score, round.coin, round.pick, round.util);
        if res.Err? {
          r := Err(res.error);
          return;
        }
      }
      r := BestMove(coin, pick);
    }

    /** The loop of apply_move: the position of the first child of the root made by
        move m. */
    method FindChild(m: Move) returns (found: Option<nat>)
      requires ChildrenAfter(nodes) && root < |nodes|
      ensures found == FindMove(nodes, nodes[root].children, m, 0)
    {
      var cs := nodes[root].children;
      var k := 0;
      while k < |cs|
        invariant k <= |cs|
        invariant FindMove(nodes, cs, m, k) == FindMove(nodes, cs, m, 0)
      {
        if nodes[cs[k]].prevAction == Some(m) {
          return Some(k);
        }
        k := k + 1;
      }
      return None;
    }

    /** SearchTree::apply_move: the root moves to the child made by m, or the tree
        restarts from the board with m placed; an error leaves the tree as it was. */
    method ApplyMove(m: Move, coin: (nat, nat) -> bool, pick: nat) returns (r: Result<nat, ExpandError>)
      requires Valid()
      modifies this
      ensures var (sr, after) := MctsSpec.ApplyMove(old(nodes), old(root), m, coin, pick);
              r == sr && nodes == after && (r.Ok? ==> root == r.value) && (r.Err? ==> root == old(root))
      ensures Valid()
    {
      ApplyMoveKeepsTree(nodes, root, m, coin, pick);
      var before := nodes;
      if IsLeaf(nodes[root]) {
        ExpandKeepsTree(nodes, root, root, coin, pick);
        var e := Expand(root, coin, pick);
        if e.Err? {
          r := Err(e.error);
          return;
        }
      }
      r := MoveRoot(m);
      if r.Err? {
        nodes := before;
      }
    }

    /** The second half of apply_move, after a leaf root has been expanded. */
    method MoveRoot(m: Move) returns (r: Result<nat, ExpandError>)
      requires Valid()
      modifies this
      ensures var (sr, after) := MoveTo(old(nodes), old(root), m);
              r == sr && nodes == after && (r.Ok? ==> root == r.value) && (r.Err? ==> root == old(root))
      ensures r.Ok? ==> Valid()
    {
      MoveToKeepsTree(nodes, root, m);
      var found := FindChild(m);
      var cs := nodes[root].children;
      match found {
        case Some(j) =>
          nodes := nodes[root := nodes[root].(children := [])];
          root := cs[j];
          r := Ok(root);
        case None =>
          match TryPlace(nodes[root].state, m) {
            case Err(e) =>
              r := Err(PlaceFailed(e));
            case Ok(t) =>
              nodes := [NewRoot(t)];
              root := 0;
              r := Ok(0);
          }
      }
    }
  }

  /** The loop of Node::expand: one child per action, each holding a copy of board t
      with the action placed, or the first placement error. */
  method MakeChildren(t: BoardState, acts: seq<Move>) returns (r: Result<seq<Node>, PlacingError>)
    requires Shaped(t)
    ensures r == Kids(Placements(t, acts), acts, |acts|)
    ensures r.Ok? <==> forall j :: 0 <= j < |acts| ==> TryPlace(t, acts[j]).Ok?
    ensures r.Ok? ==> |r.value| == |acts|
                      && forall j :: 0 <= j < |acts| ==> r.value[j] == Child(TryPlace(t, acts[j]).value, acts[j])
  {
    ghost var placed := Placements(t, acts);
    KidsSpec(placed, acts, |acts|);
    var kids: seq<Node> := [];
    for j := 0 to |acts|
      invariant Kids(placed, acts, j) == Ok(kids)
    {
      match TryPlace(t, acts[j]) {
        case Err(e) =>
          KidsStay(placed, acts, j + 1, |acts|);
          return Err(e);
        case Ok(c) =>
          kids := kids + [Child(c, acts[j])];
      }
    }
    return Ok(kids);
  }
}

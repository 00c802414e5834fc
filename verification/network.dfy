/**
 * The incremental join network. Query nodes live in an arena: a node is a
 * handle (its index), and `children`, `partOf` and union members are lists
 * of handles. A node is always created after the nodes it reads from, so
 * every child and every containing union has a larger handle than the node,
 * and every parent and union member a smaller one (`Ordered`). Propagation
 * never changes the structure, only the result rows; a node's alpha memory
 * changes only when a triple is added to it directly.
 */
module Network {
  import opened Wrappers
  import opened Terms
  import opened Matching
  import opened Join

  /** A node's filter: a triple pattern, or a predicate over bindings named by a handle into `eval`. */
  datatype Filter = PatternFilter(pattern: Pattern) | PredicateFilter(fid: nat)

  /** The top node of a query, a filtered child of a parent, or a union of member nodes. */
  datatype Kind = Top | Filtered(parent: nat, filter: Filter) | Union(members: seq<nat>)

  datatype Node = Node(kind: Kind, children: seq<nat>, partOf: seq<nat>)

  /** Per-node sequences of matches: alpha memories or result rows. */
  type Rows = seq<seq<Match>>

  /** The predicate filters' functions, by handle; the source keeps the function itself on the node. */
  type Eval = (nat, Bindings) -> bool

  /** Children and containing unions come after a node, parents and members before it. */
  predicate Ordered(nodes: seq<Node>) {
    forall q | 0 <= q < |nodes| ::
      && (forall j | 0 <= j < |nodes[q].children| :: q < nodes[q].children[j] < |nodes|)
      && (forall j | 0 <= j < |nodes[q].partOf| :: q < nodes[q].partOf[j] < |nodes|)
      && (nodes[q].kind.Filtered? ==> nodes[q].kind.parent < q)
      && (nodes[q].kind.Union? ==> forall j | 0 <= j < |nodes[q].kind.members| :: nodes[q].kind.members[j] < q)
  }

  predicate Shaped(nodes: seq<Node>, alpha: Rows, rows: Rows) {
    Ordered(nodes) && |alpha| == |nodes| && |rows| == |nodes|
  }

  /** How many times `u` lists `x` among its members: none unless `u` is a union. */
  function MemberCount(nodes: seq<Node>, u: nat, x: nat): nat
    requires u < |nodes|
  {
    if nodes[u].kind.Union? then multiset(nodes[u].kind.members)[x] else 0
  }

  /** One when `c` is a filtered node whose parent is `x`, otherwise none. */
  function ChildCount(nodes: seq<Node>, x: nat, c: nat): nat
    requires c < |nodes|
  {
    if nodes[c].kind.Filtered? && nodes[c].kind.parent == x then 1 else 0
  }

  /**
   * The links out of `x` agree with the node kinds: `x` lists once among its
   * children each node whose parent it is, and no other node, and lists each
   * union in `partOf` as many times as that union lists `x` as a member.
   */
  predicate LinkedAt(nodes: seq<Node>, x: nat)
    requires x < |nodes|
  {
    forall y | 0 <= y < |nodes| ::
      && multiset(nodes[x].children)[y] == ChildCount(nodes, x, y)
      && multiset(nodes[x].partOf)[y] == MemberCount(nodes, y, x)
  }

  predicate Linked(nodes: seq<Node>) {
    forall x | 0 <= x < |nodes| :: LinkedAt(nodes, x)
  }

  /** A listed child is a filtered node naming the lister as its parent. */
  lemma ChildLink(nodes: seq<Node>, x: nat, j: nat)
    requires Ordered(nodes) && Linked(nodes) && x < |nodes| && j < |nodes[x].children|
    ensures nodes[nodes[x].children[j]].kind.Filtered? && nodes[nodes[x].children[j]].kind.parent == x
  {
    var c := nodes[x].children[j];
    assert LinkedAt(nodes, x);
    assert multiset(nodes[x].children)[c] > 0;
  }

  /** A filtered node is listed among its parent's children. */
  lemma ParentLink(nodes: seq<Node>, c: nat)
    requires Ordered(nodes) && Linked(nodes) && c < |nodes| && nodes[c].kind.Filtered?
    ensures c in nodes[nodes[c].kind.parent].children
  {
    var p := nodes[c].kind.parent;
    assert LinkedAt(nodes, p);
    assert multiset(nodes[p].children)[c] == 1;
  }

  /** A listed containing union is a union that has the lister among its members. */
  lemma PartOfLink(nodes: seq<Node>, x: nat, j: nat)
    requires Ordered(nodes) && Linked(nodes) && x < |nodes| && j < |nodes[x].partOf|
    ensures nodes[nodes[x].partOf[j]].kind.Union? && x in nodes[nodes[x].partOf[j]].kind.members
  {
    var u := nodes[x].partOf[j];
    assert LinkedAt(nodes, x);
    assert multiset(nodes[x].partOf)[u] > 0;
  }

  /** A union's member lists the union among the unions containing it. */
  lemma MemberLink(nodes: seq<Node>, u: nat, j: nat)
    requires Ordered(nodes) && Linked(nodes) && u < |nodes| && nodes[u].kind.Union? && j < |nodes[u].kind.members|
    ensures u in nodes[nodes[u].kind.members[j]].partOf
  {
    var x := nodes[u].kind.members[j];
    assert LinkedAt(nodes, x);
    assert MemberCount(nodes, u, x) > 0;
  }

  predicate IsPatternNode(nodes: seq<Node>, q: nat)
    requires q < |nodes|
  {
    nodes[q].kind.Filtered? && nodes[q].kind.filter.PatternFilter?
  }

  function PatternOf(nodes: seq<Node>, q: nat): Pattern
    requires q < |nodes| && IsPatternNode(nodes, q)
  {
    nodes[q].kind.filter.pattern
  }

  /** `x` is `q`, or is reached from `q` through children and containing unions. */
  ghost predicate Reach(nodes: seq<Node>, q: nat, x: nat)
    requires Ordered(nodes) && q < |nodes|
    decreases |nodes| - q
  {
    || x == q
    || (exists j | 0 <= j < |nodes[q].children| :: Reach(nodes, nodes[q].children[j], x))
    || (exists j | 0 <= j < |nodes[q].partOf| :: Reach(nodes, nodes[q].partOf[j], x))
  }

  /** `x` is reached from one of the listed handles at position `k` or later. */
  ghost predicate ReachFrom(nodes: seq<Node>, list: seq<nat>, k: nat, x: nat)
    requires Ordered(nodes) && forall j | 0 <= j < |list| :: list[j] < |nodes|
  {
    exists j | k <= j < |list| :: Reach(nodes, list[j], x)
  }

  lemma {:induction false} ReachForward(nodes: seq<Node>, q: nat, x: nat)
    requires Ordered(nodes) && q < |nodes|
    requires Reach(nodes, q, x)
    ensures q <= x < |nodes|
    decreases |nodes| - q
  {
    if x != q {
      if j :| 0 <= j < |nodes[q].children| && Reach(nodes, nodes[q].children[j], x) {
        ReachForward(nodes, nodes[q].children[j], x);
      } else {
        var j :| 0 <= j < |nodes[q].partOf| && Reach(nodes, nodes[q].partOf[j], x);
        ReachForward(nodes, nodes[q].partOf[j], x);
      }
    }
  }

  /** Nothing listed after a node reaches back to it. */
  lemma NoReachBack(nodes: seq<Node>, list: seq<nat>, k: nat, x: nat)
    requires Ordered(nodes) && forall j | 0 <= j < |list| :: x < list[j] < |nodes|
    ensures !ReachFrom(nodes, list, k, x)
  {
    forall j | k <= j < |list| ensures !Reach(nodes, list[j], x) {
      if Reach(nodes, list[j], x) {
        ReachForward(nodes, list[j], x);
      }
    }
  }

  /** The rows of the listed nodes, concatenated in list order. */
  function ConcatRows(rows: Rows, list: seq<nat>): (r: seq<Match>)
    requires forall j | 0 <= j < |list| :: list[j] < |rows|
    ensures forall x | x in r :: exists j | 0 <= j < |list| :: x in rows[list[j]]
  {
    if |list| == 0 then [] else rows[list[0]] + ConcatRows(rows, list[1..])
  }

  lemma {:induction false} ConcatRowsAppend(rows: Rows, list: seq<nat>, x: nat)
    requires forall j | 0 <= j < |list| :: list[j] < |rows|
    requires x < |rows|
    ensures ConcatRows(rows, list + [x]) == ConcatRows(rows, list) + rows[x]
  {
    if |list| == 0 {
      assert [x][1..] == [];
      assert ConcatRows(rows, [x]) == rows[x] + ConcatRows(rows, []);
    } else {
      assert (list + [x])[1..] == list[1..] + [x];
      ConcatRowsAppend(rows, list[1..], x);
    }
  }

  /** The rows a predicate filter lets through, in order. */
  function FilterRows(ms: seq<Match>, eval: Eval, fid: nat): (r: seq<Match>)
    ensures |r| <= |ms|
    ensures forall m :: m in r <==> m in ms && eval(fid, m.bindings)
  {
    if |ms| == 0 then []
    else
      assert ms == [ms[0]] + ms[1..];
      (if eval(fid, ms[0].bindings) then [ms[0]] else []) + FilterRows(ms[1..], eval, fid)
  }

  /**
   * The rows a left activation of `q` produces from `input` (its parent's
   * new rows), or from the parent's current rows when there is no input: a
   * child of a top node takes its alpha memory, a predicate node filters, a
   * pattern node joins with its alpha memory, a union concatenates its members.
   */
  function Activation(nodes: seq<Node>, alpha: Rows, eval: Eval, rows: Rows, q: nat, input: Option<seq<Match>>): seq<Match>
    requires Shaped(nodes, alpha, rows) && q < |nodes|
  {
    match nodes[q].kind
    case Top => alpha[q]
    case Union(ms) => ConcatRows(rows, ms)
    case Filtered(p, f) =>
      if nodes[p].kind.Top? then alpha[q]
      else
        var source := input.GetOr(rows[p]);
        match f
        case PredicateFilter(fid) => FilterRows(source, eval, fid)
        case PatternFilter(pat) => MergeMatches(source, alpha[q], pat.optional)
  }

  /** Recomputes `q` from `input` (or its parent's rows) and passes the result on. */
  function LeftActivate(nodes: seq<Node>, alpha: Rows, eval: Eval, rows: Rows, q: nat, input: Option<seq<Match>>): (r: Rows)
    requires Shaped(nodes, alpha, rows) && q < |nodes|
    ensures |r| == |rows|
    ensures forall x | 0 <= x < |rows| :: rows[x] <= r[x]
    ensures forall x | 0 <= x < |rows| && !Reach(nodes, q, x) :: r[x] == rows[x]
    ensures r[q] == rows[q] + Activation(nodes, alpha, eval, rows, q, input)
    decreases |nodes| - q, 3, 0
  {
    UpdateQuery(nodes, alpha, eval, rows, q, Activation(nodes, alpha, eval, rows, q, input))
  }

  /** A node with no children and no containing unions reaches only itself. */
  lemma LeafReach(nodes: seq<Node>, q: nat, x: nat)
    requires Ordered(nodes) && q < |nodes|
    requires nodes[q].children == [] && nodes[q].partOf == []
    ensures Reach(nodes, q, x) <==> x == q
  {
  }

  /** Activating a node with no outgoing links sets its own rows and nothing else. */
  lemma LeafActivation(nodes: seq<Node>, alpha: Rows, eval: Eval, rows: Rows, q: nat)
    requires Shaped(nodes, alpha, rows) && q < |nodes|
    requires nodes[q].children == [] && nodes[q].partOf == []
    ensures var r := LeftActivate(nodes, alpha, eval, rows, q, None);
      && r == rows[q := rows[q] + Activation(nodes, alpha, eval, rows, q, None)]
  {
    var r := LeftActivate(nodes, alpha, eval, rows, q, None);
    forall x ensures Reach(nodes, q, x) <==> x == q {
      LeafReach(nodes, q, x);
    }
    assert |r| == |rows|;
  }

  /**
   * Appends new rows to `q`: does nothing for no rows; otherwise left-activates
   * every child with them, adds them to every union containing `q`, and
   * appends them to `q`'s own rows.
   */
  function UpdateQuery(nodes: seq<Node>, alpha: Rows, eval: Eval, rows: Rows, q: nat, ms: seq<Match>): (r: Rows)
    requires Shaped(nodes, alpha, rows) && q < |nodes|
    ensures |r| == |rows|
    ensures forall x | 0 <= x < |rows| :: rows[x] <= r[x]
    ensures forall x | 0 <= x < |rows| && !Reach(nodes, q, x) :: r[x] == rows[x]
    ensures r[q] == rows[q] + ms
    ensures |ms| == 0 ==> r == rows
    decreases |nodes| - q, 2, 0
  {
    if |ms| == 0 then rows
    else
      var r1 := UpdateChildren(nodes, alpha, eval, rows, q, 0, ms);
      var r2 := UpdateUnions(nodes, alpha, eval, r1, q, 0, ms);
      NoReachBack(nodes, nodes[q].children, 0, q);
      NoReachBack(nodes, nodes[q].partOf, 0, q);
      r2[q := r2[q] + ms]
  }

  /** Left-activates the children of `q` from position `k` on, in order, with `ms`. */
  function UpdateChildren(nodes: seq<Node>, alpha: Rows, eval: Eval, rows: Rows, q: nat, k: nat, ms: seq<Match>): (r: Rows)
    requires Shaped(nodes, alpha, rows) && q < |nodes| && k <= |nodes[q].children|
    ensures |r| == |rows|
    ensures forall x | 0 <= x < |rows| :: rows[x] <= r[x]
    ensures forall x | 0 <= x < |rows| && !ReachFrom(nodes, nodes[q].children, k, x) :: r[x] == rows[x]
    decreases |nodes| - q, 1, |nodes[q].children| - k
  {
    var ch := nodes[q].children;
    if k == |ch| then rows
    else
      var r1 := LeftActivate(nodes, alpha, eval, rows, ch[k], Some(ms));
      UpdateChildren(nodes, alpha, eval, r1, q, k + 1, ms)
  }

  /** Adds `ms` to the unions containing `q` from position `k` on, in order. */
  function UpdateUnions(nodes: seq<Node>, alpha: Rows, eval: Eval, rows: Rows, q: nat, k: nat, ms: seq<Match>): (r: Rows)
    requires Shaped(nodes, alpha, rows) && q < |nodes| && k <= |nodes[q].partOf|
    ensures |r| == |rows|
    ensures forall x | 0 <= x < |rows| :: rows[x] <= r[x]
    ensures forall x | 0 <= x < |rows| && !ReachFrom(nodes, nodes[q].partOf, k, x) :: r[x] == rows[x]
    decreases |nodes| - q, 1, |nodes[q].partOf| - k
  {
    var us := nodes[q].partOf;
    if k == |us| then rows
    else
      var r1 := UpdateQuery(nodes, alpha, eval, rows, us[k], ms);
      UpdateUnions(nodes, alpha, eval, r1, q, k + 1, ms)
  }

  /** Each union containing `q` gains at least the new rows (more when reached along several paths). */
  lemma UnionGrowth(nodes: seq<Node>, alpha: Rows, eval: Eval, rows: Rows, q: nat, ms: seq<Match>, u: nat)
    requires Shaped(nodes, alpha, rows) && q < |nodes| && u in nodes[q].partOf
    ensures |UpdateQuery(nodes, alpha, eval, rows, q, ms)[u]| >= |rows[u]| + |ms|
  {
    if |ms| > 0 {
      var r1 := UpdateChildren(nodes, alpha, eval, rows, q, 0, ms);
      var j :| 0 <= j < |nodes[q].partOf| && nodes[q].partOf[j] == u;
      UnionsGrowth(nodes, alpha, eval, r1, q, 0, ms, j);
      assert rows[u] <= r1[u];
    }
  }

  lemma {:induction false} UnionsGrowth(nodes: seq<Node>, alpha: Rows, eval: Eval, rows: Rows, q: nat, k: nat, ms: seq<Match>, j: nat)
    requires Shaped(nodes, alpha, rows) && q < |nodes| && k <= j < |nodes[q].partOf|
    ensures var u := nodes[q].partOf[j];
      |UpdateUnions(nodes, alpha, eval, rows, q, k, ms)[u]| >= |rows[u]| + |ms|
    decreases |nodes[q].partOf| - k
  {
    var us := nodes[q].partOf;
    var r1 := UpdateQuery(nodes, alpha, eval, rows, us[k], ms);
    var r2 := UpdateUnions(nodes, alpha, eval, r1, q, k + 1, ms);
    if j == k {
      assert r1[us[k]] <= r2[us[k]];
    } else {
      UnionsGrowth(nodes, alpha, eval, r1, q, k + 1, ms, j);
      assert rows[us[j]] <= r1[us[j]];
    }
  }

  /** Empties the rows of `q` and of every node reached from it through children and containing unions. */
  function ResetQuery(nodes: seq<Node>, rows: Rows, q: nat): (r: Rows)
    requires Ordered(nodes) && |rows| == |nodes| && q < |nodes|
    ensures |r| == |rows|
    ensures forall x | 0 <= x < |rows| :: r[x] == (if Reach(nodes, q, x) then [] else rows[x])
    decreases |nodes| - q, 1, 0
  {
    var r0 := rows[q := []];
    var r1 := ResetChildren(nodes, r0, q, 0);
    var r2 := ResetUnions(nodes, r1, q, 0);
    NoReachBack(nodes, nodes[q].children, 0, q);
    NoReachBack(nodes, nodes[q].partOf, 0, q);
    r2
  }

  function ResetChildren(nodes: seq<Node>, rows: Rows, q: nat, k: nat): (r: Rows)
    requires Ordered(nodes) && |rows| == |nodes| && q < |nodes| && k <= |nodes[q].children|
    ensures |r| == |rows|
    ensures forall x | 0 <= x < |rows| ::
      r[x] == (if ReachFrom(nodes, nodes[q].children, k, x) then [] else rows[x])
    decreases |nodes| - q, 0, |nodes[q].children| - k
  {
    var ch := nodes[q].children;
    if k == |ch| then rows
    else ResetChildren(nodes, ResetQuery(nodes, rows, ch[k]), q, k + 1)
  }

  function ResetUnions(nodes: seq<Node>, rows: Rows, q: nat, k: nat): (r: Rows)
    requires Ordered(nodes) && |rows| == |nodes| && q < |nodes| && k <= |nodes[q].partOf|
    ensures |r| == |rows|
    ensures forall x | 0 <= x < |rows| ::
      r[x] == (if ReachFrom(nodes, nodes[q].partOf, k, x) then [] else rows[x])
    decreases |nodes| - q, 0, |nodes[q].partOf| - k
  {
    var us := nodes[q].partOf;
    if k == |us| then rows
    else ResetUnions(nodes, ResetQuery(nodes, rows, us[k]), q, k + 1)
  }

  /** Every listed child and containing union is a handle into the arena; nothing says links point forward. */
  predicate InRange(nodes: seq<Node>) {
    forall q | 0 <= q < |nodes| ::
      && (forall j | 0 <= j < |nodes[q].children| :: nodes[q].children[j] < |nodes|)
      && (forall j | 0 <= j < |nodes[q].partOf| :: nodes[q].partOf[j] < |nodes|)
  }

  /**
   * `resetQuery` followed literally on an arena whose links may form a
   * cycle. Each nested call spends one step of `fuel`; `None` means the
   * recursion was still going when the steps ran out.
   */
  function ResetSteps(nodes: seq<Node>, rows: Rows, q: nat, fuel: nat): (r: Option<Rows>)
    requires InRange(nodes) && |rows| == |nodes| && q < |nodes|
    ensures r.Some? ==> |r.value| == |rows|
    decreases fuel, 0, 0
  {
    if fuel == 0 then None
    else
      var r1 := ResetChildrenSteps(nodes, rows[q := []], q, 0, fuel - 1);
      if r1.None? then None else ResetUnionsSteps(nodes, r1.value, q, 0, fuel - 1)
  }

  function ResetChildrenSteps(nodes: seq<Node>, rows: Rows, q: nat, k: nat, fuel: nat): (r: Option<Rows>)
    requires InRange(nodes) && |rows| == |nodes| && q < |nodes| && k <= |nodes[q].children|
    ensures r.Some? ==> |r.value| == |rows|
    decreases fuel, 1, |nodes[q].children| - k
  {
    var ch := nodes[q].children;
    if k == |ch| then Some(rows)
    else
      var r1 := ResetSteps(nodes, rows, ch[k], fuel);
      if r1.None? then None else ResetChildrenSteps(nodes, r1.value, q, k + 1, fuel)
  }

  function ResetUnionsSteps(nodes: seq<Node>, rows: Rows, q: nat, k: nat, fuel: nat): (r: Option<Rows>)
    requires InRange(nodes) && |rows| == |nodes| && q < |nodes| && k <= |nodes[q].partOf|
    ensures r.Some? ==> |r.value| == |rows|
    decreases fuel, 1, |nodes[q].partOf| - k
  {
    var us := nodes[q].partOf;
    if k == |us| then Some(rows)
    else
      var r1 := ResetSteps(nodes, rows, us[k], fuel);
      if r1.None? then None else ResetUnionsSteps(nodes, r1.value, q, k + 1, fuel)
  }

  /**
   * On an arena whose links point forward the literal reset ends within
   * `|nodes| - q` nested calls, emptying what `ResetQuery` empties.
   */
  lemma {:induction false} ResetFinishes(nodes: seq<Node>, rows: Rows, q: nat, fuel: nat)
    requires Ordered(nodes) && |rows| == |nodes| && q < |nodes| && fuel >= |nodes| - q
    ensures InRange(nodes) && ResetSteps(nodes, rows, q, fuel) == Some(ResetQuery(nodes, rows, q))
    decreases |nodes| - q, 1, 0
  {
    ResetChildrenFinish(nodes, rows[q := []], q, 0, fuel - 1);
    ResetUnionsFinish(nodes, ResetChildren(nodes, rows[q := []], q, 0), q, 0, fuel - 1);
  }

  lemma {:induction false} ResetChildrenFinish(nodes: seq<Node>, rows: Rows, q: nat, k: nat, fuel: nat)
    requires Ordered(nodes) && |rows| == |nodes| && q < |nodes| && k <= |nodes[q].children|
    requires fuel + 1 >= |nodes| - q
    ensures InRange(nodes) && ResetChildrenSteps(nodes, rows, q, k, fuel) == Some(ResetChildren(nodes, rows, q, k))
    decreases |nodes| - q, 0, |nodes[q].children| - k
  {
    var ch := nodes[q].children;
    if k < |ch| {
      ResetFinishes(nodes, rows, ch[k], fuel);
      ResetChildrenFinish(nodes, ResetQuery(nodes, rows, ch[k]), q, k + 1, fuel);
    }
  }

  lemma {:induction false} ResetUnionsFinish(nodes: seq<Node>, rows: Rows, q: nat, k: nat, fuel: nat)
    requires Ordered(nodes) && |rows| == |nodes| && q < |nodes| && k <= |nodes[q].partOf|
    requires fuel + 1 >= |nodes| - q
    ensures InRange(nodes) && ResetUnionsSteps(nodes, rows, q, k, fuel) == Some(ResetUnions(nodes, rows, q, k))
    decreases |nodes| - q, 0, |nodes[q].partOf| - k
  {
    var us := nodes[q].partOf;
    if k < |us| {
      ResetFinishes(nodes, rows, us[k], fuel);
      ResetUnionsFinish(nodes, ResetQuery(nodes, rows, us[k]), q, k + 1, fuel);
    }
  }

  /** The rows a non-optional pattern node derives from one new alpha match: the match alone under a top node, else its joins with the parent's rows. */
  function Delta(nodes: seq<Node>, rows: Rows, q: nat, m: Match): seq<Match>
    requires Ordered(nodes) && |rows| == |nodes| && q < |nodes| && nodes[q].kind.Filtered?
  {
    var p := nodes[q].kind.parent;
    if nodes[p].kind.Top? then [m] else MergeMatches(rows[p], [m], false)
  }

  /**
   * A new alpha match at a pattern node `q` that is not optional: `q` passes
   * on only the rows the new match makes.
   */
  function PlainRightActivate(nodes: seq<Node>, alpha: Rows, eval: Eval, rows: Rows, q: nat, m: Match): (r: Rows)
    requires Shaped(nodes, alpha, rows) && q < |nodes| && IsPatternNode(nodes, q) && !PatternOf(nodes, q).optional
    ensures |r| == |rows|
    ensures forall x | 0 <= x < |rows| && !Reach(nodes, q, x) :: r[x] == rows[x]
    ensures var p := nodes[q].kind.parent;
      && r[q] == rows[q] + Delta(nodes, rows, q, m)
      && (!nodes[p].kind.Top? ==> |Delta(nodes, rows, q, m)| <= |rows[p]|)
      && forall x | 0 <= x < |rows| :: rows[x] <= r[x]
  {
    MergeSingle(rows[nodes[q].kind.parent], m);
    UpdateQuery(nodes, alpha, eval, rows, q, Delta(nodes, rows, q, m))
  }

  /**
   * A new alpha match at pattern node `q`. An optional node is reset with
   * everything it reaches and recomputed from its parent's rows and its whole
   * alpha memory; any other node passes on only the rows the new match makes.
   */
  function RightActivate(nodes: seq<Node>, alpha: Rows, eval: Eval, rows: Rows, q: nat, m: Match): (r: Rows)
    requires Shaped(nodes, alpha, rows) && q < |nodes| && IsPatternNode(nodes, q)
    ensures |r| == |rows|
    ensures forall x | 0 <= x < |rows| && !Reach(nodes, q, x) :: r[x] == rows[x]
    ensures var p := nodes[q].kind.parent;
      PatternOf(nodes, q).optional ==>
        r[q] == (if nodes[p].kind.Top? then alpha[q] else MergeMatches(rows[p], alpha[q], true))
    ensures var p := nodes[q].kind.parent;
      !PatternOf(nodes, q).optional ==>
        && r[q] == rows[q] + Delta(nodes, rows, q, m)
        && (!nodes[p].kind.Top? ==> |Delta(nodes, rows, q, m)| <= |rows[p]|)
        && forall x | 0 <= x < |rows| :: rows[x] <= r[x]
  {
    if PatternOf(nodes, q).optional then OptionalRightActivate(nodes, alpha, eval, rows, q)
    else PlainRightActivate(nodes, alpha, eval, rows, q, m)
  }

  /**
   * A new alpha match at an optional pattern node `q`, as written: `q` and
   * everything it reaches are emptied, and `q` is then recomputed from its
   * parent's rows and its whole alpha memory.
   */
  function OptionalRightActivate(nodes: seq<Node>, alpha: Rows, eval: Eval, rows: Rows, q: nat): (r: Rows)
    requires Shaped(nodes, alpha, rows) && q < |nodes| && IsPatternNode(nodes, q) && PatternOf(nodes, q).optional
    ensures |r| == |rows|
    ensures forall x | 0 <= x < |rows| && !Reach(nodes, q, x) :: r[x] == rows[x]
    ensures var p := nodes[q].kind.parent;
      r[q] == (if nodes[p].kind.Top? then alpha[q] else MergeMatches(rows[p], alpha[q], true))
  {
    var p := nodes[q].kind.parent;
    var cleared := ResetQuery(nodes, rows, q);
    assert !Reach(nodes, q, p) by {
      if Reach(nodes, q, p) { ReachForward(nodes, q, p); }
    }
    assert cleared[q] == [] && cleared[p] == rows[p];
    var r := LeftActivate(nodes, alpha, eval, cleared, q, None);
    assert r[q] == Activation(nodes, alpha, eval, cleared, q, None);
    r
  }

  /** `x` is a child of `y` or a union containing `y`. */
  predicate Feeds(nodes: seq<Node>, y: nat, x: nat)
    requires y < |nodes|
  {
    x in nodes[y].children || x in nodes[y].partOf
  }

  lemma {:induction false} ReachTrans(nodes: seq<Node>, a: nat, b: nat, c: nat)
    requires Ordered(nodes) && a < |nodes| && b < |nodes|
    requires Reach(nodes, a, b) && Reach(nodes, b, c)
    ensures Reach(nodes, a, c)
    decreases |nodes| - a
  {
    if a != b {
      if j :| 0 <= j < |nodes[a].children| && Reach(nodes, nodes[a].children[j], b) {
        ReachTrans(nodes, nodes[a].children[j], b, c);
      } else {
        var j :| 0 <= j < |nodes[a].partOf| && Reach(nodes, nodes[a].partOf[j], b);
        ReachTrans(nodes, nodes[a].partOf[j], b, c);
      }
    }
  }

  lemma FeedsReach(nodes: seq<Node>, y: nat, x: nat)
    requires Ordered(nodes) && y < |nodes| && Feeds(nodes, y, x)
    ensures x < |nodes| && Reach(nodes, y, x)
  {
    if x in nodes[y].children {
      var j :| 0 <= j < |nodes[y].children| && nodes[y].children[j] == x;
      assert Reach(nodes, nodes[y].children[j], x);
    } else {
      var j :| 0 <= j < |nodes[y].partOf| && nodes[y].partOf[j] == x;
      assert Reach(nodes, nodes[y].partOf[j], x);
    }
  }

  /** A node other than `q` is reached from `q` exactly when an earlier node reached from `q` feeds it. */
  lemma {:induction false} ReachLast(nodes: seq<Node>, q: nat, x: nat)
    requires Ordered(nodes) && q < x < |nodes|
    ensures Reach(nodes, q, x) <==> exists y | q <= y < x :: Reach(nodes, q, y) && Feeds(nodes, y, x)
    decreases |nodes| - q
  {
    if exists y | q <= y < x :: Reach(nodes, q, y) && Feeds(nodes, y, x) {
      var y :| q <= y < x && Reach(nodes, q, y) && Feeds(nodes, y, x);
      FeedsReach(nodes, y, x);
      ReachTrans(nodes, q, y, x);
    }
    if Reach(nodes, q, x) {
      var c: nat;
      if j :| 0 <= j < |nodes[q].children| && Reach(nodes, nodes[q].children[j], x) {
        c := nodes[q].children[j];
      } else {
        var j :| 0 <= j < |nodes[q].partOf| && Reach(nodes, nodes[q].partOf[j], x);
        c := nodes[q].partOf[j];
      }
      assert Feeds(nodes, q, c) && Reach(nodes, c, x);
      FeedsReach(nodes, q, c);
      if c == x {
        assert Reach(nodes, q, q);
      } else {
        ReachForward(nodes, c, x);
        ReachLast(nodes, c, x);
        var y :| c <= y < x && Reach(nodes, c, y) && Feeds(nodes, y, x);
        ReachTrans(nodes, q, c, y);
      }
    }
  }

  /** The nodes below `n` that `q` reaches, computed forward from `q`. */
  function Hits(nodes: seq<Node>, q: nat, n: nat): (r: set<nat>)
    requires Ordered(nodes) && q < n <= |nodes|
    ensures forall x :: x in r <==> q <= x < n && Reach(nodes, q, x)
    decreases n
  {
    if n == q + 1 then
      forall x: nat | Reach(nodes, q, x) ensures q <= x { ReachForward(nodes, q, x); }
      {q}
    else
      var h := Hits(nodes, q, n - 1);
      ReachLast(nodes, q, n - 1);
      forall x: nat | Reach(nodes, q, x) ensures q <= x { ReachForward(nodes, q, x); }
      if exists y | y in h :: Feeds(nodes, y, n - 1) then h + {n - 1} else h
  }

  lemma {:induction false} ConcatRowsLocal(rows: Rows, rows': Rows, list: seq<nat>)
    requires forall j | 0 <= j < |list| :: list[j] < |rows| && list[j] < |rows'| && rows[list[j]] == rows'[list[j]]
    ensures ConcatRows(rows, list) == ConcatRows(rows', list)
  {
    if |list| > 0 {
      ConcatRowsLocal(rows, rows', list[1..]);
    }
  }

  /** A two-member union concatenates the first member's rows and then the second's. */
  lemma ConcatTwo(rows: Rows, a: nat, b: nat)
    requires a < |rows| && b < |rows|
    ensures ConcatRows(rows, [a, b]) == rows[a] + rows[b]
  {
    assert [a, b][1..] == [b] && [b][1..] == [];
    assert ConcatRows(rows, [b]) == rows[b] + ConcatRows(rows, []);
  }

  /** A node's activation reads only the rows of nodes created before it. */
  lemma ActivationLocal(nodes: seq<Node>, alpha: Rows, eval: Eval, rows: Rows, rows': Rows, x: nat)
    requires Shaped(nodes, alpha, rows) && Shaped(nodes, alpha, rows') && x < |nodes|
    requires forall y | 0 <= y < x :: rows[y] == rows'[y]
    ensures Activation(nodes, alpha, eval, rows, x, None) == Activation(nodes, alpha, eval, rows', x, None)
  {
    if nodes[x].kind.Union? {
      ConcatRowsLocal(rows, rows', nodes[x].kind.members);
    }
  }

  /**
   * Recomputes, in handle order from `x` on, every node in `hits` from its
   * parent's or members' current rows; the other nodes keep theirs.
   */
  function Rebuild(nodes: seq<Node>, alpha: Rows, eval: Eval, rows: Rows, hits: set<nat>, x: nat): (r: Rows)
    requires Shaped(nodes, alpha, rows) && x <= |nodes|
    ensures |r| == |rows|
    ensures forall y | 0 <= y < |rows| && (y < x || y !in hits) :: r[y] == rows[y]
    ensures forall y | x <= y < |rows| && y in hits :: r[y] == Activation(nodes, alpha, eval, r, y, None)
    decreases |nodes| - x
  {
    if x == |nodes| then rows
    else
      var rows' := if x in hits then rows[x := Activation(nodes, alpha, eval, rows, x, None)] else rows;
      var r := Rebuild(nodes, alpha, eval, rows', hits, x + 1);
      ActivationLocal(nodes, alpha, eval, rows, r, x);
      r
  }

  /**
   * Right activation with the optional case recomputing everything the node
   * reaches: each such node is rebuilt from its parent's or members' rows,
   * so a union keeps the rows of its other members.
   */
  function RightActivateCorrected(nodes: seq<Node>, alpha: Rows, eval: Eval, rows: Rows, q: nat, m: Match): (r: Rows)
    requires Shaped(nodes, alpha, rows) && q < |nodes| && IsPatternNode(nodes, q)
    ensures |r| == |rows|
    ensures forall x | 0 <= x < |rows| && !Reach(nodes, q, x) :: r[x] == rows[x]
    ensures PatternOf(nodes, q).optional ==>
      forall x | 0 <= x < |rows| && Reach(nodes, q, x) :: r[x] == Activation(nodes, alpha, eval, r, x, None)
    ensures var p := nodes[q].kind.parent;
      PatternOf(nodes, q).optional ==>
        r[q] == (if nodes[p].kind.Top? then alpha[q] else MergeMatches(rows[p], alpha[q], true))
    ensures var p := nodes[q].kind.parent;
      !PatternOf(nodes, q).optional ==>
        && r[q] == rows[q] + Delta(nodes, rows, q, m)
        && (!nodes[p].kind.Top? ==> |Delta(nodes, rows, q, m)| <= |rows[p]|)
        && forall x | 0 <= x < |rows| :: rows[x] <= r[x]
  {
    var p := nodes[q].kind.parent;
    if PatternOf(nodes, q).optional then
      var r := Rebuild(nodes, alpha, eval, rows, Hits(nodes, q, |nodes|), q);
      assert !Reach(nodes, q, p) by {
        if Reach(nodes, q, p) { ReachForward(nodes, q, p); }
      }
      forall x | 0 <= x < |rows| && Reach(nodes, q, x) ensures q <= x {
        ReachForward(nodes, q, x);
      }
      r
    else
      PlainRightActivate(nodes, alpha, eval, rows, q, m)
  }

  /** The match node `q` gains from triple `t`, if any. */
  function NewAlpha(nodes: seq<Node>, q: nat, t: Triple): seq<Match>
    requires q < |nodes|
  {
    if IsPatternNode(nodes, q) && TestTriple(t, PatternOf(nodes, q)).Some? then
      [Match(TestTriple(t, PatternOf(nodes, q)).value, [t])]
    else []
  }

  /**
   * Feeds an inserted triple to pattern node `q`: if the triple matches the
   * pattern, the match is appended to the alpha memory and right-activated;
   * otherwise nothing changes.
   */
  function AddToQuery(nodes: seq<Node>, alpha: Rows, eval: Eval, rows: Rows, q: nat, t: Triple): (r: (Rows, Rows))
    requires Shaped(nodes, alpha, rows) && q < |nodes| && IsPatternNode(nodes, q)
    ensures Shaped(nodes, r.0, r.1)
    ensures TestTriple(t, PatternOf(nodes, q)).None? ==> r == (alpha, rows)
    ensures r.0 == alpha[q := alpha[q] + NewAlpha(nodes, q, t)]
    ensures forall x | 0 <= x < |rows| && !Reach(nodes, q, x) :: r.1[x] == rows[x]
  {
    match TestTriple(t, PatternOf(nodes, q))
    case None =>
      assert NewAlpha(nodes, q, t) == [];
      assert alpha[q] + [] == alpha[q];
      (alpha, rows)
    case Some(b) =>
      var m := Match(b, [t]);
      var alpha' := alpha[q := alpha[q] + [m]];
      (alpha', RightActivateCorrected(nodes, alpha', eval, rows, q, m))
  }
}

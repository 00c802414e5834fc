/**
 * What the incremental propagation is for: every node's rows hold, in some
 * order, exactly the rows its activation computes from its parent's or
 * members' current rows and its alpha memory. Propagation appends rows in
 * the order they arrive, and a union's arrivals interleave its members'
 * rows, so rows agree with their activation as multisets, not as sequences.
 */
module Consistency {
  import opened Wrappers
  import opened Terms
  import opened Matching
  import opened Join
  import opened Network

  /** Each node's rows hold exactly its activation's rows, counted with repeats. */
  predicate Consistent(nodes: seq<Node>, alpha: Rows, eval: Eval, rows: Rows) {
    && Shaped(nodes, alpha, rows)
    && forall x | 0 <= x < |nodes| :: multiset(rows[x]) == multiset(Activation(nodes, alpha, eval, rows, x, None))
  }

  /** `n` copies of `s`. */
  function Times(n: nat, s: multiset<Match>): multiset<Match> {
    if n == 0 then multiset{} else s + Times(n - 1, s)
  }

  lemma {:induction false} TimesAdd(a: nat, b: nat, c: nat, s: multiset<Match>)
    requires c == a + b
    ensures Times(c, s) == Times(a, s) + Times(b, s)
    decreases a
  {
    if a > 0 {
      TimesAdd(a - 1, b, c - 1, s);
    }
  }

  /** The rows a filtered node derives from rows `s` of its parent; nothing for any other node. */
  function Inflow(nodes: seq<Node>, alpha: Rows, eval: Eval, x: nat, s: seq<Match>): seq<Match>
    requires |alpha| == |nodes| && x < |nodes|
  {
    match nodes[x].kind
    case Filtered(_, f) =>
      (match f
       case PredicateFilter(fid) => FilterRows(s, eval, fid)
       case PatternFilter(pat) => MergeMatches(s, alpha[x], pat.optional))
    case _ => []
  }

  lemma {:induction false} FilterRowsAppend(a: seq<Match>, b: seq<Match>, eval: Eval, fid: nat)
    ensures FilterRows(a + b, eval, fid) == FilterRows(a, eval, fid) + FilterRows(b, eval, fid)
  {
    if |a| > 0 {
      assert (a + b)[1..] == a[1..] + b;
      FilterRowsAppend(a[1..], b, eval, fid);
    } else {
      assert a + b == b;
    }
  }

  lemma {:induction false} MergeMatchesAppend(a: seq<Match>, b: seq<Match>, news: seq<Match>, optional: bool)
    ensures multiset(MergeMatches(a + b, news, optional))
      == multiset(MergeMatches(a, news, optional)) + multiset(MergeMatches(b, news, optional))
  {
    if |a| > 0 {
      var ab := a + b;
      assert ab[1..] == a[1..] + b && ab[0] == a[0];
      MergeMatchesAppend(a[1..], b, news, optional);
    } else {
      assert a + b == b;
    }
  }

  /** Deriving from the parent's rows works row by row: more parent rows give more derived rows, appended. */
  lemma InflowAppend(nodes: seq<Node>, alpha: Rows, eval: Eval, x: nat, a: seq<Match>, b: seq<Match>)
    requires |alpha| == |nodes| && x < |nodes|
    ensures multiset(Inflow(nodes, alpha, eval, x, a + b))
      == multiset(Inflow(nodes, alpha, eval, x, a)) + multiset(Inflow(nodes, alpha, eval, x, b))
  {
    if nodes[x].kind.Filtered? {
      match nodes[x].kind.filter
      case PredicateFilter(fid) => FilterRowsAppend(a, b, eval, fid);
      case PatternFilter(pat) => MergeMatchesAppend(a, b, alpha[x], pat.optional);
    }
  }

  /** Every node's rows in `r` extend its rows in `rows`. */
  predicate Grows(rows: Rows, r: Rows) {
    |r| == |rows| && forall x | 0 <= x < |rows| :: rows[x] <= r[x]
  }

  /** The rows each node gained from `rows` to `r`. */
  function Diff(rows: Rows, r: Rows): (d: Rows)
    requires Grows(rows, r)
    ensures |d| == |rows|
    ensures forall x | 0 <= x < |rows| :: r[x] == rows[x] + d[x]
  {
    seq(|rows|, x requires 0 <= x < |rows| => r[x][|rows[x]|..])
  }

  /**
   * What node `x`'s activation gains when its inputs gain the rows `inc`:
   * nothing for a top node or a child of one (they read only their alpha
   * memory), the derived rows for another filtered node, and the members'
   * gains for a union.
   */
  function Gain(nodes: seq<Node>, alpha: Rows, eval: Eval, inc: Rows, x: nat): multiset<Match>
    requires Shaped(nodes, alpha, inc) && x < |nodes|
  {
    match nodes[x].kind
    case Top => multiset{}
    case Union(ms) => multiset(ConcatRows(inc, ms))
    case Filtered(p, _) => if nodes[p].kind.Top? then multiset{} else multiset(Inflow(nodes, alpha, eval, x, inc[p]))
  }

  /** The node-by-node concatenation of two increments. */
  function Plus(f: Rows, g: Rows): (r: Rows)
    requires |f| == |g|
    ensures |r| == |f| && forall y | 0 <= y < |f| :: r[y] == f[y] + g[y]
  {
    seq(|f|, y requires 0 <= y < |f| => f[y] + g[y])
  }

  /** Growing in two steps gains the first step's rows followed by the second's. */
  lemma DiffChain(a: Rows, b: Rows, c: Rows)
    requires Grows(a, b) && Grows(b, c)
    ensures Grows(a, c) && Diff(a, c) == Plus(Diff(a, b), Diff(b, c))
  {
    var d1 := Diff(a, b);
    var d2 := Diff(b, c);
    forall y | 0 <= y < |a| ensures a[y] <= c[y] && c[y][|a[y]|..] == d1[y] + d2[y] {
      assert c[y] == a[y] + (d1[y] + d2[y]);
    }
  }

  lemma {:induction false} ConcatRowsPlus(f: Rows, g: Rows, list: seq<nat>)
    requires |f| == |g| && forall j | 0 <= j < |list| :: list[j] < |f|
    ensures multiset(ConcatRows(Plus(f, g), list)) == multiset(ConcatRows(f, list)) + multiset(ConcatRows(g, list))
  {
    if |list| > 0 {
      ConcatRowsPlus(f, g, list[1..]);
    }
  }

  /** Gains add up: the gain from two increments together is the sum of their gains. */
  lemma GainAdd(nodes: seq<Node>, alpha: Rows, eval: Eval, f: Rows, g: Rows, x: nat)
    requires Shaped(nodes, alpha, f) && Shaped(nodes, alpha, g) && x < |nodes|
    ensures Gain(nodes, alpha, eval, Plus(f, g), x) == Gain(nodes, alpha, eval, f, x) + Gain(nodes, alpha, eval, g, x)
  {
    match nodes[x].kind
    case Top =>
    case Union(ms) => ConcatRowsPlus(f, g, ms);
    case Filtered(p, _) => InflowAppend(nodes, alpha, eval, x, f[p], g[p]);
  }

  /** An increment of `ms` at `q` alone and nothing anywhere else. */
  predicate OnlyAt(inc: Rows, q: nat, ms: seq<Match>) {
    forall y | 0 <= y < |inc| :: inc[y] == (if y == q then ms else [])
  }

  lemma {:induction false} ConcatRowsOnlyAt(inc: Rows, list: seq<nat>, q: nat, ms: seq<Match>)
    requires OnlyAt(inc, q, ms) && forall j | 0 <= j < |list| :: list[j] < |inc|
    ensures multiset(ConcatRows(inc, list)) == Times(multiset(list)[q], multiset(ms))
  {
    if |list| > 0 {
      ConcatRowsOnlyAt(inc, list[1..], q, ms);
      assert list == [list[0]] + list[1..];
      var n := if list[0] == q then 1 else 0;
      assert multiset(list)[q] == n + multiset(list[1..])[q];
      TimesAdd(n, multiset(list[1..])[q], multiset(list)[q], multiset(ms));
    }
  }

  /**
   * Rows arriving at a non-top node `q` owe each child what it derives from
   * them, once, and each containing union the rows themselves, once per
   * time the union lists `q` among its members.
   */
  lemma GainOnlyAt(nodes: seq<Node>, alpha: Rows, eval: Eval, inc: Rows, q: nat, ms: seq<Match>, x: nat)
    requires Shaped(nodes, alpha, inc) && Linked(nodes) && q < |nodes| && !nodes[q].kind.Top? && x < |nodes|
    requires OnlyAt(inc, q, ms)
    ensures Gain(nodes, alpha, eval, inc, x)
      == Times(multiset(nodes[q].children)[x], multiset(Inflow(nodes, alpha, eval, x, ms)))
       + Times(multiset(nodes[q].partOf)[x], multiset(ms))
  {
    assert LinkedAt(nodes, q);
    assert multiset(nodes[q].children)[x] == ChildCount(nodes, q, x);
    assert multiset(nodes[q].partOf)[x] == MemberCount(nodes, x, q);
    match nodes[x].kind
    case Top =>
    case Union(members) => ConcatRowsOnlyAt(inc, members, q, ms);
    case Filtered(p, f) =>
      if !nodes[p].kind.Top? && p != q {
        assert inc[p] == [];
        match f
        case PredicateFilter(fid) =>
        case PatternFilter(pat) =>
      }
  }

  /** No increment, no gain. */
  lemma GainNone(nodes: seq<Node>, alpha: Rows, eval: Eval, inc: Rows, x: nat)
    requires Shaped(nodes, alpha, inc) && x < |nodes| && OnlyAt(inc, x, [])
    ensures Gain(nodes, alpha, eval, inc, x) == multiset{}
  {
    match nodes[x].kind
    case Top =>
    case Union(members) => ConcatRowsOnlyAt(inc, members, x, []);
    case Filtered(p, f) =>
      assert inc[p] == [];
      match f
      case PredicateFilter(fid) =>
      case PatternFilter(pat) =>
  }

  /** A node's activation from grown rows is its activation from the old rows plus the gain from the growth. */
  lemma ActivationSplit(nodes: seq<Node>, alpha: Rows, eval: Eval, rows: Rows, r: Rows, x: nat)
    requires Shaped(nodes, alpha, rows) && Grows(rows, r) && x < |nodes|
    ensures multiset(Activation(nodes, alpha, eval, r, x, None))
      == multiset(Activation(nodes, alpha, eval, rows, x, None)) + Gain(nodes, alpha, eval, Diff(rows, r), x)
  {
    var d := Diff(rows, r);
    match nodes[x].kind
    case Top =>
    case Union(members) =>
      assert r == Plus(rows, d);
      ConcatRowsPlus(rows, d, members);
    case Filtered(p, f) =>
      if !nodes[p].kind.Top? {
        InflowAppend(nodes, alpha, eval, x, rows[p], d[p]);
        match f
        case PredicateFilter(fid) =>
        case PatternFilter(pat) =>
      }
  }

  /**
   * `updateQuery` leaves every node grown by exactly what its inputs' growth
   * gives it, and `q` grown by `ms` besides. This is what makes the
   * incremental propagation agree with recomputing from scratch.
   */
  lemma {:induction false} UpdateQueryGain(nodes: seq<Node>, alpha: Rows, eval: Eval, rows: Rows, q: nat, ms: seq<Match>)
    requires Shaped(nodes, alpha, rows) && Linked(nodes) && q < |nodes| && !nodes[q].kind.Top?
    ensures var r := UpdateQuery(nodes, alpha, eval, rows, q, ms);
      && Grows(rows, r)
      && forall x | 0 <= x < |nodes| ::
        multiset(r[x]) == multiset(rows[x]) + Gain(nodes, alpha, eval, Diff(rows, r), x) + (if x == q then multiset(ms) else multiset{})
    decreases |nodes| - q, 2, 0
  {
    var r := UpdateQuery(nodes, alpha, eval, rows, q, ms);
    if |ms| == 0 {
      forall x | 0 <= x < |nodes| ensures Gain(nodes, alpha, eval, Diff(rows, r), x) == multiset{} {
        GainNone(nodes, alpha, eval, Diff(rows, r), x);
      }
    } else {
      var ch := nodes[q].children;
      var us := nodes[q].partOf;
      var r1 := UpdateChildren(nodes, alpha, eval, rows, q, 0, ms);
      var r2 := UpdateUnions(nodes, alpha, eval, r1, q, 0, ms);
      NoReachBack(nodes, ch, 0, q);
      NoReachBack(nodes, us, 0, q);
      assert r == r2[q := r2[q] + ms];
      UpdateChildrenGain(nodes, alpha, eval, rows, q, 0, ms);
      UpdateUnionsGain(nodes, alpha, eval, r1, q, 0, ms);
      QueryCombine(nodes, alpha, eval, rows, r1, r2, q, ms);
    }
  }

  /** Combines the children's and the unions' updates with `q`'s own new rows, node by node. */
  lemma QueryCombine(nodes: seq<Node>, alpha: Rows, eval: Eval, rows: Rows, r1: Rows, r2: Rows, q: nat, ms: seq<Match>)
    requires Shaped(nodes, alpha, rows) && Linked(nodes) && q < |nodes| && !nodes[q].kind.Top?
    requires Grows(rows, r1) && Grows(r1, r2)
    requires forall x | 0 <= x < |nodes| ::
      multiset(r1[x]) == multiset(rows[x]) + Gain(nodes, alpha, eval, Diff(rows, r1), x)
        + Times(multiset(nodes[q].children[0..])[x], multiset(Inflow(nodes, alpha, eval, x, ms)))
    requires forall x | 0 <= x < |nodes| ::
      multiset(r2[x]) == multiset(r1[x]) + Gain(nodes, alpha, eval, Diff(r1, r2), x)
        + Times(multiset(nodes[q].partOf[0..])[x], multiset(ms))
    ensures var r := r2[q := r2[q] + ms];
      && Grows(rows, r)
      && forall x | 0 <= x < |nodes| ::
        multiset(r[x]) == multiset(rows[x]) + Gain(nodes, alpha, eval, Diff(rows, r), x) + (if x == q then multiset(ms) else multiset{})
  {
    var r := r2[q := r2[q] + ms];
    assert Grows(r2, r);
    var s := Diff(r2, r);
    assert OnlyAt(s, q, ms);
    DiffChain(rows, r1, r2);
    DiffChain(rows, r2, r);
    assert nodes[q].children[0..] == nodes[q].children && nodes[q].partOf[0..] == nodes[q].partOf;
    forall x | 0 <= x < |nodes| ensures
      multiset(r[x]) == multiset(rows[x]) + Gain(nodes, alpha, eval, Diff(rows, r), x) + (if x == q then multiset(ms) else multiset{})
    {
      var d1 := Diff(rows, r1);
      var d2 := Diff(r1, r2);
      GainAdd(nodes, alpha, eval, Plus(d1, d2), s, x);
      GainAdd(nodes, alpha, eval, d1, d2, x);
      GainOnlyAt(nodes, alpha, eval, s, q, ms, x);
      assert multiset(r[x]) == multiset(r2[x]) + (if x == q then multiset(ms) else multiset{});
      Regroup3(multiset(rows[x]), multiset(r1[x]), multiset(r2[x]), multiset(r[x]),
        Gain(nodes, alpha, eval, d1, x), Gain(nodes, alpha, eval, d2, x), Gain(nodes, alpha, eval, s, x),
        Gain(nodes, alpha, eval, Diff(rows, r), x),
        Times(multiset(nodes[q].children)[x], multiset(Inflow(nodes, alpha, eval, x, ms))),
        Times(multiset(nodes[q].partOf)[x], multiset(ms)),
        if x == q then multiset(ms) else multiset{});
    }
  }

  lemma Regroup3(a: multiset<Match>, b: multiset<Match>, c: multiset<Match>, d: multiset<Match>,
                 g1: multiset<Match>, g2: multiset<Match>, gs: multiset<Match>, g: multiset<Match>,
                 o1: multiset<Match>, o2: multiset<Match>, own: multiset<Match>)
    requires b == a + g1 + o1 && c == b + g2 + o2 && d == c + own && g == g1 + g2 + gs && gs == o1 + o2
    ensures d == a + g + own
  {
  }

  /** Left-activating the children from position `k` on: each node grows by its inputs' growth, and each child by what it derives from `ms`. */
  lemma {:induction false} UpdateChildrenGain(nodes: seq<Node>, alpha: Rows, eval: Eval, rows: Rows, q: nat, k: nat, ms: seq<Match>)
    requires Shaped(nodes, alpha, rows) && Linked(nodes) && q < |nodes| && !nodes[q].kind.Top? && k <= |nodes[q].children|
    ensures var r := UpdateChildren(nodes, alpha, eval, rows, q, k, ms);
      && Grows(rows, r)
      && forall x | 0 <= x < |nodes| ::
        multiset(r[x]) == multiset(rows[x]) + Gain(nodes, alpha, eval, Diff(rows, r), x)
          + Times(multiset(nodes[q].children[k..])[x], multiset(Inflow(nodes, alpha, eval, x, ms)))
    decreases |nodes| - q, 1, |nodes[q].children| - k
  {
    var ch := nodes[q].children;
    var r := UpdateChildren(nodes, alpha, eval, rows, q, k, ms);
    if k == |ch| {
      forall x | 0 <= x < |nodes| ensures Gain(nodes, alpha, eval, Diff(rows, r), x) == multiset{} {
        GainNone(nodes, alpha, eval, Diff(rows, r), x);
      }
    } else {
      var c := ch[k];
      ChildLink(nodes, q, k);
      var input := Inflow(nodes, alpha, eval, c, ms);
      assert Activation(nodes, alpha, eval, rows, c, Some(ms)) == input;
      var r1 := UpdateQuery(nodes, alpha, eval, rows, c, input);
      assert r1 == LeftActivate(nodes, alpha, eval, rows, c, Some(ms));
      UpdateQueryGain(nodes, alpha, eval, rows, c, input);
      UpdateChildrenGain(nodes, alpha, eval, r1, q, k + 1, ms);
      ChildrenCombine(nodes, alpha, eval, rows, r1, r, ch, k, ms);
    }
  }

  /** Combines the first child's activation with the rest of the loop, node by node. */
  lemma ChildrenCombine(nodes: seq<Node>, alpha: Rows, eval: Eval, rows: Rows, r1: Rows, r: Rows, ch: seq<nat>, k: nat, ms: seq<Match>)
    requires Shaped(nodes, alpha, rows) && Grows(rows, r1) && Grows(r1, r) && k < |ch|
    requires forall x | 0 <= x < |nodes| ::
      multiset(r1[x]) == multiset(rows[x]) + Gain(nodes, alpha, eval, Diff(rows, r1), x)
        + (if x == ch[k] then multiset(Inflow(nodes, alpha, eval, ch[k], ms)) else multiset{})
    requires forall x | 0 <= x < |nodes| ::
      multiset(r[x]) == multiset(r1[x]) + Gain(nodes, alpha, eval, Diff(r1, r), x)
        + Times(multiset(ch[k + 1..])[x], multiset(Inflow(nodes, alpha, eval, x, ms)))
    ensures Grows(rows, r)
    ensures forall x | 0 <= x < |nodes| ::
      multiset(r[x]) == multiset(rows[x]) + Gain(nodes, alpha, eval, Diff(rows, r), x)
        + Times(multiset(ch[k..])[x], multiset(Inflow(nodes, alpha, eval, x, ms)))
  {
    DiffChain(rows, r1, r);
    forall x | 0 <= x < |nodes| ensures
      multiset(r[x]) == multiset(rows[x]) + Gain(nodes, alpha, eval, Diff(rows, r), x)
        + Times(multiset(ch[k..])[x], multiset(Inflow(nodes, alpha, eval, x, ms)))
    {
      LoopAt(nodes, alpha, eval, rows, r1, r, ch, k, x, multiset(Inflow(nodes, alpha, eval, x, ms)), multiset(Inflow(nodes, alpha, eval, x, ms)));
    }
  }

  /** One step of a propagation loop over `list` at node `x`: what the step gave and what the rest of the loop gave add up. */
  lemma LoopAt(nodes: seq<Node>, alpha: Rows, eval: Eval, rows: Rows, r1: Rows, r: Rows, list: seq<nat>, k: nat, x: nat,
               first: multiset<Match>, owed: multiset<Match>)
    requires Shaped(nodes, alpha, rows) && Grows(rows, r1) && Grows(r1, r) && k < |list| && x < |nodes|
    requires x == list[k] ==> first == owed
    requires multiset(r1[x]) == multiset(rows[x]) + Gain(nodes, alpha, eval, Diff(rows, r1), x)
      + (if x == list[k] then first else multiset{})
    requires multiset(r[x]) == multiset(r1[x]) + Gain(nodes, alpha, eval, Diff(r1, r), x)
      + Times(multiset(list[k + 1..])[x], owed)
    ensures Grows(rows, r)
    ensures multiset(r[x]) == multiset(rows[x]) + Gain(nodes, alpha, eval, Diff(rows, r), x)
      + Times(multiset(list[k..])[x], owed)
  {
    var n := if x == list[k] then 1 else 0;
    var rest := multiset(list[k + 1..])[x];
    assert multiset(list[k..])[x] == n + rest by {
      assert list[k..] == [list[k]] + list[k + 1..];
    }
    assert Times(n, owed) == (if x == list[k] then first else multiset{}) by {
      if x == list[k] {
        assert Times(1, owed) == owed + Times(0, owed);
      }
    }
    StepAt(nodes, alpha, eval, rows, r1, r, x, n, owed, rest, multiset(list[k..])[x]);
  }

  /** Adding `ms` to the containing unions from position `k` on: each node grows by its inputs' growth, and each union by `ms` once per listing. */
  lemma {:induction false} UpdateUnionsGain(nodes: seq<Node>, alpha: Rows, eval: Eval, rows: Rows, q: nat, k: nat, ms: seq<Match>)
    requires Shaped(nodes, alpha, rows) && Linked(nodes) && q < |nodes| && !nodes[q].kind.Top? && k <= |nodes[q].partOf|
    ensures var r := UpdateUnions(nodes, alpha, eval, rows, q, k, ms);
      && Grows(rows, r)
      && forall x | 0 <= x < |nodes| ::
        multiset(r[x]) == multiset(rows[x]) + Gain(nodes, alpha, eval, Diff(rows, r), x)
          + Times(multiset(nodes[q].partOf[k..])[x], multiset(ms))
    decreases |nodes| - q, 1, |nodes[q].partOf| - k
  {
    var us := nodes[q].partOf;
    var r := UpdateUnions(nodes, alpha, eval, rows, q, k, ms);
    if k == |us| {
      forall x | 0 <= x < |nodes| ensures Gain(nodes, alpha, eval, Diff(rows, r), x) == multiset{} {
        GainNone(nodes, alpha, eval, Diff(rows, r), x);
      }
    } else {
      var u := us[k];
      PartOfLink(nodes, q, k);
      var r1 := UpdateQuery(nodes, alpha, eval, rows, u, ms);
      UpdateQueryGain(nodes, alpha, eval, rows, u, ms);
      UpdateUnionsGain(nodes, alpha, eval, r1, q, k + 1, ms);
      UnionsCombine(nodes, alpha, eval, rows, r1, r, us, k, ms);
    }
  }

  /** Combines the first union's update with the rest of the loop, node by node. */
  lemma UnionsCombine(nodes: seq<Node>, alpha: Rows, eval: Eval, rows: Rows, r1: Rows, r: Rows, us: seq<nat>, k: nat, ms: seq<Match>)
    requires Shaped(nodes, alpha, rows) && Grows(rows, r1) && Grows(r1, r) && k < |us|
    requires forall x | 0 <= x < |nodes| ::
      multiset(r1[x]) == multiset(rows[x]) + Gain(nodes, alpha, eval, Diff(rows, r1), x)
        + (if x == us[k] then multiset(ms) else multiset{})
    requires forall x | 0 <= x < |nodes| ::
      multiset(r[x]) == multiset(r1[x]) + Gain(nodes, alpha, eval, Diff(r1, r), x) + Times(multiset(us[k + 1..])[x], multiset(ms))
    ensures Grows(rows, r)
    ensures forall x | 0 <= x < |nodes| ::
      multiset(r[x]) == multiset(rows[x]) + Gain(nodes, alpha, eval, Diff(rows, r), x) + Times(multiset(us[k..])[x], multiset(ms))
  {
    DiffChain(rows, r1, r);
    forall x | 0 <= x < |nodes| ensures
      multiset(r[x]) == multiset(rows[x]) + Gain(nodes, alpha, eval, Diff(rows, r), x) + Times(multiset(us[k..])[x], multiset(ms))
    {
      LoopAt(nodes, alpha, eval, rows, r1, r, us, k, x, multiset(ms), multiset(ms));
    }
  }

  /** One step of a propagation loop at node `x`: the step's own growth and the rest's add up. */
  lemma StepAt(nodes: seq<Node>, alpha: Rows, eval: Eval, rows: Rows, r1: Rows, r: Rows, x: nat, n: nat, owed: multiset<Match>, rest: nat, total: nat)
    requires Shaped(nodes, alpha, rows) && Grows(rows, r1) && Grows(r1, r) && x < |nodes| && total == n + rest
    requires multiset(r1[x]) == multiset(rows[x]) + Gain(nodes, alpha, eval, Diff(rows, r1), x) + Times(n, owed)
    requires multiset(r[x]) == multiset(r1[x]) + Gain(nodes, alpha, eval, Diff(r1, r), x) + Times(rest, owed)
    ensures Grows(rows, r)
    ensures multiset(r[x]) == multiset(rows[x]) + Gain(nodes, alpha, eval, Diff(rows, r), x) + Times(total, owed)
  {
    DiffChain(rows, r1, r);
    GainAdd(nodes, alpha, eval, Diff(rows, r1), Diff(r1, r), x);
    TimesAdd(n, rest, total, owed);
    Regroup(multiset(rows[x]), multiset(r1[x]), multiset(r[x]),
      Gain(nodes, alpha, eval, Diff(rows, r1), x), Gain(nodes, alpha, eval, Diff(r1, r), x), Gain(nodes, alpha, eval, Diff(rows, r), x),
      Times(n, owed), Times(rest, owed), Times(total, owed));
  }

  lemma Regroup(a: multiset<Match>, b: multiset<Match>, c: multiset<Match>, g1: multiset<Match>, g2: multiset<Match>, g: multiset<Match>,
                o1: multiset<Match>, o2: multiset<Match>, o: multiset<Match>)
    requires b == a + g1 + o1 && c == b + g2 + o2 && g == g1 + g2 && o == o1 + o2
    ensures c == a + g + o
  {
  }

  lemma {:induction false} CompatibleAppend(e: Match, a: seq<Match>, b: seq<Match>)
    ensures CompatibleMatches(e, a + b) == CompatibleMatches(e, a) + CompatibleMatches(e, b)
  {
    if |a| > 0 {
      assert (a + b)[1..] == a[1..] + b;
      assert (a + b)[0] == a[0];
      CompatibleAppend(e, a[1..], b);
    } else {
      assert a + b == b;
    }
  }

  lemma {:induction false} JoinAllAppend(e: Match, a: seq<Match>, b: seq<Match>)
    requires forall n | n in a + b :: Compatible(e.bindings, n.bindings)
    ensures JoinAll(e, a + b) == JoinAll(e, a) + JoinAll(e, b)
  {
    if |a| > 0 {
      assert (a + b)[1..] == a[1..] + b;
      assert (a + b)[0] == a[0];
      JoinAllAppend(e, a[1..], b);
    } else {
      assert a + b == b;
    }
  }

  /** A plain join of one row with two batches of new matches is its join with the first batch, then with the second. */
  lemma MergeOneNews(e: Match, a: seq<Match>, b: seq<Match>)
    ensures MergeOne(e, a + b, false) == MergeOne(e, a, false) + MergeOne(e, b, false)
  {
    CompatibleAppend(e, a, b);
    var ca := CompatibleMatches(e, a);
    var cb := CompatibleMatches(e, b);
    JoinAllAppend(e, ca, cb);
  }

  /**
   * A plain join with two batches of new matches gives, counted with
   * repeats, the join with the first batch and the join with the second.
   * This is what lets a plain node pass on only the rows a new match makes.
   */
  lemma {:induction false} MergeNewsSplit(existing: seq<Match>, a: seq<Match>, b: seq<Match>)
    ensures multiset(MergeMatches(existing, a + b, false))
      == multiset(MergeMatches(existing, a, false)) + multiset(MergeMatches(existing, b, false))
  {
    if |existing| > 0 {
      MergeOneNews(existing[0], a, b);
      MergeNewsSplit(existing[1..], a, b);
    }
  }

  /** A node's activation reads only its own alpha memory. */
  lemma ActivationAlpha(nodes: seq<Node>, alpha: Rows, alpha': Rows, eval: Eval, rows: Rows, x: nat)
    requires Shaped(nodes, alpha, rows) && |alpha'| == |alpha| && x < |nodes| && alpha'[x] == alpha[x]
    ensures Activation(nodes, alpha', eval, rows, x, None) == Activation(nodes, alpha, eval, rows, x, None)
  {
  }

  /** A plain pattern node's activation, once its alpha memory gains `m`, gains exactly the rows `m` makes. */
  lemma PlainActivationGrows(nodes: seq<Node>, alpha: Rows, eval: Eval, rows: Rows, q: nat, m: Match)
    requires Shaped(nodes, alpha, rows) && q < |nodes| && IsPatternNode(nodes, q) && !PatternOf(nodes, q).optional
    ensures multiset(Activation(nodes, alpha[q := alpha[q] + [m]], eval, rows, q, None))
      == multiset(Activation(nodes, alpha, eval, rows, q, None)) + multiset(Delta(nodes, rows, q, m))
  {
    var p := nodes[q].kind.parent;
    if !nodes[p].kind.Top? {
      MergeNewsSplit(rows[p], alpha[q], [m]);
    }
  }

  /** One node after a plain right activation: its rows and its activation grew alike. */
  lemma PlainAt(nodes: seq<Node>, alpha: Rows, eval: Eval, rows: Rows, r: Rows, q: nat, m: Match, x: nat)
    requires Consistent(nodes, alpha, eval, rows) && q < |nodes| && IsPatternNode(nodes, q) && !PatternOf(nodes, q).optional
    requires Grows(rows, r) && x < |nodes|
    requires var alpha' := alpha[q := alpha[q] + [m]];
      multiset(r[x]) == multiset(rows[x]) + Gain(nodes, alpha', eval, Diff(rows, r), x)
        + (if x == q then multiset(Delta(nodes, rows, q, m)) else multiset{})
    ensures multiset(r[x]) == multiset(Activation(nodes, alpha[q := alpha[q] + [m]], eval, r, x, None))
  {
    var alpha' := alpha[q := alpha[q] + [m]];
    ActivationSplit(nodes, alpha', eval, rows, r, x);
    if x == q {
      PlainActivationGrows(nodes, alpha, eval, rows, q, m);
    } else {
      ActivationAlpha(nodes, alpha, alpha', eval, rows, x);
    }
  }

  /** A plain pattern node's right activation keeps the network consistent with its grown alpha memory. */
  lemma PlainRightActivateConsistent(nodes: seq<Node>, alpha: Rows, eval: Eval, rows: Rows, q: nat, m: Match)
    requires Consistent(nodes, alpha, eval, rows) && Linked(nodes)
    requires q < |nodes| && IsPatternNode(nodes, q) && !PatternOf(nodes, q).optional
    ensures var alpha' := alpha[q := alpha[q] + [m]];
      Consistent(nodes, alpha', eval, RightActivateCorrected(nodes, alpha', eval, rows, q, m))
  {
    var alpha' := alpha[q := alpha[q] + [m]];
    var d := Delta(nodes, rows, q, m);
    var r := UpdateQuery(nodes, alpha', eval, rows, q, d);
    assert RightActivateCorrected(nodes, alpha', eval, rows, q, m) == r;
    UpdateQueryGain(nodes, alpha', eval, rows, q, d);
    forall x | 0 <= x < |nodes| ensures multiset(r[x]) == multiset(Activation(nodes, alpha', eval, r, x, None)) {
      PlainAt(nodes, alpha, eval, rows, r, q, m, x);
    }
  }

  /** A node not reached from `q` reads only nodes not reached from `q`. */
  lemma InputsUnreached(nodes: seq<Node>, q: nat, x: nat)
    requires Ordered(nodes) && Linked(nodes) && q < |nodes| && x < |nodes| && !Reach(nodes, q, x)
    ensures nodes[x].kind.Filtered? ==> !Reach(nodes, q, nodes[x].kind.parent)
    ensures nodes[x].kind.Union? ==> forall j | 0 <= j < |nodes[x].kind.members| :: !Reach(nodes, q, nodes[x].kind.members[j])
  {
    if nodes[x].kind.Filtered? {
      var p := nodes[x].kind.parent;
      if Reach(nodes, q, p) {
        ParentLink(nodes, x);
        FeedsReach(nodes, p, x);
        ReachTrans(nodes, q, p, x);
      }
    }
    if nodes[x].kind.Union? {
      forall j | 0 <= j < |nodes[x].kind.members| ensures !Reach(nodes, q, nodes[x].kind.members[j]) {
        var y := nodes[x].kind.members[j];
        if Reach(nodes, q, y) {
          MemberLink(nodes, x, j);
          FeedsReach(nodes, y, x);
          ReachTrans(nodes, q, y, x);
        }
      }
    }
  }

  /** Rows that agree on a node's parent or members give it the same activation. */
  lemma ActivationOnInputs(nodes: seq<Node>, alpha: Rows, eval: Eval, rows: Rows, r: Rows, x: nat)
    requires Shaped(nodes, alpha, rows) && Shaped(nodes, alpha, r) && x < |nodes|
    requires nodes[x].kind.Filtered? ==> rows[nodes[x].kind.parent] == r[nodes[x].kind.parent]
    requires nodes[x].kind.Union? ==> forall j | 0 <= j < |nodes[x].kind.members| :: rows[nodes[x].kind.members[j]] == r[nodes[x].kind.members[j]]
    ensures Activation(nodes, alpha, eval, r, x, None) == Activation(nodes, alpha, eval, rows, x, None)
  {
    if nodes[x].kind.Union? {
      ConcatRowsLocal(rows, r, nodes[x].kind.members);
    }
  }

  /** One node after an optional right activation: a rebuilt node equals its activation, and any other kept rows its inputs still give. */
  lemma OptionalAt(nodes: seq<Node>, alpha: Rows, eval: Eval, rows: Rows, r: Rows, q: nat, m: Match, x: nat)
    requires Consistent(nodes, alpha, eval, rows) && Linked(nodes) && q < |nodes| && x < |nodes|
    requires var alpha' := alpha[q := alpha[q] + [m]];
      && |r| == |rows|
      && (forall y | 0 <= y < |rows| && !Reach(nodes, q, y) :: r[y] == rows[y])
      && (Reach(nodes, q, x) ==> r[x] == Activation(nodes, alpha', eval, r, x, None))
    ensures multiset(r[x]) == multiset(Activation(nodes, alpha[q := alpha[q] + [m]], eval, r, x, None))
  {
    var alpha' := alpha[q := alpha[q] + [m]];
    if !Reach(nodes, q, x) {
      InputsUnreached(nodes, q, x);
      ActivationOnInputs(nodes, alpha', eval, rows, r, x);
      ActivationAlpha(nodes, alpha, alpha', eval, rows, x);
    }
  }

  /** An optional pattern node's right activation, which rebuilds what it reaches, leaves the network consistent. */
  lemma OptionalRightActivateConsistent(nodes: seq<Node>, alpha: Rows, eval: Eval, rows: Rows, q: nat, m: Match)
    requires Consistent(nodes, alpha, eval, rows) && Linked(nodes)
    requires q < |nodes| && IsPatternNode(nodes, q) && PatternOf(nodes, q).optional
    ensures var alpha' := alpha[q := alpha[q] + [m]];
      Consistent(nodes, alpha', eval, RightActivateCorrected(nodes, alpha', eval, rows, q, m))
  {
    var alpha' := alpha[q := alpha[q] + [m]];
    var r := RightActivateCorrected(nodes, alpha', eval, rows, q, m);
    forall x | 0 <= x < |nodes| ensures multiset(r[x]) == multiset(Activation(nodes, alpha', eval, r, x, None)) {
      OptionalAt(nodes, alpha, eval, rows, r, q, m, x);
    }
  }

  /**
   * `addToQuery` keeps the network consistent: after a triple reaches a
   * pattern node, every node's rows again hold exactly what recomputing it
   * from scratch would give, with the node's alpha memory grown by the
   * triple's match when the triple matches.
   */
  lemma AddToQueryConsistent(nodes: seq<Node>, alpha: Rows, eval: Eval, rows: Rows, q: nat, t: Triple)
    requires Consistent(nodes, alpha, eval, rows) && Linked(nodes) && q < |nodes| && IsPatternNode(nodes, q)
    ensures var r := AddToQuery(nodes, alpha, eval, rows, q, t);
      Consistent(nodes, r.0, eval, r.1)
  {
    match TestTriple(t, PatternOf(nodes, q))
    case None =>
    case Some(b) =>
      var m := Match(b, [t]);
      if PatternOf(nodes, q).optional {
        OptionalRightActivateConsistent(nodes, alpha, eval, rows, q, m);
      } else {
        PlainRightActivateConsistent(nodes, alpha, eval, rows, q, m);
      }
  }

  /** A network with no nodes is consistent. */
  lemma EmptyConsistent(eval: Eval)
    ensures Consistent([], [], eval, [])
  {
  }

  /** Appending nodes leaves the old nodes' activations as they were. */
  lemma ActivationGrow(nodes: seq<Node>, alpha: Rows, eval: Eval, rows: Rows, nodes': seq<Node>, alpha': Rows, rows': Rows, x: nat)
    requires Shaped(nodes, alpha, rows) && Shaped(nodes', alpha', rows') && x < |nodes| <= |nodes'|
    requires forall y | 0 <= y < |nodes| :: nodes'[y].kind == nodes[y].kind && alpha'[y] == alpha[y] && rows'[y] == rows[y]
    ensures Activation(nodes', alpha', eval, rows', x, None) == Activation(nodes, alpha, eval, rows, x, None)
  {
    if nodes[x].kind.Union? {
      ConcatRowsLocal(rows, rows', nodes[x].kind.members);
    }
  }

  /**
   * Appending a node whose rows hold its activation keeps a consistent
   * network consistent, as long as the old nodes keep their kinds, alpha
   * memories and rows.
   */
  lemma GrowConsistent(nodes: seq<Node>, alpha: Rows, eval: Eval, rows: Rows, nodes': seq<Node>, alpha': Rows, rows': Rows)
    requires Consistent(nodes, alpha, eval, rows) && Shaped(nodes', alpha', rows') && |nodes'| == |nodes| + 1
    requires forall y | 0 <= y < |nodes| :: nodes'[y].kind == nodes[y].kind && alpha'[y] == alpha[y] && rows'[y] == rows[y]
    requires multiset(rows'[|nodes|]) == multiset(Activation(nodes', alpha', eval, rows', |nodes|, None))
    ensures Consistent(nodes', alpha', eval, rows')
  {
    forall x | 0 <= x < |nodes| ensures multiset(rows'[x]) == multiset(Activation(nodes', alpha', eval, rows', x, None)) {
      ActivationGrow(nodes, alpha, eval, rows, nodes', alpha', rows', x);
    }
  }

  /**
   * Relinking nodes, which changes only who is notified and not what any
   * node computes, keeps a network consistent.
   */
  lemma RelinkConsistent(nodes: seq<Node>, alpha: Rows, eval: Eval, rows: Rows, nodes': seq<Node>)
    requires Consistent(nodes, alpha, eval, rows) && Ordered(nodes') && |nodes'| == |nodes|
    requires forall y | 0 <= y < |nodes| :: nodes'[y].kind == nodes[y].kind
    ensures Consistent(nodes', alpha, eval, rows)
  {
    forall x | 0 <= x < |nodes| ensures multiset(rows[x]) == multiset(Activation(nodes', alpha, eval, rows, x, None)) {
      ActivationGrow(nodes, alpha, eval, rows, nodes', alpha, rows, x);
    }
  }

  /**
   * A node whose own kind is unchanged, in a network whose top nodes are
   * unchanged, computes the same activation.
   */
  lemma ActivationRelinked(nodes: seq<Node>, nodes': seq<Node>, alpha: Rows, eval: Eval, rows: Rows, x: nat)
    requires Shaped(nodes, alpha, rows) && Shaped(nodes', alpha, rows) && x < |nodes|
    requires nodes'[x].kind == nodes[x].kind
    requires forall y | 0 <= y < |nodes| :: nodes'[y].kind.Top? == nodes[y].kind.Top?
    ensures Activation(nodes', alpha, eval, rows, x, None) == Activation(nodes, alpha, eval, rows, x, None)
  {
  }
}

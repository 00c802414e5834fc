/**
 * Unions of query nodes (`add` with another query): a union's rows are its
 * members' rows concatenated, and every member lists the union in `partOf`
 * so that rows the member gains later are passed on.
 */
module Unions {
  import opened Wrappers
  import opened Matching
  import opened Network
  import opened Databank
  import opened Consistency

  /** The nodes after appending `u` to the `partOf` list of node `x`. */
  function AddPartOf(nodes: seq<Node>, x: nat, u: nat): (r: seq<Node>)
    requires x < |nodes|
    ensures |r| == |nodes|
    ensures r[x] == nodes[x].(partOf := nodes[x].partOf + [u])
    ensures forall y | 0 <= y < |nodes| && y != x :: r[y] == nodes[y]
  {
    nodes[x := nodes[x].(partOf := nodes[x].partOf + [u])]
  }

  /** The nodes with a new union of `a` and `b` appended and listed by both. */
  function UnionNodes(nodes: seq<Node>, a: nat, b: nat): (r: seq<Node>)
    requires a < |nodes| && b < |nodes|
    ensures |r| == |nodes| + 1
    ensures r[|nodes|] == Node(Union([a, b]), [], [])
    ensures forall x | 0 <= x < |nodes| ::
      && r[x].kind == nodes[x].kind && r[x].children == nodes[x].children
      && r[x].partOf == nodes[x].partOf + (if x == a then [|nodes|] else []) + (if x == b then [|nodes|] else [])
  {
    var u := |nodes|;
    AddPartOf(AddPartOf(nodes + [Node(Union([a, b]), [], [])], a, u), b, u)
  }

  /**
   * `add` of another query to a query that is not a union: a new union node
   * of the two, whose rows start as the first's rows followed by the
   * second's. Both members then list the union (twice when they are the
   * same node). Nothing else changes.
   */
  function NewUnion(db: Databank, eval: Eval, a: nat, b: nat): (r: Databank)
    requires Valid(db) && a < |db.nodes| && b < |db.nodes|
    requires !db.nodes[a].kind.Top? && !db.nodes[a].kind.Union? && !db.nodes[b].kind.Top?
    ensures Valid(r)
    ensures var u := |db.nodes|;
      && |r.nodes| == u + 1
      && r.nodes[u] == Node(Union([a, b]), [], [])
      && r.rows[u] == db.rows[a] + db.rows[b]
      && r.nodes[a].partOf == db.nodes[a].partOf + [u] + (if a == b then [u] else [])
      && (a != b ==> r.nodes[b].partOf == db.nodes[b].partOf + [u])
      && r.store == db.store && r.index == db.index
      && r.alpha[..u] == db.alpha && r.rows[..u] == db.rows
    ensures r.nodes == UnionNodes(db.nodes, a, b) && r.alpha[|db.nodes|] == []
  {
    var u := |db.nodes|;
    var nodes1 := db.nodes + [Node(Union([a, b]), [], [])];
    var alpha1 := db.alpha + [[]];
    var rows1 := db.rows + [[]];
    assert Ordered(nodes1) by {
      assert forall x | 0 <= x < u :: nodes1[x] == db.nodes[x];
    }
    var rows2 := LeftActivate(nodes1, alpha1, eval, rows1, u, None);
    LeafActivation(nodes1, alpha1, eval, rows1, u);
    ConcatTwo(rows1, a, b);
    assert rows1[a] == db.rows[a] && rows1[b] == db.rows[b];
    var r := Databank(db.store, db.index, UnionNodes(db.nodes, a, b), alpha1, rows2);
    UnionValid(db, a, b, r);
    r
  }

  /** A new union starts with its members' rows, which is what it computes, so an up-to-date databank stays so. */
  lemma NewUnionUpToDate(db: Databank, eval: Eval, a: nat, b: nat)
    requires Valid(db) && a < |db.nodes| && b < |db.nodes|
    requires !db.nodes[a].kind.Top? && !db.nodes[a].kind.Union? && !db.nodes[b].kind.Top?
    requires UpToDate(db, eval)
    ensures UpToDate(NewUnion(db, eval, a, b), eval)
  {
    var r := NewUnion(db, eval, a, b);
    var n := |db.nodes|;
    forall y | 0 <= y < n ensures r.nodes[y].kind == db.nodes[y].kind && r.alpha[y] == db.alpha[y] && r.rows[y] == db.rows[y] {
      assert r.alpha[y] == r.alpha[..n][y] && r.rows[y] == r.rows[..n][y];
    }
    ConcatTwo(r.rows, a, b);
    GrowConsistent(db.nodes, db.alpha, eval, db.rows, r.nodes, r.alpha, r.rows);
  }

  lemma UnionValid(db: Databank, a: nat, b: nat, r: Databank)
    requires Valid(db) && a < |db.nodes| && b < |db.nodes|
    requires var u := |db.nodes|;
      && r.store == db.store && r.index == db.index
      && r.nodes == UnionNodes(db.nodes, a, b)
      && |r.alpha| == u + 1 && r.alpha[..u] == db.alpha && r.alpha[u] == []
      && |r.rows| == u + 1 && r.rows[..u] == db.rows
    ensures Valid(r)
  {
    var u := |db.nodes|;
    forall x | 0 <= x < u ensures r.nodes[x].kind == db.nodes[x].kind && r.alpha[x] == db.alpha[x] && r.rows[x] == db.rows[x] {
      assert r.alpha[x] == r.alpha[..u][x];
      assert r.rows[x] == r.rows[..u][x];
    }
    UnionLinked(db.nodes, a, b);
    UnionPatterns(db.nodes, a, b);
    GrowAlphaMemories(db, r);
    GrowTopChildRows(db, r);
  }

  lemma UnionPatterns(nodes: seq<Node>, a: nat, b: nat)
    requires a < |nodes| && b < |nodes|
    ensures Patterns(UnionNodes(nodes, a, b)) == Patterns(nodes)
  {
    var r := UnionNodes(nodes, a, b);
    forall x: nat | x < |nodes| ensures IsPatternNode(r, x) == IsPatternNode(nodes, x) {
    }
    forall x: nat ensures x in Patterns(r) <==> x in Patterns(nodes) {
    }
  }

  lemma UnionOrdered(nodes: seq<Node>, a: nat, b: nat)
    requires Ordered(nodes) && a < |nodes| && b < |nodes|
    ensures Ordered(UnionNodes(nodes, a, b))
  {
    var r := UnionNodes(nodes, a, b);
    var u := |nodes|;
    forall x | 0 <= x < |r|
      ensures forall j | 0 <= j < |r[x].children| :: x < r[x].children[j] < |r|
      ensures forall j | 0 <= j < |r[x].partOf| :: x < r[x].partOf[j] < |r|
      ensures r[x].kind.Filtered? ==> r[x].kind.parent < x
      ensures r[x].kind.Union? ==> forall j | 0 <= j < |r[x].kind.members| :: r[x].kind.members[j] < x
    {
      if x < u {
        var extra := (if x == a then [u] else []) + (if x == b then [u] else []);
        assert r[x].partOf == nodes[x].partOf + extra;
        forall j | 0 <= j < |r[x].partOf| ensures x < r[x].partOf[j] < |r| {
          if j >= |nodes[x].partOf| {
            assert r[x].partOf[j] == extra[j - |nodes[x].partOf|];
          }
        }
      }
    }
  }

  lemma UnionLinked(nodes: seq<Node>, a: nat, b: nat)
    requires Ordered(nodes) && Linked(nodes) && a < |nodes| && b < |nodes|
    ensures Ordered(UnionNodes(nodes, a, b))
    ensures Linked(UnionNodes(nodes, a, b))
  {
    UnionOrdered(nodes, a, b);
    var r := UnionNodes(nodes, a, b);
    forall x | 0 <= x < |r| ensures LinkedAt(r, x) {
      UnionLinkedAt(nodes, a, b, x);
    }
  }

  /** Node `x`'s links after the union: the members list it once per membership, and it links nowhere. */
  lemma UnionLinkedAt(nodes: seq<Node>, a: nat, b: nat, x: nat)
    requires Ordered(nodes) && Linked(nodes) && a < |nodes| && b < |nodes| && x <= |nodes|
    ensures LinkedAt(UnionNodes(nodes, a, b), x)
  {
    var r := UnionNodes(nodes, a, b);
    forall y | 0 <= y < |r|
      ensures multiset(r[x].children)[y] == ChildCount(r, x, y)
      ensures multiset(r[x].partOf)[y] == MemberCount(r, y, x)
    {
      UnionLinkPair(nodes, a, b, x, y);
    }
  }

  lemma UnionLinkPair(nodes: seq<Node>, a: nat, b: nat, x: nat, y: nat)
    requires Ordered(nodes) && Linked(nodes) && a < |nodes| && b < |nodes| && x <= |nodes| && y <= |nodes|
    ensures var r := UnionNodes(nodes, a, b);
      && multiset(r[x].children)[y] == ChildCount(r, x, y)
      && multiset(r[x].partOf)[y] == MemberCount(r, y, x)
  {
    var u := |nodes|;
    if x == u {
      assert y < u && nodes[y].kind.Union? ==> u !in nodes[y].kind.members;
      UnionLinkNew(nodes, a, b, y);
    } else {
      assert u !in nodes[x].children && u !in nodes[x].partOf;
      assert LinkedAt(nodes, x);
      UnionLinkOld(nodes, a, b, x, y);
    }
  }

  /** The new union links nowhere, and no node names it as parent or member. */
  lemma UnionLinkNew(nodes: seq<Node>, a: nat, b: nat, y: nat)
    requires a < |nodes| && b < |nodes| && y <= |nodes|
    requires y < |nodes| ==> nodes[y].kind.Filtered? ==> nodes[y].kind.parent < |nodes|
    requires y < |nodes| && nodes[y].kind.Union? ==> |nodes| !in nodes[y].kind.members
    ensures var r := UnionNodes(nodes, a, b); var u := |nodes|;
      && multiset(r[u].children)[y] == ChildCount(r, u, y)
      && multiset(r[u].partOf)[y] == MemberCount(r, y, u)
  {
    var r := UnionNodes(nodes, a, b);
    var u := |nodes|;
    assert r[u].children == [] && r[u].partOf == [];
    if y < u {
      assert r[y].kind == nodes[y].kind;
    }
  }

  /** An old node's links gain the new union once per membership, and nothing else. */
  lemma UnionLinkOld(nodes: seq<Node>, a: nat, b: nat, x: nat, y: nat)
    requires a < |nodes| && b < |nodes| && x < |nodes| && y <= |nodes|
    requires LinkedAt(nodes, x)
    requires |nodes| !in nodes[x].children && |nodes| !in nodes[x].partOf
    ensures var r := UnionNodes(nodes, a, b);
      && multiset(r[x].children)[y] == ChildCount(r, x, y)
      && multiset(r[x].partOf)[y] == MemberCount(r, y, x)
  {
    UnionChildrenOld(nodes, a, b, x, y);
    UnionPartOfOld(nodes, a, b, x, y);
  }

  /** An old node keeps its children, and no node gains or loses a parent. */
  lemma UnionChildrenOld(nodes: seq<Node>, a: nat, b: nat, x: nat, y: nat)
    requires a < |nodes| && b < |nodes| && x < |nodes| && y <= |nodes|
    requires LinkedAt(nodes, x) && |nodes| !in nodes[x].children
    ensures var r := UnionNodes(nodes, a, b);
      multiset(r[x].children)[y] == ChildCount(r, x, y)
  {
    var r := UnionNodes(nodes, a, b);
    assert r[x].children == nodes[x].children;
    if y < |nodes| {
      assert r[y].kind == nodes[y].kind;
      assert multiset(nodes[x].children)[y] == ChildCount(nodes, x, y);
    } else {
      assert r[y].kind == Union([a, b]);
    }
  }

  /** An old node's `partOf` gains the new union once per membership, and nothing else. */
  lemma UnionPartOfOld(nodes: seq<Node>, a: nat, b: nat, x: nat, y: nat)
    requires a < |nodes| && b < |nodes| && x < |nodes| && y <= |nodes|
    requires LinkedAt(nodes, x) && |nodes| !in nodes[x].partOf
    ensures var r := UnionNodes(nodes, a, b);
      multiset(r[x].partOf)[y] == MemberCount(r, y, x)
  {
    var r := UnionNodes(nodes, a, b);
    var u := |nodes|;
    var e1 := if x == a then [u] else [];
    var e2 := if x == b then [u] else [];
    assert r[x].partOf == nodes[x].partOf + e1 + e2;
    UnionCounts(nodes[x].partOf, a, b, x, u, y);
    var before := multiset(nodes[x].partOf)[y];
    var after := multiset(r[x].partOf)[y];
    assert after == before + (if y == u then multiset([a, b])[x] else 0);
    if y < u {
      assert r[y].kind == nodes[y].kind;
      assert before == MemberCount(nodes, y, x);
      assert MemberCount(r, y, x) == MemberCount(nodes, y, x);
    } else {
      assert r[y].kind == Union([a, b]);
      assert before == 0;
    }
  }

  /** Appending the new union to `x`'s `partOf` once per membership adds to the count of `u` alone. */
  lemma UnionCounts(partOf: seq<nat>, a: nat, b: nat, x: nat, u: nat, y: nat)
    requires u !in partOf
    ensures var e1 := if x == a then [u] else []; var e2 := if x == b then [u] else [];
      multiset(partOf + e1 + e2)[y] == multiset(partOf)[y] + (if y == u then multiset([a, b])[x] else 0)
  {
    var e1 := if x == a then [u] else [];
    var e2 := if x == b then [u] else [];
    calc {
      multiset(partOf + e1 + e2)[y];
      (multiset(partOf) + multiset(e1) + multiset(e2))[y];
      multiset(partOf)[y] + multiset(e1)[y] + multiset(e2)[y];
    }
    assert multiset([a, b])[x] == multiset([a])[x] + multiset([b])[x] by {
      assert [a, b] == [a] + [b];
    }
  }

  /** The nodes after adding `b` to the members of union `u`, and `u` to the unions containing `b`. */
  function ExtendNodes(nodes: seq<Node>, u: nat, b: nat): (r: seq<Node>)
    requires b < |nodes| && u < |nodes| && nodes[u].kind.Union?
    ensures |r| == |nodes|
    ensures r[u].kind == Union(nodes[u].kind.members + [b])
    ensures forall x | 0 <= x < |nodes| ::
      && (x != u ==> r[x].kind == nodes[x].kind) && r[x].children == nodes[x].children
      && r[x].partOf == nodes[x].partOf + (if x == b then [u] else [])
  {
    var nodes1 := nodes[u := nodes[u].(kind := Union(nodes[u].kind.members + [b]))];
    AddPartOf(nodes1, b, u)
  }

  /**
   * `add` of another query `b` to a union `u`: `b` joins the members and
   * lists `u`; the rows stay as they were, so the union's rows do not
   * include the rows `b` already has.
   */
  function ExtendUnion(db: Databank, u: nat, b: nat): (r: Databank)
    requires Valid(db) && b < u < |db.nodes|
    requires db.nodes[u].kind.Union? && !db.nodes[b].kind.Top?
    ensures Valid(r)
    ensures r.nodes == ExtendNodes(db.nodes, u, b)
    ensures r.store == db.store && r.index == db.index && r.alpha == db.alpha && r.rows == db.rows
  {
    var r := db.(nodes := ExtendNodes(db.nodes, u, b));
    ExtendShape(db.nodes, u, b);
    RelinkTopChildRows(db, r.nodes);
    RelinkValid(db, r);
    r
  }

  /**
   * Relinking nodes without changing which are top or pattern nodes, or
   * their patterns, keeps a databank valid as long as the links stay
   * ordered and consistent and top children keep their memories as rows.
   */
  lemma RelinkValid(db: Databank, r: Databank)
    requires Valid(db) && |r.nodes| == |db.nodes| && r.alpha == db.alpha && |r.rows| == |db.rows|
    requires r.store == db.store && r.index == db.index
    requires Ordered(r.nodes) && Linked(r.nodes) && Patterns(r.nodes) == Patterns(db.nodes)
    requires forall x | 0 <= x < |db.nodes| :: SameRole(db.nodes, r.nodes, x)
    requires TopChildRows(r.nodes, r.alpha, r.rows)
    ensures Valid(r)
  {
    forall x | 0 <= x < |db.nodes| && IsPatternNode(r.nodes, x)
      ensures AlphaExact(r.store, PatternOf(r.nodes, x), r.alpha[x])
    {
      assert SameRole(db.nodes, r.nodes, x);
    }
    forall x | 0 <= x < |db.nodes| && !IsPatternNode(r.nodes, x)
      ensures r.alpha[x] == []
    {
      assert SameRole(db.nodes, r.nodes, x);
    }
  }

  /** Node `x` is a top node, or a pattern node with a given pattern and parent, in both node lists alike. */
  predicate SameRole(nodes: seq<Node>, nodes': seq<Node>, x: nat)
    requires x < |nodes| && x < |nodes'|
  {
    && nodes'[x].kind.Top? == nodes[x].kind.Top?
    && IsPatternNode(nodes', x) == IsPatternNode(nodes, x)
    && (IsPatternNode(nodes, x) ==> nodes'[x].kind == nodes[x].kind)
  }

  /** With the rows unchanged, top children keep their memories as rows. */
  lemma RelinkTopChildRows(db: Databank, nodes: seq<Node>)
    requires Valid(db) && |nodes| == |db.nodes| && Ordered(nodes)
    requires forall x | 0 <= x < |db.nodes| :: SameRole(db.nodes, nodes, x)
    ensures TopChildRows(nodes, db.alpha, db.rows)
  {
    forall x | 0 <= x < |nodes| && IsPatternNode(nodes, x) && nodes[nodes[x].kind.parent].kind.Top?
      ensures db.rows[x] == db.alpha[x]
    {
      assert SameRole(db.nodes, nodes, x);
      assert SameRole(db.nodes, nodes, nodes[x].kind.parent);
    }
  }

  /**
   * Union extension that keeps the union equal to its members' rows: after
   * the relinking, the union and everything it reaches are rebuilt from
   * their inputs, in handle order.
   */
  function ExtendUnionCorrected(db: Databank, eval: Eval, u: nat, b: nat): (r: Databank)
    requires Valid(db) && b < u < |db.nodes|
    requires db.nodes[u].kind.Union? && !db.nodes[b].kind.Top?
    ensures Valid(r)
    ensures r.nodes == ExtendNodes(db.nodes, u, b)
    ensures r.store == db.store && r.index == db.index && r.alpha == db.alpha
    ensures r.rows[u] == ConcatRows(db.rows, db.nodes[u].kind.members + [b])
    ensures forall x | 0 <= x < |db.nodes| && Reach(r.nodes, u, x) ::
      r.rows[x] == Activation(r.nodes, r.alpha, eval, r.rows, x, None)
    ensures forall x | 0 <= x < |db.nodes| && !Reach(r.nodes, u, x) :: r.rows[x] == db.rows[x]
  {
    var nodes := ExtendNodes(db.nodes, u, b);
    ExtendShape(db.nodes, u, b);
    var rows := Rebuild(nodes, db.alpha, eval, db.rows, Hits(nodes, u, |nodes|), u);
    var r := db.(nodes := nodes, rows := rows);
    forall x | 0 <= x < |db.nodes| && Reach(nodes, u, x) ensures u <= x {
      ReachForward(nodes, u, x);
    }
    ConcatRowsLocal(rows, db.rows, nodes[u].kind.members);
    ExtendKeepsTopChildRows(db, r, u);
    r
  }

  datatype UnionError = MemberNotOlder(union: nat, member: nat)

  /**
   * `add` of query `b` to union `u`, refusing a member that is not older
   * than the union. Every member the union already feeds, the union itself
   * included, is among those refused, so no cycle of links can form.
   */
  function ExtendUnionChecked(db: Databank, eval: Eval, u: nat, b: nat): (r: Result<Databank, UnionError>)
    requires Valid(db) && u < |db.nodes| && b < |db.nodes|
    requires db.nodes[u].kind.Union? && !db.nodes[b].kind.Top?
    ensures r.Failure? <==> u <= b
    ensures Reach(db.nodes, u, b) ==> r.Failure?
    ensures r.Success? ==> r.value == ExtendUnionCorrected(db, eval, u, b)
  {
    assert Reach(db.nodes, u, b) ==> u <= b by {
      if Reach(db.nodes, u, b) {
        ReachForward(db.nodes, u, b);
      }
    }
    if u <= b then Failure(MemberNotOlder(u, b))
    else Success(ExtendUnionCorrected(db, eval, u, b))
  }

  /**
   * The corrected extension rebuilds what the union reaches and leaves the
   * rest, whose inputs are unchanged, so an up-to-date databank stays so.
   */
  lemma ExtendUnionCorrectedUpToDate(db: Databank, eval: Eval, u: nat, b: nat)
    requires Valid(db) && b < u < |db.nodes|
    requires db.nodes[u].kind.Union? && !db.nodes[b].kind.Top?
    requires UpToDate(db, eval)
    ensures UpToDate(ExtendUnionCorrected(db, eval, u, b), eval)
  {
    var r := ExtendUnionCorrected(db, eval, u, b);
    forall x | 0 <= x < |r.nodes| ensures multiset(r.rows[x]) == multiset(Activation(r.nodes, r.alpha, eval, r.rows, x, None)) {
      if !Reach(r.nodes, u, x) {
        assert x != u;
        InputsUnreached(r.nodes, u, x);
        ActivationOnInputs(r.nodes, r.alpha, eval, db.rows, r.rows, x);
        ActivationRelinked(db.nodes, r.nodes, db.alpha, eval, db.rows, x);
      }
    }
  }

  lemma ExtendKeepsTopChildRows(db: Databank, r: Databank, u: nat)
    requires Valid(db) && |r.nodes| == |db.nodes| && u < |r.nodes| && r.nodes[u].kind.Union?
    requires r.alpha == db.alpha && |r.rows| == |db.rows|
    requires r.store == db.store && r.index == db.index
    requires Ordered(r.nodes) && Linked(r.nodes) && Patterns(r.nodes) == Patterns(db.nodes)
    requires forall x | 0 <= x < |db.nodes| :: SameRole(db.nodes, r.nodes, x)
    requires forall x | 0 <= x < |db.nodes| && !Reach(r.nodes, u, x) :: r.rows[x] == db.rows[x]
    ensures Valid(r)
  {
    forall x | 0 <= x < |r.nodes| && IsPatternNode(r.nodes, x) && r.nodes[r.nodes[x].kind.parent].kind.Top?
      ensures r.rows[x] == r.alpha[x]
    {
      assert SameRole(db.nodes, r.nodes, x);
      assert SameRole(db.nodes, r.nodes, r.nodes[x].kind.parent);
      if Reach(r.nodes, u, x) {
        OnlyTopReachesTopChild(r.nodes, u, x);
      }
    }
    RelinkValid(db, r);
  }

  lemma ExtendShape(nodes: seq<Node>, u: nat, b: nat)
    requires Ordered(nodes) && Linked(nodes) && b < u < |nodes| && nodes[u].kind.Union?
    ensures Ordered(ExtendNodes(nodes, u, b)) && Linked(ExtendNodes(nodes, u, b))
    ensures Patterns(ExtendNodes(nodes, u, b)) == Patterns(nodes)
    ensures forall x | 0 <= x < |nodes| :: SameRole(nodes, ExtendNodes(nodes, u, b), x)
  {
    ExtendPatterns(nodes, u, b);
    ExtendOrdered(nodes, u, b);
    var r := ExtendNodes(nodes, u, b);
    forall x | 0 <= x < |r| ensures LinkedAt(r, x) {
      ExtendLinkedAt(nodes, u, b, x);
    }
  }

  lemma ExtendPatterns(nodes: seq<Node>, u: nat, b: nat)
    requires b < u < |nodes| && nodes[u].kind.Union?
    ensures Patterns(ExtendNodes(nodes, u, b)) == Patterns(nodes)
    ensures forall x | 0 <= x < |nodes| :: SameRole(nodes, ExtendNodes(nodes, u, b), x)
  {
    var r := ExtendNodes(nodes, u, b);
    forall x: nat | x < |nodes| ensures SameRole(nodes, r, x) {
    }
    forall x: nat ensures x in Patterns(r) <==> x in Patterns(nodes) {
      if x < |nodes| {
        assert SameRole(nodes, r, x);
      }
    }
    forall x | x in Patterns(r) ensures Patterns(r)[x] == Patterns(nodes)[x] {
      assert SameRole(nodes, r, x);
    }
  }

  lemma ExtendOrdered(nodes: seq<Node>, u: nat, b: nat)
    requires Ordered(nodes) && b < u < |nodes| && nodes[u].kind.Union?
    ensures Ordered(ExtendNodes(nodes, u, b))
  {
    var r := ExtendNodes(nodes, u, b);
    forall x | 0 <= x < |r|
      ensures forall j | 0 <= j < |r[x].children| :: x < r[x].children[j] < |r|
      ensures forall j | 0 <= j < |r[x].partOf| :: x < r[x].partOf[j] < |r|
      ensures r[x].kind.Filtered? ==> r[x].kind.parent < x
      ensures r[x].kind.Union? ==> forall j | 0 <= j < |r[x].kind.members| :: r[x].kind.members[j] < x
    {
      var extra := if x == b then [u] else [];
      assert r[x].partOf == nodes[x].partOf + extra;
      forall j | 0 <= j < |r[x].partOf| ensures x < r[x].partOf[j] < |r| {
        if j >= |nodes[x].partOf| {
          assert r[x].partOf[j] == extra[j - |nodes[x].partOf|];
        }
      }
      if x == u {
        var ms := nodes[u].kind.members;
        forall j | 0 <= j < |ms + [b]| ensures (ms + [b])[j] < x {
          if j < |ms| {
            assert (ms + [b])[j] == ms[j];
          }
        }
      }
    }
  }

  /** Node `x`'s links after the extension: `b` lists `u` once more, exactly as `u` lists `b` once more. */
  lemma ExtendLinkedAt(nodes: seq<Node>, u: nat, b: nat, x: nat)
    requires Ordered(nodes) && Linked(nodes) && b < u < |nodes| && nodes[u].kind.Union? && x < |nodes|
    ensures LinkedAt(ExtendNodes(nodes, u, b), x)
  {
    var r := ExtendNodes(nodes, u, b);
    assert LinkedAt(nodes, x);
    forall y | 0 <= y < |r|
      ensures multiset(r[x].children)[y] == ChildCount(r, x, y)
      ensures multiset(r[x].partOf)[y] == MemberCount(r, y, x)
    {
      if y != u {
        assert r[y].kind == nodes[y].kind;
      }
    }
  }
}

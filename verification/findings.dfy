/**
 * Two places where propagation leaves a union short of its members' rows,
 * and one where a union that feeds its own member makes `resetQuery`
 * recurse without end. Each is shown on the operation as written and
 * checked against the corrected operation the rest of the model uses.
 */
module Findings {
  import opened Wrappers
  import opened Terms
  import opened Matching
  import opened Network
  import opened Databank
  import opened Unions
  import opened Consistency

  /**
   * The situation the source reaches with `q1.optional(...)` under a top
   * query followed by `a.add(q1)`: an optional pattern node `q` under a top
   * node, with no children, contained only in the union `u` of `a` and `q`,
   * which nothing reads from.
   */
  predicate OptionalInUnion(nodes: seq<Node>, q: nat, u: nat, a: nat)
    requires Ordered(nodes)
  {
    && q < |nodes| && u < |nodes| && a < |nodes| && a != q
    && IsPatternNode(nodes, q) && PatternOf(nodes, q).optional
    && nodes[nodes[q].kind.parent].kind.Top?
    && nodes[q].children == [] && nodes[q].partOf == [u]
    && nodes[u] == Node(Union([a, q]), [], [])
  }

  /** In that situation `q` reaches itself and the union, and nothing else. */
  lemma OptionalInUnionReach(nodes: seq<Node>, q: nat, u: nat, a: nat, x: nat)
    requires Ordered(nodes) && OptionalInUnion(nodes, q, u, a)
    ensures Reach(nodes, q, x) <==> x == q || x == u
  {
    LeafReach(nodes, u, x);
    assert nodes[q].partOf[0] == u;
  }

  /**
   * When an optional node inside a union right-activates, the reset clears
   * the union and the following left activation puts back only the
   * optional node's rows: the union ends with the optional node's alpha
   * memory alone, although its members' rows are the other member's rows
   * followed by that memory. The corrected activation keeps the other
   * member's rows.
   */
  lemma OptionalUnionLosesRows(nodes: seq<Node>, alpha: Rows, eval: Eval, rows: Rows, q: nat, u: nat, a: nat, m: Match)
    requires Shaped(nodes, alpha, rows) && OptionalInUnion(nodes, q, u, a)
    ensures var r := RightActivate(nodes, alpha, eval, rows, q, m);
      && r[u] == alpha[q]
      && ConcatRows(r, nodes[u].kind.members) == rows[a] + alpha[q]
    ensures RightActivateCorrected(nodes, alpha, eval, rows, q, m)[u] == rows[a] + alpha[q]
  {
    OptionalUnionAsWritten(nodes, alpha, eval, rows, q, u, a, m);
    OptionalUnionCorrected(nodes, alpha, eval, rows, q, u, a, m);
  }

  /**
   * So, as written, the right activation leaves the network inconsistent
   * whenever the union's other member has rows; the corrected one keeps a
   * consistent network consistent.
   */
  lemma OptionalUnionInconsistent(nodes: seq<Node>, alpha: Rows, eval: Eval, rows: Rows, q: nat, u: nat, a: nat, m: Match)
    requires Shaped(nodes, alpha, rows) && OptionalInUnion(nodes, q, u, a) && rows[a] != []
    ensures !Consistent(nodes, alpha, eval, RightActivate(nodes, alpha, eval, rows, q, m))
  {
    var r := RightActivate(nodes, alpha, eval, rows, q, m);
    OptionalUnionAsWritten(nodes, alpha, eval, rows, q, u, a, m);
    SizeGap(r[u], rows[a], alpha[q]);
  }

  /** A sequence never holds the same rows as itself with more rows in front. */
  lemma SizeGap(s: seq<Match>, extra: seq<Match>, t: seq<Match>)
    requires s == t && extra != []
    ensures multiset(s) != multiset(extra + t)
  {
    assert |multiset(extra + t)| == |extra| + |t|;
  }

  lemma OptionalUnionAsWritten(nodes: seq<Node>, alpha: Rows, eval: Eval, rows: Rows, q: nat, u: nat, a: nat, m: Match)
    requires Shaped(nodes, alpha, rows) && OptionalInUnion(nodes, q, u, a)
    ensures var r := RightActivate(nodes, alpha, eval, rows, q, m);
      && r[u] == alpha[q]
      && ConcatRows(r, nodes[u].kind.members) == rows[a] + alpha[q]
  {
    var r := RightActivate(nodes, alpha, eval, rows, q, m);
    UnionAfterReset(nodes, alpha, eval, rows, q, u, a, m);
    OptionalInUnionReach(nodes, q, u, a, a);
    assert nodes[u].kind.members[0] == a;
    ConcatTwo(r, a, q);
  }

  /** Right activation clears the union and then passes it the optional node's memory alone. */
  lemma UnionAfterReset(nodes: seq<Node>, alpha: Rows, eval: Eval, rows: Rows, q: nat, u: nat, a: nat, m: Match)
    requires Shaped(nodes, alpha, rows) && OptionalInUnion(nodes, q, u, a)
    ensures RightActivate(nodes, alpha, eval, rows, q, m)[u] == alpha[q]
  {
    var cleared := ResetQuery(nodes, rows, q);
    ResetInUnion(nodes, rows, q, u, a);
    var ms := Activation(nodes, alpha, eval, cleared, q, None);
    assert ms == alpha[q];
    assert RightActivate(nodes, alpha, eval, rows, q, m) == UpdateQuery(nodes, alpha, eval, cleared, q, ms);
    if |ms| > 0 {
      UnionUpdate(nodes, alpha, eval, cleared, q, u, ms);
    }
  }

  /** The reset in that situation clears the optional node and the union. */
  lemma ResetInUnion(nodes: seq<Node>, rows: Rows, q: nat, u: nat, a: nat)
    requires Ordered(nodes) && |rows| == |nodes| && OptionalInUnion(nodes, q, u, a)
    ensures ResetQuery(nodes, rows, q) == rows[q := []][u := []]
  {
    forall x ensures Reach(nodes, q, x) <==> x == q || x == u {
      OptionalInUnionReach(nodes, q, u, a, x);
    }
  }

  lemma OptionalUnionCorrected(nodes: seq<Node>, alpha: Rows, eval: Eval, rows: Rows, q: nat, u: nat, a: nat, m: Match)
    requires Shaped(nodes, alpha, rows) && OptionalInUnion(nodes, q, u, a)
    ensures RightActivateCorrected(nodes, alpha, eval, rows, q, m)[u] == rows[a] + alpha[q]
  {
    forall x ensures Reach(nodes, q, x) <==> x == q || x == u {
      OptionalInUnionReach(nodes, q, u, a, x);
    }
    var c := RightActivateCorrected(nodes, alpha, eval, rows, q, m);
    ConcatTwo(c, a, q);
    assert c[u] == Activation(nodes, alpha, eval, c, u, None);
  }

  /** Rows reaching the optional node pass to the union and stop there. */
  lemma UnionUpdate(nodes: seq<Node>, alpha: Rows, eval: Eval, rows: Rows, q: nat, u: nat, ms: seq<Match>)
    requires Shaped(nodes, alpha, rows) && q < |nodes| && u < |nodes| && |ms| > 0
    requires nodes[q].children == [] && nodes[q].partOf == [u]
    requires nodes[u].children == [] && nodes[u].partOf == []
    ensures UpdateQuery(nodes, alpha, eval, rows, q, ms) == rows[u := rows[u] + ms][q := rows[q] + ms]
  {
    assert UpdateChildren(nodes, alpha, eval, rows, u, 0, ms) == rows;
    assert UpdateUnions(nodes, alpha, eval, rows, u, 0, ms) == rows;
    var u1 := UpdateQuery(nodes, alpha, eval, rows, u, ms);
    assert u1 == rows[u := rows[u] + ms];
    assert UpdateChildren(nodes, alpha, eval, rows, q, 0, ms) == rows;
    assert UpdateUnions(nodes, alpha, eval, u1, q, 1, ms) == u1;
    assert UpdateUnions(nodes, alpha, eval, rows, q, 0, ms) == u1;
  }

  /**
   * Adding a member to a union that is up to date leaves it out of date
   * whenever the new member already has rows; the corrected extension
   * brings the union up to date.
   */
  lemma ExtendUnionMissesRows(db: Databank, eval: Eval, u: nat, b: nat)
    requires Valid(db) && b < u < |db.nodes|
    requires db.nodes[u].kind.Union? && !db.nodes[b].kind.Top?
    requires db.rows[u] == ConcatRows(db.rows, db.nodes[u].kind.members)
    ensures var r := ExtendUnion(db, u, b);
      r.rows[u] == ConcatRows(r.rows, r.nodes[u].kind.members) <==> db.rows[b] == []
    ensures var r := ExtendUnionCorrected(db, eval, u, b);
      r.rows[u] == ConcatRows(r.rows, r.nodes[u].kind.members)
  {
    var r := ExtendUnion(db, u, b);
    ConcatRowsAppend(db.rows, db.nodes[u].kind.members, b);
    assert r.rows[u] + db.rows[b] == r.rows[u] <==> db.rows[b] == [] by {
      if r.rows[u] + db.rows[b] == r.rows[u] {
        assert |db.rows[b]| == 0;
      }
    }
    var c := ExtendUnionCorrected(db, eval, u, b);
    assert Reach(c.nodes, u, u);
  }

  /**
   * As written, extending an up-to-date union with a member that already
   * has rows leaves the databank out of date; the corrected extension keeps
   * it up to date.
   */
  lemma ExtendUnionOutOfDate(db: Databank, eval: Eval, u: nat, b: nat)
    requires Valid(db) && b < u < |db.nodes|
    requires db.nodes[u].kind.Union? && !db.nodes[b].kind.Top?
    requires UpToDate(db, eval) && db.rows[b] != []
    ensures !UpToDate(ExtendUnion(db, u, b), eval)
    ensures UpToDate(ExtendUnionCorrected(db, eval, u, b), eval)
  {
    var r := ExtendUnion(db, u, b);
    var members := db.nodes[u].kind.members;
    ConcatRowsAppend(db.rows, members, b);
    assert multiset(db.rows[u]) == multiset(ConcatRows(db.rows, members));
    assert multiset(r.rows[u]) != multiset(ConcatRows(r.rows, members + [b])) by {
      assert |multiset(ConcatRows(r.rows, members + [b]))| == |ConcatRows(db.rows, members)| + |db.rows[b]|;
      assert |multiset(r.rows[u])| == |ConcatRows(db.rows, members)|;
    }
    ExtendUnionCorrectedUpToDate(db, eval, u, b);
  }

  /**
   * A node `b` that lists `u` among its unions while `u` lists `b` among its
   * children: the literal reset of `b` reaches `u` through `partOf` and `b`
   * again through `children`, so it never ends, whatever the budget.
   */
  lemma {:induction false} CycleNeverEnds(nodes: seq<Node>, rows: Rows, b: nat, u: nat, fuel: nat)
    requires InRange(nodes) && |rows| == |nodes| && b < |nodes| && u < |nodes|
    requires u in nodes[b].partOf && b in nodes[u].children
    ensures ResetSteps(nodes, rows, b, fuel) == None
    decreases fuel, 0, 0
  {
    if fuel > 0 {
      var r1 := ResetChildrenSteps(nodes, rows[b := []], b, 0, fuel - 1);
      if r1.Some? {
        UnionsStepsNone(nodes, r1.value, b, u, 0, fuel - 1);
      }
    }
  }

  lemma {:induction false} UnionNeverEnds(nodes: seq<Node>, rows: Rows, b: nat, u: nat, fuel: nat)
    requires InRange(nodes) && |rows| == |nodes| && b < |nodes| && u < |nodes|
    requires u in nodes[b].partOf && b in nodes[u].children
    ensures ResetSteps(nodes, rows, u, fuel) == None
    decreases fuel, 0, 0
  {
    if fuel > 0 {
      ChildrenStepsNone(nodes, rows[u := []], b, u, 0, fuel - 1);
    }
  }

  lemma {:induction false} UnionsStepsNone(nodes: seq<Node>, rows: Rows, b: nat, u: nat, k: nat, fuel: nat)
    requires InRange(nodes) && |rows| == |nodes| && b < |nodes| && u < |nodes| && k <= |nodes[b].partOf|
    requires u in nodes[b].partOf[k..] && b in nodes[u].children
    ensures ResetUnionsSteps(nodes, rows, b, k, fuel) == None
    decreases fuel, 1, |nodes[b].partOf| - k
  {
    var us := nodes[b].partOf;
    assert us[k..][0] == us[k];
    if us[k] == u {
      UnionNeverEnds(nodes, rows, b, u, fuel);
    } else {
      var r1 := ResetSteps(nodes, rows, us[k], fuel);
      if r1.Some? {
        assert u in us[k + 1..] by {
          var i :| 0 <= i < |us[k..]| && us[k..][i] == u;
          assert us[k + 1..][i - 1] == u;
        }
        UnionsStepsNone(nodes, r1.value, b, u, k + 1, fuel);
      }
    }
  }

  lemma {:induction false} ChildrenStepsNone(nodes: seq<Node>, rows: Rows, b: nat, u: nat, k: nat, fuel: nat)
    requires InRange(nodes) && |rows| == |nodes| && b < |nodes| && u < |nodes| && k <= |nodes[u].children|
    requires u in nodes[b].partOf && b in nodes[u].children[k..]
    ensures ResetChildrenSteps(nodes, rows, u, k, fuel) == None
    decreases fuel, 1, |nodes[u].children| - k
  {
    var ch := nodes[u].children;
    assert ch[k..][0] == ch[k];
    if ch[k] == b {
      CycleNeverEnds(nodes, rows, b, u, fuel);
    } else {
      var r1 := ResetSteps(nodes, rows, ch[k], fuel);
      if r1.Some? {
        assert b in ch[k + 1..] by {
          var i :| 0 <= i < |ch[k..]| && ch[k..][i] == b;
          assert ch[k + 1..][i - 1] == b;
        }
        ChildrenStepsNone(nodes, r1.value, b, u, k + 1, fuel);
      }
    }
  }

  /**
   * `u.add(u.optional(...))`: the new member `b` is one of the union's own
   * children. As written, the extension links `b` to `u`, and the reset of
   * `b` that an optional match triggers then never ends. The corrected
   * extension only takes members older than the union, and there every
   * reset ends within the arena's size.
   */
  lemma ExtendByOwnChild(db: Databank, u: nat, b: nat, rows: Rows, fuel: nat)
    requires Valid(db) && u < |db.nodes| && db.nodes[u].kind.Union? && b in db.nodes[u].children
    requires |rows| == |db.nodes|
    ensures var nodes := ExtendNodes(db.nodes, u, b);
      InRange(nodes) && ResetSteps(nodes, rows, b, fuel) == None
  {
    var nodes := ExtendNodes(db.nodes, u, b);
    assert InRange(nodes) by {
      forall q | 0 <= q < |nodes|
        ensures forall j | 0 <= j < |nodes[q].partOf| :: nodes[q].partOf[j] < |nodes|
      {
        assert nodes[q].partOf == db.nodes[q].partOf + (if q == b then [u] else []);
      }
    }
    assert nodes[b].partOf == db.nodes[b].partOf + [u];
    assert nodes[b].partOf[|nodes[b].partOf| - 1] == u;
    CycleNeverEnds(nodes, rows, b, u, fuel);
  }

  /** After the corrected extension the literal reset ends from every node, as `ResetQuery`. */
  lemma ExtendedResetEnds(db: Databank, eval: Eval, u: nat, b: nat, rows: Rows, x: nat)
    requires Valid(db) && b < u < |db.nodes|
    requires db.nodes[u].kind.Union? && !db.nodes[b].kind.Top?
    requires |rows| == |db.nodes| && x < |db.nodes|
    ensures var nodes := ExtendUnionCorrected(db, eval, u, b).nodes;
      InRange(nodes) && ResetSteps(nodes, rows, x, |nodes|) == Some(ResetQuery(nodes, rows, x))
  {
    var nodes := ExtendUnionCorrected(db, eval, u, b).nodes;
    ResetFinishes(nodes, rows, x, |nodes|);
  }
}

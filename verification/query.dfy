/**
 * Building the query network: a top node over the databank, pattern
 * children (`where`, `optional`, pattern text), predicate children
 * (function-form `filter`) and unions of two queries. Each new node gets
 * the next handle and is evaluated once against the current state.
 */
module Query {
  import opened Wrappers
  import opened Terms
  import opened Matching
  import opened Join
  import opened TripleStore
  import opened QueryIndex
  import opened Network
  import opened Databank
  import opened Consistency

  /** Changing only the links of a node keeps which nodes are pattern nodes, and their patterns. */
  lemma PatternsRelinked(nodes: seq<Node>, x: nat, n: Node)
    requires x < |nodes| && n.kind == nodes[x].kind
    ensures Patterns(nodes[x := n]) == Patterns(nodes)
  {
    var nodes' := nodes[x := n];
    forall q: nat | q < |nodes| ensures IsPatternNode(nodes', q) == IsPatternNode(nodes, q) {
    }
  }

  /** The top node of a new query over the databank: no filter, no rows. */
  function AddTop(db: Databank): (r: Databank)
    requires Valid(db)
    ensures Valid(r)
    ensures |r.nodes| == |db.nodes| + 1 && r.nodes[|db.nodes|].kind.Top?
    ensures r.nodes[..|db.nodes|] == db.nodes && r.rows[..|db.nodes|] == db.rows
    ensures r.store == db.store && r.index == db.index
    ensures r.alpha[..|db.nodes|] == db.alpha && r.rows[|db.nodes|] == [] && r.alpha[|db.nodes|] == []
  {
    var nodes := db.nodes + [Node(Top, [], [])];
    assert Patterns(nodes) == Patterns(db.nodes);
    forall x | 0 <= x < |nodes| ensures LinkedAt(nodes, x) {
      TopLinkedAt(db.nodes, x);
    }
    Databank(db.store, db.index, nodes, db.alpha + [[]], db.rows + [[]])
  }

  /** A new top node starts with no rows, which is what it computes, so an up-to-date databank stays so. */
  lemma AddTopUpToDate(db: Databank, eval: Eval)
    requires Valid(db) && UpToDate(db, eval)
    ensures UpToDate(AddTop(db), eval)
  {
    var r := AddTop(db);
    var n := |db.nodes|;
    forall y | 0 <= y < n ensures r.nodes[y].kind == db.nodes[y].kind && r.alpha[y] == db.alpha[y] && r.rows[y] == db.rows[y] {
      assert r.nodes[y] == r.nodes[..n][y] && r.alpha[y] == r.alpha[..n][y] && r.rows[y] == r.rows[..n][y];
    }
    GrowConsistent(db.nodes, db.alpha, eval, db.rows, r.nodes, r.alpha, r.rows);
  }

  /** Node `x`'s links after appending a top node: nothing links to it, and it links nowhere. */
  lemma TopLinkedAt(nodes: seq<Node>, x: nat)
    requires Ordered(nodes) && Linked(nodes) && x <= |nodes|
    ensures LinkedAt(nodes + [Node(Top, [], [])], x)
  {
    var r := nodes + [Node(Top, [], [])];
    var u := |nodes|;
    forall y | 0 <= y < |r|
      ensures multiset(r[x].children)[y] == ChildCount(r, x, y)
      ensures multiset(r[x].partOf)[y] == MemberCount(r, y, x)
    {
      if x == u {
        if y < u && nodes[y].kind.Union? {
          assert u !in nodes[y].kind.members;
        }
      } else {
        assert LinkedAt(nodes, x);
        assert u !in nodes[x].children && u !in nodes[x].partOf;
      }
    }
  }

  /** The alpha memory a new pattern node starts with: a scan of every stored triple. */
  lemma InitialAlphaExact(st: Store, p: Pattern)
    requires ValidStore(st)
    ensures AlphaExact(st, p, FindMatches(Triples(st), p))
  {
    var ts := Triples(st);
    var a := FindMatches(ts, p);
    forall m | m in a
      ensures |m.triples| == 1 && Contains(st, m.triples[0]) && TestTriple(m.triples[0], p) == Some(m.bindings)
    {
      var t := m.triples[0];
      assert m == Match(m.bindings, [t]);
      TriplesMembership(st, t);
    }
    forall t | Contains(st, t) && TestTriple(t, p).Some?
      ensures Match(TestTriple(t, p).value, [t]) in a
    {
      TriplesMembership(st, t);
    }
    TriplesNoDuplicates(st);
  }

  /** The nodes after appending a filtered leaf and listing it among its parent's children. */
  function AttachChild(nodes: seq<Node>, parent: nat, f: Filter): (r: seq<Node>)
    requires parent < |nodes|
    ensures |r| == |nodes| + 1
    ensures r[|nodes|] == Node(Filtered(parent, f), [], [])
    ensures r[parent] == nodes[parent].(children := nodes[parent].children + [|nodes|])
    ensures forall x | 0 <= x < |nodes| && x != parent :: r[x] == nodes[x]
  {
    var q := |nodes|;
    var nodes1 := nodes + [Node(Filtered(parent, f), [], [])];
    nodes1[parent := nodes1[parent].(children := nodes1[parent].children + [q])]
  }

  lemma AttachChildShape(nodes: seq<Node>, parent: nat, f: Filter)
    requires Ordered(nodes) && Linked(nodes) && parent < |nodes|
    ensures Ordered(AttachChild(nodes, parent, f))
    ensures Linked(AttachChild(nodes, parent, f))
    ensures Patterns(AttachChild(nodes, parent, f)) ==
      (if f.PatternFilter? then Patterns(nodes)[|nodes| := f.pattern] else Patterns(nodes))
  {
    AttachChildOrdered(nodes, parent, f);
    AttachChildLinked(nodes, parent, f);
    AttachChildPatterns(nodes, parent, f);
  }

  lemma AttachChildOrdered(nodes: seq<Node>, parent: nat, f: Filter)
    requires Ordered(nodes) && parent < |nodes|
    ensures Ordered(AttachChild(nodes, parent, f))
  {
    var r := AttachChild(nodes, parent, f);
    var q := |nodes|;
    forall x | 0 <= x < |r|
      ensures forall j | 0 <= j < |r[x].children| :: x < r[x].children[j] < |r|
      ensures forall j | 0 <= j < |r[x].partOf| :: x < r[x].partOf[j] < |r|
      ensures r[x].kind.Filtered? ==> r[x].kind.parent < x
      ensures r[x].kind.Union? ==> forall j | 0 <= j < |r[x].kind.members| :: r[x].kind.members[j] < x
    {
      if x == parent {
        assert r[x].children == nodes[x].children + [q];
      }
    }
  }

  lemma AttachChildLinked(nodes: seq<Node>, parent: nat, f: Filter)
    requires Ordered(nodes) && Linked(nodes) && parent < |nodes|
    ensures Ordered(AttachChild(nodes, parent, f))
    ensures Linked(AttachChild(nodes, parent, f))
  {
    AttachChildOrdered(nodes, parent, f);
    var r := AttachChild(nodes, parent, f);
    forall x | 0 <= x < |r| ensures LinkedAt(r, x) {
      AttachChildLinkedAt(nodes, parent, f, x);
    }
  }

  /** Node `x`'s links after attaching: only the parent gains a child, and the new node links nowhere. */
  lemma AttachChildLinkedAt(nodes: seq<Node>, parent: nat, f: Filter, x: nat)
    requires Ordered(nodes) && Linked(nodes) && parent < |nodes| && x <= |nodes|
    ensures LinkedAt(AttachChild(nodes, parent, f), x)
  {
    var r := AttachChild(nodes, parent, f);
    var q := |nodes|;
    forall y | 0 <= y < |r|
      ensures multiset(r[x].children)[y] == ChildCount(r, x, y)
      ensures multiset(r[x].partOf)[y] == MemberCount(r, y, x)
    {
      if y < q {
        assert r[y].kind == nodes[y].kind;
      }
      if x == q {
        if y < q && nodes[y].kind.Union? {
          assert nodes[y].kind.members[..] == nodes[y].kind.members;
          assert q !in nodes[y].kind.members;
        }
      } else {
        assert LinkedAt(nodes, x);
        assert q !in nodes[x].children && q !in nodes[x].partOf;
        if x == parent {
          assert r[x].children == nodes[x].children + [q];
        }
      }
    }
  }

  lemma AttachChildPatterns(nodes: seq<Node>, parent: nat, f: Filter)
    requires parent < |nodes|
    ensures Patterns(AttachChild(nodes, parent, f)) ==
      (if f.PatternFilter? then Patterns(nodes)[|nodes| := f.pattern] else Patterns(nodes))
  {
    var r := AttachChild(nodes, parent, f);
    var q := |nodes|;
    var ps := if f.PatternFilter? then Patterns(nodes)[q := f.pattern] else Patterns(nodes);
    forall x: nat | x < q ensures r[x].kind == nodes[x].kind {
    }
    forall x: nat ensures x in Patterns(r) <==> x in ps {
    }
    forall x | x in ps ensures Patterns(r)[x] == ps[x] {
    }
  }

  /** The alpha memory a new node starts with: a scan of the store for a pattern, none for a predicate. */
  function InitialAlpha(st: Store, f: Filter): seq<Match>
    requires ValidStore(st)
  {
    if f.PatternFilter? then FindMatches(Triples(st), f.pattern) else []
  }

  lemma InitialAlphaFilter(st: Store, f: Filter)
    requires ValidStore(st)
    ensures f.PatternFilter? ==> AlphaExact(st, f.pattern, InitialAlpha(st, f))
  {
    if f.PatternFilter? {
      InitialAlphaExact(st, f.pattern);
    }
  }

  /**
   * `where`: a filtered child of `parent`. A pattern node registers under
   * its pattern's key and scans the store for its alpha memory; a predicate
   * node does neither. The node takes its rows from one left activation
   * (its alpha memory under a top node; otherwise the parent's rows joined
   * with its alpha memory, left-outer when optional, or the parent's rows
   * the predicate accepts) and is then listed among the parent's children.
   * Nothing else changes.
   */
  function Where(db: Databank, eval: Eval, parent: nat, f: Filter): (r: Databank)
    requires Valid(db) && parent < |db.nodes|
    ensures Valid(r)
    ensures var q := |db.nodes|;
      && |r.nodes| == q + 1
      && r.nodes[q] == Node(Filtered(parent, f), [], [])
      && r.nodes[parent].children == db.nodes[parent].children + [q]
      && r.store == db.store
      && r.index == (if f.PatternFilter? then Register(db.index, KeyOf(f.pattern), q) else db.index)
      && (f.PatternFilter? ==> AlphaExact(db.store, f.pattern, r.alpha[q]))
      && (f.PredicateFilter? ==> r.alpha[q] == [])
      && r.rows[q] == (if db.nodes[parent].kind.Top? then r.alpha[q]
                       else match f
                         case PatternFilter(p) => MergeMatches(db.rows[parent], r.alpha[q], p.optional)
                         case PredicateFilter(fid) => FilterRows(db.rows[parent], eval, fid))
      && r.alpha[..q] == db.alpha && r.rows[..q] == db.rows
  {
    var q := |db.nodes|;
    var nodes1 := db.nodes + [Node(Filtered(parent, f), [], [])];
    var alpha1 := db.alpha + [InitialAlpha(db.store, f)];
    var rows1 := db.rows + [[]];
    var rows2 := LeftActivate(nodes1, alpha1, eval, rows1, q, None);
    LeafActivation(nodes1, alpha1, eval, rows1, q);
    InitialAlphaFilter(db.store, f);
    var index := if f.PatternFilter? then Register(db.index, KeyOf(f.pattern), q) else db.index;
    var r := Databank(db.store, index, AttachChild(db.nodes, parent, f), alpha1, rows2);
    AttachValid(db, f, parent, r);
    r
  }

  /**
   * The node `where` adds starts with the rows it computes from its parent
   * and its alpha memory, so an up-to-date databank stays so.
   */
  lemma WhereUpToDate(db: Databank, eval: Eval, parent: nat, f: Filter)
    requires Valid(db) && parent < |db.nodes| && UpToDate(db, eval)
    ensures UpToDate(Where(db, eval, parent, f), eval)
  {
    var r := Where(db, eval, parent, f);
    var n := |db.nodes|;
    forall y | 0 <= y < n ensures r.nodes[y].kind == db.nodes[y].kind && r.alpha[y] == db.alpha[y] && r.rows[y] == db.rows[y] {
      assert r.alpha[y] == r.alpha[..n][y] && r.rows[y] == r.rows[..n][y];
    }
    assert r.rows[parent] == db.rows[parent];
    GrowConsistent(db.nodes, db.alpha, eval, db.rows, r.nodes, r.alpha, r.rows);
  }

  /**
   * `where` and `optional` with pattern text: the text must parse, with the
   * optional flag the call gives, before the pattern child is added.
   */
  function WhereText(db: Databank, eval: Eval, parent: nat, tokens: seq<string>, optional: bool,
                     resolve: (Role, string) -> Option<Term>): (r: Result<Databank, FilterError>)
    requires Valid(db) && parent < |db.nodes|
    ensures r.Failure? <==> ParseFilter(tokens, optional, resolve).Failure?
    ensures r.Failure? ==> r.error == ParseFilter(tokens, optional, resolve).error
    ensures r.Success? ==>
      && Valid(r.value)
      && |r.value.nodes| == |db.nodes| + 1
      && r.value.nodes[|db.nodes|].kind == Filtered(parent, PatternFilter(ParseFilter(tokens, optional, resolve).value))
      && ParseFilter(tokens, optional, resolve).value.optional == optional
  {
    var p :- ParseFilter(tokens, optional, resolve);
    Success(Where(db, eval, parent, PatternFilter(p)))
  }

  /**
   * The databank after attaching a new filtered leaf is valid when the old
   * one was, the new node's alpha memory is exact (empty for a predicate
   * node), the index registers a pattern node, and the new rows leave the
   * old ones alone.
   */
  lemma AttachValid(db: Databank, f: Filter, parent: nat, r: Databank)
    requires Valid(db) && parent < |db.nodes|
    requires var q := |db.nodes|;
      && r.store == db.store
      && r.nodes == AttachChild(db.nodes, parent, f)
      && |r.alpha| == q + 1 && r.alpha[..q] == db.alpha
      && |r.rows| == q + 1 && r.rows[..q] == db.rows
      && (if f.PatternFilter? then AlphaExact(db.store, f.pattern, r.alpha[q]) else r.alpha[q] == [])
      && r.index == (if f.PatternFilter? then Register(db.index, KeyOf(f.pattern), q) else db.index)
      && (f.PatternFilter? && db.nodes[parent].kind.Top? ==> r.rows[q] == r.alpha[q])
    ensures Valid(r)
  {
    var q := |db.nodes|;
    AttachChildShape(db.nodes, parent, f);
    if f.PatternFilter? {
      RegisterWellIndexed(db.index, Patterns(db.nodes), q, f.pattern);
    }
    forall x | 0 <= x < q ensures r.nodes[x].kind == db.nodes[x].kind && r.alpha[x] == db.alpha[x] && r.rows[x] == db.rows[x] {
      assert r.alpha[x] == r.alpha[..q][x];
      assert r.rows[x] == r.rows[..q][x];
    }
    GrowAlphaMemories(db, r);
    GrowTopChildRows(db, r);
  }

  /**
   * `add` of pattern text to a query. A pattern without variables adds its
   * one triple. A pattern with variables is filled from each of the query's
   * current rows, taken before any insertion, and every fill that leaves no
   * variable is added. Nothing but the store and the rows changes.
   */
  method AddPattern(db: Databank, eval: Eval, q: nat, p: Pattern) returns (r: Databank)
    requires Valid(db) && q < |db.nodes|
    ensures Valid(r) && r.nodes == db.nodes && r.index == db.index
    ensures Ground(p) ==> forall t :: Contains(r.store, t) <==> Contains(db.store, t) || t == GroundTriple(p)
    ensures !Ground(p) ==> forall t :: Contains(r.store, t) <==> Contains(db.store, t) || t in Fills(p, db.rows[q])
    ensures forall t | Contains(r.store, t) && !Contains(db.store, t) :: Admits(p, t)
    ensures UpToDate(db, eval) ==> UpToDate(r, eval)
  {
    var ts := if Ground(p) then [GroundTriple(p)] else Fills(p, db.rows[q]);
    r := InsertAll(db, eval, ts);
    forall t | t in ts ensures Admits(p, t) {
      if !Ground(p) {
        FillsAdmitted(p, db.rows[q], t);
      }
    }
  }
}

/**
 * A databank: the triple store, its query index and the query network that
 * reads from it. Insertion stores a new triple and notifies the pattern
 * nodes whose index key admits it; construction adds top, pattern,
 * predicate and union nodes.
 */
module Databank {
  import opened Wrappers
  import opened Terms
  import opened Matching
  import opened Join
  import opened TripleStore
  import opened QueryIndex
  import opened Network
  import opened Consistency

  datatype Databank = Databank(store: Store, index: Index, nodes: seq<Node>, alpha: Rows, rows: Rows)

  /** The pattern of every pattern node, by handle. */
  function Patterns(nodes: seq<Node>): map<nat, Pattern> {
    map q: nat | q < |nodes| && IsPatternNode(nodes, q) :: PatternOf(nodes, q)
  }

  /** The alpha memory of a pattern is exactly one match per stored triple it admits, without repeats. */
  ghost predicate AlphaExact(st: Store, p: Pattern, a: seq<Match>) {
    && NoDuplicates(a)
    && (forall m | m in a :: |m.triples| == 1 && Contains(st, m.triples[0]) && TestTriple(m.triples[0], p) == Some(m.bindings))
    && (forall t | Contains(st, t) && TestTriple(t, p).Some? :: Match(TestTriple(t, p).value, [t]) in a)
  }

  /** Every pattern node's alpha memory is exact; nodes without a pattern have none. */
  ghost predicate AlphaMemories(st: Store, nodes: seq<Node>, alpha: Rows)
    requires |alpha| == |nodes|
  {
    forall q | 0 <= q < |nodes| ::
      if IsPatternNode(nodes, q) then AlphaExact(st, PatternOf(nodes, q), alpha[q]) else alpha[q] == []
  }

  /** A pattern node hanging directly off a top node has its alpha memory as its rows. */
  predicate TopChildRows(nodes: seq<Node>, alpha: Rows, rows: Rows)
    requires Shaped(nodes, alpha, rows)
  {
    forall q | 0 <= q < |nodes| && IsPatternNode(nodes, q) && nodes[nodes[q].kind.parent].kind.Top? ::
      rows[q] == alpha[q]
  }

  ghost predicate Valid(db: Databank) {
    && ValidStore(db.store)
    && Shaped(db.nodes, db.alpha, db.rows)
    && Linked(db.nodes)
    && WellIndexed(db.index, Patterns(db.nodes))
    && AlphaMemories(db.store, db.nodes, db.alpha)
    && TopChildRows(db.nodes, db.alpha, db.rows)
  }

  /**
   * Every node's rows hold what recomputing it from the store would give.
   * Kept apart from `Valid` because some operations, as written, break it.
   */
  predicate UpToDate(db: Databank, eval: Eval) {
    Consistent(db.nodes, db.alpha, eval, db.rows)
  }

  /** A databank with no triples, no subscriptions and no nodes. */
  function EmptyDatabank(): (r: Databank)
    ensures Valid(r)
    ensures Size(r.store) == 0 && |r.nodes| == 0
  {
    assert Patterns([]) == map[];
    Databank(TripleStore.Empty, map[], [], [], [])
  }

  /** Only a top node reaches a pattern node hanging off a top node, other than the node itself. */
  lemma {:induction false} OnlyTopReachesTopChild(nodes: seq<Node>, x: nat, q: nat)
    requires Ordered(nodes) && Linked(nodes) && x < |nodes| && q < |nodes|
    requires nodes[q].kind.Filtered? && nodes[nodes[q].kind.parent].kind.Top?
    requires Reach(nodes, x, q) && x != q
    ensures nodes[x].kind.Top?
    decreases |nodes| - x
  {
    if j :| 0 <= j < |nodes[x].children| && Reach(nodes, nodes[x].children[j], q) {
      var c := nodes[x].children[j];
      ChildLink(nodes, x, j);
      if c != q {
        OnlyTopReachesTopChild(nodes, c, q);
        assert false;
      }
      assert nodes[q].kind.parent == x;
    } else {
      var j :| 0 <= j < |nodes[x].partOf| && Reach(nodes, nodes[x].partOf[j], q);
      var u := nodes[x].partOf[j];
      PartOfLink(nodes, x, j);
      if u != q {
        OnlyTopReachesTopChild(nodes, u, q);
      }
      assert false;
    }
  }

  lemma TwoCopies(s: seq<nat>, i: nat, j: nat)
    requires i < j < |s| && s[i] == s[j]
    ensures multiset(s)[s[i]] >= 2
  {
    assert s == s[..i] + [s[i]] + s[i + 1..j] + [s[j]] + s[j + 1..];
  }

  lemma CountsAtMostOne(s: seq<nat>)
    requires forall x :: multiset(s)[x] <= 1
    ensures NoDuplicates(s)
  {
    forall i, j | 0 <= i < j < |s| ensures s[i] != s[j] {
      if s[i] == s[j] {
        TwoCopies(s, i, j);
        assert false;
      }
    }
  }

  /**
   * Adds a triple. A triple already stored changes nothing and notifies no
   * node. A new triple is stored, and every pattern node it matches, and no
   * other, gains exactly one alpha match; the structure and the index stay
   * as they were.
   */
  method Insert(db: Databank, eval: Eval, t: Triple) returns (r: Databank, added: bool)
    requires Valid(db)
    ensures Valid(r)
    ensures added <==> !Contains(db.store, t)
    ensures !added ==> r == db
    ensures r.store == Add(db.store, t).0 && r.nodes == db.nodes && r.index == db.index
    ensures Size(r.store) == Size(db.store) + (if added then 1 else 0)
    ensures added ==> forall q | 0 <= q < |db.nodes| :: r.alpha[q] == db.alpha[q] + NewAlpha(db.nodes, q, t)
    ensures UpToDate(db, eval) ==> UpToDate(r, eval)
  {
    AddSize(db.store, t);
    var (st, isNew) := Add(db.store, t);
    if !isNew {
      return db, false;
    }
    var nodes := db.nodes;
    var list := Notified(db.index, t);
    NotifiedFacts(db.index, nodes, t);
    var alpha, rows := NotifyAll(nodes, eval, db.alpha, db.rows, list, t);
    assert forall x | 0 <= x < |nodes| :: alpha[x] == db.alpha[x] + NewAlpha(nodes, x, t);
    r := Databank(st, db.index, nodes, alpha, rows);
    added := true;
    InsertKeepsAlphaMemories(db.store, t, nodes, db.alpha, alpha);
  }

  /**
   * In a well-kept index the notified nodes are distinct pattern nodes, and
   * every pattern node the triple matches is among them.
   */
  lemma NotifiedFacts(ix: Index, nodes: seq<Node>, t: Triple)
    requires WellIndexed(ix, Patterns(nodes))
    ensures NoDuplicates(Notified(ix, t))
    ensures forall j | 0 <= j < |Notified(ix, t)| ::
      Notified(ix, t)[j] < |nodes| && IsPatternNode(nodes, Notified(ix, t)[j])
    ensures forall x | 0 <= x < |nodes| && x !in Notified(ix, t) :: NewAlpha(nodes, x, t) == []
  {
    var list := Notified(ix, t);
    forall x: nat ensures multiset(list)[x] == (if x in Patterns(nodes) && KeyAdmits(KeyOf(Patterns(nodes)[x]), t) then 1 else 0) {
      NotifiedCount(ix, Patterns(nodes), t, x);
    }
    CountsAtMostOne(list);
    forall j | 0 <= j < |list| ensures list[j] < |nodes| && IsPatternNode(nodes, list[j]) {
      assert multiset(list)[list[j]] > 0;
      assert list[j] in Patterns(nodes);
    }
    forall x | 0 <= x < |nodes| && x !in list ensures NewAlpha(nodes, x, t) == [] {
      if IsPatternNode(nodes, x) {
        AdmitsKey(PatternOf(nodes, x), t);
        assert x in Patterns(nodes);
      }
    }
  }

  /**
   * Feeds the triple to each listed pattern node in turn. Each listed node
   * gains its new alpha match, the others keep theirs.
   */
  method NotifyAll(nodes: seq<Node>, eval: Eval, alpha0: Rows, rows0: Rows, list: seq<nat>, t: Triple) returns (alpha: Rows, rows: Rows)
    requires Shaped(nodes, alpha0, rows0) && Linked(nodes)
    requires forall j | 0 <= j < |list| :: list[j] < |nodes| && IsPatternNode(nodes, list[j])
    requires NoDuplicates(list)
    requires TopChildRows(nodes, alpha0, rows0)
    ensures Shaped(nodes, alpha, rows)
    ensures TopChildRows(nodes, alpha, rows)
    ensures forall x | 0 <= x < |nodes| :: alpha[x] == alpha0[x] + (if x in list then NewAlpha(nodes, x, t) else [])
    ensures Consistent(nodes, alpha0, eval, rows0) ==> Consistent(nodes, alpha, eval, rows)
  {
    alpha, rows := alpha0, rows0;
    var i := 0;
    while i < |list|
      invariant 0 <= i <= |list|
      invariant Shaped(nodes, alpha, rows)
      invariant forall x | 0 <= x < |nodes| :: alpha[x] == alpha0[x] + (if x in list[..i] then NewAlpha(nodes, x, t) else [])
      invariant TopChildRows(nodes, alpha, rows)
      invariant Consistent(nodes, alpha0, eval, rows0) ==> Consistent(nodes, alpha, eval, rows)
    {
      var q := list[i];
      var next := AddToQuery(nodes, alpha, eval, rows, q, t);
      AddToQueryKeepsTopChildRows(nodes, alpha, eval, rows, q, t);
      if Consistent(nodes, alpha, eval, rows) {
        AddToQueryConsistent(nodes, alpha, eval, rows, q, t);
      }
      NotifyStep(nodes, alpha0, alpha, next.0, list, i, t);
      alpha, rows := next.0, next.1;
      i := i + 1;
    }
    assert list[..i] == list;
  }

  lemma NotifyStep(nodes: seq<Node>, alpha0: Rows, alpha: Rows, alpha': Rows, list: seq<nat>, i: nat, t: Triple)
    requires |alpha0| == |nodes| && |alpha| == |nodes| && i < |list| && list[i] < |nodes|
    requires NoDuplicates(list)
    requires forall x | 0 <= x < |nodes| :: alpha[x] == alpha0[x] + (if x in list[..i] then NewAlpha(nodes, x, t) else [])
    requires alpha' == alpha[list[i] := alpha[list[i]] + NewAlpha(nodes, list[i], t)]
    ensures forall x | 0 <= x < |nodes| :: alpha'[x] == alpha0[x] + (if x in list[..i + 1] then NewAlpha(nodes, x, t) else [])
  {
    var q := list[i];
    assert list[..i + 1] == list[..i] + [q];
    assert q !in list[..i] by {
      forall j | 0 <= j < i ensures list[j] != q {
        assert list[j] != list[i];
      }
    }
  }

  /** Right-activating one pattern node leaves every top child's rows equal to its alpha memory. */
  lemma AddToQueryKeepsTopChildRows(nodes: seq<Node>, alpha: Rows, eval: Eval, rows: Rows, q: nat, t: Triple)
    requires Shaped(nodes, alpha, rows) && Linked(nodes) && q < |nodes| && IsPatternNode(nodes, q)
    requires TopChildRows(nodes, alpha, rows)
    ensures TopChildRows(nodes, AddToQuery(nodes, alpha, eval, rows, q, t).0, AddToQuery(nodes, alpha, eval, rows, q, t).1)
  {
    var next := AddToQuery(nodes, alpha, eval, rows, q, t);
    forall y | 0 <= y < |nodes| && IsPatternNode(nodes, y) && nodes[nodes[y].kind.parent].kind.Top?
      ensures next.1[y] == next.0[y]
    {
      if y != q && Reach(nodes, q, y) {
        OnlyTopReachesTopChild(nodes, q, y);
      }
    }
  }

  /** Appending a new triple's match, if any, keeps one pattern's alpha memory exact for the grown store. */
  lemma AlphaExactGrow(st: Store, t: Triple, p: Pattern, a: seq<Match>)
    requires ValidStore(st) && !Contains(st, t) && AlphaExact(st, p, a)
    ensures AlphaExact(Add(st, t).0, p, a + (if TestTriple(t, p).Some? then [Match(TestTriple(t, p).value, [t])] else []))
  {
    var a' := a + (if TestTriple(t, p).Some? then [Match(TestTriple(t, p).value, [t])] else []);
    forall i, j | 0 <= i < j < |a'| ensures a'[i] != a'[j] {
      if j >= |a| {
        assert a'[i] in a && a'[j].triples[0] == t;
      }
    }
  }

  /** Appending the new triple's matches keeps every alpha memory exact for the grown store. */
  lemma InsertKeepsAlphaMemories(st: Store, t: Triple, nodes: seq<Node>, alpha: Rows, alpha': Rows)
    requires ValidStore(st) && !Contains(st, t) && |alpha| == |nodes| && |alpha'| == |nodes|
    requires AlphaMemories(st, nodes, alpha)
    requires forall x | 0 <= x < |nodes| :: alpha'[x] == alpha[x] + NewAlpha(nodes, x, t)
    ensures AlphaMemories(Add(st, t).0, nodes, alpha')
  {
    forall q | 0 <= q < |nodes| && IsPatternNode(nodes, q) ensures AlphaExact(Add(st, t).0, PatternOf(nodes, q), alpha'[q]) {
      AlphaExactGrow(st, t, PatternOf(nodes, q), alpha[q]);
    }
  }

  /** The listed triples a store does not hold yet. */
  function Fresh(st: Store, ts: seq<Triple>): set<Triple> {
    set t | t in ts && !Contains(st, t)
  }

  /**
   * Adds each listed triple in turn. The store ends holding the old triples
   * and the listed ones, and grows by the number of distinct listed triples
   * it did not hold; the structure and the index stay as they were.
   */
  method InsertAll(db: Databank, eval: Eval, ts: seq<Triple>) returns (r: Databank)
    requires Valid(db)
    ensures Valid(r) && r.nodes == db.nodes && r.index == db.index
    ensures forall t :: Contains(r.store, t) <==> Contains(db.store, t) || t in ts
    ensures Size(r.store) == Size(db.store) + |Fresh(db.store, ts)|
    ensures UpToDate(db, eval) ==> UpToDate(r, eval)
  {
    r := db;
    var i := 0;
    while i < |ts|
      invariant 0 <= i <= |ts|
      invariant Valid(r) && r.nodes == db.nodes && r.index == db.index
      invariant forall t :: Contains(r.store, t) <==> Contains(db.store, t) || t in ts[..i]
      invariant Size(r.store) == Size(db.store) + |Fresh(db.store, ts[..i])|
      invariant UpToDate(db, eval) ==> UpToDate(r, eval)
    {
      r := InsertNext(db, r, eval, ts, i);
      i := i + 1;
    }
    assert ts[..i] == ts;
  }

  /** One step of `InsertAll`: the store gains the next listed triple if it is new. */
  method InsertNext(db0: Databank, db: Databank, eval: Eval, ts: seq<Triple>, i: nat) returns (r: Databank)
    requires ValidStore(db0.store) && Valid(db) && i < |ts|
    requires forall t :: Contains(db.store, t) <==> Contains(db0.store, t) || t in ts[..i]
    requires Size(db.store) == Size(db0.store) + |Fresh(db0.store, ts[..i])|
    ensures Valid(r) && r.nodes == db.nodes && r.index == db.index
    ensures forall t :: Contains(r.store, t) <==> Contains(db0.store, t) || t in ts[..i + 1]
    ensures Size(r.store) == Size(db0.store) + |Fresh(db0.store, ts[..i + 1])|
    ensures UpToDate(db, eval) ==> UpToDate(r, eval)
  {
    var added;
    r, added := Insert(db, eval, ts[i]);
    StoreStep(db0.store, db.store, ts, i);
  }

  /** Adding the next listed triple keeps the store holding the old triples and those listed so far, and counts the fresh ones. */
  lemma StoreStep(st0: Store, st: Store, ts: seq<Triple>, i: nat)
    requires ValidStore(st0) && ValidStore(st) && i < |ts|
    requires forall t :: Contains(st, t) <==> Contains(st0, t) || t in ts[..i]
    requires Size(st) == Size(st0) + |Fresh(st0, ts[..i])|
    ensures var st' := Add(st, ts[i]).0;
      && (forall t :: Contains(st', t) <==> Contains(st0, t) || t in ts[..i + 1])
      && Size(st') == Size(st0) + |Fresh(st0, ts[..i + 1])|
  {
    AddSize(st, ts[i]);
    FreshStep(st0, ts, i);
    assert ts[..i + 1] == ts[..i] + [ts[i]];
  }

  /** The next listed triple is fresh exactly when the store lacks it and it was not listed before. */
  lemma FreshStep(st: Store, ts: seq<Triple>, i: nat)
    requires i < |ts|
    ensures var f0 := Fresh(st, ts[..i]); var f1 := Fresh(st, ts[..i + 1]);
      if !Contains(st, ts[i]) && ts[i] !in ts[..i] then ts[i] !in f0 && |f1| == |f0| + 1 else f1 == f0
  {
    assert ts[..i + 1] == ts[..i] + [ts[i]];
    var f0 := Fresh(st, ts[..i]);
    var f1 := Fresh(st, ts[..i + 1]);
    if !Contains(st, ts[i]) && ts[i] !in ts[..i] {
      assert f1 == f0 + {ts[i]};
    }
  }

  /**
   * Databank construction from a list of triples: the store holds exactly
   * the listed triples, each once, so its size is the number of distinct
   * triples listed.
   */
  method MakeDatabank(eval: Eval, ts: seq<Triple>) returns (r: Databank)
    ensures Valid(r) && r.nodes == []
    ensures forall t :: Contains(r.store, t) <==> t in ts
    ensures Size(r.store) == |set t | t in ts|
    ensures UpToDate(r, eval)
  {
    var empty := EmptyDatabank();
    EmptyConsistent(eval);
    r := InsertAll(empty, eval, ts);
    assert Fresh(empty.store, ts) == set t | t in ts;
  }

  /** Appending a node keeps alpha memories exact when the old nodes keep their kinds and memories and the new one is exact. */
  lemma GrowAlphaMemories(db: Databank, r: Databank)
    requires Valid(db) && |r.nodes| == |db.nodes| + 1 && |r.alpha| == |r.nodes| && r.store == db.store
    requires forall x | 0 <= x < |db.nodes| :: r.nodes[x].kind == db.nodes[x].kind && r.alpha[x] == db.alpha[x]
    requires var q := |db.nodes|;
      if IsPatternNode(r.nodes, q) then AlphaExact(r.store, PatternOf(r.nodes, q), r.alpha[q]) else r.alpha[q] == []
    ensures AlphaMemories(r.store, r.nodes, r.alpha)
  {
    forall x | 0 <= x < |db.nodes| ensures IsPatternNode(r.nodes, x) == IsPatternNode(db.nodes, x) {
    }
  }

  /** Appending a node keeps top children's rows equal to their memories when the old nodes keep theirs. */
  lemma GrowTopChildRows(db: Databank, r: Databank)
    requires Valid(db) && Shaped(r.nodes, r.alpha, r.rows) && |r.nodes| == |db.nodes| + 1
    requires forall x | 0 <= x < |db.nodes| ::
      r.nodes[x].kind == db.nodes[x].kind && r.alpha[x] == db.alpha[x] && r.rows[x] == db.rows[x]
    requires var q := |db.nodes|;
      IsPatternNode(r.nodes, q) && r.nodes[r.nodes[q].kind.parent].kind.Top? ==> r.rows[q] == r.alpha[q]
    ensures TopChildRows(r.nodes, r.alpha, r.rows)
  {
  }
}

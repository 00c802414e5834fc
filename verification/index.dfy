/**
 * The databank's query index: pattern nodes registered under a key whose
 * slots are the pattern's bound terms or a wildcard, and the eight-way
 * lookup an inserted triple makes to find the nodes to notify.
 */
module QueryIndex {
  import opened Wrappers
  import opened Terms
  import opened Matching
  import opened Join

  /** A three-level index key; `None` is the wildcard (the empty-string key of the source). */
  datatype Key = Key(s: Option<Term>, p: Option<Term>, o: Option<Term>)

  /** Registered node handles, per key, in registration order. */
  type Index = map<Key, seq<nat>>

  function SlotKey(s: Slot): (r: Option<Term>)
    ensures r.Some? <==> s.Bound?
    ensures r.Some? ==> r.value == s.term
  {
    if s.Bound? then Some(s.term) else None
  }

  /** The key a pattern registers under: its bound terms, wildcards for its variables. */
  function KeyOf(p: Pattern): Key {
    Key(SlotKey(p.subject), SlotKey(p.property), SlotKey(p.obj))
  }

  /** A key admits a triple when each bound key slot holds the triple's term. */
  predicate KeyAdmits(k: Key, t: Triple) {
    && (k.s.Some? ==> k.s.value == t.subject)
    && (k.p.Some? ==> k.p.value == t.property)
    && (k.o.Some? ==> k.o.value == t.obj)
  }

  /** Registration is necessary for a match: a pattern admitting a triple has a key admitting it. */
  lemma AdmitsKey(p: Pattern, t: Triple)
    ensures Admits(p, t) ==> KeyAdmits(KeyOf(p), t)
    ensures TestTriple(t, p).Some? ==> KeyAdmits(KeyOf(p), t)
  {
    TestTripleCorrect(t, p);
    assert SlotAt(p, 0) == p.subject && SlotAt(p, 1) == p.property && SlotAt(p, 2) == p.obj;
  }

  function Lookup(ix: Index, k: Key): seq<nat> {
    if k in ix then ix[k] else []
  }

  /** Appends a node to the list registered under a key; other keys keep their lists. */
  function Register(ix: Index, k: Key, q: nat): (r: Index)
    ensures Lookup(r, k) == Lookup(ix, k) + [q]
    ensures forall k' | k' != k :: Lookup(r, k') == Lookup(ix, k')
    ensures r.Keys == ix.Keys + {k}
  {
    ix[k := Lookup(ix, k) + [q]]
  }

  /** The eight keys an inserted triple looks up, in the order the source tries them. */
  function Candidates(t: Triple): seq<Key> {
    var s, p, o := Some(t.subject), Some(t.property), Some(t.obj);
    [ Key(s, p, o), Key(s, p, None), Key(s, None, o), Key(s, None, None),
      Key(None, p, o), Key(None, p, None), Key(None, None, o), Key(None, None, None) ]
  }

  /** The candidate keys are exactly the keys that admit the triple, and they are distinct. */
  lemma CandidatesAdmit(t: Triple)
    ensures |Candidates(t)| == 8
    ensures forall k :: k in Candidates(t) <==> KeyAdmits(k, t)
    ensures NoDuplicates(Candidates(t))
  {
    var c := Candidates(t);
    forall k | KeyAdmits(k, t) ensures k in c {
      var i := (if k.s.Some? then 0 else 4) + (if k.p.Some? then 0 else 2) + (if k.o.Some? then 0 else 1);
      assert c[i] == k;
    }
  }

  function ConcatLookups(ix: Index, ks: seq<Key>): seq<nat> {
    if |ks| == 0 then [] else Lookup(ix, ks[0]) + ConcatLookups(ix, ks[1..])
  }

  /** The nodes an inserted triple notifies, in notification order. */
  function Notified(ix: Index, t: Triple): seq<nat> {
    ConcatLookups(ix, Candidates(t))
  }

  lemma {:induction false} ConcatLookupsMembership(ix: Index, ks: seq<Key>, q: nat)
    ensures q in ConcatLookups(ix, ks) <==> exists k | k in ks :: q in Lookup(ix, k)
    decreases |ks|
  {
    if |ks| > 0 {
      ConcatLookupsMembership(ix, ks[1..], q);
      assert ks == [ks[0]] + ks[1..];
    }
  }

  /**
   * A node is notified exactly when it is registered under some key whose
   * bound slots all equal the triple's terms.
   */
  lemma NotifiedMembership(ix: Index, t: Triple, q: nat)
    ensures q in Notified(ix, t) <==> exists k | k in ix :: q in ix[k] && KeyAdmits(k, t)
  {
    CandidatesAdmit(t);
    ConcatLookupsMembership(ix, Candidates(t), q);
    if q in Notified(ix, t) {
      var k :| k in Candidates(t) && q in Lookup(ix, k);
      assert k in ix;
    }
  }

  /**
   * Each registered node sits once under exactly the key of its pattern;
   * `patterns` maps each registered handle to its pattern.
   */
  predicate WellIndexed(ix: Index, patterns: map<nat, Pattern>) {
    && (forall k, q | k in ix && q in ix[k] :: q in patterns && k == KeyOf(patterns[q]))
    && (forall q | q in patterns :: KeyOf(patterns[q]) in ix && q in ix[KeyOf(patterns[q])])
    && (forall k | k in ix :: NoDuplicates(ix[k]))
  }

  lemma {:induction false} CountOnce(s: seq<nat>, q: nat)
    requires NoDuplicates(s)
    ensures multiset(s)[q] == (if q in s then 1 else 0)
    decreases |s|
  {
    if |s| > 0 {
      assert s == [s[0]] + s[1..];
      CountOnce(s[1..], q);
      if q == s[0] {
        assert q !in s[1..] by {
          forall j | 1 <= j < |s| ensures s[j] != q {
            assert s[0] != s[j];
          }
        }
      }
    }
  }

  lemma {:induction false} ConcatLookupsCount(ix: Index, patterns: map<nat, Pattern>, ks: seq<Key>, q: nat)
    requires WellIndexed(ix, patterns)
    requires NoDuplicates(ks)
    ensures multiset(ConcatLookups(ix, ks))[q] ==
      (if q in patterns && KeyOf(patterns[q]) in ks then 1 else 0)
    decreases |ks|
  {
    if |ks| > 0 {
      var k := ks[0];
      assert NoDuplicates(ks[1..]) by {
        forall i, j | 0 <= i < j < |ks[1..]| ensures ks[1..][i] != ks[1..][j] {
          assert ks[i + 1] != ks[j + 1];
        }
      }
      ConcatLookupsCount(ix, patterns, ks[1..], q);
      if k in ix {
        CountOnce(ix[k], q);
      }
      assert k !in ks[1..] by {
        forall j | 1 <= j < |ks| ensures ks[j] != k {
          assert ks[0] != ks[j];
        }
      }
      assert ks == [k] + ks[1..];
    }
  }

  /**
   * In a well-kept index an inserted triple notifies each registered node
   * once if its key admits the triple, and not at all otherwise.
   */
  lemma NotifiedCount(ix: Index, patterns: map<nat, Pattern>, t: Triple, q: nat)
    requires WellIndexed(ix, patterns)
    ensures multiset(Notified(ix, t))[q] ==
      (if q in patterns && KeyAdmits(KeyOf(patterns[q]), t) then 1 else 0)
  {
    CandidatesAdmit(t);
    ConcatLookupsCount(ix, patterns, Candidates(t), q);
  }

  /** Registering a new node under its pattern's key keeps the index well kept. */
  lemma RegisterWellIndexed(ix: Index, patterns: map<nat, Pattern>, q: nat, p: Pattern)
    requires WellIndexed(ix, patterns)
    requires q !in patterns
    ensures WellIndexed(Register(ix, KeyOf(p), q), patterns[q := p])
  {
    var r := Register(ix, KeyOf(p), q);
    var ps := patterns[q := p];
    forall k | k in r ensures NoDuplicates(r[k]) {
      if k == KeyOf(p) {
        assert q !in Lookup(ix, k);
        assert r[k] == Lookup(ix, k) + [q];
      } else {
        assert r[k] == ix[k];
      }
    }
    forall k, x | k in r && x in r[k] ensures x in ps && k == KeyOf(ps[x]) {
      if k != KeyOf(p) || x != q {
        if k == KeyOf(p) {
          assert x in Lookup(ix, k);
        }
      }
    }
  }
}

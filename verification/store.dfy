/**
 * The triple store of a databank: one ordered bucket of triples per
 * subject, buckets kept in the order their subjects first appeared.
 * Append-only: a triple already in its subject's bucket is never added twice.
 */
module TripleStore {
  import opened Terms
  import opened Matching

  datatype Store = Store(subjects: seq<Term>, buckets: map<Term, seq<Triple>>)

  /** Each subject listed once and owning a bucket; each bucket holds its subject's triples, without repeats. */
  predicate ValidStore(st: Store) {
    && NoDuplicates(st.subjects)
    && (forall s | s in st.subjects :: s in st.buckets)
    && (forall s | s in st.buckets :: s in st.subjects)
    && (forall s, t | s in st.buckets && t in st.buckets[s] :: t.subject == s)
    && (forall s | s in st.buckets :: NoDuplicates(st.buckets[s]))
  }

  const Empty: Store := Store([], map[])

  /** The triple is already stored: it is in its subject's bucket. */
  predicate Contains(st: Store, t: Triple) {
    t.subject in st.buckets && t in st.buckets[t.subject]
  }

  /** The buckets of the listed subjects, concatenated in order. */
  function Concat(subjects: seq<Term>, buckets: map<Term, seq<Triple>>): seq<Triple>
    requires forall s | s in subjects :: s in buckets
  {
    if |subjects| == 0 then [] else buckets[subjects[0]] + Concat(subjects[1..], buckets)
  }

  /** Every stored triple, bucket by bucket. */
  function Triples(st: Store): seq<Triple>
    requires ValidStore(st)
  {
    Concat(st.subjects, st.buckets)
  }

  function Size(st: Store): nat
    requires ValidStore(st)
  {
    |Triples(st)|
  }

  lemma {:induction false} ConcatMembership(subjects: seq<Term>, buckets: map<Term, seq<Triple>>, t: Triple)
    requires forall s | s in subjects :: s in buckets
    ensures t in Concat(subjects, buckets) <==> exists s | s in subjects :: t in buckets[s]
    decreases |subjects|
  {
    if |subjects| > 0 {
      ConcatMembership(subjects[1..], buckets, t);
      assert subjects == [subjects[0]] + subjects[1..];
    }
  }

  /** The listed triples are exactly the stored ones. */
  lemma TriplesMembership(st: Store, t: Triple)
    requires ValidStore(st)
    ensures t in Triples(st) <==> Contains(st, t)
  {
    ConcatMembership(st.subjects, st.buckets, t);
  }

  /** Replacing one listed subject's bucket changes the concatenation's length by the difference. */
  lemma {:induction false} ConcatUpdateLength(subjects: seq<Term>, buckets: map<Term, seq<Triple>>, k: Term, v: seq<Triple>)
    requires forall s | s in subjects :: s in buckets
    requires NoDuplicates(subjects)
    requires k in subjects
    ensures |Concat(subjects, buckets[k := v])| == |Concat(subjects, buckets)| - |buckets[k]| + |v|
    decreases |subjects|
  {
    var b' := buckets[k := v];
    if subjects[0] == k {
      assert k !in subjects[1..] by {
        forall j | 1 <= j < |subjects| ensures subjects[j] != k {
          assert subjects[0] != subjects[j];
        }
      }
      ConcatUnchanged(subjects[1..], buckets, k, v);
    } else {
      assert k in subjects[1..];
      ConcatUpdateLength(subjects[1..], buckets, k, v);
    }
  }

  lemma {:induction false} ConcatUnchanged(subjects: seq<Term>, buckets: map<Term, seq<Triple>>, k: Term, v: seq<Triple>)
    requires forall s | s in subjects :: s in buckets
    requires k !in subjects
    ensures Concat(subjects, buckets[k := v]) == Concat(subjects, buckets)
    decreases |subjects|
  {
    if |subjects| > 0 {
      ConcatUnchanged(subjects[1..], buckets, k, v);
    }
  }

  lemma {:induction false} ConcatAppend(subjects: seq<Term>, buckets: map<Term, seq<Triple>>, k: Term)
    requires forall s | s in subjects + [k] :: s in buckets
    ensures Concat(subjects + [k], buckets) == Concat(subjects, buckets) + buckets[k]
    decreases |subjects|
  {
    if |subjects| == 0 {
      assert subjects + [k] == [k];
    } else {
      assert (subjects + [k])[1..] == subjects[1..] + [k];
      ConcatAppend(subjects[1..], buckets, k);
    }
  }

  /**
   * Adds a triple. A triple already in its subject's bucket leaves the store
   * as it was and reports no insertion; otherwise it is appended to its
   * bucket (a new bucket for a new subject goes last) and nothing else changes.
   */
  function Add(st: Store, t: Triple): (r: (Store, bool))
    requires ValidStore(st)
    ensures ValidStore(r.0)
    ensures r.1 <==> !Contains(st, t)
    ensures !r.1 ==> r.0 == st
    ensures r.1 ==> t.subject in r.0.buckets && r.0.buckets[t.subject] == (if t.subject in st.buckets then st.buckets[t.subject] else []) + [t]
    ensures forall s | s != t.subject :: (s in r.0.buckets <==> s in st.buckets)
    ensures forall s | s != t.subject && s in st.buckets :: r.0.buckets[s] == st.buckets[s]
    ensures forall x :: Contains(r.0, x) <==> Contains(st, x) || x == t
  {
    var s := t.subject;
    if s in st.buckets && t in st.buckets[s] then (st, false)
    else if s in st.buckets then
      (Store(st.subjects, st.buckets[s := st.buckets[s] + [t]]), true)
    else
      (Store(st.subjects + [s], st.buckets[s := [t]]), true)
  }

  /** A fresh triple grows the store by exactly one; a duplicate leaves the size alone. */
  lemma AddSize(st: Store, t: Triple)
    requires ValidStore(st)
    ensures Size(Add(st, t).0) == Size(st) + (if Contains(st, t) then 0 else 1)
  {
    var s := t.subject;
    if !Contains(st, t) {
      var st' := Add(st, t).0;
      if s in st.buckets {
        ConcatUpdateLength(st.subjects, st.buckets, s, st.buckets[s] + [t]);
      } else {
        ConcatUnchanged(st.subjects, st.buckets, s, [t]);
        ConcatAppend(st.subjects, st'.buckets, s);
      }
    }
  }

  /** The stored triples never repeat, so the size counts distinct triples. */
  lemma {:induction false} ConcatNoDuplicates(subjects: seq<Term>, buckets: map<Term, seq<Triple>>)
    requires forall s | s in subjects :: s in buckets
    requires NoDuplicates(subjects)
    requires forall s, t | s in buckets && t in buckets[s] :: t.subject == s
    requires forall s | s in buckets :: NoDuplicates(buckets[s])
    ensures NoDuplicates(Concat(subjects, buckets))
    decreases |subjects|
  {
    if |subjects| > 0 {
      var head := buckets[subjects[0]];
      var tail := Concat(subjects[1..], buckets);
      ConcatNoDuplicates(subjects[1..], buckets);
      forall x | x in tail ensures x !in head {
        ConcatMembership(subjects[1..], buckets, x);
        var s :| s in subjects[1..] && x in buckets[s];
        var j :| 0 <= j < |subjects[1..]| && subjects[1..][j] == s;
        assert subjects[0] != subjects[j + 1];
        assert x.subject == s;
      }
      var c := head + tail;
      forall i, j | 0 <= i < j < |c| ensures c[i] != c[j] {
        if j >= |head| && i < |head| {
          assert c[j] in tail;
        }
      }
    }
  }

  /** `triples()` lists each stored triple once. */
  lemma TriplesNoDuplicates(st: Store)
    requires ValidStore(st)
    ensures NoDuplicates(Triples(st))
  {
    ConcatNoDuplicates(st.subjects, st.buckets);
  }
}

/**
 * Joining result rows with new matches: the beta step of the network, with
 * and without left-outer (optional) semantics.
 */
module Join {
  import opened Terms
  import opened Matching

  /** Two binding rows can be joined when every name bound in both has the same term in both. */
  predicate Compatible(existing: Bindings, incoming: Bindings) {
    forall k | k in incoming && k in existing :: existing[k] == incoming[k]
  }

  /** Removes repeated triples, keeping each one's first occurrence. */
  function Dedup(s: seq<Triple>): (r: seq<Triple>)
    ensures forall t :: t in r <==> t in s
    ensures NoDuplicates(r)
    ensures |r| <= |s|
  {
    if |s| == 0 then []
    else
      var d := Dedup(s[..|s| - 1]);
      var last := s[|s| - 1];
      assert s == s[..|s| - 1] + [last];
      if last in d then d else d + [last]
  }

  /** Row `m` extends row `e`: it keeps every binding and every triple of `e`. */
  predicate Extends(m: Match, e: Match) {
    && (forall k | k in e.bindings :: k in m.bindings && m.bindings[k] == e.bindings[k])
    && (forall t | t in e.triples :: t in m.triples)
  }

  /** The joined row: both binding maps together and the triples of both without repeats. */
  function JoinRow(e: Match, n: Match): (r: Match)
    requires Compatible(e.bindings, n.bindings)
    ensures r.bindings.Keys == e.bindings.Keys + n.bindings.Keys
    ensures Extends(r, e) && Extends(r, n)
    ensures forall t | t in r.triples :: t in e.triples || t in n.triples
    ensures NoDuplicates(r.triples)
  {
    Match(e.bindings + n.bindings, Dedup(e.triples + n.triples))
  }

  /** The new matches that may be joined with row `e`, in order. */
  function CompatibleMatches(e: Match, news: seq<Match>): (r: seq<Match>)
    ensures |r| <= |news|
    ensures forall n :: n in r <==> n in news && Compatible(e.bindings, n.bindings)
  {
    if |news| == 0 then []
    else
      var rest := CompatibleMatches(e, news[1..]);
      assert news == [news[0]] + news[1..];
      if Compatible(e.bindings, news[0].bindings) then [news[0]] + rest else rest
  }

  function JoinAll(e: Match, cs: seq<Match>): (r: seq<Match>)
    requires forall n | n in cs :: Compatible(e.bindings, n.bindings)
    ensures |r| == |cs|
    ensures forall m :: m in r <==> exists n | n in cs :: m == JoinRow(e, n)
  {
    if |cs| == 0 then []
    else
      assert cs == [cs[0]] + cs[1..];
      [JoinRow(e, cs[0])] + JoinAll(e, cs[1..])
  }

  predicate NoneCompatible(e: Match, news: seq<Match>) {
    forall n | n in news :: !Compatible(e.bindings, n.bindings)
  }

  /**
   * The rows one existing row contributes: its join with every compatible new
   * match; if there is none, the row itself when optional and nothing otherwise.
   */
  function MergeOne(e: Match, news: seq<Match>, optional: bool): (r: seq<Match>)
    ensures optional ==> |r| >= 1
    ensures !optional ==> |r| <= |news|
    ensures forall m | m in r :: Extends(m, e)
    ensures forall m :: m in r <==>
      (exists n | n in news && Compatible(e.bindings, n.bindings) :: m == JoinRow(e, n)) ||
      (optional && NoneCompatible(e, news) && m == e)
  {
    var cs := CompatibleMatches(e, news);
    if |cs| > 0 then JoinAll(e, cs)
    else if optional then [e]
    else []
  }

  /**
   * Joins every existing row with the new matches. A non-optional join keeps
   * only successful pairs; an optional join also passes through unchanged
   * each row that no new match fits.
   */
  function MergeMatches(existing: seq<Match>, news: seq<Match>, optional: bool): (r: seq<Match>)
    ensures forall m | m in r :: exists e | e in existing :: Extends(m, e)
  {
    if |existing| == 0 then []
    else
      var head := MergeOne(existing[0], news, optional);
      var rest := MergeMatches(existing[1..], news, optional);
      assert forall e | e in existing[1..] :: e in existing;
      head + rest
  }

  /** A plain join yields at most one row per pair, and an optional join keeps at least one row per existing row. */
  lemma {:induction false} MergeSize(existing: seq<Match>, news: seq<Match>, optional: bool)
    ensures !optional ==> |MergeMatches(existing, news, optional)| <= |existing| * |news|
    ensures optional ==> |MergeMatches(existing, news, optional)| >= |existing|
    decreases |existing|
  {
    if |existing| > 0 {
      MergeSize(existing[1..], news, optional);
      MulStep(|existing|, |news|);
    }
  }

  lemma MulStep(a: nat, b: nat)
    requires a > 0
    ensures a * b == b + (a - 1) * b
  {
  }

  /** A joined row: some existing row and some compatible new match. */
  predicate JoinedFrom(m: Match, existing: seq<Match>, news: seq<Match>) {
    exists e, n | e in existing && n in news && Compatible(e.bindings, n.bindings) :: m == JoinRow(e, n)
  }

  /** A passed-through row: an existing row that no new match fits. */
  predicate PassedThrough(m: Match, existing: seq<Match>, news: seq<Match>) {
    m in existing && NoneCompatible(m, news)
  }

  /**
   * The rows of a join are exactly the joined pairs, plus, for an optional
   * join, the existing rows no new match fits.
   */
  lemma {:induction false} MergeMembership(existing: seq<Match>, news: seq<Match>, optional: bool, m: Match)
    ensures m in MergeMatches(existing, news, optional) <==>
      JoinedFrom(m, existing, news) || (optional && PassedThrough(m, existing, news))
    decreases |existing|
  {
    if |existing| > 0 {
      var e0 := existing[0];
      var tail := existing[1..];
      assert existing == [e0] + tail;
      MergeMembership(tail, news, optional, m);
      assert MergeMatches(existing, news, optional) == MergeOne(e0, news, optional) + MergeMatches(tail, news, optional);
      if JoinedFrom(m, existing, news) {
        var e, n :| e in existing && n in news && Compatible(e.bindings, n.bindings) && m == JoinRow(e, n);
        if e != e0 {
          assert JoinedFrom(m, tail, news);
        }
      }
      if JoinedFrom(m, tail, news) {
        var e, n :| e in tail && n in news && Compatible(e.bindings, n.bindings) && m == JoinRow(e, n);
        assert e in existing;
      }
    }
  }

  /** Joining with one new match, as a non-optional right activation does, yields at most one row per existing row. */
  lemma {:induction false} MergeSingle(existing: seq<Match>, n: Match)
    ensures |MergeMatches(existing, [n], false)| <= |existing|
    ensures forall m | m in MergeMatches(existing, [n], false) ::
      exists e | e in existing :: Compatible(e.bindings, n.bindings) && m == JoinRow(e, n)
  {
    MergeSize(existing, [n], false);
    forall m | m in MergeMatches(existing, [n], false)
      ensures exists e | e in existing :: Compatible(e.bindings, n.bindings) && m == JoinRow(e, n)
    {
      MergeMembership(existing, [n], false, m);
      var e, n' :| e in existing && n' in [n] && Compatible(e.bindings, n'.bindings) && m == JoinRow(e, n');
    }
  }
}

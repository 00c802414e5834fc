/**
 * Single-triple pattern matching: patterns whose slots are bound terms or
 * variables, the test of one triple against a pattern, the scan of a triple
 * list, filling a pattern from a binding row, and the token-count check of
 * pattern text.
 */
module Matching {
  import opened Wrappers
  import opened Terms

  /** A pattern slot: a variable name (written `?name` in text) or a bound term. */
  datatype Slot = Var(name: string) | Bound(term: Term)

  /** A triple pattern; `optional` marks a left-outer-join step. */
  datatype Pattern = Pattern(subject: Slot, property: Slot, obj: Slot, optional: bool)

  type Bindings = map<string, Term>

  /** A result row: variable bindings and the triples that produced them. */
  datatype Match = Match(bindings: Bindings, triples: seq<Triple>)

  /** The slot at position `i` (0 subject, 1 property, 2 object). */
  function SlotAt(p: Pattern, i: nat): Slot
    requires i < 3
  {
    if i == 0 then p.subject else if i == 1 then p.property else p.obj
  }

  /** The term at position `i` (0 subject, 1 property, 2 object). */
  function TermAt(t: Triple, i: nat): Term
    requires i < 3
  {
    if i == 0 then t.subject else if i == 1 then t.property else t.obj
  }

  /** The variable names a pattern mentions. */
  function VarNames(p: Pattern): set<string> {
    set i | 0 <= i < 3 && SlotAt(p, i).Var? :: SlotAt(p, i).name
  }

  /**
   * Reference meaning of a match: every bound slot holds the triple's term at
   * that position, and two slots naming the same variable see the same term.
   */
  predicate Admits(p: Pattern, t: Triple) {
    && (forall i | 0 <= i < 3 && SlotAt(p, i).Bound? :: SlotAt(p, i).term == TermAt(t, i))
    && (forall i, j | 0 <= i < 3 && 0 <= j < 3 && SlotAt(p, i).Var? && SlotAt(p, j).Var? &&
          SlotAt(p, i).name == SlotAt(p, j).name :: TermAt(t, i) == TermAt(t, j))
  }

  /**
   * Tests one term against one slot, extending the bindings found so far. A
   * variable binds the term unless it is already bound to another term; a
   * bound slot must hold exactly this term.
   */
  function TestResource(term: Term, slot: Slot, existing: Bindings): (r: Option<Bindings>)
    ensures slot.Bound? ==> (r.Some? <==> slot.term == term)
    ensures slot.Bound? && r.Some? ==> r.value == existing
    ensures slot.Var? ==> (r.Some? <==> (slot.name in existing ==> existing[slot.name] == term))
    ensures slot.Var? && r.Some? ==> r.value.Keys == existing.Keys + {slot.name} && r.value[slot.name] == term
    ensures r.Some? ==> forall k | k in existing :: k in r.value && r.value[k] == existing[k]
  {
    match slot
    case Var(n) =>
      if n in existing && existing[n] != term then None else Some(existing[n := term])
    case Bound(b) =>
      if b == term then Some(existing) else None
  }

  /** Tests a triple against a pattern: subject, then property, then object. */
  function TestTriple(t: Triple, p: Pattern): Option<Bindings> {
    var b0 := TestResource(t.subject, p.subject, map[]);
    if b0.None? then None
    else
      var b1 := TestResource(t.property, p.property, b0.value);
      if b1.None? then None
      else TestResource(t.obj, p.obj, b1.value)
  }

  /**
   * A triple matches exactly when the pattern admits it, and then the
   * bindings name exactly the pattern's variables, each bound to the term
   * in the variable's position.
   */
  lemma TestTripleCorrect(t: Triple, p: Pattern)
    ensures TestTriple(t, p).Some? <==> Admits(p, t)
    ensures TestTriple(t, p).Some? ==> TestTriple(t, p).value.Keys == VarNames(p)
    ensures TestTriple(t, p).Some? ==>
      forall i | 0 <= i < 3 && SlotAt(p, i).Var? :: TestTriple(t, p).value[SlotAt(p, i).name] == TermAt(t, i)
  {
    var names := VarNames(p);
    assert p.subject == SlotAt(p, 0) && p.property == SlotAt(p, 1) && p.obj == SlotAt(p, 2);
    assert t.subject == TermAt(t, 0) && t.property == TermAt(t, 1) && t.obj == TermAt(t, 2);
    if TestTriple(t, p).Some? {
      var r := TestTriple(t, p).value;
      forall n | n in names ensures n in r.Keys {
        var i :| 0 <= i < 3 && SlotAt(p, i).Var? && SlotAt(p, i).name == n;
      }
    }
  }

  /** The source's example: `?x p ?x` accepts `(a, p, a)` and rejects `(a, p, b)` for `a != b`. */
  lemma RepeatedVariable(x: string, a: Term, q: Term, b: Term)
    ensures var p := Pattern(Var(x), Bound(q), Var(x), false);
      TestTriple(Triple(a, q, b), p) == (if a == b then Some(map[x := a]) else None)
  {
    var m: Bindings := map[x := a];
    assert map[][x := a] == m;
    assert m[x := a] == m;
  }

  predicate NoDuplicates<T(==)>(s: seq<T>) {
    forall i, j | 0 <= i < j < |s| :: s[i] != s[j]
  }

  /** Every triple of the list that matches the pattern, in order, as a one-triple match. */
  function FindMatches(triples: seq<Triple>, p: Pattern): (r: seq<Match>)
    ensures |r| <= |triples|
    ensures forall m | m in r :: |m.triples| == 1 && m.triples[0] in triples
    ensures forall b, t :: Match(b, [t]) in r <==> t in triples && TestTriple(t, p) == Some(b)
    ensures NoDuplicates(triples) ==> NoDuplicates(r)
  {
    if |triples| == 0 then []
    else
      var rest := FindMatches(triples[1..], p);
      var b := TestTriple(triples[0], p);
      assert triples == [triples[0]] + triples[1..];
      if b.Some? then [Match(b.value, [triples[0]])] + rest else rest
  }

  /** Replaces every variable slot whose name the row binds by the bound term. */
  function FillSlot(s: Slot, b: Bindings): Slot {
    if s.Var? && s.name in b then Bound(b[s.name]) else s
  }

  function FillFilter(p: Pattern, b: Bindings): (r: Pattern)
    ensures r.optional == p.optional
    ensures forall i | 0 <= i < 3 :: SlotAt(r, i) == FillSlot(SlotAt(p, i), b)
  {
    Pattern(FillSlot(p.subject, b), FillSlot(p.property, b), FillSlot(p.obj, b), p.optional)
  }

  /** Filling a pattern removes exactly the row's names from its variables. */
  lemma FillFilterVars(p: Pattern, b: Bindings)
    ensures VarNames(FillFilter(p, b)) == VarNames(p) - b.Keys
  {
    var f := FillFilter(p, b);
    forall n | n in VarNames(p) - b.Keys ensures n in VarNames(f) {
      var i :| 0 <= i < 3 && SlotAt(p, i).Var? && SlotAt(p, i).name == n;
      assert SlotAt(f, i) == SlotAt(p, i);
    }
  }

  /**
   * A filled pattern admits a triple exactly when the original pattern admits
   * it with every variable the row binds seeing the row's term.
   */
  lemma FillFilterAdmits(p: Pattern, b: Bindings, t: Triple)
    ensures Admits(FillFilter(p, b), t) <==>
      Admits(p, t) &&
      forall i | 0 <= i < 3 && SlotAt(p, i).Var? && SlotAt(p, i).name in b :: TermAt(t, i) == b[SlotAt(p, i).name]
  {
    var f := FillFilter(p, b);
    if Admits(f, t) {
      forall i, j | 0 <= i < 3 && 0 <= j < 3 && SlotAt(p, i).Var? && SlotAt(p, j).Var? &&
          SlotAt(p, i).name == SlotAt(p, j).name
        ensures TermAt(t, i) == TermAt(t, j)
      {
        assert SlotAt(f, i) == FillSlot(SlotAt(p, i), b);
        assert SlotAt(f, j) == FillSlot(SlotAt(p, j), b);
      }
    }
  }

  /** A pattern with no variable slots. */
  predicate Ground(p: Pattern) {
    p.subject.Bound? && p.property.Bound? && p.obj.Bound?
  }

  /** The one triple a ground pattern admits. */
  function GroundTriple(p: Pattern): (r: Triple)
    requires Ground(p)
    ensures forall t :: Admits(p, t) <==> t == r
  {
    var r := Triple(p.subject.term, p.property.term, p.obj.term);
    assert forall t :: Admits(p, t) ==> TermAt(t, 0) == TermAt(r, 0) && TermAt(t, 1) == TermAt(r, 1) && TermAt(t, 2) == TermAt(r, 2);
    r
  }

  /**
   * The triples a pattern with variables yields for a list of rows, in row
   * order: the pattern filled from each row that binds all its variables.
   */
  function Fills(p: Pattern, ms: seq<Match>): (r: seq<Triple>)
    ensures forall t :: t in r <==>
      exists m | m in ms :: Ground(FillFilter(p, m.bindings)) && GroundTriple(FillFilter(p, m.bindings)) == t
  {
    if |ms| == 0 then []
    else
      var f := FillFilter(p, ms[0].bindings);
      assert forall m | m in ms :: m == ms[0] || m in ms[1..];
      (if Ground(f) then [GroundTriple(f)] else []) + Fills(p, ms[1..])
  }

  /**
   * Each filled triple matches the pattern, with every variable seeing the
   * term the row it came from binds.
   */
  lemma FillsAdmitted(p: Pattern, ms: seq<Match>, t: Triple)
    requires t in Fills(p, ms)
    ensures Admits(p, t)
    ensures exists m | m in ms :: (forall i | 0 <= i < 3 && SlotAt(p, i).Var? ::
      SlotAt(p, i).name in m.bindings && TermAt(t, i) == m.bindings[SlotAt(p, i).name])
  {
    var m :| m in ms && Ground(FillFilter(p, m.bindings)) && GroundTriple(FillFilter(p, m.bindings)) == t;
    var f := FillFilter(p, m.bindings);
    FillFilterAdmits(p, m.bindings, t);
    forall i | 0 <= i < 3 && SlotAt(p, i).Var? ensures SlotAt(p, i).name in m.bindings {
      assert SlotAt(f, i) == FillSlot(SlotAt(p, i), m.bindings);
      assert SlotAt(f, i).Bound? by {
        assert f.subject == SlotAt(f, 0) && f.property == SlotAt(f, 1) && f.obj == SlotAt(f, 2);
      }
    }
  }

  /** Which position a pattern-text token fills; term resolution differs per position. */
  datatype Role = SubjectRole | PropertyRole | ObjectRole

  function RoleAt(i: nat): Role
    requires i < 3
  {
    if i == 0 then SubjectRole else if i == 1 then PropertyRole else ObjectRole
  }

  datatype FilterError = MalformedFilter | BadTerm(role: Role, token: string)

  predicate IsVarToken(tok: string) {
    |tok| > 0 && tok[0] == '?'
  }

  /** Exactly three tokens, or four whose last is `.`. */
  predicate WellCounted(tokens: seq<string>) {
    |tokens| == 3 || (|tokens| == 4 && tokens[3] == ".")
  }

  /**
   * One token: `?name` is the variable `name`; anything else is handed to the
   * term resolver, whose failure is a bad term.
   */
  function ParseSlot(tok: string, role: Role, resolve: (Role, string) -> Option<Term>): (r: Result<Slot, FilterError>)
    ensures IsVarToken(tok) ==> r == Success(Var(tok[1..]))
    ensures !IsVarToken(tok) ==> (r.Success? <==> resolve(role, tok).Some?)
    ensures !IsVarToken(tok) && r.Success? ==> r.value == Bound(resolve(role, tok).value)
    ensures r.Failure? ==> r.error == BadTerm(role, tok)
  {
    if IsVarToken(tok) then Success(Var(tok[1..]))
    else
      match resolve(role, tok)
      case Some(t) => Success(Bound(t))
      case None => Failure(BadTerm(role, tok))
  }

  /**
   * Builds a pattern from already-tokenised pattern text. The resolver stands
   * for the term constructors (resource, blank, literal) that are not part of
   * this model.
   */
  function ParseFilter(tokens: seq<string>, optional: bool, resolve: (Role, string) -> Option<Term>): (r: Result<Pattern, FilterError>)
    ensures r == Failure(MalformedFilter) <==> !WellCounted(tokens)
    ensures r.Success? <==> (WellCounted(tokens) &&
      forall i | 0 <= i < 3 :: IsVarToken(tokens[i]) || resolve(RoleAt(i), tokens[i]).Some?)
    ensures r.Success? ==> r.value.optional == optional
    ensures r.Success? ==> forall i | 0 <= i < 3 ::
      SlotAt(r.value, i) == (if IsVarToken(tokens[i]) then Var(tokens[i][1..]) else Bound(resolve(RoleAt(i), tokens[i]).value))
  {
    if WellCounted(tokens) then
      var s :- ParseSlot(tokens[0], SubjectRole, resolve);
      var p :- ParseSlot(tokens[1], PropertyRole, resolve);
      var o :- ParseSlot(tokens[2], ObjectRole, resolve);
      Success(Pattern(s, p, o, optional))
    else
      Failure(MalformedFilter)
  }
}

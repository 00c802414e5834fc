/**
 * RDF terms and triples. The source interns every term and triple in a pool
 * keyed by its canonical text, so that two objects with the same text are
 * the same object. Here terms are values: structural equality plays the part
 * of pool identity, and `ToStringInjective` shows that nothing is lost by
 * keying on the canonical text.
 */
module Terms {
  import opened Wrappers

  /** A term: a named resource, a blank node, or a literal. */
  datatype Term =
    | Resource(iri: string)
    | Blank(id: string)
    | Literal(value: string, lang: Option<string>, dtype: Option<string>)

  /** A fact. The source stores an optional provenance beside it, which takes no part in identity. */
  datatype Triple = Triple(subject: Term, property: Term, obj: Term)

  datatype TermError =
    | MalformedBlank(text: string)

  /**
   * A literal never carries both a language and a datatype, and neither of
   * those holds a quote; the value itself may contain quotes.
   */
  predicate WellFormed(t: Term) {
    match t
    case Resource(_) => true
    case Blank(_) => true
    case Literal(_, l, d) =>
      && !(l.Some? && d.Some?)
      && (l.Some? ==> '"' !in l.value)
      && (d.Some? ==> '"' !in d.value)
  }

  /** Subjects are resources or blank nodes, properties are resources. */
  predicate WellFormedTriple(t: Triple) {
    && !t.subject.Literal?
    && t.property.Resource?
    && WellFormed(t.subject) && WellFormed(t.property) && WellFormed(t.obj)
  }

  function LiteralSuffix(lang: Option<string>, dtype: Option<string>): string {
    if lang.Some? then "@" + lang.value
    else if dtype.Some? then "^^<" + dtype.value + ">"
    else ""
  }

  /** The canonical text of a term: `<iri>`, `_:id`, `"v"`, `"v"@lang` or `"v"^^<dt>`. */
  function ToString(t: Term): string {
    match t
    case Resource(iri) => "<" + iri + ">"
    case Blank(id) => "_:" + id
    case Literal(v, l, d) => "\"" + v + "\"" + LiteralSuffix(l, d)
  }

  /** The canonical text of a triple, in the form `s p o .`. */
  function TripleToString(t: Triple): string {
    ToString(t.subject) + " " + ToString(t.property) + " " + ToString(t.obj) + " ."
  }

  lemma SuffixInjective(l1: Option<string>, d1: Option<string>, l2: Option<string>, d2: Option<string>)
    requires !(l1.Some? && d1.Some?) && !(l2.Some? && d2.Some?)
    requires LiteralSuffix(l1, d1) == LiteralSuffix(l2, d2)
    ensures l1 == l2 && d1 == d2
  {
    var s := LiteralSuffix(l1, d1);
    if l1.Some? {
      assert s[0] == '@';
      assert l2.Some?;
      assert l1.value == s[1..] == l2.value;
    } else if d1.Some? {
      assert s[0] == '^';
      assert !l2.Some? && d2.Some?;
      assert d1.value == s[3..|s| - 1] == d2.value;
    } else {
      assert |s| == 0;
    }
  }

  /** Number of characters after the last quote in `s`, or `|s|` when there is none. */
  function AfterLastQuote(s: string): nat
    decreases |s|
  {
    if |s| == 0 || s[|s| - 1] == '"' then 0 else 1 + AfterLastQuote(s[..|s| - 1])
  }

  lemma {:induction false} AfterLastQuoteOf(w: string, r: string)
    requires '"' !in r
    ensures AfterLastQuote(w + "\"" + r) == |r|
    decreases |r|
  {
    var s := w + "\"" + r;
    if |r| > 0 {
      assert r[|r| - 1] in r;
      assert s[..|s| - 1] == w + "\"" + r[..|r| - 1];
      AfterLastQuoteOf(w, r[..|r| - 1]);
    } else {
      assert s[|s| - 1] == '"';
    }
  }

  /** The suffix of a well-formed literal holds no quote. */
  lemma SuffixQuoteFree(l: Option<string>, d: Option<string>)
    requires l.Some? ==> '"' !in l.value
    requires d.Some? ==> '"' !in d.value
    ensures '"' !in LiteralSuffix(l, d)
  {
    var s := LiteralSuffix(l, d);
    if l.Some? {
      assert forall k | 1 <= k < |s| :: s[k] == l.value[k - 1];
    } else if d.Some? {
      assert forall k | 3 <= k < |s| - 1 :: s[k] == d.value[k - 3];
    }
  }

  /**
   * The last quote of a literal's text ends its value, whatever quotes the
   * value holds, as long as the suffix holds none.
   */
  lemma LiteralTextInjective(v1: string, v2: string, r1: string, r2: string)
    requires '"' !in r1 && '"' !in r2
    requires "\"" + v1 + "\"" + r1 == "\"" + v2 + "\"" + r2
    ensures v1 == v2 && r1 == r2
  {
    var s := "\"" + v1 + "\"" + r1;
    AfterLastQuoteOf("\"" + v1, r1);
    AfterLastQuoteOf("\"" + v2, r2);
    assert |r1| == |r2|;
    assert r1 == s[|s| - |r1|..] == r2;
    assert v1 == s[1..|s| - |r1| - 1] == v2;
  }

  /**
   * Keying the pools by canonical text is sound: two well-formed terms with
   * the same text are the same term.
   */
  lemma ToStringInjective(a: Term, b: Term)
    requires WellFormed(a) && WellFormed(b)
    requires ToString(a) == ToString(b)
    ensures a == b
  {
    var s := ToString(a);
    match a
    case Resource(i1) =>
      assert s[0] == '<';
      assert b.Resource?;
      assert i1 == s[1..|s| - 1] == b.iri;
    case Blank(i1) =>
      assert s[0] == '_';
      assert b.Blank?;
      assert i1 == s[2..] == b.id;
    case Literal(v1, l1, d1) =>
      assert s[0] == '"';
      assert b.Literal?;
      SuffixQuoteFree(l1, d1);
      SuffixQuoteFree(b.lang, b.dtype);
      LiteralTextInjective(v1, b.value, LiteralSuffix(l1, d1), LiteralSuffix(b.lang, b.dtype));
      SuffixInjective(l1, d1, b.lang, b.dtype);
  }

  /** The lower-case hexadecimal digit for `d`. */
  function HexDigit(d: nat): char
    requires d < 16
  {
    "0123456789abcdef"[d]
  }

  function DigitValue(c: char): nat {
    if '0' <= c <= '9' then (c - '0') as nat
    else if 'a' <= c <= 'f' then (c - 'a') as nat + 10
    else 0
  }

  /** `n.toString(16)` of the source: base 16, lower case, no leading zeros. */
  function Hex(n: nat): (r: string)
    ensures |r| > 0
    decreases n
  {
    if n < 16 then [HexDigit(n)] else Hex(n / 16) + [HexDigit(n % 16)]
  }

  /** Reads a hexadecimal string back as a number. */
  function FromHex(s: string): nat
    decreases |s|
  {
    if |s| == 0 then 0 else FromHex(s[..|s| - 1]) * 16 + DigitValue(s[|s| - 1])
  }

  lemma {:induction false} HexRoundTrip(n: nat)
    ensures FromHex(Hex(n)) == n
    decreases n
  {
    var h := Hex(n);
    assert DigitValue(HexDigit(n % 16)) == n % 16;
    if n < 16 {
      assert h[..0] == [];
    } else {
      HexRoundTrip(n / 16);
      assert h[..|h| - 1] == Hex(n / 16);
    }
  }

  /** Blank-node ids minted from different counter values are different. */
  lemma {:induction false} FreshIdsDistinct(m: nat, n: nat)
    requires m != n
    ensures "b" + Hex(m) != "b" + Hex(n)
  {
    HexRoundTrip(m);
    HexRoundTrip(n);
    assert ("b" + Hex(m))[1..] == Hex(m);
    assert ("b" + Hex(n))[1..] == Hex(n);
  }

  /**
   * Builds a blank node from its text. `[]` mints a fresh id `b<hex>` from the
   * counter (whose start the source seeds from the clock), `_:id` names an id,
   * anything else is malformed. Returns the node and the next counter value.
   */
  function BlankFromText(text: string, counter: nat): (r: Result<(Term, nat), TermError>)
    ensures r.Success? <==> text == "[]" || (|text| >= 2 && text[..2] == "_:")
    ensures r.Success? ==> r.value.0.Blank?
    ensures text == "[]" ==> r == Success((Blank("b" + Hex(counter + 1)), counter + 1))
    ensures text != "[]" && r.Success? ==> r.value.1 == counter && "_:" + r.value.0.id == text
  {
    if text == "[]" then Success((Blank("b" + Hex(counter + 1)), counter + 1))
    else if |text| >= 2 && text[..2] == "_:" then Success((Blank(text[2..]), counter))
    else Failure(MalformedBlank(text))
  }

  /** The canonical text of a blank node reads back as the same node, without touching the counter. */
  lemma BlankRoundTrip(id: string, counter: nat)
    ensures BlankFromText(ToString(Blank(id)), counter) == Success((Blank(id), counter))
  {
    var s := ToString(Blank(id));
    assert s[0] == '_';
    assert s[..2] == "_:";
    assert s[2..] == id;
  }
}

/**
 * Finding.java: one extracted artifact, its deduplication key, and the Java
 * `equals`/`hashCode` pair defined through that key.
 */
module Findings {

  /** A Java `String` reference, which may be null. */
  datatype JString = Null | Str(value: string)

  /** How Java's `+` renders a string operand: a null reference becomes "null". */
  function Render(s: JString): string
  {
    if s.Null? then "null" else s.value
  }

  /** The originating `HttpRequestResponse`, with the `toString()` text of its request and response. */
  datatype Exchange = NoExchange | Exchange(request: JString, response: JString)

  /**
   * A finding. `exchange` is transient (not persisted); `requestString` and
   * `responseString` are the persisted text copies filled in by the constructor.
   */
  datatype Finding = Finding(
    ftype: string,
    finding: JString,
    ruleName: string,
    url: string,
    exchange: Exchange,
    requestString: JString,
    responseString: JString,
    start: int,
    end: int)

  /** The constructor `new Finding(type, finding, ruleName, url, requestResponse, start, end)`. */
  function NewFinding(ftype: string, finding: JString, ruleName: string, url: string,
                      exchange: Exchange, start: int, end: int): (f: Finding)
    ensures f.ftype == ftype && f.finding == finding && f.ruleName == ruleName && f.url == url
    ensures f.exchange == exchange && f.start == start && f.end == end
    ensures f.requestString.Str? <==> exchange.Exchange? && exchange.request.Str?
    ensures f.responseString.Str? <==> exchange.Exchange? && exchange.response.Str?
    ensures f.requestString.Str? ==> f.requestString == exchange.request
    ensures f.responseString.Str? ==> f.responseString == exchange.response
  {
    var req := if exchange.Exchange? then exchange.request else Null;
    var resp := if exchange.Exchange? then exchange.response else Null;
    Finding(ftype, finding, ruleName, url, exchange, req, resp, start, end)
  }

  /** `getUniqueKey()`: the plain concatenation url :: type :: finding. */
  function UniqueKey(f: Finding): string
  {
    f.url + "::" + f.ftype + "::" + Render(f.finding)
  }

  /** The key starts with the url and "::" and ends with the rendered text, with "::" and the type between. */
  lemma UniqueKeyLayout(f: Finding)
    ensures var k := UniqueKey(f);
            && |k| == |f.url| + 2 + |f.ftype| + 2 + |Render(f.finding)|
            && k[..|f.url|] == f.url && k[|f.url|..|f.url| + 2] == "::"
            && k[|f.url| + 2..|f.url| + 2 + |f.ftype|] == f.ftype
            && k[|f.url| + 2 + |f.ftype|..|f.url| + 4 + |f.ftype|] == "::"
            && k[|k| - |Render(f.finding)|..] == Render(f.finding)
  {
  }

  /** The argument of `equals(Object o)`: null, a Finding, or an object of another class. */
  datatype JavaObject = NullRef | FindingRef(f: Finding) | OtherClass

  /** `equals`: a non-null Finding with the same unique key. */
  predicate Equals(a: Finding, o: JavaObject)
  {
    o.FindingRef? && UniqueKey(a) == UniqueKey(o.f)
  }

  const TwoTo32: int := 0x1_0000_0000

  /** Java `int` arithmetic: reduce to the 32-bit two's-complement range. */
  function Int32(x: int): (r: int)
    ensures -0x8000_0000 <= r < 0x8000_0000
    ensures (x - r) % TwoTo32 == 0
  {
    (x + 0x8000_0000) % TwoTo32 - 0x8000_0000
  }

  /** `String.hashCode()`: h = 31 * h + c over the characters, with `int` wrap-around. */
  function StringHash(s: string): (h: int)
    ensures -0x8000_0000 <= h < 0x8000_0000
  {
    if s == [] then 0 else Int32(31 * StringHash(s[..|s| - 1]) + s[|s| - 1] as int)
  }

  /** `hashCode()`: `Objects.hash(getUniqueKey())`, that is 31 * 1 + the key's hash. */
  function HashCode(f: Finding): (h: int)
    ensures -0x8000_0000 <= h < 0x8000_0000
  {
    Int32(31 + StringHash(UniqueKey(f)))
  }

  /** Two findings that agree on url, type and text are equal, whatever else differs. */
  lemma SameIdentityEqual(a: Finding, b: Finding)
    requires a.url == b.url && a.ftype == b.ftype && a.finding == b.finding
    ensures Equals(a, FindingRef(b)) && Equals(b, FindingRef(a))
  {
  }

  /** `equals` never holds for null or for an object of another class. */
  lemma EqualsRejectsOthers(a: Finding)
    ensures !Equals(a, NullRef) && !Equals(a, OtherClass)
  {
  }

  /** `equals` is an equivalence relation on findings. */
  lemma EqualsIsEquivalence(a: Finding, b: Finding, c: Finding)
    ensures Equals(a, FindingRef(a))
    ensures Equals(a, FindingRef(b)) <==> Equals(b, FindingRef(a))
    ensures Equals(a, FindingRef(b)) && Equals(b, FindingRef(c)) ==> Equals(a, FindingRef(c))
  {
  }

  /** Equal findings have equal hash codes. */
  lemma EqualsAgreesWithHash(a: Finding, b: Finding)
    requires Equals(a, FindingRef(b))
    ensures HashCode(a) == HashCode(b)
  {
  }

  /**
   * The key is not injective: a "::" inside the url or the type shifts the
   * separators, so different (url, type, finding) tuples can share a key.
   */
  lemma KeyNotInjective(e: Exchange)
    ensures var a := NewFinding("b", Str("c"), "r", "u::a", e, 0, 1);
            var b := NewFinding("a::b", Str("c"), "r", "u", e, 0, 1);
            a.url != b.url && UniqueKey(a) == UniqueKey(b) && Equals(a, FindingRef(b))
  {
    var a := NewFinding("b", Str("c"), "r", "u::a", e, 0, 1);
    var b := NewFinding("a::b", Str("c"), "r", "u", e, 0, 1);
    assert UniqueKey(a) == "u::a::b::c" == UniqueKey(b);
  }

  /** A null finding text and the literal text "null" produce the same key. */
  lemma NullRendersAsLiteral(a: Finding)
    requires a.finding == Null
    ensures Equals(a, FindingRef(a.(finding := Str("null"))))
  {
  }

  /**
   * When neither the type nor the rendered text contains ':', the key
   * determines the url, the type and the rendered text.
   */
  lemma {:induction false} KeyInjectiveWithoutColons(a: Finding, b: Finding)
    requires ':' !in a.ftype && ':' !in b.ftype
    requires ':' !in Render(a.finding) && ':' !in Render(b.finding)
    requires UniqueKey(a) == UniqueKey(b)
    ensures a.url == b.url && a.ftype == b.ftype && Render(a.finding) == Render(b.finding)
  {
    var fa, fb := Render(a.finding), Render(b.finding);
    var ha, hb := a.url + "::" + a.ftype + ":", b.url + "::" + b.ftype + ":";
    assert UniqueKey(a) == ha + ":" + fa;
    assert UniqueKey(b) == hb + ":" + fb;
    SplitAtLastColon(ha, fa, hb, fb);
    assert ha == (a.url + ":") + ":" + a.ftype + ":";
    assert hb == (b.url + ":") + ":" + b.ftype + ":";
    assert (a.url + ":") + ":" + a.ftype == ha[..|ha| - 1] == hb[..|hb| - 1] == (b.url + ":") + ":" + b.ftype;
    SplitAtLastColon(a.url + ":", a.ftype, b.url + ":", b.ftype);
    assert a.url == (a.url + ":")[..|a.url|];
    assert b.url == (b.url + ":")[..|b.url|];
  }

  /** Splitting at the last ':' is unique when the tails are colon-free. */
  lemma SplitAtLastColon(p: string, s: string, q: string, t: string)
    requires ':' !in s && ':' !in t
    requires p + ":" + s == q + ":" + t
    ensures p == q && s == t
  {
    var k := p + ":" + s;
    LastColonAt(k, p, s);
    LastColonAt(k, q, t);
    assert |p| == |q|;
    assert s == k[|p| + 1..] == t;
    assert p == k[..|p|] == q;
  }

  /** In p + ":" + s with a colon-free s, the last ':' sits at index |p|. */
  lemma LastColonAt(k: string, p: string, s: string)
    requires ':' !in s && k == p + ":" + s
    ensures k[|p|] == ':'
    ensures forall i :: |p| < i < |k| ==> k[i] != ':'
  {
    forall i | |p| < i < |k|
      ensures k[i] != ':'
    {
      assert k[i] == s[i - |p| - 1];
    }
  }
}

/**
 * JsMinerExtension.java: the HTTP handler. Requests pass through untouched;
 * each response is admitted or skipped, and an admitted body is scanned with
 * every active rule, every match of a rule becoming one `addFinding` call.
 *
 * Java's regex engine is not modelled: `RegexEngine` stands for
 * `Pattern.compile(regex)` followed by the `matcher.find()` loop on a body,
 * reporting either a compile failure or the matches in the order `find()`
 * returns them.
 */
module Extension {
  import opened Findings
  import opened Persistence
  import opened Rules
  import opened Results
  import opened Config
  import opened Seqs

  /** The initiating request: its URL and its `toString()` text. */
  datatype HttpRequest = HttpRequest(url: string, text: string)

  /** A received response: its request, status code, inferred MIME type name, body and `toString()` text. */
  datatype HttpResponse = HttpResponse(request: HttpRequest, statusCode: int, mimeName: string, body: string, text: string)

  /** `RequestToBeSentAction.continueWith(request)`. */
  datatype RequestAction = ContinueWithRequest(request: HttpRequest)

  /** `ResponseReceivedAction.continueWith(response)`. */
  datatype ResponseAction = ContinueWithResponse(response: HttpResponse)

  /** One successful `matcher.find()`: offsets, `groupCount()`, `group(1)` (null if it did not take part) and `group(0)`. */
  datatype Match = Match(start: int, end: int, groupCount: nat, group1: JString, whole: string)

  /** `Pattern.compile` throws, or the pattern compiles and `find()` yields these matches. */
  datatype Compiled = CompileError | Matches(found: seq<Match>)

  /** The regex engine: (pattern, body) to compile failure or match sequence. */
  type RegexEngine = (string, string) -> Compiled

  /** `s.startsWith(p)`. */
  predicate StartsWith(s: string, p: string)
  {
    |p| <= |s| && s[..|p|] == p
  }

  /** `s.contains(t)`: try every start position from the left. */
  predicate Contains(s: string, t: string)
    decreases |s|
  {
    StartsWith(s, t) || (|t| < |s| && Contains(s[1..], t))
  }

  /** `s.endsWith(t)`. */
  predicate EndsWith(s: string, t: string)
  {
    |t| <= |s| && s[|s| - |t|..] == t
  }

  /** t occurs in s at index i. */
  ghost predicate OccursAt(t: string, s: string, i: int)
  {
    0 <= i <= |s| - |t| && s[i..i + |t|] == t
  }

  /** t occurs in s at some index. */
  ghost predicate Occurs(t: string, s: string)
  {
    exists i :: OccursAt(t, s, i)
  }

  /** The left-to-right search finds t exactly when t occurs somewhere in s. */
  lemma {:induction false} ContainsIff(s: string, t: string)
    ensures Contains(s, t) <==> Occurs(t, s)
    decreases |s|
  {
    if StartsWith(s, t) {
      assert OccursAt(t, s, 0);
    } else if |t| < |s| {
      ContainsIff(s[1..], t);
      if Occurs(t, s[1..]) {
        var i :| OccursAt(t, s[1..], i);
        assert s[1..][i..i + |t|] == s[i + 1..i + 1 + |t|];
        assert OccursAt(t, s, i + 1);
      }
      if Occurs(t, s) {
        var i :| OccursAt(t, s, i);
        assert i != 0;
        assert s[1..][i - 1..i - 1 + |t|] == s[i..i + |t|];
        assert OccursAt(t, s[1..], i - 1);
      }
    } else {
      forall i | 0 <= i <= |s| - |t|
        ensures !OccursAt(t, s, i)
      {
        assert s[i..i + |t|] == s[..|t|];
      }
    }
  }

  /**
   * `s.length()`: the number of UTF-16 code units, so a character outside the
   * Basic Multilingual Plane counts twice.
   */
  function JavaLength(s: string): (n: nat)
    ensures |s| <= n <= 2 * |s|
  {
    if s == [] then 0
    else JavaLength(s[..|s| - 1]) + (if s[|s| - 1] as int > 0xFFFF then 2 else 1)
  }

  /** On text made only of Basic Multilingual Plane characters, `length()` is the character count. */
  lemma {:induction false} JavaLengthOfBmp(s: string)
    requires forall i :: 0 <= i < |s| ==> s[i] as int <= 0xFFFF
    ensures JavaLength(s) == |s|
  {
    if s != [] {
      JavaLengthOfBmp(s[..|s| - 1]);
    }
  }

  /** A slash and one emoji measure 3 in Java, so a PATH rule keeps such a text. */
  lemma SupplementaryCountsTwice()
    ensures |"/\U{1F600}"| == 2 && JavaLength("/\U{1F600}") == 3
  {
    assert "/\U{1F600}"[..1] == "/";
  }

  /** Which admission check a response stops at, if any. */
  datatype Admission = SkipNotModified | SkipStaticAsset | SkipEmptyBody | Scan

  /** The MIME name or the URL marks an image, a stylesheet or a font (case-sensitive tests). */
  predicate StaticAsset(mimeName: string, url: string)
  {
    Contains(mimeName, "IMAGE") || Contains(mimeName, "CSS") || Contains(mimeName, "FONT")
    || EndsWith(url, ".css") || EndsWith(url, ".woff")
  }

  /** The admission checks of `handleHttpResponseReceived`, in source order. */
  function Admit(r: HttpResponse): (a: Admission)
    ensures a == SkipNotModified <==> r.statusCode == 304
    ensures a == SkipStaticAsset <==>
              r.statusCode != 304
              && (Occurs("IMAGE", r.mimeName) || Occurs("CSS", r.mimeName) || Occurs("FONT", r.mimeName)
                  || EndsWith(r.request.url, ".css") || EndsWith(r.request.url, ".woff"))
    ensures a == SkipEmptyBody <==>
              r.statusCode != 304 && !StaticAsset(r.mimeName, r.request.url) && r.body == []
    ensures a == Scan <==>
              r.statusCode != 304 && !StaticAsset(r.mimeName, r.request.url) && r.body != []
  {
    ContainsIff(r.mimeName, "IMAGE");
    ContainsIff(r.mimeName, "CSS");
    ContainsIff(r.mimeName, "FONT");
    if r.statusCode == 304 then SkipNotModified
    else if StaticAsset(r.mimeName, r.request.url) then SkipStaticAsset
    else if r.body == [] then SkipEmptyBody
    else Scan
  }

  /** An upper-case letter of the text occurs in s only if s has an upper-case letter. */
  lemma NoUpperCaseNoOccurrence(s: string, t: string)
    requires t != [] && 'A' <= t[0] <= 'Z'
    requires forall i :: 0 <= i < |s| ==> !('A' <= s[i] <= 'Z')
    ensures !Contains(s, t)
  {
    ContainsIff(s, t);
    forall i | 0 <= i <= |s| - |t|
      ensures !OccursAt(t, s, i)
    {
      assert s[i..i + |t|][0] == s[i];
    }
  }

  /**
   * The MIME tests are case-sensitive: a MIME type name without upper-case
   * letters never marks a static asset, so only the URL suffixes can.
   */
  lemma {:induction false} LowerCaseMimeNeverSkips(mimeName: string, url: string)
    requires forall i :: 0 <= i < |mimeName| ==> !('A' <= mimeName[i] <= 'Z')
    ensures StaticAsset(mimeName, url) <==> EndsWith(url, ".css") || EndsWith(url, ".woff")
  {
    NoUpperCaseNoOccurrence(mimeName, "IMAGE");
    NoUpperCaseNoOccurrence(mimeName, "CSS");
    NoUpperCaseNoOccurrence(mimeName, "FONT");
  }

  const PathType: string := "PATH"

  /** Line 92: group 1 when the pattern has groups (possibly null), else the whole match. */
  function FindingText(m: Match): JString
  {
    if m.groupCount > 0 then m.group1 else Str(m.whole)
  }

  /** The finding that `addFinding` builds for one match of one rule. */
  function MatchFinding(rule: RuleValue, url: string, exchange: Exchange, m: Match): Finding
  {
    NewFinding(rule.ruleType, FindingText(m), rule.name, url, exchange, m.start, m.end)
  }

  /** A null text on a PATH rule makes `finding.length()` throw, which ends the rule's loop. */
  predicate EndsRule(rule: RuleValue, m: Match)
  {
    rule.ruleType == PathType && FindingText(m).Null?
  }

  /** The `addFinding` call of one match that does not end the loop: none for a PATH text shorter than 3. */
  function MatchStep(rule: RuleValue, url: string, exchange: Exchange, m: Match): seq<Finding>
    requires !EndsRule(rule, m)
  {
    if rule.ruleType == PathType && JavaLength(FindingText(m).value) < 3 then [] else [MatchFinding(rule, url, exchange, m)]
  }

  /** The `addFinding` calls of one rule's `while (matcher.find())` loop. */
  function MatchFindings(rule: RuleValue, url: string, exchange: Exchange, ms: seq<Match>): seq<Finding>
  {
    if ms == [] || EndsRule(rule, ms[0]) then []
    else MatchStep(rule, url, exchange, ms[0]) + MatchFindings(rule, url, exchange, ms[1..])
  }

  /** The `addFinding` calls of one rule: none when inactive or when the pattern does not compile. */
  function RuleFindings(rule: RuleValue, url: string, exchange: Exchange, body: string, engine: RegexEngine): seq<Finding>
  {
    if !rule.active then []
    else match engine(rule.regex, body)
      case CompileError => []
      case Matches(ms) => MatchFindings(rule, url, exchange, ms)
  }

  /** The `addFinding` calls of the rule loop: rule by rule in list order. */
  function ScanFindings(rules: seq<RuleValue>, url: string, exchange: Exchange, body: string, engine: RegexEngine): seq<Finding>
  {
    if rules == [] then []
    else ScanFindings(rules[..|rules| - 1], url, exchange, body, engine)
         + RuleFindings(rules[|rules| - 1], url, exchange, body, engine)
  }

  /** The exchange attached to every finding of a response. */
  function ExchangeOf(r: HttpResponse): Exchange
  {
    Exchange(Str(r.request.text), Str(r.text))
  }

  /** All `addFinding` calls one response causes. */
  function ResponseFindings(r: HttpResponse, rules: seq<RuleValue>, engine: RegexEngine): seq<Finding>
  {
    if Admit(r) == Scan then ScanFindings(rules, r.request.url, ExchangeOf(r), r.body, engine) else []
  }

  /**
   * Every finding of a rule's matches carries the rule's type and name, the
   * url and the exchange, the offsets and text of one of the matches, and on a
   * PATH rule a non-null text of at least 3 characters.
   */
  lemma {:induction false} MatchFindingsShape(rule: RuleValue, url: string, exchange: Exchange, ms: seq<Match>)
    ensures |MatchFindings(rule, url, exchange, ms)| <= |ms|
    ensures forall f :: f in MatchFindings(rule, url, exchange, ms) ==>
              && f.ftype == rule.ruleType && f.ruleName == rule.name && f.url == url && f.exchange == exchange
              && (exists m :: m in ms && f.start == m.start && f.end == m.end && f.finding == FindingText(m))
              && (rule.ruleType == PathType ==> f.finding.Str? && JavaLength(f.finding.value) >= 3)
  {
    if ms != [] {
      MatchFindingsShape(rule, url, exchange, ms[1..]);
      assert forall m :: m in ms[1..] ==> m in ms;
    }
  }

  /** The findings of a run of matches that does not end the rule are followed by those of the rest. */
  lemma {:induction false} MatchFindingsAppend(rule: RuleValue, url: string, exchange: Exchange, a: seq<Match>, b: seq<Match>)
    requires forall m :: m in a ==> !EndsRule(rule, m)
    ensures MatchFindings(rule, url, exchange, a + b)
            == MatchFindings(rule, url, exchange, a) + MatchFindings(rule, url, exchange, b)
  {
    if a == [] {
      assert a + b == b;
    } else {
      assert (a + b)[0] == a[0] && (a + b)[1..] == a[1..] + b;
      MatchFindingsAppend(rule, url, exchange, a[1..], b);
      ConcatAssoc(MatchStep(rule, url, exchange, a[0]), MatchFindings(rule, url, exchange, a[1..]),
                  MatchFindings(rule, url, exchange, b));
    }
  }

  /** One match that does not end the rule yields exactly its own step. */
  lemma MatchFindingsSingle(rule: RuleValue, url: string, exchange: Exchange, m: Match)
    requires !EndsRule(rule, m)
    ensures MatchFindings(rule, url, exchange, [m]) == MatchStep(rule, url, exchange, m)
  {
    assert [m][1..] == [];
  }

  /** The matches a PATH rule keeps: those whose text is at least 3 UTF-16 units long, in order. */
  function LongTextMatches(ms: seq<Match>): (ks: seq<Match>)
    requires forall m :: m in ms ==> FindingText(m).Str?
    ensures forall m :: m in ks ==> m in ms && JavaLength(FindingText(m).value) >= 3
  {
    if ms == [] then []
    else if JavaLength(FindingText(ms[0]).value) >= 3 then [ms[0]] + LongTextMatches(ms[1..])
    else LongTextMatches(ms[1..])
  }

  /** One finding per match, in order. */
  function FindingsOf(rule: RuleValue, url: string, exchange: Exchange, ms: seq<Match>): (fs: seq<Finding>)
    ensures |fs| == |ms|
  {
    seq(|ms|, i requires 0 <= i < |ms| => MatchFinding(rule, url, exchange, ms[i]))
  }

  /**
   * A PATH rule over matches that all have a text reports exactly the matches
   * of at least 3 UTF-16 units, once each, in match order.
   */
  lemma {:induction false} PathKeepsLongTextsInOrder(rule: RuleValue, url: string, exchange: Exchange, ms: seq<Match>)
    requires rule.ruleType == PathType
    requires forall m :: m in ms ==> FindingText(m).Str?
    ensures MatchFindings(rule, url, exchange, ms) == FindingsOf(rule, url, exchange, LongTextMatches(ms))
  {
    if ms != [] {
      var m, tail := ms[0], ms[1..];
      assert forall x :: x in tail ==> x in ms;
      PathKeepsLongTextsInOrder(rule, url, exchange, tail);
      var rest := LongTextMatches(tail);
      assert !EndsRule(rule, m);
      assert MatchFindings(rule, url, exchange, ms)
             == MatchStep(rule, url, exchange, m) + MatchFindings(rule, url, exchange, tail);
      if JavaLength(FindingText(m).value) >= 3 {
        assert MatchStep(rule, url, exchange, m) == [MatchFinding(rule, url, exchange, m)];
        assert LongTextMatches(ms) == [m] + rest;
        FindingsOfCons(rule, url, exchange, m, rest);
      } else {
        assert MatchStep(rule, url, exchange, m) == [];
        assert LongTextMatches(ms) == rest;
      }
    }
  }

  /** The findings of a match followed by more matches. */
  lemma FindingsOfCons(rule: RuleValue, url: string, exchange: Exchange, m: Match, rest: seq<Match>)
    ensures FindingsOf(rule, url, exchange, [m] + rest)
            == [MatchFinding(rule, url, exchange, m)] + FindingsOf(rule, url, exchange, rest)
  {
  }

  /** A rule of any other type than PATH yields exactly one finding per match, in match order. */
  lemma {:induction false} OtherTypesKeepEveryMatch(rule: RuleValue, url: string, exchange: Exchange, ms: seq<Match>)
    requires rule.ruleType != PathType
    ensures |MatchFindings(rule, url, exchange, ms)| == |ms|
    ensures forall k :: 0 <= k < |ms| ==>
              MatchFindings(rule, url, exchange, ms)[k] == MatchFinding(rule, url, exchange, ms[k])
  {
    if ms != [] {
      OtherTypesKeepEveryMatch(rule, url, exchange, ms[1..]);
    }
  }

  /** On a PATH rule, a match whose text is null discards it and every later match. */
  lemma {:induction false} PathNullEndsRule(rule: RuleValue, url: string, exchange: Exchange, ms: seq<Match>, k: nat)
    requires rule.ruleType == PathType && k < |ms| && FindingText(ms[k]).Null?
    ensures MatchFindings(rule, url, exchange, ms) == MatchFindings(rule, url, exchange, ms[..k])
  {
    if k > 0 {
      var text := FindingText(ms[0]);
      if !text.Null? {
        assert ms[..k][1..] == ms[1..][..k - 1];
        PathNullEndsRule(rule, url, exchange, ms[1..], k - 1);
      }
    }
  }

  /**
   * On a PATH rule, a match with a text of at least 3 characters yields its
   * finding, provided no earlier match had a null text.
   */
  lemma {:induction false} PathKeepsLongTexts(rule: RuleValue, url: string, exchange: Exchange, ms: seq<Match>, k: nat)
    requires rule.ruleType == PathType && k < |ms|
    requires forall j :: 0 <= j < k ==> FindingText(ms[j]).Str?
    requires FindingText(ms[k]).Str? && JavaLength(FindingText(ms[k]).value) >= 3
    ensures MatchFinding(rule, url, exchange, ms[k]) in MatchFindings(rule, url, exchange, ms)
  {
    if k > 0 {
      PathKeepsLongTexts(rule, url, exchange, ms[1..], k - 1);
    }
  }

  /** The findings of consecutive rule lists are concatenated. */
  lemma {:induction false} ScanAppend(a: seq<RuleValue>, b: seq<RuleValue>, url: string, exchange: Exchange, body: string, engine: RegexEngine)
    ensures ScanFindings(a + b, url, exchange, body, engine)
            == ScanFindings(a, url, exchange, body, engine) + ScanFindings(b, url, exchange, body, engine)
  {
    if b == [] {
      assert a + b == a;
    } else {
      var b' := b[..|b| - 1];
      assert (a + b)[..|a + b| - 1] == a + b';
      assert (a + b)[|a + b| - 1] == b[|b| - 1];
      ScanAppend(a, b', url, exchange, body, engine);
      ConcatAssoc(ScanFindings(a, url, exchange, body, engine), ScanFindings(b', url, exchange, body, engine),
                  RuleFindings(b[|b| - 1], url, exchange, body, engine));
    }
  }

  /**
   * Rule isolation: whatever one rule does (inactive, failing to compile,
   * throwing on a null group), the rules before and after it contribute
   * exactly their own findings.
   */
  lemma RuleIsolation(a: seq<RuleValue>, r: RuleValue, b: seq<RuleValue>, url: string, exchange: Exchange, body: string, engine: RegexEngine)
    ensures ScanFindings(a + [r] + b, url, exchange, body, engine)
            == ScanFindings(a, url, exchange, body, engine)
               + RuleFindings(r, url, exchange, body, engine)
               + ScanFindings(b, url, exchange, body, engine)
  {
    ScanAppend(a + [r], b, url, exchange, body, engine);
    ScanAppend(a, [r], url, exchange, body, engine);
    assert ScanFindings([r], url, exchange, body, engine) == RuleFindings(r, url, exchange, body, engine) by {
      assert [r][..0] == [];
    }
  }

  /** An inactive rule or one that does not compile can be dropped from the list without changing the scan. */
  lemma SilentRuleDropped(a: seq<RuleValue>, r: RuleValue, b: seq<RuleValue>, url: string, exchange: Exchange, body: string, engine: RegexEngine)
    requires !r.active || engine(r.regex, body).CompileError?
    ensures ScanFindings(a + [r] + b, url, exchange, body, engine) == ScanFindings(a + b, url, exchange, body, engine)
  {
    RuleIsolation(a, r, b, url, exchange, body, engine);
    ScanAppend(a, b, url, exchange, body, engine);
  }

  /** Every finding of a scan comes from an active rule of the list and carries its type and name and the url. */
  lemma {:induction false} ScanFindingsFromActiveRules(rules: seq<RuleValue>, url: string, exchange: Exchange, body: string, engine: RegexEngine)
    ensures forall f :: f in ScanFindings(rules, url, exchange, body, engine) ==>
              exists i :: 0 <= i < |rules| && rules[i].active
                          && f.ftype == rules[i].ruleType && f.ruleName == rules[i].name && f.url == url
  {
    if rules != [] {
      var init, last := rules[..|rules| - 1], rules[|rules| - 1];
      ScanFindingsFromActiveRules(init, url, exchange, body, engine);
      if last.active && engine(last.regex, body).Matches? {
        MatchFindingsShape(last, url, exchange, engine(last.regex, body).found);
      }
      forall f | f in ScanFindings(rules, url, exchange, body, engine)
        ensures exists i :: 0 <= i < |rules| && rules[i].active
                            && f.ftype == rules[i].ruleType && f.ruleName == rules[i].name && f.url == url
      {
        if f in ScanFindings(init, url, exchange, body, engine) {
          var i :| 0 <= i < |init| && init[i].active
                   && f.ftype == init[i].ruleType && f.ruleName == init[i].name && f.url == url;
          assert rules[i] == init[i];
        } else {
          assert rules[|rules| - 1] == last;
        }
      }
    }
  }

  /** The rules up to and including rule i contribute those before it, then rule i. */
  lemma ScanFindingsSnoc(rules: seq<RuleValue>, i: nat, url: string, exchange: Exchange, body: string, engine: RegexEngine)
    requires i < |rules|
    ensures ScanFindings(rules[..i + 1], url, exchange, body, engine)
            == ScanFindings(rules[..i], url, exchange, body, engine) + RuleFindings(rules[i], url, exchange, body, engine)
  {
    assert rules[..i + 1][..i] == rules[..i];
  }

  /** `handleHttpRequestToBeSent`: the request continues unchanged. */
  function HandleHttpRequestToBeSent(request: HttpRequest): (a: RequestAction)
    ensures a.request == request
  {
    ContinueWithRequest(request)
  }

  /** The extension: its two tabs and the regex engine it scans with. */
  class JsMiner {
    const config: ConfigTab
    const results: ResultsTab
    const engine: RegexEngine

    constructor (config: ConfigTab, results: ResultsTab, engine: RegexEngine)
      ensures this.config == config && this.results == results && this.engine == engine
    {
      this.config, this.results, this.engine := config, results, engine;
    }

    /**
     * `handleHttpResponseReceived`: the store receives, in order, one
     * `addFinding` per surviving match of each active rule, or nothing when
     * the response is not admitted; the response always continues unchanged.
     */
    method HandleHttpResponseReceived(response: HttpResponse) returns (action: ResponseAction)
      requires results.Valid()
      modifies results
      ensures results.Valid()
      ensures action == ContinueWithResponse(response)
      ensures results.findings
              == InsertAll(old(results.findings), ResponseFindings(response, old(Values(config.rules)), engine))
      ensures Saved(old(results.findings), old(results.store), results.findings, results.store, results.encode)
    {
      action := ContinueWithResponse(response);
      var url := response.request.url;
      if Admit(response) != Scan {
        return;
      }
      ScanBody(url, ExchangeOf(response), response.body);
    }

    /** Since the list was `f0` and the store `s0`, exactly the findings `xs` have gone through `addFinding`. */
    ghost predicate Reported(f0: seq<Finding>, s0: Store, xs: seq<Finding>)
      reads results
    {
      results.Valid() && results.findings == InsertAll(f0, xs)
      && Saved(f0, s0, results.findings, results.store, results.encode)
    }

    /** The rule loop of an admitted response: each rule of the current list in order, each in its own `try`. */
    method ScanBody(url: string, exchange: Exchange, body: string)
      requires results.Valid()
      modifies results
      ensures Reported(old(results.findings), old(results.store), ScanFindings(old(Values(config.rules)), url, exchange, body, engine))
    {
      // Nothing in the loop writes a rule, so reading every rule's fields up front reads what each iteration reads.
      var rules := Values(config.GetRules());
      ghost var f0, s0 := results.findings, results.store;
      ghost var emitted: seq<Finding> := [];
      assert Reported(f0, s0, emitted);
      for i := 0 to |rules|
        invariant emitted == ScanFindings(rules[..i], url, exchange, body, engine)
        invariant Reported(f0, s0, emitted)
      {
        ScanRule(rules[i], url, exchange, body, f0, s0, emitted);
        ScanFindingsSnoc(rules, i, url, exchange, body, engine);
        emitted := emitted + RuleFindings(rules[i], url, exchange, body, engine);
      }
      assert rules[..|rules|] == rules;
    }

    /**
     * One iteration of the rule loop, with the per-rule `try`/`catch`: skip an
     * inactive rule, compile the pattern, and run the `find()` loop. Having
     * reported `xs` before, it has reported `xs` and the rule's findings after.
     */
    method ScanRule(rule: RuleValue, url: string, exchange: Exchange, body: string,
                    ghost f0: seq<Finding>, ghost s0: Store, ghost xs: seq<Finding>)
      requires Reported(f0, s0, xs)
      modifies results
      ensures Reported(f0, s0, xs + RuleFindings(rule, url, exchange, body, engine))
    {
      if !rule.active {
        assert xs + [] == xs;
        return;
      }
      var compiled := engine(rule.regex, body);
      if compiled.CompileError? {
        assert xs + [] == xs;
        return;  // PatternSyntaxException, caught per rule
      }
      ScanMatches(rule, url, exchange, compiled.found, f0, s0, xs);
    }

    /**
     * The `while (matcher.find())` loop of one rule; `matcher` holds the
     * matches `find()` has yet to return.
     */
    method ScanMatches(rule: RuleValue, url: string, exchange: Exchange, found: seq<Match>,
                       ghost f0: seq<Finding>, ghost s0: Store, ghost xs: seq<Finding>)
      requires Reported(f0, s0, xs)
      modifies results
      ensures Reported(f0, s0, xs + MatchFindings(rule, url, exchange, found))
    {
      ghost var emitted := xs;
      var matcher := found;
      while matcher != []
        invariant xs + MatchFindings(rule, url, exchange, found) == emitted + MatchFindings(rule, url, exchange, matcher)
        invariant Reported(f0, s0, emitted)
      {
        var m := matcher[0];
        if rule.ruleType == PathType && FindingText(m).Null? {
          break;  // finding.length() throws NullPointerException, caught per rule
        }
        ReportMatch(rule, url, exchange, m, f0, s0, emitted);
        ConcatAssoc(emitted, MatchStep(rule, url, exchange, m), MatchFindings(rule, url, exchange, matcher[1..]));
        emitted := emitted + MatchStep(rule, url, exchange, m);
        matcher := matcher[1..];
      }
      assert MatchFindings(rule, url, exchange, matcher) == [];
      assert emitted == xs + MatchFindings(rule, url, exchange, found);
    }

    /**
     * The body of the `find()` loop for a match that does not end it: skip a
     * PATH text shorter than 3, otherwise call `addFinding` with the match.
     */
    method ReportMatch(rule: RuleValue, url: string, exchange: Exchange, m: Match,
                       ghost f0: seq<Finding>, ghost s0: Store, ghost xs: seq<Finding>)
      requires !EndsRule(rule, m) && Reported(f0, s0, xs)
      modifies results
      ensures Reported(f0, s0, xs + MatchStep(rule, url, exchange, m))
    {
      InsertAllAppend(f0, xs, MatchStep(rule, url, exchange, m));
      ghost var f1, s1 := results.findings, results.store;
      var text := FindingText(m);
      if rule.ruleType == PathType && JavaLength(text.value) < 3 {
        assert xs + [] == xs;
        return;
      }
      var f := MatchFinding(rule, url, exchange, m);
      assert [f][..0] == [];
      var _ := results.AddFinding(rule.ruleType, text, rule.name, url, exchange, m.start, m.end);
      SavedTrans(f0, s0, f1, s1, results.findings, results.store, results.encode);
    }
  }
}

/**
 * ConfigTab.java: the rule list, the editable rule table that mirrors it
 * (columns Active, Name, Regex, Type), the built-in default rules, and the
 * persisted copy of the rules in the user's preferences.
 */
module Config {
  import opened Wrappers
  import opened Persistence
  import opened Rules

  /** A row of the rule table: (Active, Name, Regex, Type). */
  type RuleRow = (bool, string, string, string)

  /** The row `refreshTable` writes for a rule. */
  function RowOf(v: RuleValue): RuleRow
  {
    (v.active, v.name, v.regex, v.ruleType)
  }

  /** The rule `saveRulesFromTable` builds from a row, reading columns 0 to 3. */
  function RuleOf(row: RuleRow): RuleValue
  {
    RuleValue(row.0, row.1, row.2, row.3)
  }

  /** The table for a rule list: one row per rule, in order. */
  function TableOf(vs: seq<RuleValue>): (rows: seq<RuleRow>)
    ensures |rows| == |vs|
  {
    if vs == [] then [] else TableOf(vs[..|vs| - 1]) + [RowOf(vs[|vs| - 1])]
  }

  /** The rule list read back from a table: one rule per row, in row order. */
  function RulesOfTable(rows: seq<RuleRow>): (vs: seq<RuleValue>)
    ensures |vs| == |rows|
  {
    if rows == [] then [] else RulesOfTable(rows[..|rows| - 1]) + [RuleOf(rows[|rows| - 1])]
  }

  /** Row i of the table is written from rule i. */
  lemma {:induction false} TableOfAt(vs: seq<RuleValue>, i: nat)
    requires i < |vs|
    ensures TableOf(vs)[i] == RowOf(vs[i])
  {
    if i < |vs| - 1 {
      TableOfAt(vs[..|vs| - 1], i);
    }
  }

  /** A table whose row k is written from rule k is the table of those rules. */
  lemma {:induction false} TableOfIntro(vs: seq<RuleValue>, rows: seq<RuleRow>)
    requires |rows| == |vs|
    requires forall k :: 0 <= k < |vs| ==> rows[k] == RowOf(vs[k])
    ensures rows == TableOf(vs)
  {
    if vs != [] {
      TableOfIntro(vs[..|vs| - 1], rows[..|rows| - 1]);
      assert rows == rows[..|rows| - 1] + [rows[|rows| - 1]];
    }
  }

  /** Rules of which rule k is built from row k are the rules of that table. */
  lemma {:induction false} RulesOfTableIntro(rows: seq<RuleRow>, vs: seq<RuleValue>)
    requires |rows| == |vs|
    requires forall k :: 0 <= k < |rows| ==> vs[k] == RuleOf(rows[k])
    ensures vs == RulesOfTable(rows)
  {
    if rows != [] {
      RulesOfTableIntro(rows[..|rows| - 1], vs[..|vs| - 1]);
      assert vs == vs[..|vs| - 1] + [vs[|vs| - 1]];
    }
  }

  /** Writing the rules to the table and reading them back gives the same rules, field by field. */
  lemma {:induction false} TableRoundTrip(vs: seq<RuleValue>)
    ensures RulesOfTable(TableOf(vs)) == vs
  {
    if vs != [] {
      var init := vs[..|vs| - 1];
      TableRoundTrip(init);
      assert TableOf(vs)[..|vs| - 1] == TableOf(init);
    }
  }

  /** Reading the table into rules and writing them back gives the same table. */
  lemma {:induction false} RulesRoundTrip(rows: seq<RuleRow>)
    ensures TableOf(RulesOfTable(rows)) == rows
  {
    if rows != [] {
      var init := rows[..|rows| - 1];
      RulesRoundTrip(init);
      assert RulesOfTable(rows)[..|rows| - 1] == RulesOfTable(init);
    }
  }

  /** The row the "Add Rule" button appends. */
  const NewRuleRow: RuleRow := (true, "New Rule", "", "PATH")

  const RelativePathsRegex: string :=
    "(?:\"|'|`)([^\"'`\\s]{0,100}(?:\\/|http)[^\"'`\\s]{2,100})(?:\"|'|`)"

  const GenericSecretsRegex: string :=
    "(?i)((?:api_?key|access_?token|secret|password|auth|bearer)[a-z0-9_\\.\\-]*)\\s*[:=]\\s*[\"']?([a-z0-9\\-_\\.]{16,})[\"']?"

  /** The built-in rules of `createDefaultRules`, in order. */
  function DefaultRules(): (vs: seq<RuleValue>)
    ensures |vs| == 2
    ensures forall i :: 0 <= i < |vs| ==> vs[i].active
    ensures vs[0].name == "Relative Paths" && vs[0].ruleType == "PATH"
    ensures vs[1].name == "Generic Secrets" && vs[1].ruleType == "SECRET"
  {
    [ RuleValue(true, "Relative Paths", RelativePathsRegex, "PATH"),
      RuleValue(true, "Generic Secrets", GenericSecretsRegex, "SECRET") ]
  }

  /**
   * The rules `loadRules` ends up with: the defaults when nothing (or the empty
   * string) is stored, the decoded list otherwise. JSON `null` leaves the rule
   * list null and `refreshTable` then throws; malformed JSON throws in Gson.
   */
  function LoadedRules(prefs: Store, decode: string -> Decoded<seq<RuleValue>>): (r: Result<seq<RuleValue>, LoadFailure>)
    ensures Blank(prefs, RulesKey) ==> r == Ok(DefaultRules())
    ensures !Blank(prefs, RulesKey) && decode(prefs[RulesKey]).Parsed? ==> r == Ok(decode(prefs[RulesKey]).value)
    ensures r.Err? <==> !Blank(prefs, RulesKey) && !decode(prefs[RulesKey]).Parsed?
  {
    if Blank(prefs, RulesKey) then Ok(DefaultRules())
    else match decode(prefs[RulesKey])
      case Parsed(vs) => Ok(vs)
      case JsonNull => Err(NullList)
      case Malformed => Err(SyntaxError)
  }

  /** The configuration tab's state. */
  class ConfigTab {
    var rules: seq<RegexRule>
    var table: seq<RuleRow>
    var prefs: Store
    const encode: seq<RuleValue> -> string
    const decode: string -> Decoded<seq<RuleValue>>

    /**
     * The constructor, which ends by loading the rules. When the stored rules
     * cannot be loaded the exception escapes and no tab is built.
     */
    constructor (prefs: Store, encode: seq<RuleValue> -> string, decode: string -> Decoded<seq<RuleValue>>)
      requires LoadedRules(prefs, decode).Ok?
      ensures this.prefs == prefs && this.encode == encode && this.decode == decode
      ensures Values(rules) == LoadedRules(prefs, decode).value
      ensures table == TableOf(Values(rules))
      ensures forall r :: r in rules ==> fresh(r)
    {
      rules, table := [], [];
      this.prefs := prefs;
      this.encode, this.decode := encode, decode;
      new;
      var ok := LoadRules();
      assert ok;
    }

    /**
     * `loadRules`: defaults or the stored list, then `refreshTable`. `ok` is
     * false when it throws: Gson throws on malformed JSON before anything
     * changes; on JSON `null`, `refreshTable` empties the table and then throws
     * on the null list.
     */
    method LoadRules() returns (ok: bool)
      modifies this`rules, this`table
      ensures ok == LoadedRules(prefs, decode).Ok?
      ensures ok ==> Values(rules) == LoadedRules(prefs, decode).value
                     && table == TableOf(Values(rules))
                     && forall r :: r in rules ==> fresh(r)
      ensures !ok ==> rules == old(rules)
      ensures !ok && RulesKey in prefs && decode(prefs[RulesKey]).Malformed? ==> table == old(table)
      ensures !ok && RulesKey in prefs && decode(prefs[RulesKey]).JsonNull? ==> table == []
    {
      if Blank(prefs, RulesKey) {
        CreateDefaultRules();
        RefreshTable();
        return true;
      }
      ok := LoadStoredRules();
    }

    /**
     * The branch of `loadRules` for a non-empty stored string: decode it, then
     * `refreshTable`. Malformed JSON throws in Gson before anything changes;
     * JSON `null` becomes the rule list, and `refreshTable` empties the table
     * before its for-each throws on it.
     */
    method LoadStoredRules() returns (ok: bool)
      requires !Blank(prefs, RulesKey)
      modifies this`rules, this`table
      ensures ok == decode(prefs[RulesKey]).Parsed?
      ensures ok ==> Values(rules) == decode(prefs[RulesKey]).value
                     && table == TableOf(Values(rules))
                     && forall r :: r in rules ==> fresh(r)
      ensures !ok ==> rules == old(rules)
      ensures decode(prefs[RulesKey]).Malformed? ==> table == old(table)
      ensures decode(prefs[RulesKey]).JsonNull? ==> table == []
    {
      var decoded := decode(prefs[RulesKey]);
      if decoded.Malformed? {
        return false;
      }
      if decoded.JsonNull? {
        table := [];  // setRowCount(0), then the for-each over the null list throws
        return false;
      }
      rules := NewRules(decoded.value);
      RefreshTable();
      return true;
    }

    /** Fresh rule objects holding the given values, in order (what Gson builds when it decodes). */
    static method NewRules(vs: seq<RuleValue>) returns (rs: seq<RegexRule>)
      ensures Values(rs) == vs
      ensures forall r :: r in rs ==> fresh(r)
    {
      rs := [];
      for i := 0 to |vs|
        invariant Values(rs) == vs[..i]
        invariant forall r :: r in rs ==> fresh(r)
      {
        var r := new RegexRule(vs[i].active, vs[i].name, vs[i].regex, vs[i].ruleType);
        rs := rs + [r];
      }
    }

    /** `createDefaultRules`: a new list holding the two built-in rules. */
    method CreateDefaultRules()
      modifies this`rules
      ensures Values(rules) == DefaultRules()
      ensures forall r :: r in rules ==> fresh(r)
    {
      var paths := new RegexRule(true, "Relative Paths", RelativePathsRegex, "PATH");
      var secrets := new RegexRule(true, "Generic Secrets", GenericSecretsRegex, "SECRET");
      rules := [paths, secrets];
    }

    /** `refreshTable`: clear the table, then add one row per rule, in order. */
    method RefreshTable()
      modifies this`table
      ensures |table| == |rules|
      ensures forall i :: 0 <= i < |rules| ==>
                table[i] == (rules[i].active, rules[i].name, rules[i].regex, rules[i].ruleType)
      ensures table == TableOf(Values(rules))
    {
      table := [];
      for i := 0 to |rules|
        invariant |table| == i
        invariant forall k :: 0 <= k < i ==> table[k] == RowOf(rules[k].Value())
      {
        table := table + [RowOf(rules[i].Value())];
      }
      TableOfIntro(Values(rules), table);
    }

    /** `saveRulesFromTable`: one new rule per row, in row order; persist the new list. */
    method SaveRulesFromTable()
      modifies this`rules, this`prefs
      ensures |rules| == |table|
      ensures forall i :: 0 <= i < |table| ==> rules[i].Value() == RuleOf(table[i])
      ensures Values(rules) == RulesOfTable(table)
      ensures forall r :: r in rules ==> fresh(r)
      ensures prefs == old(prefs)[RulesKey := encode(RulesOfTable(table))]
    {
      var newRules: seq<RegexRule> := [];
      for i := 0 to |table|
        invariant |newRules| == i
        invariant forall k :: 0 <= k < i ==> newRules[k].Value() == RuleOf(table[k])
        invariant forall r :: r in newRules ==> fresh(r)
        invariant prefs == old(prefs) && rules == old(rules)
      {
        var (active, name, regex, ruleType) := table[i];
        var r := new RegexRule(active, name, regex, ruleType);
        newRules := newRules + [r];
      }
      rules := newRules;
      prefs := prefs[RulesKey := encode(RulesOfTable(table))];
      RulesOfTableIntro(table, Values(rules));
    }

    /** The "Reset to Defaults" action once confirmed: defaults, table, save. */
    method ResetToDefaults()
      modifies this`rules, this`table, this`prefs
      ensures Values(rules) == DefaultRules()
      ensures table == TableOf(DefaultRules())
      ensures prefs == old(prefs)[RulesKey := encode(DefaultRules())]
    {
      CreateDefaultRules();
      RefreshTable();
      SaveRulesFromTable();
      TableRoundTrip(DefaultRules());
    }

    /** The "Add Rule" button: append the row (true, "New Rule", "", "PATH"). */
    method AddRuleRow()
      modifies this`table
      ensures table == old(table) + [NewRuleRow]
    {
      table := table + [NewRuleRow];
    }

    /** The "Delete Selected" button: remove the selected row; -1 means no selection. */
    method DeleteSelectedRow(selected: int)
      requires selected == -1 || 0 <= selected < |table|
      modifies this`table
      ensures selected == -1 ==> table == old(table)
      ensures selected != -1 ==> table == old(table)[..selected] + old(table)[selected + 1..]
    {
      if selected != -1 {
        table := table[..selected] + table[selected + 1..];
      }
    }

    /** `getRules`: the current rule list. */
    function GetRules(): seq<RegexRule>
      reads this
    {
      rules
    }
  }
}

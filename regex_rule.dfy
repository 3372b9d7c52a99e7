/**
 * RegexRule.java: a rule record whose `active` flag can be switched while its
 * name, regular expression and type stay fixed for the object's lifetime.
 */
module Rules {

  /** The field values of a rule at one moment: (active, name, regex, type). */
  datatype RuleValue = RuleValue(active: bool, name: string, regex: string, ruleType: string)

  /**
   * A rule object. The getters `getName`, `getRegex`, `getType` and `isActive`
   * are these fields; name, regex and type have no setter, hence `const`.
   */
  class RegexRule {
    var active: bool
    const name: string
    const regex: string
    const ruleType: string

    constructor (active: bool, name: string, regex: string, ruleType: string)
      ensures Value() == RuleValue(active, name, regex, ruleType)
    {
      this.active := active;
      this.name := name;
      this.regex := regex;
      this.ruleType := ruleType;
    }

    /** The rule's current field values. */
    function Value(): RuleValue
      reads this
    {
      RuleValue(active, name, regex, ruleType)
    }

    /** `setActive(b)`: only the flag changes. */
    method SetActive(b: bool)
      modifies this
      ensures active == b
      ensures Value() == old(Value()).(active := b)
    {
      active := b;
    }
  }

  /** The field values of a list of rule objects, in list order. */
  function Values(rs: seq<RegexRule>): (vs: seq<RuleValue>)
    reads rs
    ensures |vs| == |rs|
    ensures forall i :: 0 <= i < |rs| ==> vs[i] == rs[i].Value()
  {
    if rs == [] then [] else Values(rs[..|rs| - 1]) + [rs[|rs| - 1].Value()]
  }
}

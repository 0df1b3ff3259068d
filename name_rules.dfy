/** The name-rule language of the Var Inspector's blacklist and highlight
    lists. A rule is trimmed and lower-cased; "^x" matches names that start
    with x, "$x" names that end with x, and any other rule names that contain
    it. Names are lower-cased before matching, so rules are case-insensitive. */
module NameRules {
  import opened JavaLang

  /** `matchesRule(rule, nameLower)`; `None` is a null rule. */
  function MatchesRule(rule: Option<string>, nameLower: string): (m: bool)
    ensures rule.None? ==> !m
    ensures rule.Some? && Trim(rule.value) == "" ==> !m
  {
    if rule.None? then false
    else
      var r := Lower(Trim(rule.value));
      if r == "" then false
      else if r[0] == '^' then StartsWith(nameLower, r[1..])
      else if r[0] == '$' then EndsWith(nameLower, r[1..])
      else Contains(nameLower, r)
  }

  /** Some rule of the set matches the lower-cased display name; a null name matches nothing. */
  predicate AnyRuleMatches(rules: set<string>, displayName: Option<string>) {
    displayName.Some? && exists rule :: rule in rules && MatchesRule(Some(rule), Lower(displayName.value))
  }

  /** `matchesAnyNameRule`: try the rules in the set's iteration order and stop at the first match. */
  method MatchesAnyNameRule(rules: set<string>, displayName: Option<string>) returns (found: bool)
    ensures found == AnyRuleMatches(rules, displayName)
    ensures rules == {} ==> !found
  {
    if displayName.None? || rules == {} {
      return false;
    }
    var nameLower := Lower(displayName.value);
    var rest := rules;
    while rest != {}
      invariant rest <= rules
      invariant forall rule :: rule in rules - rest ==> !MatchesRule(Some(rule), nameLower)
      decreases |rest|
    {
      var rule :| rule in rest;
      if MatchesRule(Some(rule), nameLower) {
        return true;
      }
      rest := rest - {rule};
    }
    return false;
  }

  /** The three forms of a rule, for a rule body `x` that is already lower
      case and does not end in a character `trim` removes. */
  lemma {:induction false} RuleForms(x: string, nameLower: string)
    requires Lower(x) == x
    requires x == [] || !IsTrimmed(x[|x| - 1])
    ensures MatchesRule(Some("^" + x), nameLower) <==> StartsWith(nameLower, x)
    ensures MatchesRule(Some("$" + x), nameLower) <==> EndsWith(nameLower, x)
    ensures x != [] && x[0] != '^' && x[0] != '$' && !IsTrimmed(x[0]) ==>
      (MatchesRule(Some(x), nameLower) <==> Contains(nameLower, x))
  {
    TrimmedForm("^", x);
    TrimmedForm("$", x);
    if x != [] && !IsTrimmed(x[0]) {
      TrimmedForm([], x);
      assert [] + x == x;
    }
  }

  /** `marker + x` is left alone by `trim` and by lower-casing. */
  lemma {:induction false} TrimmedForm(marker: string, x: string)
    requires |marker| <= 1 && (marker == [] || marker[0] == '^' || marker[0] == '$')
    requires marker == [] ==> x != [] && !IsTrimmed(x[0])
    requires Lower(x) == x
    requires x == [] || !IsTrimmed(x[|x| - 1])
    ensures Lower(Trim(marker + x)) == marker + x
  {
    var s := marker + x;
    assert Trim(s) == s by {
      assert s != [] && !IsTrimmed(s[0]);
      assert TrimStart(s) == s;
      assert !IsTrimmed(s[|s| - 1]);
    }
    assert Lower(marker) == marker by {
      if marker != [] {
        assert Lower(marker)[0] == LowerChar(marker[0]) == marker[0];
      }
    }
    LowerAppend(marker, x);
  }

  /** Rules are case-insensitive: upper-casing letters of a rule does not change what it matches. */
  lemma {:induction false} RuleCaseInsensitive(rule: string, nameLower: string)
    ensures MatchesRule(Some(rule), nameLower) == MatchesRule(Some(Lower(rule)), nameLower)
  {
    LowerTrim(rule);
    LowerIdempotent(Trim(rule));
  }

  /** Names are compared case-insensitively. */
  lemma {:induction false} NameCaseInsensitive(rules: set<string>, name1: string, name2: string)
    requires Lower(name1) == Lower(name2)
    ensures AnyRuleMatches(rules, Some(name1)) == AnyRuleMatches(rules, Some(name2))
  {
  }

  /** Blanks around a rule are ignored. */
  lemma {:induction false} RulePaddingIgnored(w1: string, rule: string, w2: string, nameLower: string)
    requires AllTrimmed(w1) && AllTrimmed(w2)
    ensures MatchesRule(Some(w1 + rule + w2), nameLower) == MatchesRule(Some(rule), nameLower)
  {
    TrimPadded(w1, rule, w2);
  }
}

/** The interest-rule table: which rule is in effect on a day, and how a new
    rule replaces any rule already defined for its date. */
module InterestRules {
  import opened Results
  import opened Calendar

  /** InterestRuleDTO: a rate in percent, effective from `date`. */
  datatype Rule = Rule(date: Date, id: string, rate: real)

  /** `k` is the rule in effect on `day`: dated on or before `day`, no
      qualifying rule is later, and among qualifying rules with that same date
      it comes first in the list. The last clause is what a stable descending
      sort followed by "take the first qualifying" yields. */
  ghost predicate IsApplicableIndex(day: Date, rules: seq<Rule>, k: int) {
    && 0 <= k < |rules|
    && DateLe(rules[k].date, day)
    && (forall i :: 0 <= i < |rules| && DateLe(rules[i].date, day) ==> Key(rules[i].date) <= Key(rules[k].date))
    && (forall i :: 0 <= i < k ==> Key(rules[i].date) != Key(rules[k].date))
  }

  /** A front-to-back scan that keeps the first rule of the latest qualifying date. */
  function ApplicableIndex(day: Date, rules: seq<Rule>): (r: Option<nat>)
    ensures r.None? <==> forall i :: 0 <= i < |rules| ==> !DateLe(rules[i].date, day)
    ensures r.Some? ==> IsApplicableIndex(day, rules, r.value)
  {
    if |rules| == 0 then None
    else
      var prefix := rules[..|rules| - 1];
      var best := ApplicableIndex(day, prefix);
      var k := |rules| - 1;
      assert forall i :: 0 <= i < k ==> prefix[i] == rules[i];
      if DateLe(rules[k].date, day) && (best.None? || Key(rules[best.value].date) < Key(rules[k].date))
      then Some(k)
      else best
  }

  /** FindApplicableInterestRule: the rule in effect on `day`, or None (the
      source's null) when every rule starts later. */
  function FindApplicableInterestRule(day: Date, rules: seq<Rule>): (r: Option<Rule>)
    ensures r.None? <==> forall i :: 0 <= i < |rules| ==> !DateLe(rules[i].date, day)
    ensures r.Some? ==> r.value in rules && DateLe(r.value.date, day)
    ensures r.Some? ==> forall i :: 0 <= i < |rules| && DateLe(rules[i].date, day) ==> Key(rules[i].date) <= Key(r.value.date)
  {
    match ApplicableIndex(day, rules)
    case None => None
    case Some(k) => Some(rules[k])
  }

  /** The characterisation pins the answer down: any index meeting it is the one returned. */
  lemma ApplicableIndexUnique(day: Date, rules: seq<Rule>, k: int)
    requires IsApplicableIndex(day, rules, k)
    ensures ApplicableIndex(day, rules) == Some(k)
  {
    var r := ApplicableIndex(day, rules);
    assert r.Some?;
    var j := r.value;
    assert Key(rules[j].date) == Key(rules[k].date);
  }

  /** A later day never selects an earlier-dated rule, and once some rule is in
      effect one stays in effect. */
  lemma FindApplicableMonotone(d1: Date, d2: Date, rules: seq<Rule>)
    requires DateLe(d1, d2)
    requires FindApplicableInterestRule(d1, rules).Some?
    ensures FindApplicableInterestRule(d2, rules).Some?
    ensures Key(FindApplicableInterestRule(d1, rules).value.date) <= Key(FindApplicableInterestRule(d2, rules).value.date)
  {
    var r1 := FindApplicableInterestRule(d1, rules).value;
    var i :| 0 <= i < |rules| && rules[i] == r1;
    assert DateLe(rules[i].date, d2);
  }

  /** The rule table with every rule dated `date` taken out, the others kept in order. */
  function RemoveDate(rules: seq<Rule>, date: Date): (r: seq<Rule>)
    ensures forall x :: x in r <==> x in rules && x.date != date
    ensures |r| <= |rules|
  {
    if |rules| == 0 then []
    else
      var rest := RemoveDate(rules[..|rules| - 1], date);
      var last := rules[|rules| - 1];
      assert rules == rules[..|rules| - 1] + [last];
      if last.date == date then rest else rest + [last]
  }

  /** Removal keeps the surviving rules in their relative order. */
  lemma {:induction false} RemoveDateAppend(a: seq<Rule>, b: seq<Rule>, date: Date)
    ensures RemoveDate(a + b, date) == RemoveDate(a, date) + RemoveDate(b, date)
  {
    if |b| == 0 {
      assert a + b == a;
    } else {
      assert (a + b)[..|a + b| - 1] == a + b[..|b| - 1];
      RemoveDateAppend(a, b[..|b| - 1], date);
    }
  }

  /** Rules whose date is not `date` pass through removal unchanged. */
  lemma {:induction false} RemoveDateKeepsOthers(rules: seq<Rule>, date: Date)
    requires forall i :: 0 <= i < |rules| ==> rules[i].date != date
    ensures RemoveDate(rules, date) == rules
  {
    if |rules| > 0 {
      var init := rules[..|rules| - 1];
      assert forall i :: 0 <= i < |init| ==> init[i] == rules[i];
      RemoveDateKeepsOthers(init, date);
      assert rules == init + [rules[|rules| - 1]];
    }
  }

  datatype RuleError = InvalidRuleDate | RateOutOfRange

  /** The rule-table update of DefineInterestRules: the date must pass the
      date check and the rate must lie strictly between 0 and 100; the rule is
      then added, every rule of its date removed, and the rule added again. */
  function DefineInterestRule(rules: seq<Rule>, dateText: string, id: string, rate: real): (r: Result<seq<Rule>, RuleError>)
    ensures r.Failure? <==> !IsValidDateFormat(dateText) || rate <= 0.0 || rate >= 100.0
    ensures r.Success? ==>
              var rule := Rule(ParseExact(dateText).value, id, rate);
              && |r.value| >= 1
              && r.value[|r.value| - 1] == rule
              && r.value[..|r.value| - 1] == RemoveDate(rules, rule.date)
  {
    if !IsValidDateFormat(dateText) then Failure(InvalidRuleDate)
    else if rate <= 0.0 || rate >= 100.0 then Failure(RateOutOfRange)
    else
      var rule := Rule(ParseExact(dateText).value, id, rate);
      var added := rules + [rule];
      RemoveDateAppend(rules, [rule], rule.date);
      Success(RemoveDate(added, rule.date) + [rule])
  }

  /** At most one rule per date. */
  ghost predicate DistinctDates(rules: seq<Rule>) {
    forall i, j :: 0 <= i < j < |rules| ==> rules[i].date != rules[j].date
  }

  /** Defining a rule for a day, given as that day's text, with a rate in (0, 100) succeeds. */
  lemma DefineAcceptsDay(rules: seq<Rule>, d: Date, id: string, rate: real)
    requires ValidDate(d) && 0.0 < rate < 100.0
    ensures DefineInterestRule(rules, Format(d), id, rate).Success?
    ensures ParseExact(Format(d)) == Some(d)
  {
    ParseFormat(d);
    IsValidDateFormatIsParse(Format(d));
  }

  /** After an update the new rule is the only rule of its date, and every
      other rule is still present. */
  lemma DefineReplacesSameDate(rules: seq<Rule>, d: Date, id: string, rate: real)
    requires ValidDate(d) && 0.0 < rate < 100.0
    ensures DefineInterestRule(rules, Format(d), id, rate).Success?
    ensures var r := DefineInterestRule(rules, Format(d), id, rate).value;
            && (forall i :: 0 <= i < |r| && r[i].date == d ==> r[i] == Rule(d, id, rate) && i == |r| - 1)
            && (forall x :: x in rules && x.date != d ==> x in r)
  {
    DefineAcceptsDay(rules, d, id, rate);
    var r := DefineInterestRule(rules, Format(d), id, rate).value;
    var rest := r[..|r| - 1];
    assert forall j :: 0 <= j < |rest| ==> rest[j] in rest;
    assert forall j :: 0 <= j < |r| - 1 ==> r[j] == rest[j];
  }

  /** Updating keeps the table free of duplicate dates. */
  lemma DefineKeepsDatesDistinct(rules: seq<Rule>, d: Date, id: string, rate: real)
    requires DistinctDates(rules)
    requires ValidDate(d) && 0.0 < rate < 100.0
    ensures DefineInterestRule(rules, Format(d), id, rate).Success?
    ensures DistinctDates(DefineInterestRule(rules, Format(d), id, rate).value)
  {
    DefineAcceptsDay(rules, d, id, rate);
    var r := DefineInterestRule(rules, Format(d), id, rate).value;
    var rest := r[..|r| - 1];
    assert rest == RemoveDate(rules, d);
    RemoveDateKeepsDatesDistinct(rules, d);
    forall i, j | 0 <= i < j < |r|
      ensures r[i].date != r[j].date
    {
      assert rest[i] == r[i];
      if j < |r| - 1 {
        assert rest[j] == r[j];
      } else {
        assert rest[i] in rest;
      }
    }
  }

  /** Removal preserves distinct dates. */
  lemma {:induction false} RemoveDateKeepsDatesDistinct(rules: seq<Rule>, date: Date)
    requires DistinctDates(rules)
    ensures DistinctDates(RemoveDate(rules, date))
  {
    if |rules| > 0 {
      var init := rules[..|rules| - 1];
      var last := rules[|rules| - 1];
      assert DistinctDates(init);
      RemoveDateKeepsDatesDistinct(init, date);
      var rest := RemoveDate(init, date);
      forall x | x in rest
        ensures x.date != last.date
      {
        var i :| 0 <= i < |init| && init[i] == x;
      }
    }
  }

  /** On its own date, a newly defined rule is the one in effect. */
  lemma DefinedRuleInEffectOnItsDate(rules: seq<Rule>, d: Date, id: string, rate: real)
    requires forall i :: 0 <= i < |rules| ==> ValidDate(rules[i].date)
    requires ValidDate(d) && 0.0 < rate < 100.0
    ensures DefineInterestRule(rules, Format(d), id, rate).Success?
    ensures FindApplicableInterestRule(d, DefineInterestRule(rules, Format(d), id, rate).value) == Some(Rule(d, id, rate))
  {
    DefineAcceptsDay(rules, d, id, rate);
    var r := DefineInterestRule(rules, Format(d), id, rate).value;
    var k := |r| - 1;
    var rest := r[..k];
    assert rest == RemoveDate(rules, d);
    forall i | 0 <= i < k
      ensures Key(r[i].date) != Key(d)
    {
      var x := rest[i];
      assert x in rest;
      assert x in rules && x.date != d;
      var j :| 0 <= j < |rules| && rules[j] == x;
      KeyIsChronological(x.date, d);
    }
    ApplicableIndexUnique(d, r, k);
  }

  function ScenarioRules(): seq<Rule> {
    [ Rule(Date(2023, 1, 1), "1", 1.95)
    , Rule(Date(2023, 5, 20), "2", 1.90)
    , Rule(Date(2023, 6, 15), "3", 2.20)
    ]
  }

  /** With rules from 1 January, 20 May and 15 June 2023, rule "2" is in effect on 1 June 2023. */
  lemma ScenarioRuleInEffect()
    ensures FindApplicableInterestRule(Date(2023, 6, 1), ScenarioRules()) == Some(ScenarioRules()[1])
    ensures FindApplicableInterestRule(Date(2023, 6, 1), ScenarioRules()).value.id == "2"
  {
    var rules := ScenarioRules();
    assert IsApplicableIndex(Date(2023, 6, 1), rules, 1);
    ApplicableIndexUnique(Date(2023, 6, 1), rules, 1);
  }
}

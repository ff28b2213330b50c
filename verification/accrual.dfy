/** The interest accrual engine: walk the statement window one day at a
    time, take each day's balance and the rule in effect that day, sum
    balance * rate / 100 over the window, and annualise by dividing by 365. */
module Accrual {
  import opened Results
  import opened Calendar
  import opened Ledger
  import opened InterestRules

  const DaysPerYear: real := 365.0

  /** The number of days each step of the walk covers: always one. */
  const StepDays: real := 1.0

  /** The closed range of days the walk covers. */
  datatype Window = Window(start: Date, end: Date)

  /** The DateTime constructor throwing, or the null rule being dereferenced. */
  datatype AccrualError = InvalidDateTime | NoApplicableRule(day: Date)

  /** The returned balance (last day's balance plus interest) and the interest out-parameter. */
  datatype Earnings = Earnings(balance: real, interest: real)

  /** The window starts on 1 June of `startYear` and ends on day N of June
      of `endYear`, where N is the length of `targetMonth` in `startYear`.
      A year outside 1..9999, a month outside 1..12, or N = 31 (there is no
      31 June) makes a DateTime constructor throw. */
  function AccrualWindow(startYear: int, endYear: int, targetMonth: int): (r: Result<Window, AccrualError>)
    ensures r.Success? <==>
              1 <= startYear <= 9999 && 1 <= endYear <= 9999
              && 1 <= targetMonth <= 12 && !HasThirtyOneDays(targetMonth)
    ensures r.Failure? ==> r.error == InvalidDateTime
    ensures r.Success? ==>
              && ValidDate(r.value.start) && ValidDate(r.value.end)
              && r.value.start == Date(startYear, 6, 1)
              && r.value.end.year == endYear && r.value.end.month == 6
              && r.value.end.day == DaysInMonth(startYear, targetMonth)
              && (DateLe(r.value.start, r.value.end) <==> startYear <= endYear)
  {
    if !(1 <= startYear <= 9999 && 1 <= targetMonth <= 12) then Failure(InvalidDateTime)
    else
      var lastday := DaysInMonth(startYear, targetMonth);
      var startDate := Date(startYear, 6, 1);
      var endDate := Date(endYear, 6, lastday);
      if ValidDate(endDate) then Success(Window(startDate, endDate)) else Failure(InvalidDateTime)
  }

  /** The rate of the rule in effect on `day` (0 when none is). */
  function RateOn(day: Date, rules: seq<Rule>): real {
    match FindApplicableInterestRule(day, rules)
    case Some(rule) => rule.rate
    case None => 0.0
  }

  /** Interest on `balance` at `rate` percent for `days` days, before annualising. */
  function PeriodInterest(balance: real, rate: real, days: real): real {
    balance * (rate / 100.0) * days
  }

  /** One day's un-annualised interest on the balance as of `day`. */
  function DailyInterest(day: Date, rules: seq<Rule>, txns: seq<Txn>): real {
    PeriodInterest(CalculateBalanceToDate(day, txns), RateOn(day, rules), StepDays)
  }

  /** The sum of DailyInterest over every day from `from` to `to` inclusive
      (nothing when `from` is after `to`). */
  function AccruedSum(from: Date, to: Date, rules: seq<Rule>, txns: seq<Txn>): real
    requires WellFormed(from)
    decreases Key(to) - Key(from)
  {
    if Key(to) < Key(from) then 0.0
    else DailyInterest(from, rules, txns) + AccruedSum(NextDay(from), to, rules, txns)
  }

  /** One step of the walk: the first day's interest plus the rest of the window. */
  lemma AccruedSumStep(from: Date, to: Date, rules: seq<Rule>, txns: seq<Txn>)
    requires WellFormed(from) && Key(from) <= Key(to)
    ensures AccruedSum(from, to, rules, txns) == DailyInterest(from, rules, txns) + AccruedSum(NextDay(from), to, rules, txns)
  {
  }

  /** The engine's result in closed form: with a valid window, it fails only
      when the window is non-empty and no rule is in effect on its first day;
      otherwise the interest is the window's accrued sum over 365 and the
      balance is the last day's balance (0 for an empty window) plus that. */
  function InterestWithAnnualization(startYear: int, endYear: int, targetMonth: int, rules: seq<Rule>, txns: seq<Txn>): (r: Result<Earnings, AccrualError>)
    ensures r.Failure? <==>
              || AccrualWindow(startYear, endYear, targetMonth).Failure?
              || (startYear <= endYear && forall i :: 0 <= i < |rules| ==> !DateLe(rules[i].date, Date(startYear, 6, 1)))
  {
    match AccrualWindow(startYear, endYear, targetMonth)
    case Failure(e) => Failure(e)
    case Success(w) =>
      if DateLe(w.start, w.end) && FindApplicableInterestRule(w.start, rules).None? then
        Failure(NoApplicableRule(w.start))
      else
        var interest := AccruedSum(w.start, w.end, rules, txns) / DaysPerYear;
        var lastBalance := if DateLe(w.start, w.end) then CalculateBalanceToDate(w.end, txns) else 0.0;
        Success(Earnings(lastBalance + interest, interest))
  }

  /** CalculateInterestWithAnnualization: build the window, walk it, and
      annualise the summed interest. */
  method CalculateInterestWithAnnualization(startYear: int, endYear: int, targetMonth: int, rules: seq<Rule>, txns: seq<Txn>)
    returns (r: Result<Earnings, AccrualError>)
    ensures r == InterestWithAnnualization(startYear, endYear, targetMonth, rules, txns)
  {
    var window := AccrualWindow(startYear, endYear, targetMonth);
    if window.Failure? {
      return Failure(window.error);
    }
    var walked := Walk(window.value.start, window.value.end, rules, txns);
    if walked.Failure? {
      return Failure(walked.error);
    }
    var finalAnnualizedInterest := walked.value.accrued / DaysPerYear;
    var calculatedBalance := walked.value.lastBalance + finalAnnualizedInterest;
    return Success(Earnings(calculatedBalance, finalAnnualizedInterest));
  }

  /** What the day-by-day loop leaves behind: the balance it saw last and the
      interest it summed, not yet annualised. */
  datatype Walked = Walked(lastBalance: real, accrued: real)

  /** The day-by-day loop of CalculateInterestWithAnnualization. A missing
      rule stops the walk on the day it is missing; the rule lookup's
      monotonicity means that can only be the first day. */
  method Walk(startDate: Date, endDate: Date, rules: seq<Rule>, txns: seq<Txn>) returns (r: Result<Walked, AccrualError>)
    requires WellFormed(startDate) && WellFormed(endDate)
    ensures r.Failure? <==> DateLe(startDate, endDate) && FindApplicableInterestRule(startDate, rules).None?
    ensures r.Failure? ==> r.error == NoApplicableRule(startDate)
    ensures r.Success? ==> r.value.accrued == AccruedSum(startDate, endDate, rules, txns)
    ensures r.Success? ==>
              r.value.lastBalance == if DateLe(startDate, endDate) then CalculateBalanceToDate(endDate, txns) else 0.0
  {
    var accumulatedInterest := 0.0;
    var calculatedBalance := 0.0;
    ghost var last := startDate;
    var date := startDate;
    while Key(date) <= Key(endDate)
      invariant WellFormed(date) && (date == startDate || Key(startDate) < Key(date))
      invariant AccruedSum(startDate, endDate, rules, txns) == accumulatedInterest + AccruedSum(date, endDate, rules, txns)
      invariant Key(startDate) < Key(date) ==> FindApplicableInterestRule(startDate, rules).Some?
      invariant Key(startDate) < Key(date) ==>
                  && WellFormed(last) && Key(startDate) <= Key(last) && Key(last) <= Key(endDate) && date == NextDay(last)
                  && calculatedBalance == CalculateBalanceToDate(last, txns)
      invariant date == startDate ==> calculatedBalance == 0.0
      decreases Key(endDate) - Key(date)
    {
      var balanceToDate := CalculateBalanceToDate(date, txns);
      calculatedBalance := balanceToDate;
      var applicableRule := FindApplicableInterestRule(date, rules);
      if applicableRule.None? {
        MissingRuleOnFirstDay(startDate, date, rules);
        return Failure(NoApplicableRule(date));
      }
      var numberOfDays := StepDays;
      var calculatedInterest := PeriodInterest(balanceToDate, applicableRule.value.rate, numberOfDays);
      WalkStep(startDate, endDate, date, rules, txns, accumulatedInterest);
      accumulatedInterest := accumulatedInterest + calculatedInterest;
      last := date;
      date := NextDay(date);
    }
    WalkFinished(startDate, endDate, date, last, rules, txns, accumulatedInterest, calculatedBalance);
    return Success(Walked(calculatedBalance, accumulatedInterest));
  }

  /** The walk can only miss a rule on its first day: once a rule is in
      effect on the first day, one is in effect on every later day. */
  lemma MissingRuleOnFirstDay(startDate: Date, date: Date, rules: seq<Rule>)
    requires WellFormed(startDate) && WellFormed(date) && (date == startDate || Key(startDate) < Key(date))
    requires Key(startDate) < Key(date) ==> FindApplicableInterestRule(startDate, rules).Some?
    requires FindApplicableInterestRule(date, rules).None?
    ensures date == startDate
  {
    KeyIsChronological(startDate, date);
    if Key(startDate) < Key(date) {
      FindApplicableMonotone(startDate, date, rules);
    }
  }

  /** One pass of the loop adds the day's interest to the running sum. */
  lemma WalkStep(startDate: Date, endDate: Date, date: Date, rules: seq<Rule>, txns: seq<Txn>, accumulated: real)
    requires WellFormed(startDate) && WellFormed(date) && Key(date) <= Key(endDate)
    requires AccruedSum(startDate, endDate, rules, txns) == accumulated + AccruedSum(date, endDate, rules, txns)
    requires FindApplicableInterestRule(date, rules).Some?
    ensures AccruedSum(startDate, endDate, rules, txns) ==
              accumulated
              + PeriodInterest(CalculateBalanceToDate(date, txns), FindApplicableInterestRule(date, rules).value.rate, StepDays)
              + AccruedSum(NextDay(date), endDate, rules, txns)
  {
    AccruedSumStep(date, endDate, rules, txns);
  }

  /** When the walk passes the window's end, it has summed the whole window
      and holds the last day's balance (0 when it never entered the loop). */
  lemma WalkFinished(startDate: Date, endDate: Date, date: Date, last: Date, rules: seq<Rule>, txns: seq<Txn>,
                     accumulated: real, balance: real)
    requires WellFormed(startDate) && WellFormed(endDate) && WellFormed(date)
    requires (date == startDate || Key(startDate) < Key(date)) && Key(endDate) < Key(date)
    requires AccruedSum(startDate, endDate, rules, txns) == accumulated + AccruedSum(date, endDate, rules, txns)
    requires Key(startDate) < Key(date) ==>
               && WellFormed(last) && Key(startDate) <= Key(last) && Key(last) <= Key(endDate) && date == NextDay(last)
               && balance == CalculateBalanceToDate(last, txns)
    requires date == startDate ==> balance == 0.0
    ensures accumulated == AccruedSum(startDate, endDate, rules, txns)
    ensures balance == if DateLe(startDate, endDate) then CalculateBalanceToDate(endDate, txns) else 0.0
    ensures DateLe(startDate, endDate) ==> Key(startDate) < Key(date)
  {
    assert AccruedSum(date, endDate, rules, txns) == 0.0;
    if Key(startDate) < Key(date) {
      assert Key(last) == Key(endDate) by {
        if Key(last) < Key(endDate) {
          NextDayIsSuccessor(last, endDate);
          assert false;
        }
      }
      KeyIsChronological(last, endDate);
    } else {
      KeyIsChronological(startDate, date);
    }
  }

  /** A one-day window accrues that day's balance at that day's rate. */
  lemma AccruedSumSingleDay(day: Date, rules: seq<Rule>, txns: seq<Txn>)
    requires WellFormed(day)
    ensures AccruedSum(day, day, rules, txns) ==
              PeriodInterest(CalculateBalanceToDate(day, txns), RateOn(day, rules), 1.0)
  {
    AccruedSumStep(day, day, rules, txns);
  }

  /** Summing a window in two consecutive pieces gives the same total. */
  lemma AccruedSumSplit(from: Date, mid: Date, to: Date, rules: seq<Rule>, txns: seq<Txn>)
    requires WellFormed(from) && WellFormed(mid)
    requires Key(from) <= Key(mid) <= Key(to)
    ensures AccruedSum(from, to, rules, txns) ==
              AccruedSum(from, mid, rules, txns) + AccruedSum(NextDay(mid), to, rules, txns)
    decreases Key(mid) - Key(from)
  {
    AccruedSumStep(from, to, rules, txns);
    AccruedSumStep(from, mid, rules, txns);
    if Key(from) < Key(mid) {
      NextDayIsSuccessor(from, mid);
      AccruedSumSplit(NextDay(from), mid, to, rules, txns);
    } else {
      KeyIsChronological(from, mid);
    }
  }

  /** `c` added up `n` times. */
  function Times(n: nat, c: real): real {
    if n == 0 then 0.0 else Times(n - 1, c) + c
  }

  lemma {:induction false} TimesIsProduct(n: nat, c: real)
    ensures Times(n, c) == n as real * c
  {
    if n > 0 {
      TimesIsProduct(n - 1, c);
      assert n as real * c == (n - 1) as real * c + c;
    }
  }

  /** `n` days of one month that all earn the same amount `c` sum to `n` times `c`. */
  lemma ConstantRun(y: int, m: int, lo: int, hi: int, n: nat, c: real, rules: seq<Rule>, txns: seq<Txn>)
    requires 1 <= m <= 12 && 1 <= lo <= hi <= DaysInMonth(y, m)
    requires n == hi - lo + 1
    requires forall k :: lo <= k <= hi ==> DailyInterest(Date(y, m, k), rules, txns) == c
    ensures AccruedSum(Date(y, m, lo), Date(y, m, hi), rules, txns) == Times(n, c)
    decreases hi - lo
  {
    var d := Date(y, m, lo);
    var last := Date(y, m, hi);
    AccruedSumStep(d, last, rules, txns);
    assert DailyInterest(d, rules, txns) == c;
    if lo < hi {
      assert d.day < DaysInMonth(y, m);
      assert NextDay(d) == Date(y, m, lo + 1);
      ConstantRun(y, m, lo + 1, hi, n - 1, c, rules, txns);
    } else {
      assert AccruedSum(NextDay(d), last, rules, txns) == 0.0;
    }
  }

  lemma PeriodInterestNonNegative(balance: real, rate: real, days: real)
    requires balance >= 0.0 && rate >= 0.0 && days >= 0.0
    ensures PeriodInterest(balance, rate, days) >= 0.0
  {
    assert rate / 100.0 >= 0.0;
    assert balance * (rate / 100.0) >= 0.0;
  }

  /** Rates of the rules are never negative: the rule table only accepts rates in (0, 100). */
  ghost predicate PositiveRates(rules: seq<Rule>) {
    forall i :: 0 <= i < |rules| ==> rules[i].rate > 0.0
  }

  /** With positive rates and a balance that is never negative in the window, nothing negative accrues. */
  lemma AccruedSumNonNegative(from: Date, to: Date, rules: seq<Rule>, txns: seq<Txn>)
    requires WellFormed(from)
    requires PositiveRates(rules)
    requires forall d :: WellFormed(d) && Key(from) <= Key(d) <= Key(to) ==> CalculateBalanceToDate(d, txns) >= 0.0
    ensures AccruedSum(from, to, rules, txns) >= 0.0
    decreases Key(to) - Key(from)
  {
    if Key(from) <= Key(to) {
      AccruedSumStep(from, to, rules, txns);
      assert RateOn(from, rules) >= 0.0 by {
        var rule := FindApplicableInterestRule(from, rules);
        if rule.Some? {
          var i :| 0 <= i < |rules| && rules[i] == rule.value;
        }
      }
      PeriodInterestNonNegative(CalculateBalanceToDate(from, txns), RateOn(from, rules), StepDays);
      AccruedSumNonNegative(NextDay(from), to, rules, txns);
    }
  }

  /** On a ledger whose balance is never negative on any day, the interest
      and the returned balance are never negative. */
  lemma InterestNonNegative(startYear: int, endYear: int, targetMonth: int, rules: seq<Rule>, txns: seq<Txn>)
    requires PositiveRates(rules)
    requires forall d :: WellFormed(d) ==> CalculateBalanceToDate(d, txns) >= 0.0
    requires InterestWithAnnualization(startYear, endYear, targetMonth, rules, txns).Success?
    ensures InterestWithAnnualization(startYear, endYear, targetMonth, rules, txns).value.interest >= 0.0
    ensures InterestWithAnnualization(startYear, endYear, targetMonth, rules, txns).value.balance >= 0.0
  {
    var w := AccrualWindow(startYear, endYear, targetMonth).value;
    AccruedSumNonNegative(w.start, w.end, rules, txns);
  }

  /** When the start year is after the end year nothing is iterated: interest and balance are both 0. */
  lemma EmptyWindowAccruesNothing(startYear: int, endYear: int, targetMonth: int, rules: seq<Rule>, txns: seq<Txn>)
    requires AccrualWindow(startYear, endYear, targetMonth).Success?
    requires startYear > endYear
    ensures InterestWithAnnualization(startYear, endYear, targetMonth, rules, txns) == Success(Earnings(0.0, 0.0))
  {
  }

  /** A February statement in a common year stops the window at 28 June; a
      statement for a 31-day month cannot be produced at all. */
  lemma WindowFollowsTargetMonthLength()
    ensures AccrualWindow(2023, 2023, 2) == Success(Window(Date(2023, 6, 1), Date(2023, 6, 28)))
    ensures AccrualWindow(2024, 2024, 2) == Success(Window(Date(2024, 6, 1), Date(2024, 6, 29)))
    ensures AccrualWindow(2023, 2023, 6) == Success(Window(Date(2023, 6, 1), Date(2023, 6, 30)))
    ensures AccrualWindow(2023, 2023, 7) == Failure(InvalidDateTime)
  {
  }

  lemma ScenarioBalanceInJune(k: int)
    requires 1 <= k <= 30
    ensures CalculateBalanceToDate(Date(2023, 6, k), ScenarioLedger()) == if k < 26 then 250.0 else 130.0
  {
    var s := ScenarioLedger();
    var day := Date(2023, 6, k);
    assert [] + [s[0]] == s[..1];
    assert s[..1] + [s[1]] == s[..2];
    assert s[..2] + [s[2]] == s[..3];
    assert s[..3] + [s[3]] == s;
    BalanceToDateAppend(day, [], s[0]);
    BalanceToDateAppend(day, s[..1], s[1]);
    BalanceToDateAppend(day, s[..2], s[2]);
    BalanceToDateAppend(day, s[..3], s[3]);
  }

  lemma ScenarioRateInJune(k: int)
    requires 1 <= k <= 30
    ensures RateOn(Date(2023, 6, k), ScenarioRules()) == if k < 15 then 1.90 else 2.20
  {
    var rules := ScenarioRules();
    var day := Date(2023, 6, k);
    if k < 15 {
      assert IsApplicableIndex(day, rules, 1);
      ApplicableIndexUnique(day, rules, 1);
    } else {
      assert IsApplicableIndex(day, rules, 2);
      ApplicableIndexUnique(day, rules, 2);
    }
  }

  lemma ScenarioDailyInterest(k: int)
    requires 1 <= k <= 30
    ensures DailyInterest(Date(2023, 6, k), ScenarioRules(), ScenarioLedger()) ==
              if k < 15 then 4.75 else if k < 26 then 5.5 else 2.86
  {
    ScenarioBalanceInJune(k);
    ScenarioRateInJune(k);
  }

  lemma ScenarioFirstRun()
    ensures AccruedSum(Date(2023, 6, 1), Date(2023, 6, 14), ScenarioRules(), ScenarioLedger()) == 66.5
  {
    forall k | 1 <= k <= 14
      ensures DailyInterest(Date(2023, 6, k), ScenarioRules(), ScenarioLedger()) == 4.75
    {
      ScenarioDailyInterest(k);
    }
    ConstantRun(2023, 6, 1, 14, 14, 4.75, ScenarioRules(), ScenarioLedger());
    TimesIsProduct(14, 4.75);
  }

  lemma ScenarioSecondRun()
    ensures AccruedSum(Date(2023, 6, 15), Date(2023, 6, 25), ScenarioRules(), ScenarioLedger()) == 60.5
  {
    forall k | 15 <= k <= 25
      ensures DailyInterest(Date(2023, 6, k), ScenarioRules(), ScenarioLedger()) == 5.5
    {
      ScenarioDailyInterest(k);
    }
    ConstantRun(2023, 6, 15, 25, 11, 5.5, ScenarioRules(), ScenarioLedger());
    TimesIsProduct(11, 5.5);
  }

  lemma ScenarioThirdRun()
    ensures AccruedSum(Date(2023, 6, 26), Date(2023, 6, 30), ScenarioRules(), ScenarioLedger()) == 14.3
  {
    forall k | 26 <= k <= 30
      ensures DailyInterest(Date(2023, 6, k), ScenarioRules(), ScenarioLedger()) == 2.86
    {
      ScenarioDailyInterest(k);
    }
    ConstantRun(2023, 6, 26, 30, 5, 2.86, ScenarioRules(), ScenarioLedger());
    TimesIsProduct(5, 2.86);
  }

  /** June 2023 with the sample ledger and rules: 14 days of 250 at 1.90%,
      11 days of 250 at 2.20% and 5 days of 130 at 2.20% accrue 141.3 before
      annualising. */
  lemma ScenarioJuneAccrual()
    ensures AccruedSum(Date(2023, 6, 1), Date(2023, 6, 30), ScenarioRules(), ScenarioLedger()) == 141.3
  {
    var rules := ScenarioRules();
    var txns := ScenarioLedger();
    ScenarioFirstRun();
    ScenarioSecondRun();
    ScenarioThirdRun();
    AccruedSumSplit(Date(2023, 6, 1), Date(2023, 6, 14), Date(2023, 6, 30), rules, txns);
    AccruedSumSplit(Date(2023, 6, 15), Date(2023, 6, 25), Date(2023, 6, 30), rules, txns);
  }

  /** The June 2023 statement shows 130 + 141.3 / 365, which rounds up to 130.39. */
  lemma ScenarioJuneStatement()
    ensures InterestWithAnnualization(2023, 2023, 6, ScenarioRules(), ScenarioLedger()) ==
              Success(Earnings(130.0 + 141.3 / 365.0, 141.3 / 365.0))
    ensures 130.38 < 130.0 + 141.3 / 365.0 <= 130.39
  {
    ScenarioJuneAccrual();
    ScenarioBalanceInJune(30);
    ScenarioRuleInEffect();
    assert AccrualWindow(2023, 2023, 6) == Success(Window(Date(2023, 6, 1), Date(2023, 6, 30)));
  }
}

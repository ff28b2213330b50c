/** Accepting a transaction into an account (the validation and ID part of
    InputTransactions): the date must pass the date check, the amount must be
    positive, a withdrawal may not overdraw the account's full balance, and the
    new entry's ID is its date's yyMMdd followed by a running per-date counter. */
module Bank {
  import opened Results
  import opened Digits
  import opened Calendar
  import opened Ledger

  /** BankAccountDTO: an account number and its ledger. */
  datatype Account = Account(number: string, txns: seq<Txn>)

  datatype InputError = InvalidDate | NonPositiveAmount | FirstWithdrawal | InsufficientBalance

  /** The accounts after an input and, when the input was accepted, the new entry's ID. */
  datatype InputResult = InputResult(accounts: seq<Account>, outcome: Result<string, InputError>)

  /** List.Find on the account list: the first account with this number. */
  function FindAccount(accounts: seq<Account>, number: string): (r: Option<nat>)
    ensures r.Some? ==> r.value < |accounts| && accounts[r.value].number == number
    ensures r.Some? ==> forall j :: 0 <= j < r.value ==> accounts[j].number != number
    ensures r.None? <==> forall j :: 0 <= j < |accounts| ==> accounts[j].number != number
  {
    if |accounts| == 0 then None
    else if accounts[0].number == number then Some(0)
    else
      match FindAccount(accounts[1..], number)
      case None => None
      case Some(k) => Some(k + 1)
  }

  /** The full balance the input is checked against: the account's, or 0 for a new account. */
  function PriorBalance(accounts: seq<Account>, number: string): real {
    match FindAccount(accounts, number)
    case Some(k) => CalculateBalance(accounts[k].txns)
    case None => 0.0
  }

  /** The dates of the entries, in ledger order. */
  function DatesOf(txns: seq<Txn>): seq<Date> {
    seq(|txns|, i requires 0 <= i < |txns| => txns[i].date)
  }

  /** How many entries are dated `date`, counted front to back. */
  function CountOnDate(txns: seq<Txn>, date: Date): (n: nat)
    ensures n <= |txns|
  {
    if |txns| == 0 then 0
    else CountOnDate(txns[..|txns| - 1], date) + (if txns[|txns| - 1].date == date then 1 else 0)
  }

  /** The count is the number of times `date` occurs among the entries' dates. */
  lemma {:induction false} CountOnDateIsMultiplicity(txns: seq<Txn>, date: Date)
    ensures CountOnDate(txns, date) == multiset(DatesOf(txns))[date]
  {
    if |txns| > 0 {
      var init := txns[..|txns| - 1];
      assert DatesOf(txns) == DatesOf(init) + [txns[|txns| - 1].date];
      CountOnDateIsMultiplicity(init, date);
    }
  }

  /** The transaction ID: the date text without its century (yyMMdd), a dash,
      and the counter written with at least two digits. */
  function TransactionId(dateText: string, count: nat): string
    requires |dateText| == 8
  {
    dateText[2..8] + "-" + PadDigits(count, 2)
  }

  /** The entry an accepted input appends to `txns`: created with the
      upper-cased type and no ID, added, and then given the ID that counts
      every entry of its date including itself. */
  function NewEntry(txns: seq<Txn>, date: Date, dateText: string, number: string, kind: string, amount: real): Txn
    requires |dateText| == 8
  {
    var entry := Txn(date, number, Upper(kind), amount, "");
    entry.(id := TransactionId(dateText, CountOnDate(txns + [entry], date)))
  }

  /** InputTransactions once the input line is split and the amount parsed.
      The account is looked up, and created empty if missing, before the
      withdrawal checks run, so a refused withdrawal can still leave a new
      empty account behind. The type is stored upper-cased and never checked. */
  function InputTransaction(accounts: seq<Account>, dateText: string, number: string, kind: string, amount: real): (r: InputResult)
    ensures r.outcome == Failure(InvalidDate) <==> !IsValidDateFormat(dateText)
    ensures r.outcome == Failure(NonPositiveAmount) <==> IsValidDateFormat(dateText) && amount <= 0.0
    ensures r.outcome == Failure(FirstWithdrawal) <==>
              IsValidDateFormat(dateText) && amount > 0.0
              && Upper(kind) == "W" && PriorBalance(accounts, number) == 0.0
    ensures r.outcome == Failure(InsufficientBalance) <==>
              IsValidDateFormat(dateText) && amount > 0.0
              && Upper(kind) == "W" && PriorBalance(accounts, number) != 0.0
              && PriorBalance(accounts, number) < amount
    ensures r.outcome.Success? <==>
              IsValidDateFormat(dateText) && amount > 0.0
              && (Upper(kind) == "W" ==> amount <= PriorBalance(accounts, number))
  {
    if !IsValidDateFormat(dateText) then InputResult(accounts, Failure(InvalidDate))
    else if amount <= 0.0 then InputResult(accounts, Failure(NonPositiveAmount))
    else
      var found := FindAccount(accounts, number);
      var present := if found.Some? then accounts else accounts + [Account(number, [])];
      var k := if found.Some? then found.value else |accounts|;
      var balance := CalculateBalance(present[k].txns);
      if Upper(kind) == "W" && balance == 0.0 then InputResult(present, Failure(FirstWithdrawal))
      else if Upper(kind) == "W" && balance - amount < 0.0 then InputResult(present, Failure(InsufficientBalance))
      else
        var txn := NewEntry(present[k].txns, ParseExact(dateText).value, dateText, number, kind, amount);
        InputResult(present[k := Account(present[k].number, present[k].txns + [txn])], Success(txn.id))
  }

  /** The index the input's account has afterwards: where it was found, or the end. */
  function AccountIndex(accounts: seq<Account>, number: string): nat {
    match FindAccount(accounts, number)
    case Some(k) => k
    case None => |accounts|
  }

  /** What an input does to the account list: a refused date or amount
      changes nothing; otherwise the account exists afterwards (appended
      empty if it was missing), and an accepted input appends exactly one
      entry to it, with the upper-cased type, leaving every other account as it was. */
  lemma InputEffect(accounts: seq<Account>, dateText: string, number: string, kind: string, amount: real)
    ensures var r := InputTransaction(accounts, dateText, number, kind, amount);
            var k := AccountIndex(accounts, number);
            && (r.outcome in {Failure(InvalidDate), Failure(NonPositiveAmount)} ==> r.accounts == accounts)
            && (!(r.outcome in {Failure(InvalidDate), Failure(NonPositiveAmount)}) ==>
                  && |r.accounts| == (if k < |accounts| then |accounts| else |accounts| + 1)
                  && r.accounts[k].number == number
                  && (forall j :: 0 <= j < |accounts| && j != k ==> r.accounts[j] == accounts[j])
                  && (r.outcome.Failure? ==> r.accounts[k].txns == (if k < |accounts| then accounts[k].txns else [])))
            && (r.outcome.Success? ==>
                  var prior := if k < |accounts| then accounts[k].txns else [];
                  && r.accounts[k].txns == prior + [NewEntry(prior, ParseExact(dateText).value, dateText, number, kind, amount)]
                  && r.outcome.value == r.accounts[k].txns[|prior|].id)
  {
    if IsValidDateFormat(dateText) && amount > 0.0 {
      var found := FindAccount(accounts, number);
      var present := if found.Some? then accounts else accounts + [Account(number, [])];
      var k := AccountIndex(accounts, number);
      assert k < |present| && present[k].number == number;
      assert present[k].txns == if k < |accounts| then accounts[k].txns else [];
      assert forall j :: 0 <= j < |accounts| ==> present[j] == accounts[j];
    }
  }

  /** No account's full balance is negative. */
  ghost predicate NonNegativeBalances(accounts: seq<Account>) {
    forall i :: 0 <= i < |accounts| ==> CalculateBalance(accounts[i].txns) >= 0.0
  }

  /** The acceptance rules keep every account's full balance non-negative. */
  lemma InputKeepsBalancesNonNegative(accounts: seq<Account>, dateText: string, number: string, kind: string, amount: real)
    requires NonNegativeBalances(accounts)
    ensures NonNegativeBalances(InputTransaction(accounts, dateText, number, kind, amount).accounts)
  {
    var r := InputTransaction(accounts, dateText, number, kind, amount);
    var k := AccountIndex(accounts, number);
    InputEffect(accounts, dateText, number, kind, amount);
    if r.outcome.Success? {
      var prior := if k < |accounts| then accounts[k].txns else [];
      var t := r.accounts[k].txns[|prior|];
      assert r.accounts[k].txns == prior + [t];
      CalculateBalanceAppend(prior, t);
      UpperIdempotent(kind);
      assert CalculateBalance(prior) == PriorBalance(accounts, number);
      assert CalculateBalance(r.accounts[k].txns) >= 0.0;
    } else if !(r.outcome in {Failure(InvalidDate), Failure(NonPositiveAmount)}) {
      assert CalculateBalance(r.accounts[k].txns) >= 0.0;
    }
  }

  /** Account numbers are not repeated. */
  ghost predicate DistinctNumbers(accounts: seq<Account>) {
    forall i, j :: 0 <= i < j < |accounts| ==> accounts[i].number != accounts[j].number
  }

  lemma InputKeepsNumbersDistinct(accounts: seq<Account>, dateText: string, number: string, kind: string, amount: real)
    requires DistinctNumbers(accounts)
    ensures DistinctNumbers(InputTransaction(accounts, dateText, number, kind, amount).accounts)
  {
    InputEffect(accounts, dateText, number, kind, amount);
  }

  /** Each entry's ID is its date's yyMMdd, a dash, and how many entries up to
      and including it share its date. */
  ghost predicate IdsNumbered(txns: seq<Txn>) {
    forall i :: 0 <= i < |txns| ==> NumberedAt(txns, i)
  }

  ghost predicate NumberedAt(txns: seq<Txn>, i: nat)
    requires i < |txns|
  {
    && ValidDate(txns[i].date)
    && txns[i].id == TransactionId(Format(txns[i].date), CountOnDate(txns[..i + 1], txns[i].date))
  }

  /** Every entry of every account carries an upper-case type and a numbered ID. */
  ghost predicate LedgersWellKept(accounts: seq<Account>) {
    forall i :: 0 <= i < |accounts| ==>
      && IdsNumbered(accounts[i].txns)
      && (forall j :: 0 <= j < |accounts[i].txns| ==> Upper(accounts[i].txns[j].kind) == accounts[i].txns[j].kind)
  }

  /** The new entry continues the per-date numbering of the ledger it joins. */
  lemma NewEntryKeepsIdsNumbered(txns: seq<Txn>, date: Date, dateText: string, number: string, kind: string, amount: real)
    requires IdsNumbered(txns)
    requires ValidDate(date) && Format(date) == dateText
    ensures IdsNumbered(txns + [NewEntry(txns, date, dateText, number, kind, amount)])
  {
    var t := NewEntry(txns, date, dateText, number, kind, amount);
    var all := txns + [t];
    var entry := Txn(date, number, Upper(kind), amount, "");
    assert CountOnDate(all, date) == CountOnDate(txns + [entry], date) by {
      assert all[..|txns|] == txns;
      assert (txns + [entry])[..|txns|] == txns;
    }
    assert all[..|txns| + 1] == all;
    forall i | 0 <= i < |all|
      ensures NumberedAt(all, i)
    {
      if i < |txns| {
        assert NumberedAt(txns, i);
        assert all[..i + 1] == txns[..i + 1];
      }
    }
  }

  lemma InputKeepsLedgersWellKept(accounts: seq<Account>, dateText: string, number: string, kind: string, amount: real)
    requires LedgersWellKept(accounts)
    ensures LedgersWellKept(InputTransaction(accounts, dateText, number, kind, amount).accounts)
  {
    var r := InputTransaction(accounts, dateText, number, kind, amount);
    var k := AccountIndex(accounts, number);
    InputEffect(accounts, dateText, number, kind, amount);
    if r.outcome.Success? {
      var prior := if k < |accounts| then accounts[k].txns else [];
      var date := ParseExact(dateText).value;
      FormatParse(dateText);
      NewEntryKeepsIdsNumbered(prior, date, dateText, number, kind, amount);
      UpperIdempotent(kind);
      var txns := r.accounts[k].txns;
      assert forall j :: 0 <= j < |prior| ==> txns[j] == prior[j];
      assert Upper(txns[|prior|].kind) == txns[|prior|].kind;
      forall i | 0 <= i < |r.accounts|
        ensures IdsNumbered(r.accounts[i].txns)
        ensures forall j :: 0 <= j < |r.accounts[i].txns| ==> Upper(r.accounts[i].txns[j].kind) == r.accounts[i].txns[j].kind
      {
        if i != k {
          assert r.accounts[i] == accounts[i];
        }
      }
    } else if !(r.outcome in {Failure(InvalidDate), Failure(NonPositiveAmount)}) {
      forall i | 0 <= i < |r.accounts|
        ensures IdsNumbered(r.accounts[i].txns)
        ensures forall j :: 0 <= j < |r.accounts[i].txns| ==> Upper(r.accounts[i].txns[j].kind) == r.accounts[i].txns[j].kind
      {
        if i != k {
          assert r.accounts[i] == accounts[i];
        }
      }
    }
  }

  /** For an account kept by these rules, the full balance and the balance
      as of any day on or after its last entry agree. */
  lemma KeptLedgerBalancesAgree(accounts: seq<Account>, i: nat, day: Date)
    requires LedgersWellKept(accounts)
    requires i < |accounts|
    requires forall j :: 0 <= j < |accounts[i].txns| ==> Key(accounts[i].txns[j].date) <= Key(day)
    ensures CalculateBalance(accounts[i].txns) == CalculateBalanceToDate(day, accounts[i].txns)
  {
    BalanceAgreesAfterLastEntry(day, accounts[i].txns);
  }

  lemma {:induction false} CountOnDateGrows(txns: seq<Txn>, date: Date, a: nat, b: nat)
    requires a < b <= |txns|
    requires txns[b - 1].date == date
    ensures CountOnDate(txns[..a], date) < CountOnDate(txns[..b], date)
  {
    assert txns[..b][..b - 1] == txns[..b - 1];
    if a < b - 1 {
      CountOnDateMonotone(txns, date, a, b - 1);
    }
  }

  lemma {:induction false} CountOnDateMonotone(txns: seq<Txn>, date: Date, a: nat, b: nat)
    requires a <= b <= |txns|
    ensures CountOnDate(txns[..a], date) <= CountOnDate(txns[..b], date)
    decreases b - a
  {
    if a < b {
      assert txns[..b][..b - 1] == txns[..b - 1];
      CountOnDateMonotone(txns, date, a, b - 1);
    }
  }

  /** The counter can be read back from an ID: it is everything after the dash. */
  lemma IdSuffix(dateText: string, count: nat)
    requires |dateText| == 8
    ensures TransactionId(dateText, count)[7..] == PadDigits(count, 2)
  {
  }

  /** Two IDs of the same date text are equal only for equal counters. */
  lemma TransactionIdInjective(dateText: string, a: nat, b: nat)
    requires |dateText| == 8
    requires TransactionId(dateText, a) == TransactionId(dateText, b)
    ensures a == b
  {
    IdSuffix(dateText, a);
    IdSuffix(dateText, b);
    PadDigitsInjective(a, b, 2);
  }

  /** Within one account, two entries of the same day never share an ID. */
  lemma SameDayIdsDistinct(txns: seq<Txn>, i: nat, j: nat)
    requires IdsNumbered(txns)
    requires i < j < |txns|
    requires txns[i].date == txns[j].date
    ensures txns[i].id != txns[j].id
  {
    var date := txns[i].date;
    assert NumberedAt(txns, i) && NumberedAt(txns, j);
    CountOnDateGrows(txns, date, i + 1, j + 1);
    if txns[i].id == txns[j].id {
      TransactionIdInjective(Format(date), CountOnDate(txns[..i + 1], date), CountOnDate(txns[..j + 1], date));
    }
  }

  /** The counter in an accepted input's ID is one more than the number of
      entries its account already holds on that date. */
  lemma AcceptedIdCountsTheDay(accounts: seq<Account>, dateText: string, number: string, kind: string, amount: real)
    ensures var r := InputTransaction(accounts, dateText, number, kind, amount);
            var k := AccountIndex(accounts, number);
            var prior := if k < |accounts| then accounts[k].txns else [];
            r.outcome.Success? ==>
              r.outcome.value == TransactionId(dateText, CountOnDate(prior, ParseExact(dateText).value) + 1)
  {
    var r := InputTransaction(accounts, dateText, number, kind, amount);
    InputEffect(accounts, dateText, number, kind, amount);
    if r.outcome.Success? {
      var k := AccountIndex(accounts, number);
      var prior := if k < |accounts| then accounts[k].txns else [];
      var e := Txn(ParseExact(dateText).value, number, Upper(kind), amount, "");
      assert (prior + [e])[..|prior|] == prior;
    }
  }

  /** The first deposit into an unknown account opens it with that one entry,
      numbered 01 for its day. */
  lemma FirstIdOfTheDay(accounts: seq<Account>, dateText: string, number: string, kind: string, amount: real)
    requires IsValidDateFormat(dateText) && amount > 0.0 && Upper(kind) != "W"
    requires forall j :: 0 <= j < |accounts| ==> accounts[j].number != number
    ensures InputTransaction(accounts, dateText, number, kind, amount) ==
              InputResult(accounts + [Account(number, [Txn(ParseExact(dateText).value, number, Upper(kind), amount, dateText[2..8] + "-01")])],
                          Success(dateText[2..8] + "-01"))
  {
    var r := InputTransaction(accounts, dateText, number, kind, amount);
    InputEffect(accounts, dateText, number, kind, amount);
    AcceptedIdCountsTheDay(accounts, dateText, number, kind, amount);
    PadDigitsExamples();
    var id := dateText[2..8] + "-01";
    assert TransactionId(dateText, 1) == id;
    assert r.outcome == Success(id);
    var txns := r.accounts[|accounts|].txns;
    assert txns == [] + [txns[0]];
    assert txns[0] == Txn(ParseExact(dateText).value, number, Upper(kind), amount, id);
    assert |r.accounts| == |accounts| + 1;
    assert r.accounts[..|accounts|] == accounts;
    assert r.accounts == r.accounts[..|accounts|] + [r.accounts[|accounts|]];
    assert r.accounts[|accounts|] == Account(number, [txns[0]]);
    assert r == InputResult(r.accounts, r.outcome);
  }

  /** A second entry on the same day into an account holding one entry of that
      day is numbered 02. */
  lemma SecondIdOfTheDay(accounts: seq<Account>, dateText: string, number: string, kind: string, amount: real, k: nat, t: Txn)
    requires IsValidDateFormat(dateText) && amount > 0.0 && Upper(kind) != "W"
    requires FindAccount(accounts, number) == Some(k)
    requires accounts[k].txns == [t] && t.date == ParseExact(dateText).value
    ensures InputTransaction(accounts, dateText, number, kind, amount).outcome == Success(dateText[2..8] + "-02")
  {
    AcceptedIdCountsTheDay(accounts, dateText, number, kind, amount);
    assert [t][..0] == [];
    assert CountOnDate([t], t.date) == 1;
    PadDigitsExamples();
    assert TransactionId(dateText, 2) == dateText[2..8] + "-02";
  }

  /** The IDs the two entries above get on 26 June 2023. */
  lemma SampleIds()
    ensures TransactionId("20230626", 1) == "230626-01"
    ensures TransactionId("20230626", 2) == "230626-02"
  {
    PadDigitsExamples();
    assert "20230626"[2..8] == "230626";
    assert "230626" + "-" + "01" == "230626-01";
    assert "230626" + "-" + "02" == "230626-02";
  }

  /** A withdrawal from an unknown account is refused, yet the account is
      created, empty. */
  lemma RefusedWithdrawalCreatesAccount(accounts: seq<Account>, dateText: string, number: string, kind: string, amount: real)
    requires IsValidDateFormat(dateText) && amount > 0.0 && Upper(kind) == "W"
    requires forall j :: 0 <= j < |accounts| ==> accounts[j].number != number
    ensures InputTransaction(accounts, dateText, number, kind, amount) ==
              InputResult(accounts + [Account(number, [])], Failure(FirstWithdrawal))
  {
  }

  /** Only the full balance is checked, so a withdrawal dated before the
      deposit that covers it is accepted, and the balance as of its own date
      goes negative although the full balance does not. */
  lemma BackdatedWithdrawalAccepted(number: string, deposit: Txn, dateText: string, amount: real)
    requires deposit.kind == "D" && deposit.amount >= amount > 0.0
    requires IsValidDateFormat(dateText) && Key(ParseExact(dateText).value) < Key(deposit.date)
    ensures var r := InputTransaction([Account(number, [deposit])], dateText, number, "W", amount);
            && r.outcome.Success?
            && CalculateBalance(r.accounts[0].txns) == deposit.amount - amount >= 0.0
            && CalculateBalanceToDate(ParseExact(dateText).value, r.accounts[0].txns) == -amount < 0.0
  {
    var accounts := [Account(number, [deposit])];
    var r := InputTransaction(accounts, dateText, number, "W", amount);
    var day := ParseExact(dateText).value;
    UpperOfLetter("D");
    UpperOfLetter("W");
    assert r.outcome.Success? by {
      assert [] + [deposit] == [deposit];
      CalculateBalanceAppend([], deposit);
      assert PriorBalance(accounts, number) == deposit.amount;
    }
    var w := Txn(day, number, "W", amount, r.outcome.value);
    assert r.accounts[0].txns == [deposit, w] by {
      InputEffect(accounts, dateText, number, "W", amount);
      assert AccountIndex(accounts, number) == 0;
    }
    BalancesAfterBackdatedWithdrawal(deposit, w, day);
  }

  /** The two balances of a deposit followed by a withdrawal dated before it. */
  lemma BalancesAfterBackdatedWithdrawal(deposit: Txn, w: Txn, day: Date)
    requires deposit.kind == "D" && w.kind == "W" && w.date == day
    requires Key(day) < Key(deposit.date)
    ensures CalculateBalance([deposit, w]) == deposit.amount - w.amount
    ensures CalculateBalanceToDate(day, [deposit, w]) == -w.amount
  {
    UpperOfLetter("D");
    UpperOfLetter("W");
    assert [] + [deposit] == [deposit];
    assert [deposit] + [w] == [deposit, w];
    CalculateBalanceAppend([], deposit);
    CalculateBalanceAppend([deposit], w);
    BalanceToDateAppend(day, [], deposit);
    BalanceToDateAppend(day, [deposit], w);
  }
}

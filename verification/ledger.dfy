/** An account's ledger: the two balance queries of the banking system.
    `CalculateBalance` upper-cases each entry's type before matching it;
    `CalculateBalanceToDate` matches the type exactly and keeps only entries
    dated on or before the given day. */
module Ledger {
  import opened Calendar
  import opened Sums

  /** One ledger entry (TransactionDTO). `kind` is the free-text type: "D" is a
      deposit, "W" a withdrawal, anything else moves no money. */
  datatype Txn = Txn(date: Date, account: string, kind: string, amount: real, id: string)

  /** ASCII upper-casing, standing in for string.ToUpper(). */
  function UpperChar(c: char): char {
    if 'a' <= c <= 'z' then (c as int - 32) as char else c
  }

  function Upper(s: string): (r: string)
    ensures |r| == |s|
  {
    seq(|s|, i requires 0 <= i < |s| => UpperChar(s[i]))
  }

  lemma UpperIdempotent(s: string)
    ensures Upper(Upper(s)) == Upper(s)
  {
  }

  /** A one-letter type upper-cases to "D" or "W" exactly when it is that letter in either case. */
  lemma UpperOfLetter(s: string)
    ensures Upper(s) == "D" <==> s == "D" || s == "d"
    ensures Upper(s) == "W" <==> s == "W" || s == "w"
  {
    if |s| == 1 {
      assert Upper(s)[0] == UpperChar(s[0]);
    }
  }

  /** The signed effect of an entry whose type is exactly `kind`. */
  function Signed(kind: string, amount: real): real {
    if kind == "D" then amount else if kind == "W" then -amount else 0.0
  }

  function SignedAmount(t: Txn): real {
    Signed(Upper(t.kind), t.amount)
  }

  /** CalculateBalance: the signed total of every entry. */
  function CalculateBalance(txns: seq<Txn>): real {
    Sum(txns, SignedAmount)
  }

  function DatedAmount(day: Date, t: Txn): real {
    if DateLe(t.date, day) then Signed(t.kind, t.amount) else 0.0
  }

  function DatedAmounts(day: Date): Txn -> real {
    t => DatedAmount(day, t)
  }

  /** CalculateBalanceToDate: the signed total of the entries dated on or before `day`. */
  function CalculateBalanceToDate(day: Date, txns: seq<Txn>): real {
    Sum(txns, DatedAmounts(day))
  }

  /** Appending an entry moves the full balance by its amount when its type
      upper-cases to "D" or "W", and leaves it alone otherwise. */
  lemma CalculateBalanceAppend(txns: seq<Txn>, t: Txn)
    ensures CalculateBalance(txns + [t]) ==
              CalculateBalance(txns)
              + (if Upper(t.kind) == "D" then t.amount
                 else if Upper(t.kind) == "W" then -t.amount
                 else 0.0)
  {
    assert (txns + [t])[..|txns|] == txns;
  }

  /** Appending an entry moves the balance as of `day` only when the entry is
      dated on or before `day` (the day itself included) and its type is exactly
      "D" or "W". */
  lemma BalanceToDateAppend(day: Date, txns: seq<Txn>, t: Txn)
    ensures CalculateBalanceToDate(day, txns + [t]) ==
              CalculateBalanceToDate(day, txns)
              + (if Key(t.date) <= Key(day) && t.kind == "D" then t.amount
                 else if Key(t.date) <= Key(day) && t.kind == "W" then -t.amount
                 else 0.0)
  {
    assert (txns + [t])[..|txns|] == txns;
  }

  /** The balance as of a day does not depend on the order of the ledger. */
  lemma BalanceToDateOrderIndependent(day: Date, a: seq<Txn>, b: seq<Txn>)
    requires multiset(a) == multiset(b)
    ensures CalculateBalanceToDate(day, a) == CalculateBalanceToDate(day, b)
  {
    SumPermutation(a, b, DatedAmounts(day));
  }

  /** Neither does the full balance. */
  lemma CalculateBalanceOrderIndependent(a: seq<Txn>, b: seq<Txn>)
    requires multiset(a) == multiset(b)
    ensures CalculateBalance(a) == CalculateBalance(b)
  {
    SumPermutation(a, b, SignedAmount);
  }

  /** Entries dated after `day` do not count towards the balance as of `day`. */
  lemma BalanceToDateIgnoresLater(day: Date, txns: seq<Txn>)
    requires forall i :: 0 <= i < |txns| ==> Key(day) < Key(txns[i].date)
    ensures CalculateBalanceToDate(day, txns) == 0.0
  {
    SumPointwise(txns, DatedAmounts(day), _ => 0.0);
    Sum0(txns);
  }

  lemma {:induction false} Sum0(txns: seq<Txn>)
    ensures Sum(txns, _ => 0.0) == 0.0
  {
    if |txns| > 0 {
      Sum0(txns[..|txns| - 1]);
    }
  }

  /** Once every entry is dated on or before `day` and stored with an
      upper-case type, the two balance queries agree. */
  lemma BalanceAgreesAfterLastEntry(day: Date, txns: seq<Txn>)
    requires forall i :: 0 <= i < |txns| ==> Key(txns[i].date) <= Key(day)
    requires forall i :: 0 <= i < |txns| ==> Upper(txns[i].kind) == txns[i].kind
    ensures CalculateBalance(txns) == CalculateBalanceToDate(day, txns)
  {
    SumPointwise(txns, SignedAmount, DatedAmounts(day));
  }

  /** The two queries differ on a lower-case type: "d" counts as a deposit in
      the full balance but not in the dated one. */
  lemma LowerCaseTypeOnlyCountsInFullBalance(day: Date)
    ensures CalculateBalance([Txn(day, "A1", "d", 50.0, "")]) == 50.0
    ensures CalculateBalanceToDate(day, [Txn(day, "A1", "d", 50.0, "")]) == 0.0
  {
    var t := Txn(day, "A1", "d", 50.0, "");
    assert [] + [t] == [t];
    UpperOfLetter("d");
    CalculateBalanceAppend([], t);
    BalanceToDateAppend(day, [], t);
  }

  function ScenarioLedger(): seq<Txn> {
    [ Txn(Date(2023, 5, 5), "AC001", "D", 100.0, "")
    , Txn(Date(2023, 6, 1), "AC001", "D", 150.0, "")
    , Txn(Date(2023, 6, 26), "AC001", "W", 20.0, "")
    , Txn(Date(2023, 6, 26), "AC001", "W", 100.0, "")
    ]
  }

  /** Deposits of 100 and 150, withdrawals of 20 and 100: 250 as of 1 June 2023, 130 in all. */
  lemma ScenarioBalances()
    ensures CalculateBalanceToDate(Date(2023, 6, 1), ScenarioLedger()) == 250.0
    ensures CalculateBalance(ScenarioLedger()) == 130.0
  {
    var s := ScenarioLedger();
    var june1 := Date(2023, 6, 1);
    UpperOfLetter("D");
    UpperOfLetter("W");
    assert [] + [s[0]] == s[..1];
    assert s[..1] + [s[1]] == s[..2];
    assert s[..2] + [s[2]] == s[..3];
    assert s[..3] + [s[3]] == s;
    BalanceToDateAppend(june1, [], s[0]);
    BalanceToDateAppend(june1, s[..1], s[1]);
    BalanceToDateAppend(june1, s[..2], s[2]);
    BalanceToDateAppend(june1, s[..3], s[3]);
    CalculateBalanceAppend([], s[0]);
    CalculateBalanceAppend(s[..1], s[1]);
    CalculateBalanceAppend(s[..2], s[2]);
    CalculateBalanceAppend(s[..3], s[3]);
  }
}

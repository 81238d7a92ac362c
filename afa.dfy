/**
 * The oldest depreciation script, `afa.py`: it reads a journal through
 * ledgerparse and keeps one `Afa_Transactions` object per depreciated item,
 * whose fields its methods fill in with explicit loops.
 */
module Afa {
  import opened Ledger

  /**
   * A ledgerparse posting line: the account name and `balance_account(i)`,
   * the amount the line stands for (its own amount, or the balancing amount
   * ledgerparse works out for a line written without one), in cents.
   */
  datatype Entry = Entry(name: string, balance: int)

  /** A ledgerparse transaction; `auxDate` is its auxiliary (effective) date. */
  datatype Transaction = Transaction(code: string, payee: string, date: Date, auxDate: Date,
                                     accounts: seq<Entry>)

  /** A point in time: a date and the second of that day. Aux dates are midnight. */
  datatype Moment = Moment(date: Date, second: nat)

  predicate MomentLt(a: Moment, b: Moment) {
    DateLt(a.date, b.date) || (a.date == b.date && a.second < b.second)
  }

  function Midnight(d: Date): Moment {
    Moment(d, 0)
  }

  /** The name fragment that marks a depreciation account. */
  const AFA_ACCOUNT := "wirtschaftsgüter"

  /** Python 2 `str.lower()` on a byte string: only ASCII capitals change. */
  function LowerChar(c: char): char {
    if 'A' <= c <= 'Z' then (c as int + 32) as char else c
  }

  function Lower(s: string): (r: string)
    ensures |r| == |s|
    ensures forall i :: 0 <= i < |s| ==> r[i] == LowerChar(s[i])
  {
    if s == [] then [] else [LowerChar(s[0])] + Lower(s[1..])
  }

  /** `sub` occurs in `s` starting at index `i`. */
  predicate OccursAt(s: string, sub: string, i: nat) {
    i + |sub| <= |s| && s[i..i + |sub|] == sub
  }

  /** `sub in s` on strings: `sub` is a prefix of `s` or occurs in its tail. */
  function Contains(s: string, sub: string): bool
    decreases |s|
  {
    if |sub| > |s| then false
    else if s[..|sub|] == sub then true
    else Contains(s[1..], sub)
  }

  /** `Contains` holds exactly when `sub` occurs in `s` as a contiguous piece. */
  lemma {:induction false} ContainsIffOccurs(s: string, sub: string)
    ensures Contains(s, sub) <==> exists i: nat :: OccursAt(s, sub, i)
    decreases |s|
  {
    if |sub| > |s| {
    } else if s[..|sub|] == sub {
      assert OccursAt(s, sub, 0);
    } else {
      ContainsIffOccurs(s[1..], sub);
      forall i: nat
        ensures OccursAt(s, sub, i + 1) == OccursAt(s[1..], sub, i)
      {
        if i + 1 + |sub| <= |s| {
          TailSlice(s, i, |sub|);
        }
      }
      assert !OccursAt(s, sub, 0);
      assert forall i: nat :: OccursAt(s, sub, i) ==> i == 0 || OccursAt(s[1..], sub, i - 1);
    }
  }

  lemma TailSlice<T>(s: seq<T>, i: nat, n: nat)
    requires i + 1 + n <= |s|
    ensures s[i + 1..i + 1 + n] == s[1..][i..i + n]
  {
  }

  /**
   * The fragment holds no ASCII capital, so by `NoCapitalsLowerIsIdentity`
   * lowering it changes nothing.
   */
  lemma FragmentHasNoCapitals()
    ensures forall i :: 0 <= i < |AFA_ACCOUNT| ==> !('A' <= AFA_ACCOUNT[i] <= 'Z')
  {
  }

  /** Lowering a string that holds no ASCII capital changes nothing. */
  lemma NoCapitalsLowerIsIdentity(s: string)
    requires forall i :: 0 <= i < |s| ==> !('A' <= s[i] <= 'Z')
    ensures Lower(s) == s
  {
    assert forall i :: 0 <= i < |s| ==> Lower(s)[i] == s[i];
  }

  /** `AFA_ACCOUNT.lower()` is the fragment itself, so `IsAfaAccountName` may use the fragment directly. */
  lemma FragmentLowerIsItself()
    ensures Lower(AFA_ACCOUNT) == AFA_ACCOUNT
  {
    FragmentHasNoCapitals();
    NoCapitalsLowerIsIdentity(AFA_ACCOUNT);
  }

  /** `AFA_ACCOUNT.lower() in name.lower()`, with `AFA_ACCOUNT.lower()` written as the fragment itself (`FragmentLowerIsItself`). */
  predicate IsAfaAccountName(name: string) {
    Contains(Lower(name), AFA_ACCOUNT)
  }

  /** `any(AFA_ACCOUNT.lower() in s.name.lower() for s in l.accounts)`. */
  predicate HasAfaAccount(l: Transaction) {
    exists i :: 0 <= i < |l.accounts| && IsAfaAccountName(l.accounts[i].name)
  }

  /** `gen_id`: the key that tells depreciated items apart. */
  function GenId(t: Transaction, accountName: string): string {
    t.code + "-" + t.payee + "-" + accountName
  }

  /** The index of the first dash in `s`, or `|s|` when there is none. */
  function FirstDash(s: string): (r: nat)
    ensures r <= |s|
  {
    if s == [] || s[0] == '-' then 0 else 1 + FirstDash(s[1..])
  }

  /** In `a + "-" + rest` the first dash follows `a` when `a` holds none. */
  lemma {:induction false} FirstDashAfter(a: string, rest: string)
    requires '-' !in a
    ensures FirstDash(a + "-" + rest) == |a|
  {
    if a != [] {
      assert (a + "-" + rest)[1..] == a[1..] + "-" + rest;
      FirstDashAfter(a[1..], rest);
    }
  }

  /** Splitting `a + "-" + rest` at its first dash gives back `a` when `a` has none. */
  lemma SplitAtFirstDash(a: string, rest: string, b: string, rest': string)
    requires '-' !in a && '-' !in b
    requires a + "-" + rest == b + "-" + rest'
    ensures a == b && rest == rest'
  {
    var s := a + "-" + rest;
    FirstDashAfter(a, rest);
    FirstDashAfter(b, rest');
    assert a == s[..|a|] == b;
    assert rest == s[|a| + 1..] == rest';
  }

  /**
   * Two ids agree only for the same code, payee and account name, as long as
   * codes and payees hold no dash.
   */
  lemma GenIdInjective(t1: Transaction, a1: string, t2: Transaction, a2: string)
    requires '-' !in t1.code && '-' !in t2.code && '-' !in t1.payee && '-' !in t2.payee
    requires GenId(t1, a1) == GenId(t2, a2)
    ensures t1.code == t2.code && t1.payee == t2.payee && a1 == a2
  {
    assert GenId(t1, a1) == t1.code + "-" + (t1.payee + "-" + a1);
    assert GenId(t2, a2) == t2.code + "-" + (t2.payee + "-" + a2);
    SplitAtFirstDash(t1.code, t1.payee + "-" + a1, t2.code, t2.payee + "-" + a2);
    SplitAtFirstDash(t1.payee, a1, t2.payee, a2);
  }

  /** A dash in a code lets two different items share an id. */
  lemma GenIdCollidesOnDashes()
    ensures var t1 := Transaction("a1-b", "Mikrofon", Date(2016, 1, 1), Date(2016, 1, 1), []);
      var t2 := Transaction("a1", "b-Mikrofon", Date(2016, 1, 1), Date(2016, 1, 1), []);
      GenId(t1, "x") == GenId(t2, "x") && t1.code != t2.code
  {
  }

  // ---------------------------------------------------------------------------
  // calculate_account

  /** The name of the first entry with a negative balance, or `otherwise`. */
  function FirstNegative(accounts: seq<Entry>, otherwise: string): (r: string)
    ensures (forall k :: 0 <= k < |accounts| ==> accounts[k].balance >= 0) ==> r == otherwise
    ensures (exists k :: 0 <= k < |accounts| && accounts[k].balance < 0) ==>
      exists k :: 0 <= k < |accounts| && accounts[k].balance < 0 && r == accounts[k].name &&
        forall m :: 0 <= m < k ==> accounts[m].balance >= 0
  {
    if accounts == [] then otherwise
    else if accounts[0].balance < 0 then accounts[0].name
    else
      var r := FirstNegative(accounts[1..], otherwise);
      assert forall k :: 1 <= k < |accounts| ==> accounts[k] == accounts[1..][k - 1];
      r
  }

  /** `calculate_account`: a scan over the entries with an early return. */
  method CalculateAccount(t: Transaction, otherwise: string) returns (name: string)
    ensures name == FirstNegative(t.accounts, otherwise)
  {
    for y := 0 to |t.accounts|
      invariant FirstNegative(t.accounts[y..], otherwise) == FirstNegative(t.accounts, otherwise)
    {
      if t.accounts[y].balance < 0 {
        return t.accounts[y].name;
      }
      assert t.accounts[y..][1..] == t.accounts[y + 1..];
    }
    return otherwise;
  }

  // ---------------------------------------------------------------------------
  // calculate_date_and_total_costs

  /** One candidate of the running minimum: an aux date and the amount booked then. */
  datatype Candidate = Candidate(when: Moment, amount: int)

  /** The candidates among `accounts`: the entries on `account`, each with the aux date `when`. */
  function EntryCandidates(accounts: seq<Entry>, when: Moment, account: string): seq<Candidate> {
    if accounts == [] then []
    else
      var last := accounts[|accounts| - 1];
      EntryCandidates(accounts[..|accounts| - 1], when, account) +
        (if last.name == account then [Candidate(when, last.balance)] else [])
  }

  /** The candidates transaction `l` offers: none unless its code is `code`. */
  function TxCandidates(l: Transaction, code: string, account: string): seq<Candidate> {
    if l.code == code then EntryCandidates(l.accounts, Midnight(l.auxDate), account) else []
  }

  /** All candidates of the journal, in the order the nested loops meet them. */
  function Candidates(led: seq<Transaction>, code: string, account: string): seq<Candidate> {
    if led == [] then []
    else Candidates(led[..|led| - 1], code, account) + TxCandidates(led[|led| - 1], code, account)
  }

  /** The running minimum over `cs`, starting from `start`, replaced only by a strictly earlier candidate. */
  function RunningMin(start: Candidate, cs: seq<Candidate>): Candidate {
    if cs == [] then start
    else
      var cur := RunningMin(start, cs[..|cs| - 1]);
      var last := cs[|cs| - 1];
      if MomentLt(last.when, cur.when) then last else cur
  }

  /** One more candidate at the end replaces the running minimum only when strictly earlier. */
  lemma RunningMinSnoc(start: Candidate, cs: seq<Candidate>, c: Candidate)
    ensures RunningMin(start, cs + [c]) ==
      if MomentLt(c.when, RunningMin(start, cs).when) then c else RunningMin(start, cs)
  {
    assert (cs + [c])[..|cs|] == cs;
  }

  /** Running over `a + b` is running over `a`, then over `b` from where `a` left off. */
  lemma {:induction false} RunningMinAppend(start: Candidate, a: seq<Candidate>, b: seq<Candidate>)
    ensures RunningMin(start, a + b) == RunningMin(RunningMin(start, a), b)
    decreases |b|
  {
    if b == [] {
      assert a + b == a;
    } else {
      var init := b[..|b| - 1];
      var last := b[|b| - 1];
      assert b == init + [last];
      assert a + b == (a + init) + [last];
      RunningMinAppend(start, a, init);
      RunningMinSnoc(start, a + init, last);
      RunningMinSnoc(RunningMin(start, a), init, last);
    }
  }

  /** The running minimum is no later than the start and than any candidate. */
  lemma {:induction false} RunningMinIsLowest(start: Candidate, cs: seq<Candidate>)
    ensures !MomentLt(start.when, RunningMin(start, cs).when)
    ensures forall k :: 0 <= k < |cs| ==> !MomentLt(cs[k].when, RunningMin(start, cs).when)
  {
    if cs != [] {
      var init := cs[..|cs| - 1];
      RunningMinIsLowest(start, init);
      assert forall k :: 0 <= k < |init| ==> cs[k] == init[k];
    }
  }

  /**
   * The running minimum stays at the start when no candidate is strictly
   * earlier; otherwise it is the first candidate at the earliest moment, so
   * every candidate before it is strictly later.
   */
  lemma {:induction false} RunningMinIsFirstEarliest(start: Candidate, cs: seq<Candidate>)
    ensures (forall k :: 0 <= k < |cs| ==> !MomentLt(cs[k].when, start.when)) ==> RunningMin(start, cs) == start
    ensures (exists k :: 0 <= k < |cs| && MomentLt(cs[k].when, start.when)) ==>
      exists k :: 0 <= k < |cs| && RunningMin(start, cs) == cs[k] &&
        forall m :: 0 <= m < k ==> MomentLt(cs[k].when, cs[m].when)
  {
    if cs != [] {
      var init := cs[..|cs| - 1];
      var last := cs[|cs| - 1];
      assert forall k :: 0 <= k < |init| ==> cs[k] == init[k];
      RunningMinIsFirstEarliest(start, init);
      RunningMinIsLowest(start, init);
      var cur := RunningMin(start, init);
      if MomentLt(last.when, cur.when) {
        forall m | 0 <= m < |cs| - 1
          ensures MomentLt(last.when, cs[m].when)
        {
          MomentLtTransitive(last.when, cur.when, init[m].when);
        }
        if !MomentLt(last.when, start.when) {
          MomentLeTransitive(last.when, start.when, cur.when);
        }
      } else {
        if forall k :: 0 <= k < |init| ==> !MomentLt(init[k].when, start.when) {
          assert cur == start;
        } else {
          var k :| 0 <= k < |init| && MomentLt(init[k].when, start.when);
          assert cs[k] == init[k];
        }
      }
    }
  }

  /** `a < b <= c` gives `a < c`. */
  lemma MomentLtTransitive(a: Moment, b: Moment, c: Moment)
    requires MomentLt(a, b) && !MomentLt(c, b)
    ensures MomentLt(a, c)
  {
  }

  /** `c <= b <= a` gives `c <= a`. */
  lemma MomentLeTransitive(a: Moment, b: Moment, c: Moment)
    requires !MomentLt(a, b) && !MomentLt(b, c)
    ensures !MomentLt(a, c)
  {
  }

  // ---------------------------------------------------------------------------
  // calculate_costs_begin_and_end

  /** What one transaction deducts in year `y`: `abs(balance)` of each of its entries on `account`. */
  function EntriesDeduction(accounts: seq<Entry>, account: string): int {
    if accounts == [] then 0
    else
      var last := accounts[|accounts| - 1];
      EntriesDeduction(accounts[..|accounts| - 1], account) + (if last.name == account then Abs(last.balance) else 0)
  }

  /** Transaction `l` counts for year `y`: same code, booked in `y`, and touching a depreciation account. */
  predicate Relevant(l: Transaction, code: string, y: int) {
    l.code == code && l.date.year == y && HasAfaAccount(l)
  }

  function TxDeduction(l: Transaction, code: string, account: string, y: int): int {
    if Relevant(l, code, y) then EntriesDeduction(l.accounts, account) else 0
  }

  /** The depreciation of year `y`, over the whole journal. */
  function YearDeduction(led: seq<Transaction>, code: string, account: string, y: int): int {
    if led == [] then 0
    else YearDeduction(led[..|led| - 1], code, account, y) + TxDeduction(led[|led| - 1], code, account, y)
  }

  /** The depreciation of the years `firstYear` up to, not including, `endYear`. */
  function Deducted(led: seq<Transaction>, code: string, account: string, firstYear: int, endYear: int): int
    decreases endYear - firstYear
  {
    if endYear <= firstYear then 0
    else Deducted(led, code, account, firstYear, endYear - 1) + YearDeduction(led, code, account, endYear - 1)
  }

  lemma {:induction false} EntriesDeductionNonNegative(accounts: seq<Entry>, account: string)
    ensures EntriesDeduction(accounts, account) >= 0
  {
    if accounts != [] {
      EntriesDeductionNonNegative(accounts[..|accounts| - 1], account);
    }
  }

  lemma {:induction false} YearDeductionNonNegative(led: seq<Transaction>, code: string, account: string, y: int)
    ensures YearDeduction(led, code, account, y) >= 0
  {
    if led != [] {
      YearDeductionNonNegative(led[..|led| - 1], code, account, y);
      EntriesDeductionNonNegative(led[|led| - 1].accounts, account);
    }
  }

  lemma {:induction false} DeductedNonNegative(led: seq<Transaction>, code: string, account: string,
                                               firstYear: int, endYear: int)
    ensures Deducted(led, code, account, firstYear, endYear) >= 0
    decreases endYear - firstYear
  {
    if endYear > firstYear {
      DeductedNonNegative(led, code, account, firstYear, endYear - 1);
      YearDeductionNonNegative(led, code, account, endYear - 1);
    }
  }

  /** Deducting over more years never deducts less: book values never grow. */
  lemma {:induction false} DeductedMonotone(led: seq<Transaction>, code: string, account: string,
                                            firstYear: int, endYear: int, laterYear: int)
    requires endYear <= laterYear
    ensures 0 <= Deducted(led, code, account, firstYear, endYear) <= Deducted(led, code, account, firstYear, laterYear)
    decreases laterYear - endYear
  {
    if endYear < laterYear {
      DeductedMonotone(led, code, account, firstYear, endYear, laterYear - 1);
      if laterYear - 1 >= firstYear {
        YearDeductionNonNegative(led, code, account, laterYear - 1);
      }
    } else {
      DeductedNonNegative(led, code, account, firstYear, endYear);
    }
  }

  /** The book value lost in `year` is that year's depreciation, if the item was bought by then. */
  lemma YearIsTheDifference(led: seq<Transaction>, code: string, account: string, firstYear: int, year: int)
    ensures Deducted(led, code, account, firstYear, year) - Deducted(led, code, account, firstYear, year + 1) ==
      if firstYear <= year then -YearDeduction(led, code, account, year) else 0
  {
  }

  /** The depreciation of a year over two pieces of a journal is the sum over each. */
  lemma {:induction false} YearDeductionAppend(a: seq<Transaction>, b: seq<Transaction>, code: string, account: string, y: int)
    ensures YearDeduction(a + b, code, account, y) == YearDeduction(a, code, account, y) + YearDeduction(b, code, account, y)
    decreases |b|
  {
    if b == [] {
      assert a + b == a;
    } else {
      var init := b[..|b| - 1];
      assert (a + b)[..|a + b| - 1] == a + init;
      assert (a + b)[|a + b| - 1] == b[|b| - 1];
      YearDeductionAppend(a, init, code, account, y);
    }
  }

  /**
   * A transaction with another code, booked outside the years, or touching no
   * depreciation account deducts nothing, wherever it stands in the journal.
   */
  lemma {:induction false} IrrelevantIsIgnored(a: seq<Transaction>, l: Transaction, b: seq<Transaction>,
                                               code: string, account: string, firstYear: int, endYear: int)
    requires l.code != code || !HasAfaAccount(l) || l.date.year < firstYear || l.date.year >= endYear
    ensures Deducted(a + [l] + b, code, account, firstYear, endYear) == Deducted(a + b, code, account, firstYear, endYear)
    decreases endYear - firstYear
  {
    if endYear > firstYear {
      var y := endYear - 1;
      IrrelevantIsIgnored(a, l, b, code, account, firstYear, y);
      YearDeductionAppend(a + [l], b, code, account, y);
      YearDeductionAppend(a, [l], code, account, y);
      YearDeductionAppend(a, b, code, account, y);
      assert [l][..0] == [];
      assert !Relevant(l, code, y);
    }
  }

  /** The candidates of two pieces of a journal are those of the first followed by those of the second. */
  lemma {:induction false} CandidatesAppend(a: seq<Transaction>, b: seq<Transaction>, code: string, account: string)
    ensures Candidates(a + b, code, account) == Candidates(a, code, account) + Candidates(b, code, account)
    decreases |b|
  {
    if b == [] {
      assert a + b == a;
    } else {
      var init := b[..|b| - 1];
      var last := b[|b| - 1];
      assert (a + b)[..|a + b| - 1] == a + init;
      assert (a + b)[|a + b| - 1] == last;
      CandidatesAppend(a, init, code, account);
      var ca, ci, cl := Candidates(a, code, account), Candidates(init, code, account), TxCandidates(last, code, account);
      assert Candidates(a + b, code, account) == (ca + ci) + cl;
      assert Candidates(b, code, account) == ci + cl;
      assert (ca + ci) + cl == ca + (ci + cl);
    }
  }

  /**
   * A transaction with another code offers no candidate, wherever it stands in
   * the journal; with `IrrelevantIsIgnored` it changes none of buy date, cost
   * and book values of an item.
   */
  lemma OtherCodeOffersNoCandidates(a: seq<Transaction>, l: Transaction, b: seq<Transaction>, code: string, account: string)
    requires l.code != code
    ensures Candidates(a + [l] + b, code, account) == Candidates(a + b, code, account)
  {
    CandidatesAppend(a + [l], b, code, account);
    CandidatesAppend(a, [l], code, account);
    CandidatesAppend(a, b, code, account);
    assert [l][..0] == [];
    assert Candidates([l], code, account) == [];
    assert Candidates(a, code, account) + [] == Candidates(a, code, account);
  }

  // ---------------------------------------------------------------------------
  // Afa_Transactions

  /** One depreciated item of `afa.py`, with the book values its methods compute. */
  class AfaTransaction {
    const transaction: Transaction
    const account: string
    const id: string
    var buyDate: Moment
    var totalCosts: int
    var costsBegin: int
    var costsEnd: int

    /** The book values of a constructed item: neither exceeds the purchase cost, and the value at the end of the year is the lower one. */
    ghost predicate Valid()
      reads this
    {
      costsEnd <= costsBegin <= totalCosts
    }

    /**
     * `Afa_Transactions.__init__`: the inventory account, the id, the buy date
     * and cost, then the book values at the start and the end of `year`.
     * `datetime.now()` is the parameter `now`.
     */
    constructor (transaction: Transaction, accountName: string, led: seq<Transaction>, year: int, now: Moment)
      ensures this.transaction == transaction
      ensures account == FirstNegative(transaction.accounts, accountName)
      ensures id == GenId(transaction, accountName)
      ensures Candidate(buyDate, totalCosts) ==
        RunningMin(Candidate(now, 0), Candidates(led, transaction.code, account))
      ensures costsBegin == totalCosts - Deducted(led, transaction.code, account, buyDate.date.year, year)
      ensures costsEnd == totalCosts - Deducted(led, transaction.code, account, buyDate.date.year, year + 1)
      ensures Valid()
    {
      this.transaction := transaction;
      var name := CalculateAccount(transaction, accountName);
      account := name;
      id := GenId(transaction, accountName);
      buyDate := now;
      totalCosts := 0;
      new;
      CalculateDateAndTotalCosts(led);
      costsBegin := totalCosts;
      costsEnd := totalCosts;
      CalculateCostsBeginAndEnd(led, year);
      DeductedMonotone(led, transaction.code, account, buyDate.date.year, year, year + 1);
    }

    /**
     * `calculate_date_and_total_costs`: over the transactions with this
     * item's code and their entries on its account, keep the earliest aux date
     * strictly before the current buy date, with that entry's amount.
     */
    method CalculateDateAndTotalCosts(led: seq<Transaction>)
      modifies this
      ensures Candidate(buyDate, totalCosts) ==
        RunningMin(Candidate(old(buyDate), old(totalCosts)), Candidates(led, transaction.code, account))
      ensures costsBegin == old(costsBegin) && costsEnd == old(costsEnd)
    {
      ghost var start := Candidate(buyDate, totalCosts);
      for n := 0 to |led|
        invariant Candidate(buyDate, totalCosts) == RunningMin(start, Candidates(led[..n], transaction.code, account))
        invariant costsBegin == old(costsBegin) && costsEnd == old(costsEnd)
      {
        assert led[..n + 1][..n] == led[..n];
        RunningMinAppend(start, Candidates(led[..n], transaction.code, account), TxCandidates(led[n], transaction.code, account));
        ScanTransaction(led[n]);
      }
      assert led[..|led|] == led;
    }

    /** The body of the transaction loop: the entries of `l` on this item's account, when `l` has this item's code. */
    method ScanTransaction(l: Transaction)
      modifies this
      ensures Candidate(buyDate, totalCosts) ==
        RunningMin(Candidate(old(buyDate), old(totalCosts)), TxCandidates(l, transaction.code, account))
      ensures costsBegin == old(costsBegin) && costsEnd == old(costsEnd)
    {
      if l.code == transaction.code {
        ghost var start := Candidate(buyDate, totalCosts);
        ghost var when := Midnight(l.auxDate);
        for i := 0 to |l.accounts|
          invariant Candidate(buyDate, totalCosts) == RunningMin(start, EntryCandidates(l.accounts[..i], when, account))
          invariant costsBegin == old(costsBegin) && costsEnd == old(costsEnd)
        {
          var a := l.accounts[i];
          assert l.accounts[..i + 1][..i] == l.accounts[..i];
          if account == a.name {
            assert EntryCandidates(l.accounts[..i + 1], when, account) ==
              EntryCandidates(l.accounts[..i], when, account) + [Candidate(when, a.balance)];
            RunningMinSnoc(start, EntryCandidates(l.accounts[..i], when, account), Candidate(when, a.balance));
            if MomentLt(Midnight(l.auxDate), buyDate) {
              buyDate := Midnight(l.auxDate);
              totalCosts := a.balance;
            }
          } else {
            ghost var cs := EntryCandidates(l.accounts[..i], when, account);
            assert cs + [] == cs;
            assert EntryCandidates(l.accounts[..i + 1], when, account) == cs;
          }
        }
        assert l.accounts[..|l.accounts|] == l.accounts;
      }
    }

    /**
     * `calculate_costs_begin_and_end`: for each year from the purchase year
     * up to `year`, subtract the depreciation of that year from the value at
     * the end, and also from the value at the start when the year is before
     * `year`.
     */
    method CalculateCostsBeginAndEnd(led: seq<Transaction>, year: int)
      modifies this
      ensures costsEnd == old(costsEnd) - Deducted(led, transaction.code, account, buyDate.date.year, year + 1)
      ensures costsBegin == old(costsBegin) - Deducted(led, transaction.code, account, buyDate.date.year, year)
      ensures buyDate == old(buyDate) && totalCosts == old(totalCosts)
    {
      var firstYear := buyDate.date.year;
      var y := firstYear;
      while y <= year
        invariant if firstYear <= year + 1 then firstYear <= y <= year + 1 else y == firstYear
        invariant costsEnd == old(costsEnd) - Deducted(led, transaction.code, account, firstYear, y)
        invariant costsBegin == old(costsBegin) - Deducted(led, transaction.code, account, firstYear, if y <= year then y else year)
        invariant buyDate == old(buyDate) && totalCosts == old(totalCosts)
        decreases year - y
      {
        DeductYear(led, y, year);
        assert Deducted(led, transaction.code, account, firstYear, y + 1) ==
          Deducted(led, transaction.code, account, firstYear, y) + YearDeduction(led, transaction.code, account, y);
        y := y + 1;
      }
      assert Deducted(led, transaction.code, account, firstYear, y) ==
        Deducted(led, transaction.code, account, firstYear, year + 1);
    }

    /** The body of the year loop: subtract the depreciation of year `y`, from the start value only before `year`. */
    method DeductYear(led: seq<Transaction>, y: int, year: int)
      modifies this
      ensures costsEnd == old(costsEnd) - YearDeduction(led, transaction.code, account, y)
      ensures costsBegin == old(costsBegin) - (if y < year then YearDeduction(led, transaction.code, account, y) else 0)
      ensures buyDate == old(buyDate) && totalCosts == old(totalCosts)
    {
      for n := 0 to |led|
        invariant costsEnd == old(costsEnd) - YearDeduction(led[..n], transaction.code, account, y)
        invariant costsBegin == old(costsBegin) - (if y < year then YearDeduction(led[..n], transaction.code, account, y) else 0)
        invariant buyDate == old(buyDate) && totalCosts == old(totalCosts)
      {
        assert led[..n + 1][..n] == led[..n];
        assert YearDeduction(led[..n + 1], transaction.code, account, y) ==
          YearDeduction(led[..n], transaction.code, account, y) + TxDeduction(led[n], transaction.code, account, y);
        if Relevant(led[n], transaction.code, y) {
          DeductTransaction(led[n], y, year);
        }
      }
      assert led[..|led|] == led;
    }

    /** The innermost loop: subtract `abs(balance)` of each entry of `l` on this item's account. */
    method DeductTransaction(l: Transaction, y: int, year: int)
      modifies this
      ensures costsEnd == old(costsEnd) - EntriesDeduction(l.accounts, account)
      ensures costsBegin == old(costsBegin) - (if y < year then EntriesDeduction(l.accounts, account) else 0)
      ensures buyDate == old(buyDate) && totalCosts == old(totalCosts)
    {
      for i := 0 to |l.accounts|
        invariant costsEnd == old(costsEnd) - EntriesDeduction(l.accounts[..i], account)
        invariant costsBegin == old(costsBegin) - (if y < year then EntriesDeduction(l.accounts[..i], account) else 0)
        invariant buyDate == old(buyDate) && totalCosts == old(totalCosts)
      {
        var a := l.accounts[i];
        assert l.accounts[..i + 1][..i] == l.accounts[..i];
        if a.name == account {
          costsEnd := costsEnd - Abs(a.balance);
          if y < year {
            costsBegin := costsBegin - Abs(a.balance);
          }
        }
      }
      assert l.accounts[..|l.accounts|] == l.accounts;
    }

    /**
     * `costs_diff`: the book value lost in the year; on a constructed item it
     * is never negative and never more than what was written off in total.
     */
    function CostsDiff(): (d: int)
      reads this
      ensures costsEnd + d == costsBegin
      ensures Valid() ==> 0 <= d <= totalCosts - costsEnd
    {
      costsBegin - costsEnd
    }
  }

  // ---------------------------------------------------------------------------
  // The discovery loop of the script
  //
  // The loop is stated for any entry test `marks`; the script's own test is
  // `MarksDepreciation`, which `DiscoverTransactions` plugs in.

  /** `AFA_ACCOUNT.lower() in s.name.lower() and s.balance > 0`, the test on one entry. */
  predicate MarksDepreciation(e: Entry) {
    IsAfaAccountName(e.name) && e.balance > 0
  }

  /**
   * Entry `i` of `l` marks a depreciation of `year`: `l` has aux date
   * December 31 of that year and a code, and the entry passes `marks`.
   */
  predicate QualifiesAt(marks: Entry -> bool, l: Transaction, year: int, i: int) {
    l.auxDate == Date(year, 12, 31) && |l.code| > 0 && 0 <= i < |l.accounts| && marks(l.accounts[i])
  }

  /** A discovered item before construction: its transaction, the depreciation account's name and its id. */
  datatype Found = Found(transaction: Transaction, accountName: string, id: string)

  function FoundIds(out: seq<Found>): (r: seq<string>)
    ensures |r| == |out|
    ensures forall k :: 0 <= k < |out| ==> r[k] == out[k].id
  {
    if out == [] then [] else FoundIds(out[..|out| - 1]) + [out[|out| - 1].id]
  }

  /** The innermost step: entry `i` of `l` is added when it passes `marks` and its id is new. */
  function AfterEntry(marks: Entry -> bool, out: seq<Found>, l: Transaction, i: int): (r: seq<Found>)
    requires 0 <= i < |l.accounts|
    ensures out <= r && |r| <= |out| + 1
  {
    var name := l.accounts[i].name;
    if marks(l.accounts[i]) && GenId(l, name) !in FoundIds(out)
    then out + [Found(l, name, GenId(l, name))]
    else out
  }

  /** The entry loop over the first `k` entries of `l`. */
  function AfterEntries(marks: Entry -> bool, out: seq<Found>, l: Transaction, k: nat): seq<Found>
    requires k <= |l.accounts|
  {
    if k == 0 then out else AfterEntry(marks, AfterEntries(marks, out, l, k - 1), l, k - 1)
  }

  /** The transaction loop over the first `n` transactions of `led`. */
  function Discovered(marks: Entry -> bool, led: seq<Transaction>, year: int, n: nat): seq<Found>
    requires n <= |led|
  {
    if n == 0 then []
    else
      var out := Discovered(marks, led, year, n - 1);
      var l := led[n - 1];
      if l.auxDate == Date(year, 12, 31) && |l.code| > 0 then AfterEntries(marks, out, l, |l.accounts|) else out
  }

  /** `f` comes from a qualifying entry of a transaction of `led` and carries that entry's id. */
  ghost predicate FoundIn(marks: Entry -> bool, led: seq<Transaction>, year: int, f: Found) {
    f.transaction in led && f.id == GenId(f.transaction, f.accountName) &&
    exists i :: QualifiesAt(marks, f.transaction, year, i) && f.accountName == f.transaction.accounts[i].name
  }

  ghost predicate Sound(marks: Entry -> bool, led: seq<Transaction>, year: int, out: seq<Found>) {
    forall k :: 0 <= k < |out| ==> FoundIn(marks, led, year, out[k])
  }

  lemma PrefixTransitive<T>(a: seq<T>, b: seq<T>, c: seq<T>)
    requires a <= b && b <= c
    ensures a <= c
  {
    assert c[..|b|][..|a|] == c[..|a|];
  }

  /** An id of a prefix is an id of the whole list. */
  lemma IdOfPrefix(a: seq<Found>, b: seq<Found>, id: string)
    requires a <= b && id in FoundIds(a)
    ensures id in FoundIds(b)
  {
    var k :| 0 <= k < |a| && FoundIds(a)[k] == id;
    assert b[k] == a[k];
    assert FoundIds(b)[k] == id;
  }

  /** The entry loop only appends. */
  lemma {:induction false} AfterEntriesGrows(marks: Entry -> bool, out: seq<Found>, l: Transaction, j: nat, k: nat)
    requires j <= k <= |l.accounts|
    ensures AfterEntries(marks, out, l, j) <= AfterEntries(marks, out, l, k)
    decreases k
  {
    if j < k {
      AfterEntriesGrows(marks, out, l, j, k - 1);
      PrefixTransitive(AfterEntries(marks, out, l, j), AfterEntries(marks, out, l, k - 1), AfterEntries(marks, out, l, k));
    }
  }

  /** The transaction loop only appends. */
  lemma {:induction false} DiscoveredGrows(marks: Entry -> bool, led: seq<Transaction>, year: int, m: nat, n: nat)
    requires m <= n <= |led|
    ensures Discovered(marks, led, year, m) <= Discovered(marks, led, year, n)
    decreases n
  {
    if m < n {
      DiscoveredGrows(marks, led, year, m, n - 1);
      var l := led[n - 1];
      if l.auxDate == Date(year, 12, 31) && |l.code| > 0 {
        AfterEntriesGrows(marks, Discovered(marks, led, year, n - 1), l, 0, |l.accounts|);
      }
      PrefixTransitive(Discovered(marks, led, year, m), Discovered(marks, led, year, n - 1), Discovered(marks, led, year, n));
    }
  }

  /** Appending an item with a new id keeps the ids unique. */
  lemma AppendFresh(out: seq<Found>, f: Found)
    requires NoDuplicates(FoundIds(out)) && f.id !in FoundIds(out)
    ensures FoundIds(out + [f]) == FoundIds(out) + [f.id]
    ensures NoDuplicates(FoundIds(out + [f]))
  {
    assert (out + [f])[..|out|] == out;
  }

  /** One entry keeps the ids unique. */
  lemma AfterEntryUnique(marks: Entry -> bool, out: seq<Found>, l: Transaction, i: int)
    requires 0 <= i < |l.accounts|
    requires NoDuplicates(FoundIds(out))
    ensures NoDuplicates(FoundIds(AfterEntry(marks, out, l, i)))
  {
    var name := l.accounts[i].name;
    if marks(l.accounts[i]) && GenId(l, name) !in FoundIds(out) {
      AppendFresh(out, Found(l, name, GenId(l, name)));
    }
  }

  /** One entry of a qualifying transaction of `led` keeps every item sound. */
  lemma AfterEntrySound(marks: Entry -> bool, led: seq<Transaction>, out: seq<Found>, l: Transaction, year: int, i: int)
    requires l in led && l.auxDate == Date(year, 12, 31) && |l.code| > 0
    requires 0 <= i < |l.accounts|
    requires Sound(marks, led, year, out)
    ensures Sound(marks, led, year, AfterEntry(marks, out, l, i))
  {
    var name := l.accounts[i].name;
    if marks(l.accounts[i]) && GenId(l, name) !in FoundIds(out) {
      var f := Found(l, name, GenId(l, name));
      assert QualifiesAt(marks, l, year, i);
      assert FoundIn(marks, led, year, f);
      var r := out + [f];
      assert forall k :: 0 <= k < |out| ==> r[k] == out[k];
      assert r[|out|] == f;
    }
  }

  /** The entry loop keeps the ids unique. */
  lemma {:induction false} AfterEntriesUnique(marks: Entry -> bool, out: seq<Found>, l: Transaction, k: nat)
    requires k <= |l.accounts|
    requires NoDuplicates(FoundIds(out))
    ensures NoDuplicates(FoundIds(AfterEntries(marks, out, l, k)))
  {
    if k > 0 {
      AfterEntriesUnique(marks, out, l, k - 1);
      AfterEntryUnique(marks, AfterEntries(marks, out, l, k - 1), l, k - 1);
    }
  }

  /** The entry loop over a qualifying transaction of `led` keeps every item sound. */
  lemma {:induction false} AfterEntriesSound(marks: Entry -> bool, led: seq<Transaction>, out: seq<Found>, l: Transaction,
                                             year: int, k: nat)
    requires l in led && l.auxDate == Date(year, 12, 31) && |l.code| > 0
    requires k <= |l.accounts|
    requires Sound(marks, led, year, out)
    ensures Sound(marks, led, year, AfterEntries(marks, out, l, k))
  {
    if k > 0 {
      AfterEntriesSound(marks, led, out, l, year, k - 1);
      AfterEntrySound(marks, led, AfterEntries(marks, out, l, k - 1), l, year, k - 1);
    }
  }

  /** The discovered items have unique ids. */
  lemma {:induction false} DiscoveredUnique(marks: Entry -> bool, led: seq<Transaction>, year: int, n: nat)
    requires n <= |led|
    ensures NoDuplicates(FoundIds(Discovered(marks, led, year, n)))
  {
    if n > 0 {
      DiscoveredUnique(marks, led, year, n - 1);
      var l := led[n - 1];
      if l.auxDate == Date(year, 12, 31) && |l.code| > 0 {
        AfterEntriesUnique(marks, Discovered(marks, led, year, n - 1), l, |l.accounts|);
      }
    }
  }

  /** Each discovered item comes from a qualifying entry of a transaction of `led` and carries its id. */
  lemma {:induction false} DiscoveredSound(marks: Entry -> bool, led: seq<Transaction>, year: int, n: nat)
    requires n <= |led|
    ensures Sound(marks, led, year, Discovered(marks, led, year, n))
  {
    if n > 0 {
      DiscoveredSound(marks, led, year, n - 1);
      var l := led[n - 1];
      if l.auxDate == Date(year, 12, 31) && |l.code| > 0 {
        AfterEntriesSound(marks, led, Discovered(marks, led, year, n - 1), l, year, |l.accounts|);
      }
    }
  }

  /** After the step for a qualifying entry its id is taken, by it or by an earlier item. */
  lemma AfterEntryCovers(marks: Entry -> bool, out: seq<Found>, l: Transaction, year: int, i: int)
    requires QualifiesAt(marks, l, year, i)
    ensures GenId(l, l.accounts[i].name) in FoundIds(AfterEntry(marks, out, l, i))
  {
    var f := Found(l, l.accounts[i].name, GenId(l, l.accounts[i].name));
    if f.id !in FoundIds(out) {
      assert FoundIds(out + [f])[|out|] == f.id;
    }
  }

  /** Every qualifying entry among the first `k` of `l` has its id taken after the entry loop. */
  lemma AfterEntriesCovers(marks: Entry -> bool, out: seq<Found>, l: Transaction, year: int, k: nat, i: int)
    requires QualifiesAt(marks, l, year, i) && i < k <= |l.accounts|
    ensures GenId(l, l.accounts[i].name) in FoundIds(AfterEntries(marks, out, l, k))
  {
    AfterEntryCovers(marks, AfterEntries(marks, out, l, i), l, year, i);
    assert AfterEntries(marks, out, l, i + 1) == AfterEntry(marks, AfterEntries(marks, out, l, i), l, i);
    AfterEntriesGrows(marks, out, l, i + 1, k);
    IdOfPrefix(AfterEntries(marks, out, l, i + 1), AfterEntries(marks, out, l, k), GenId(l, l.accounts[i].name));
  }

  /** Completeness: every qualifying entry of the first `n` transactions has its id taken. */
  lemma DiscoveredCovers(marks: Entry -> bool, led: seq<Transaction>, year: int, n: nat, m: nat, i: int)
    requires m < n <= |led| && QualifiesAt(marks, led[m], year, i)
    ensures GenId(led[m], led[m].accounts[i].name) in FoundIds(Discovered(marks, led, year, n))
  {
    var l := led[m];
    assert Discovered(marks, led, year, m + 1) == AfterEntries(marks, Discovered(marks, led, year, m), l, |l.accounts|);
    AfterEntriesCovers(marks, Discovered(marks, led, year, m), l, year, |l.accounts|, i);
    DiscoveredGrows(marks, led, year, m + 1, n);
    IdOfPrefix(Discovered(marks, led, year, m + 1), Discovered(marks, led, year, n), GenId(l, l.accounts[i].name));
  }

  /** The ids of constructed items: the list the script checks for an existing id. */
  function Ids(ts: seq<AfaTransaction>): (r: seq<string>)
    ensures |r| == |ts|
    ensures forall k :: 0 <= k < |ts| ==> r[k] == ts[k].id
  {
    if ts == [] then [] else Ids(ts[..|ts| - 1]) + [ts[|ts| - 1].id]
  }

  /** The constructed items match the found ones, one to one. */
  ghost predicate Matches(ts: seq<AfaTransaction>, out: seq<Found>) {
    |ts| == |out| &&
    forall k :: 0 <= k < |ts| ==> ts[k].transaction == out[k].transaction && ts[k].id == out[k].id
  }

  /** Matching items have the same ids, in the same order. */
  lemma MatchesIds(ts: seq<AfaTransaction>, out: seq<Found>)
    requires Matches(ts, out)
    ensures Ids(ts) == FoundIds(out)
  {
  }

  /** Appending a built item for a found one keeps them matched. */
  lemma MatchesSnoc(ts: seq<AfaTransaction>, out: seq<Found>, t: AfaTransaction, f: Found)
    requires Matches(ts, out) && t.transaction == f.transaction && t.id == f.id
    ensures Matches(ts + [t], out + [f])
  {
    assert forall k :: 0 <= k < |ts| ==> (ts + [t])[k] == ts[k] && (out + [f])[k] == out[k];
  }

  /**
   * `t` holds what the constructor computes for the found entry `f`: the
   * first negative entry's account, the running minimum from `now` as buy
   * date and cost, and the book values at the start and the end of `year`.
   */
  ghost predicate Computed(t: AfaTransaction, f: Found, led: seq<Transaction>, year: int, now: Moment)
    reads t
  {
    && t.account == FirstNegative(f.transaction.accounts, f.accountName)
    && Candidate(t.buyDate, t.totalCosts) == RunningMin(Candidate(now, 0), Candidates(led, t.transaction.code, t.account))
    && t.costsBegin == t.totalCosts - Deducted(led, t.transaction.code, t.account, t.buyDate.date.year, year)
    && t.costsEnd == t.totalCosts - Deducted(led, t.transaction.code, t.account, t.buyDate.date.year, year + 1)
    && t.Valid()
  }

  /** Every constructed item holds what the constructor computes for its found entry. */
  ghost predicate AllComputed(ts: seq<AfaTransaction>, out: seq<Found>, led: seq<Transaction>, year: int, now: Moment)
    reads set k | 0 <= k < |ts| :: ts[k]
  {
    |ts| == |out| && forall k :: 0 <= k < |ts| ==> Computed(ts[k], out[k], led, year, now)
  }

  /** Appending a constructed item that holds the constructor's values for a found entry keeps them all computed. */
  lemma ComputedSnoc(ts: seq<AfaTransaction>, out: seq<Found>, t: AfaTransaction, f: Found,
                     led: seq<Transaction>, year: int, now: Moment)
    requires AllComputed(ts, out, led, year, now) && Computed(t, f, led, year, now)
    ensures AllComputed(ts + [t], out + [f], led, year, now)
  {
    assert forall k :: 0 <= k < |ts| ==> (ts + [t])[k] == ts[k] && (out + [f])[k] == out[k];
  }

  /**
   * One pass of the entry loop: entry `i` of `l` gets a constructed item when
   * it passes the script's test and its id is not taken yet. `ts0` holds the
   * items built for the first `i` entries, starting from those for `base`.
   */
  method DiscoverAtEntry(led: seq<Transaction>, l: Transaction, i: nat, year: int, now: Moment,
                         ts0: seq<AfaTransaction>, ghost base: seq<Found>)
    returns (ts: seq<AfaTransaction>)
    requires i < |l.accounts|
    requires Matches(ts0, AfterEntries(MarksDepreciation, base, l, i))
    requires AllComputed(ts0, AfterEntries(MarksDepreciation, base, l, i), led, year, now)
    ensures Matches(ts, AfterEntries(MarksDepreciation, base, l, i + 1))
    ensures AllComputed(ts, AfterEntries(MarksDepreciation, base, l, i + 1), led, year, now)
  {
    ghost var out0 := AfterEntries(MarksDepreciation, base, l, i);
    assert AfterEntries(MarksDepreciation, base, l, i + 1) == AfterEntry(MarksDepreciation, out0, l, i);
    var acc := l.accounts[i];
    MatchesIds(ts0, out0);
    if MarksDepreciation(acc) && GenId(l, acc.name) !in Ids(ts0) {
      var t := new AfaTransaction(l, acc.name, led, year, now);
      MatchesSnoc(ts0, out0, t, Found(l, acc.name, GenId(l, acc.name)));
      ComputedSnoc(ts0, out0, t, Found(l, acc.name, GenId(l, acc.name)), led, year, now);
      ts := ts0 + [t];
    } else {
      ts := ts0;
    }
  }

  /** The entry loop for one transaction `l` that has the year's aux date and a code. */
  method DiscoverInTransaction(led: seq<Transaction>, l: Transaction, year: int, now: Moment,
                               ts0: seq<AfaTransaction>, ghost out0: seq<Found>)
    returns (ts: seq<AfaTransaction>)
    requires Matches(ts0, out0)
    requires AllComputed(ts0, out0, led, year, now)
    ensures Matches(ts, AfterEntries(MarksDepreciation, out0, l, |l.accounts|))
    ensures AllComputed(ts, AfterEntries(MarksDepreciation, out0, l, |l.accounts|), led, year, now)
  {
    ts := ts0;
    for i := 0 to |l.accounts|
      invariant Matches(ts, AfterEntries(MarksDepreciation, out0, l, i))
      invariant AllComputed(ts, AfterEntries(MarksDepreciation, out0, l, i), led, year, now)
    {
      ts := DiscoverAtEntry(led, l, i, year, now, ts, out0);
    }
  }

  /** The items built for the found ones carry unique ids. */
  lemma MatchedAreUnique(led: seq<Transaction>, year: int, ts: seq<AfaTransaction>)
    requires Matches(ts, Discovered(MarksDepreciation, led, year, |led|))
    ensures NoDuplicates(Ids(ts))
  {
    DiscoveredUnique(MarksDepreciation, led, year, |led|);
    MatchesIds(ts, Discovered(MarksDepreciation, led, year, |led|));
  }

  /** `t` was built for a qualifying entry of its transaction and carries that entry's id. */
  ghost predicate BuiltFrom(t: AfaTransaction, year: int) {
    exists i :: QualifiesAt(MarksDepreciation, t.transaction, year, i) &&
      t.id == GenId(t.transaction, t.transaction.accounts[i].name)
  }

  /** Each item built for a found one comes from a qualifying entry of a transaction of the journal. */
  lemma MatchedAreSound(led: seq<Transaction>, year: int, ts: seq<AfaTransaction>)
    requires Matches(ts, Discovered(MarksDepreciation, led, year, |led|))
    ensures forall k :: 0 <= k < |ts| ==> ts[k].transaction in led
    ensures forall k :: 0 <= k < |ts| ==> BuiltFrom(ts[k], year)
  {
    var found := Discovered(MarksDepreciation, led, year, |led|);
    DiscoveredSound(MarksDepreciation, led, year, |led|);
    forall k | 0 <= k < |ts|
      ensures ts[k].transaction in led
      ensures BuiltFrom(ts[k], year)
    {
      assert FoundIn(MarksDepreciation, led, year, found[k]);
      var i :| QualifiesAt(MarksDepreciation, found[k].transaction, year, i) &&
        found[k].accountName == found[k].transaction.accounts[i].name;
      assert QualifiesAt(MarksDepreciation, ts[k].transaction, year, i);
    }
  }

  /** Every qualifying entry of the journal has its id among the items built for the found ones. */
  lemma MatchedAreComplete(led: seq<Transaction>, year: int, ts: seq<AfaTransaction>)
    requires Matches(ts, Discovered(MarksDepreciation, led, year, |led|))
    ensures forall m, i :: 0 <= m < |led| && QualifiesAt(MarksDepreciation, led[m], year, i) ==>
      GenId(led[m], led[m].accounts[i].name) in Ids(ts)
  {
    MatchesIds(ts, Discovered(MarksDepreciation, led, year, |led|));
    forall m, i | 0 <= m < |led| && QualifiesAt(MarksDepreciation, led[m], year, i)
      ensures GenId(led[m], led[m].accounts[i].name) in Ids(ts)
    {
      DiscoveredCovers(MarksDepreciation, led, year, |led|, m, i);
    }
  }

  /**
   * The script body: walk the journal and construct an item for every
   * qualifying entry whose id is not yet taken. `datetime.now()` is `now`.
   */
  method DiscoverTransactions(led: seq<Transaction>, year: int, now: Moment) returns (ts: seq<AfaTransaction>)
    ensures Matches(ts, Discovered(MarksDepreciation, led, year, |led|))
    ensures NoDuplicates(Ids(ts))
    ensures forall k :: 0 <= k < |ts| ==> ts[k].transaction in led
    ensures forall k :: 0 <= k < |ts| ==> BuiltFrom(ts[k], year)
    ensures forall m, i :: 0 <= m < |led| && QualifiesAt(MarksDepreciation, led[m], year, i) ==>
      GenId(led[m], led[m].accounts[i].name) in Ids(ts)
    ensures AllComputed(ts, Discovered(MarksDepreciation, led, year, |led|), led, year, now)
  {
    ts := [];
    for n := 0 to |led|
      invariant Matches(ts, Discovered(MarksDepreciation, led, year, n))
      invariant AllComputed(ts, Discovered(MarksDepreciation, led, year, n), led, year, now)
    {
      var l := led[n];
      if l.auxDate == Date(year, 12, 31) && |l.code| > 0 {
        ts := DiscoverInTransaction(led, l, year, now, ts, Discovered(MarksDepreciation, led, year, n));
      }
    }
    MatchedAreUnique(led, year, ts);
    MatchedAreSound(led, year, ts);
    MatchedAreComplete(led, year, ts);
  }
}

/**
 * The current depreciation ("AfA") report over a ledger journal: select the
 * depreciation postings of a year, trace them back to the asset accounts and
 * their transactions, value each asset and lay out the report table.
 */
module LedgerAfa {
  import opened Wrappers
  import opened Ledger
  import opened Accounts

  /** The errors the report raises: an unknown account, and the two per-asset failures. */
  datatype AfaError =
    | AccountNotFound(pattern: string)
    | NoPostsWithCode(account: string, code: string)
    | FirstPostNotUnique(account: string, code: string)

  // ---------------------------------------------------------------------------
  // Selecting the depreciation postings of the year

  /**
   * `get_afa_posts`: the postings of the year booked to the depreciation
   * account `top` (what the journal's lookup of `pattern` found) or to any
   * account below it.
   */
  function GetAfaPosts(j: Journal, pattern: string, top: Option<Account>, year: int): (r: Result<seq<Posting>, AfaError>)
    ensures r.Failure? <==> top.None?
    ensures r.Failure? ==> r.error == AccountNotFound(pattern)
    ensures r.Success? ==> forall p :: p in r.value <==>
      p in j.posts && p.date.year == year && InSubtree(p.account, top.value)
  {
    match top
    case None => Failure(AccountNotFound(pattern))
    case Some(t) => Success(PostsWhere(SubtreePosts(j, t), (p: Posting) => p.date.year == year))
  }

  // ---------------------------------------------------------------------------
  // Discovering the assets

  /**
   * `key` names an asset reached from `posts`: a posting of the transaction of
   * one of `posts`, booked to another account than that posting, gives the
   * pair (its account, its transaction).
   */
  ghost predicate Discovered(j: Journal, posts: seq<Posting>, key: (string, Xact)) {
    exists post, p :: post in posts && p in XactPosts(j, post.xact) &&
      p.account != post.account && key == (p.account, p.xact)
  }

  /**
   * `get_inventory`: the set of (asset account, transaction) pairs reached from
   * the depreciation postings. Accounts are compared by full name, so a pair
   * reached twice is kept once.
   */
  method GetInventory(j: Journal, posts: seq<Posting>) returns (inventory: set<(string, Xact)>)
    ensures forall key :: key in inventory <==> Discovered(j, posts, key)
  {
    inventory := {};
    for i := 0 to |posts|
      invariant forall key :: key in inventory <==> Discovered(j, posts[..i], key)
    {
      var post := posts[i];
      var others := set p | p in XactPosts(j, post.xact) && p.account != post.account :: (p.account, p.xact);
      assert posts[..i + 1] == posts[..i] + [post];
      inventory := inventory + others;
    }
    assert posts[..|posts|] == posts;
  }

  // ---------------------------------------------------------------------------
  // Valuing one asset

  /** One line of the report: an asset and its four money figures for `year`. */
  datatype InventoryItem = InventoryItem(
    code: string,
    item: string,
    account: string,
    year: int,
    buyDate: Date,
    totalValue: int,
    lastYearValue: int,
    deprecationAmount: int,
    nextYearValue: int)

  function WithCode(code: string): Posting -> bool {
    (p: Posting) => p.xact.code == code
  }

  function FirstPostKeep(code: string, buyDate: Date): Posting -> bool {
    (p: Posting) => p.xact.code == code && p.date == buyDate && p.amount > 0
  }

  /** The postings of `ps` whose transaction carries `code`. */
  function CodePosts(ps: seq<Posting>, code: string): seq<Posting> {
    PostsWhere(ps, WithCode(code))
  }

  /** The candidates for `first_post`: positive postings with `code` on the buy date. */
  function FirstPostCandidates(ps: seq<Posting>, code: string, buyDate: Date): seq<Posting> {
    PostsWhere(ps, FirstPostKeep(code, buyDate))
  }

  /**
   * The contribution of posting `p` to `total_value` as the code computes it:
   * `abs(p.amount)` once for every negative posting of `pns` other than `p`,
   * when `p` carries `code` and lies on the buy date.
   */
  function PairValue(p: Posting, pns: seq<Posting>, code: string, buyDate: Date): (r: int)
    ensures r >= 0
  {
    if pns == [] then 0
    else
      (if p.date == buyDate && p.xact.code == code && pns[0].amount < 0 && p.id != pns[0].id
       then Abs(p.amount) else 0)
      + PairValue(p, pns[1..], code, buyDate)
  }

  /** The number of negative postings of `pns` other than `p`: the postings that pay for `p`. */
  function Funders(p: Posting, pns: seq<Posting>): nat {
    if pns == [] then 0
    else (if pns[0].amount < 0 && p.id != pns[0].id then 1 else 0) + Funders(p, pns[1..])
  }

  /** Some posting of `pns` other than `p` is negative, so it pays for `p`. */
  predicate HasFunder(p: Posting, pns: seq<Posting>) {
    exists k :: 0 <= k < |pns| && pns[k].amount < 0 && p.id != pns[k].id
  }

  /** As written, `p` is counted once per funding posting: a purchase paid in two parts counts twice. */
  lemma {:induction false} PairValueCountsFunders(p: Posting, pns: seq<Posting>, code: string, buyDate: Date)
    ensures PairValue(p, pns, code, buyDate) ==
      if p.date == buyDate && p.xact.code == code then Abs(p.amount) * Funders(p, pns) else 0
  {
    if pns != [] {
      PairValueCountsFunders(p, pns[1..], code, buyDate);
    }
  }

  /** There are funding postings exactly when some posting pays for `p`. */
  lemma {:induction false} FundersIffHasFunder(p: Posting, pns: seq<Posting>)
    ensures Funders(p, pns) > 0 <==> HasFunder(p, pns)
  {
    if pns != [] {
      FundersIffHasFunder(p, pns[1..]);
      if HasFunder(p, pns[1..]) {
        var k :| 0 <= k < |pns[1..]| && pns[1..][k].amount < 0 && p.id != pns[1..][k].id;
        assert pns[k + 1] == pns[1..][k];
      }
      if HasFunder(p, pns) && !(pns[0].amount < 0 && p.id != pns[0].id) {
        var k :| 0 <= k < |pns| && pns[k].amount < 0 && p.id != pns[k].id;
        assert k > 0 && pns[1..][k - 1] == pns[k];
      }
    }
  }

  /**
   * The contribution of `p` to `total_value` as the comment of the code
   * describes it: `abs(p.amount)` once when `p` carries `code`, lies on the buy
   * date and some other posting of its transaction pays for it.
   */
  function PaidValue(p: Posting, pns: seq<Posting>, code: string, buyDate: Date): (r: int)
    ensures 0 <= r <= Abs(p.amount)
  {
    if p.date == buyDate && p.xact.code == code && HasFunder(p, pns) then Abs(p.amount) else 0
  }

  /** With at most one funding posting the code and its described purpose agree. */
  lemma PaidValueAgreesWithOneFunder(p: Posting, pns: seq<Posting>, code: string, buyDate: Date)
    requires Funders(p, pns) <= 1
    ensures PaidValue(p, pns, code, buyDate) == PairValue(p, pns, code, buyDate)
  {
    PairValueCountsFunders(p, pns, code, buyDate);
    FundersIffHasFunder(p, pns);
  }

  /** `total_value` as the code computes it: the pair values of the asset's postings, each against its own transaction. */
  function TotalValueAsWritten(j: Journal, ps: seq<Posting>, code: string, buyDate: Date): (r: int)
    ensures r >= 0
  {
    if ps == [] then 0
    else PairValue(ps[0], XactPosts(j, ps[0].xact), code, buyDate) + TotalValueAsWritten(j, ps[1..], code, buyDate)
  }

  /** `total_value` with each purchase posting counted once. */
  function TotalValue(j: Journal, ps: seq<Posting>, code: string, buyDate: Date): (r: int)
    ensures r >= 0
  {
    if ps == [] then 0
    else PaidValue(ps[0], XactPosts(j, ps[0].xact), code, buyDate) + TotalValue(j, ps[1..], code, buyDate)
  }

  /** When no posting of the asset is paid by more than one posting, both totals agree. */
  lemma {:induction false} TotalValueAgreesWithOneFunder(j: Journal, ps: seq<Posting>, code: string, buyDate: Date)
    requires forall k :: 0 <= k < |ps| ==> Funders(ps[k], XactPosts(j, ps[k].xact)) <= 1
    ensures TotalValue(j, ps, code, buyDate) == TotalValueAsWritten(j, ps, code, buyDate)
  {
    if ps != [] {
      assert forall k :: 0 <= k < |ps[1..]| ==> ps[1..][k] == ps[k + 1];
      TotalValueAgreesWithOneFunder(j, ps[1..], code, buyDate);
      PaidValueAgreesWithOneFunder(ps[0], XactPosts(j, ps[0].xact), code, buyDate);
    }
  }

  /** The postings summed into `last_year_value`: earlier years, plus purchases of the year. */
  function OpeningKeep(code: string, year: int): Posting -> bool {
    (p: Posting) =>
      (p.date.year < year && p.xact.code == code) ||
      (p.date.year == year && p.amount > 0 && p.xact.code == code)
  }

  /** The postings summed into `next_year_value`: everything up to the end of the year. */
  function ClosingKeep(code: string, year: int): Posting -> bool {
    (p: Posting) => p.date.year <= year && p.xact.code == code
  }

  /** The postings summed into `deprecation_amount`: negative postings of the year but the first post. */
  function DepreciationKeep(code: string, year: int, firstId: nat): Posting -> bool {
    (p: Posting) => p.date.year == year && p.id != firstId && p.amount < 0 && p.xact.code == code
  }

  /** `d` is the earliest date of the postings of `ps` that carry `code`. */
  ghost predicate EarliestCodeDate(ps: seq<Posting>, code: string, d: Date) {
    && (exists p :: p in ps && p.xact.code == code && p.date == d)
    && (forall p :: p in ps && p.xact.code == code ==> DateLe(d, p.date))
  }

  /** `buy_date`: the minimum date of the postings of `ps` that carry `code`. */
  function BuyDate(ps: seq<Posting>, code: string): (d: Date)
    requires CodePosts(ps, code) != []
    ensures EarliestCodeDate(ps, code, d)
  {
    var coded := CodePosts(ps, code);
    var d := MinDate(Dates(coded));
    var k :| 0 <= k < |coded| && Dates(coded)[k] == d;
    assert coded[k] in ps;
    assert forall p :: p in ps && p.xact.code == code ==> DateLe(d, p.date) by {
      forall p | p in ps && p.xact.code == code
        ensures DateLe(d, p.date)
      {
        assert p in coded;
        var m :| 0 <= m < |coded| && coded[m] == p;
        assert Dates(coded)[m] in Dates(coded);
      }
    }
    d
  }

  lemma EarliestCodeDateIsUnique(ps: seq<Posting>, code: string, d: Date)
    requires EarliestCodeDate(ps, code, d)
    ensures forall e :: EarliestCodeDate(ps, code, e) ==> e == d
  {
  }

  /**
   * `InventoryItem(account, xact, year)`: values the asset booked to `account`
   * whose purchase carries the code of `xact`. It fails when no posting of the
   * account carries that code (Python's `min` of nothing) and when the earliest
   * such date does not have exactly one positive posting, the first post.
   */
  function MakeInventoryItem(j: Journal, account: string, xact: Xact, year: int): (r: Result<InventoryItem, AfaError>)
    ensures r.Failure? ==> r.error == NoPostsWithCode(account, xact.code) || r.error == FirstPostNotUnique(account, xact.code)
    ensures r == Failure(NoPostsWithCode(account, xact.code)) <==>
      forall p :: p in AccountPosts(j, account) ==> p.xact.code != xact.code
    ensures r == Failure(FirstPostNotUnique(account, xact.code)) <==>
      exists d :: EarliestCodeDate(AccountPosts(j, account), xact.code, d) &&
        |FirstPostCandidates(AccountPosts(j, account), xact.code, d)| != 1
    ensures r.Success? ==>
      var it := r.value;
      var ps := AccountPosts(j, account);
      && it.code == xact.code && it.account == account && it.item == LeafName(account) && it.year == year
      && EarliestCodeDate(ps, xact.code, it.buyDate)
      && |FirstPostCandidates(ps, xact.code, it.buyDate)| == 1
      && it.totalValue >= 0
      && it.deprecationAmount <= 0
    ensures r.Success? ==>
      var it := r.value;
      var ps := AccountPosts(j, account);
      && it.totalValue == TotalValue(j, ps, xact.code, it.buyDate)
      && it.lastYearValue == SumWhere(ps, OpeningKeep(xact.code, year))
      && it.nextYearValue == SumWhere(ps, ClosingKeep(xact.code, year))
      && it.deprecationAmount == SumWhere(ps, DepreciationKeep(xact.code, year, FirstPostCandidates(ps, xact.code, it.buyDate)[0].id))
  {
    var ps := AccountPosts(j, account);
    var code := xact.code;
    if CodePosts(ps, code) == [] then Failure(NoPostsWithCode(account, code))
    else
      var buyDate := BuyDate(ps, code);
      EarliestCodeDateIsUnique(ps, code, buyDate);
      var firsts := FirstPostCandidates(ps, code, buyDate);
      if |firsts| != 1 then Failure(FirstPostNotUnique(account, code))
      else
        var first := firsts[0];
        SumWhereNonPositive(ps, DepreciationKeep(code, year, first.id));
        Success(InventoryItem(
          code, LeafName(account), account, year, buyDate,
          TotalValue(j, ps, code, buyDate),
          SumWhere(ps, OpeningKeep(code, year)),
          SumWhere(ps, DepreciationKeep(code, year, first.id)),
          SumWhere(ps, ClosingKeep(code, year))))
  }

  /**
   * When the first post resolves and posting identifiers are unique, the book
   * value at the end of the year is the opening book value plus the year's
   * depreciation: the first post is positive, so excluding it by identifier
   * never drops a negative posting.
   */
  lemma ClosingIsOpeningPlusDepreciation(j: Journal, account: string, xact: Xact, year: int)
    ensures UniquePostIds(j) && MakeInventoryItem(j, account, xact, year).Success? ==>
      var it := MakeInventoryItem(j, account, xact, year).value;
      it.nextYearValue == it.lastYearValue + it.deprecationAmount
  {
    if UniquePostIds(j) && MakeInventoryItem(j, account, xact, year).Success? {
      var ps := AccountPosts(j, account);
      var code := xact.code;
      var first := FirstPostCandidates(ps, code, BuyDate(ps, code))[0];
      assert first in FirstPostCandidates(ps, code, BuyDate(ps, code));
      FirstPostIsNotDepreciation(j, ps, first, year, code);
      YearIdentity(ps, code, year, first.id);
    }
  }

  /** No negative posting of the asset shares its identifier with the (positive) first post. */
  lemma FirstPostIsNotDepreciation(j: Journal, ps: seq<Posting>, first: Posting, year: int, code: string)
    requires UniquePostIds(j)
    requires forall p :: p in ps ==> p in j.posts
    requires first in j.posts && first.amount > 0
    ensures forall p :: p in ps && p.amount < 0 ==> p.id != first.id
  {
    forall p | p in ps && p.amount < 0
      ensures p.id != first.id
    {
      var m :| 0 <= m < |j.posts| && j.posts[m] == p;
      var n :| 0 <= n < |j.posts| && j.posts[n] == first;
    }
  }

  /**
   * Opening value plus depreciation is the closing value, posting by posting,
   * as long as no negative posting shares the excluded identifier.
   */
  lemma YearIdentity(ps: seq<Posting>, code: string, year: int, firstId: nat)
    requires forall p :: p in ps && p.amount < 0 ==> p.id != firstId
    ensures SumWhere(ps, ClosingKeep(code, year)) ==
      SumWhere(ps, OpeningKeep(code, year)) + SumWhere(ps, DepreciationKeep(code, year, firstId))
  {
    SumWhereAdditive(ps, ClosingKeep(code, year), OpeningKeep(code, year), DepreciationKeep(code, year, firstId));
  }

  /**
   * With no purchase in `year + 1`, the book value at the end of `year + 1` is
   * at most the one at the end of `year`.
   */
  lemma {:induction false} BookValueDoesNotGrowWithoutPurchases(ps: seq<Posting>, code: string, year: int)
    requires forall p :: p in ps && p.date.year == year + 1 && p.xact.code == code ==> p.amount <= 0
    ensures SumWhere(ps, ClosingKeep(code, year + 1)) <= SumWhere(ps, ClosingKeep(code, year))
  {
    var next := (p: Posting) => p.date.year == year + 1 && p.xact.code == code;
    SumWhereAdditive(ps, ClosingKeep(code, year + 1), ClosingKeep(code, year), next);
    SumWhereNonPositive(ps, next);
  }

  // ---------------------------------------------------------------------------
  // The report table

  /** The four money columns of a row, or their sums in the footer. */
  datatype Totals = Totals(totalValue: int, lastYearValue: int, deprecationAmount: int, nextYearValue: int)

  /** A table row: the header (labelled with the two years), an item, or the footer. */
  datatype Row = HeaderRow(lastYear: int, year: int) | ItemRow(item: InventoryItem) | FooterRow(totals: Totals)

  function Columns(it: InventoryItem): Totals {
    Totals(it.totalValue, it.lastYearValue, it.deprecationAmount, it.nextYearValue)
  }

  function Plus(a: Totals, b: Totals): Totals {
    Totals(a.totalValue + b.totalValue, a.lastYearValue + b.lastYearValue,
           a.deprecationAmount + b.deprecationAmount, a.nextYearValue + b.nextYearValue)
  }

  /** The four `sum(i.<column> for i in items)` of the footer. */
  function ColumnTotals(items: seq<InventoryItem>): Totals {
    if items == [] then Totals(0, 0, 0, 0) else Plus(Columns(items[0]), ColumnTotals(items[1..]))
  }

  ghost predicate SortedByBuyDate(items: seq<InventoryItem>) {
    forall a, b :: 0 <= a < b < |items| ==> DateLe(items[a].buyDate, items[b].buyDate)
  }

  /** Inserts `x` in front of the first element of `s` that is not bought before it. */
  function InsertByBuyDate(x: InventoryItem, s: seq<InventoryItem>): (r: seq<InventoryItem>)
    ensures |r| == |s| + 1
  {
    if s == [] then [x]
    else if DateLe(x.buyDate, s[0].buyDate) then [x] + s
    else [s[0]] + InsertByBuyDate(x, s[1..])
  }

  /** Inserting adds exactly `x`: the result is a permutation of `s` with `x`. */
  lemma {:induction false} InsertAddsItem(x: InventoryItem, s: seq<InventoryItem>)
    ensures multiset(InsertByBuyDate(x, s)) == multiset(s) + multiset{x}
  {
    if s != [] && !DateLe(x.buyDate, s[0].buyDate) {
      InsertAddsItem(x, s[1..]);
      assert s == [s[0]] + s[1..];
    }
  }

  /** Every item of an insertion is bought no earlier than `d` when `x` and every item of `s` are. */
  lemma {:induction false} InsertKeepsLowerBound(x: InventoryItem, s: seq<InventoryItem>, d: Date)
    requires DateLe(d, x.buyDate)
    requires forall k :: 0 <= k < |s| ==> DateLe(d, s[k].buyDate)
    ensures forall k :: 0 <= k < |s| + 1 ==> DateLe(d, InsertByBuyDate(x, s)[k].buyDate)
  {
    if s != [] && !DateLe(x.buyDate, s[0].buyDate) {
      InsertKeepsLowerBound(x, s[1..], d);
      var r := InsertByBuyDate(x, s);
      assert forall k :: 1 <= k < |r| ==> r[k] == InsertByBuyDate(x, s[1..])[k - 1];
    }
  }

  lemma {:induction false} InsertKeepsSorted(x: InventoryItem, s: seq<InventoryItem>)
    requires SortedByBuyDate(s)
    ensures SortedByBuyDate(InsertByBuyDate(x, s))
  {
    if s != [] && !DateLe(x.buyDate, s[0].buyDate) {
      var rest := InsertByBuyDate(x, s[1..]);
      InsertKeepsSorted(x, s[1..]);
      assert DateLe(s[0].buyDate, x.buyDate);
      InsertKeepsLowerBound(x, s[1..], s[0].buyDate);
      var r := InsertByBuyDate(x, s);
      assert r == [s[0]] + rest;
      forall a, b | 0 <= a < b < |r|
        ensures DateLe(r[a].buyDate, r[b].buyDate)
      {
        assert r[b] == rest[b - 1];
        if a > 0 {
          assert r[a] == rest[a - 1];
        }
      }
    }
  }

  lemma {:induction false} InsertAddsColumns(x: InventoryItem, s: seq<InventoryItem>)
    ensures ColumnTotals(InsertByBuyDate(x, s)) == Plus(Columns(x), ColumnTotals(s))
  {
    if s != [] && !DateLe(x.buyDate, s[0].buyDate) {
      InsertAddsColumns(x, s[1..]);
      assert InsertByBuyDate(x, s)[1..] == InsertByBuyDate(x, s[1..]);
    }
  }

  /**
   * `sorted(items, key=lambda y: y.buy_date)`: the items ordered by buy date;
   * sorting does not change the column sums.
   */
  function SortByBuyDate(items: seq<InventoryItem>): (r: seq<InventoryItem>)
    ensures |r| == |items|
    ensures multiset(r) == multiset(items)
    ensures SortedByBuyDate(r)
    ensures ColumnTotals(r) == ColumnTotals(items)
  {
    if items == [] then []
    else
      assert items == [items[0]] + items[1..];
      var rest := SortByBuyDate(items[1..]);
      InsertAddsItem(items[0], rest);
      InsertKeepsSorted(items[0], rest);
      InsertAddsColumns(items[0], rest);
      InsertByBuyDate(items[0], rest)
  }

  /**
   * `create_table`: a header row, the items sorted by buy date, and a footer
   * holding the column sums, which equal the sums over the rows shown.
   */
  method CreateTable(items: seq<InventoryItem>, year: int) returns (table: seq<Row>)
    ensures |table| == |items| + 2
    ensures table[0] == HeaderRow(year - 1, year)
    ensures forall k :: 1 <= k <= |items| ==> table[k] == ItemRow(SortByBuyDate(items)[k - 1])
    ensures table[|items| + 1] == FooterRow(ColumnTotals(items))
    ensures table[|items| + 1] == FooterRow(ColumnTotals(SortByBuyDate(items)))
  {
    table := [HeaderRow(year - 1, year)];
    var totals := ColumnTotals(items);
    var sorted := SortByBuyDate(items);
    for i := 0 to |sorted|
      invariant |table| == i + 1 && table[0] == HeaderRow(year - 1, year)
      invariant forall k :: 0 <= k < i ==> table[k + 1] == ItemRow(sorted[k])
    {
      table := table + [ItemRow(sorted[i])];
    }
    table := table + [FooterRow(totals)];
  }

  /** The footer keeps what every item keeps: the closing identity and the signs of the columns. */
  lemma {:induction false} FooterKeepsItemFacts(items: seq<InventoryItem>)
    requires forall k :: 0 <= k < |items| ==> items[k].nextYearValue == items[k].lastYearValue + items[k].deprecationAmount
    requires forall k :: 0 <= k < |items| ==> items[k].totalValue >= 0 && items[k].deprecationAmount <= 0
    ensures var t := ColumnTotals(items);
      t.nextYearValue == t.lastYearValue + t.deprecationAmount && t.totalValue >= 0 && t.deprecationAmount <= 0
  {
    if items != [] {
      assert forall k :: 0 <= k < |items[1..]| ==> items[1..][k] == items[k + 1];
      FooterKeepsItemFacts(items[1..]);
    }
  }
}

/**
 * The older depreciation report: it walks the same account tree, discovers the
 * inventory accounts with an order-keeping list instead of a set, and selects
 * the year-end depreciation transactions by their code.
 */
module LedgerAfaOld {
  import opened Ledger
  import opened Accounts

  /**
   * `AfaTransactions.get_afa_posts`: every posting of the depreciation account
   * `top` and of the accounts below it, of any year. The journal's
   * `find_account` creates a missing account, so there is no failure here.
   */
  function GetAfaPosts(j: Journal, top: Account): (r: seq<Posting>)
    ensures forall p :: p in r <==> p in j.posts && InSubtree(p.account, top)
  {
    SubtreePosts(j, top)
  }

  // ---------------------------------------------------------------------------
  // Discovering the inventory accounts

  /** The account names of the postings of `ps` that are not booked to `current`, in order. */
  function OthersIn(ps: seq<Posting>, current: string): (r: seq<string>)
    ensures forall a :: a in r <==> a != current && exists p :: p in ps && p.account == a
  {
    if ps == [] then []
    else
      var rest := OthersIn(ps[1..], current);
      assert forall p :: p in ps <==> p == ps[0] || p in ps[1..];
      (if ps[0].account != current then [ps[0].account] else []) + rest
  }

  /** `other_accounts`: the other accounts of the transaction of `post`. */
  function OtherAccounts(j: Journal, post: Posting): seq<string> {
    OthersIn(XactPosts(j, post.xact), post.account)
  }

  /** `new_accounts`: the accounts of `others` that `known` does not hold yet, in order. */
  function NotKnown(others: seq<string>, known: seq<string>): (r: seq<string>)
    ensures forall a :: a in r <==> a in others && a !in known
  {
    if others == [] then []
    else
      var last := others[|others| - 1];
      assert others == others[..|others| - 1] + [last];
      NotKnown(others[..|others| - 1], known) + (if last in known then [] else [last])
  }

  /**
   * `get_inventory_accounts` as written: each transaction's new accounts are
   * checked against the inventory as it was before that transaction, so one
   * account booked twice in the same transaction enters the list twice.
   */
  function InventoryAccountsAsWritten(j: Journal, posts: seq<Posting>): seq<string> {
    if posts == [] then []
    else
      var inventory := InventoryAccountsAsWritten(j, posts[..|posts| - 1]);
      inventory + NotKnown(OtherAccounts(j, posts[|posts| - 1]), inventory)
  }

  /** All other accounts of the transactions of `posts`, transaction by transaction. */
  function AllOtherAccounts(j: Journal, posts: seq<Posting>): (r: seq<string>)
    ensures forall a :: a in r <==> exists k :: 0 <= k < |posts| && a in OtherAccounts(j, posts[k])
  {
    if posts == [] then []
    else
      var init := posts[..|posts| - 1];
      var rest := AllOtherAccounts(j, init);
      assert forall k :: 0 <= k < |init| ==> init[k] == posts[k];
      rest + OtherAccounts(j, posts[|posts| - 1])
  }

  /** The elements of `s` in the order they are first seen, each once. */
  function Dedup(s: seq<string>): seq<string> {
    if s == [] then []
    else
      var d := Dedup(s[..|s| - 1]);
      var last := s[|s| - 1];
      if last in d then d else d + [last]
  }

  /** `Dedup(s)` holds every element of `s`, each once. */
  lemma {:induction false} DedupIsSetOfElements(s: seq<string>)
    ensures NoDuplicates(Dedup(s))
    ensures forall a :: a in Dedup(s) <==> a in s
  {
    if s != [] {
      var last := s[|s| - 1];
      DedupIsSetOfElements(s[..|s| - 1]);
      assert s == s[..|s| - 1] + [last];
    }
  }

  lemma DedupSnoc(s: seq<string>, a: string)
    ensures Dedup(s + [a]) == if a in Dedup(s) then Dedup(s) else Dedup(s) + [a]
  {
    assert (s + [a])[..|s|] == s;
  }

  /**
   * `get_inventory_accounts`, with each new account checked against the
   * inventory as it grows: the accounts reached from `posts`, other than the
   * triggering posting's own, in first-seen order and each full name once.
   */
  method GetInventoryAccounts(j: Journal, posts: seq<Posting>) returns (inventory: seq<string>)
    ensures inventory == Dedup(AllOtherAccounts(j, posts))
    ensures NoDuplicates(inventory)
    ensures forall a :: a in inventory <==> exists k :: 0 <= k < |posts| && a in OtherAccounts(j, posts[k])
  {
    DedupIsSetOfElements(AllOtherAccounts(j, posts));
    inventory := [];
    for i := 0 to |posts|
      invariant inventory == Dedup(AllOtherAccounts(j, posts[..i]))
    {
      var others := OtherAccounts(j, posts[i]);
      assert posts[..i + 1][..i] == posts[..i];
      assert AllOtherAccounts(j, posts[..i + 1]) == AllOtherAccounts(j, posts[..i]) + others;
      assert others[..0] == [];
      assert AllOtherAccounts(j, posts[..i]) + others[..0] == AllOtherAccounts(j, posts[..i]);
      for k := 0 to |others|
        invariant inventory == Dedup(AllOtherAccounts(j, posts[..i]) + others[..k])
      {
        DedupSnoc(AllOtherAccounts(j, posts[..i]) + others[..k], others[k]);
        AppendNext(AllOtherAccounts(j, posts[..i]), others, k);
        if others[k] !in inventory {
          inventory := inventory + [others[k]];
        }
      }
      assert others[..|others|] == others;
    }
    assert posts[..|posts|] == posts;
  }

  /**
   * The list as written and the corrected one agree whenever no transaction
   * books the same other account twice.
   */
  lemma {:induction false} AsWrittenAgreesWithoutRepeatedAccounts(j: Journal, posts: seq<Posting>)
    requires forall k :: 0 <= k < |posts| ==> NoDuplicates(OtherAccounts(j, posts[k]))
    ensures InventoryAccountsAsWritten(j, posts) == Dedup(AllOtherAccounts(j, posts))
  {
    if posts != [] {
      var init := posts[..|posts| - 1];
      assert forall k :: 0 <= k < |init| ==> init[k] == posts[k];
      AsWrittenAgreesWithoutRepeatedAccounts(j, init);
      DedupAppend(AllOtherAccounts(j, init), OtherAccounts(j, posts[|posts| - 1]));
    }
  }

  /** Deduplicating `s + others`, for `others` without repeats, appends the unseen part of `others`. */
  lemma {:induction false} DedupAppend(s: seq<string>, others: seq<string>)
    requires NoDuplicates(others)
    ensures Dedup(s + others) == Dedup(s) + NotKnown(others, Dedup(s))
  {
    if others == [] {
      assert s + others == s;
    } else {
      var init := others[..|others| - 1];
      var last := others[|others| - 1];
      var d := Dedup(s);
      InitHasNoDuplicates(others);
      DedupAppend(s, init);
      assert last !in NotKnown(init, d);
      var tail := if last in d then [] else [last];
      calc {
        Dedup(s + others);
        { SplitLast(s, others); }
        Dedup((s + init) + [last]);
        { DedupSnoc(s + init, last); }
        Dedup(s + init) + tail;
        d + NotKnown(init, d) + tail;
        { SplitLast([], others); NotKnownSnoc(init, last, d); }
        d + NotKnown(others, d);
      }
    }
  }

  /** Extending the prefix taken from the second part of a concatenation by one element. */
  lemma AppendNext<T>(s: seq<T>, others: seq<T>, k: nat)
    requires k < |others|
    ensures s + others[..k + 1] == (s + others[..k]) + [others[k]]
  {
    assert others[..k + 1] == others[..k] + [others[k]];
  }

  /** Splitting off the last element of the second part of a concatenation. */
  lemma SplitLast<T>(s: seq<T>, others: seq<T>)
    requires others != []
    ensures s + others == (s + others[..|others| - 1]) + [others[|others| - 1]]
  {
    assert others == others[..|others| - 1] + [others[|others| - 1]];
  }

  /** `NotKnown` of a sequence with one more element at the end. */
  lemma NotKnownSnoc(init: seq<string>, last: string, known: seq<string>)
    ensures NotKnown(init + [last], known) == NotKnown(init, known) + (if last in known then [] else [last])
  {
    assert (init + [last])[..|init|] == init;
  }

  /** Dropping the last element of a sequence without repeats leaves one without repeats that lacks it. */
  lemma InitHasNoDuplicates(others: seq<string>)
    requires NoDuplicates(others) && others != []
    ensures NoDuplicates(others[..|others| - 1])
    ensures others[|others| - 1] !in others[..|others| - 1]
  {
    var init := others[..|others| - 1];
    forall a, b | 0 <= a < b < |init|
      ensures init[a] != init[b]
    {
      assert init[a] == others[a] && init[b] == others[b];
    }
    forall k | 0 <= k < |init|
      ensures init[k] != others[|others| - 1]
    {
      assert init[k] == others[k];
    }
  }

  /**
   * A year-end depreciation transaction that takes its amount from two
   * postings to the same inventory account makes the list as written name that
   * account twice.
   */
  lemma AsWrittenRepeatsASplitAccount()
    ensures var x := Xact(1, "a99", "NTG3 Mikrofon", Date(2016, 12, 31));
      var afa := Posting(1, "AfA:Mikrofone", x, 10000, Date(2016, 12, 31));
      var j := Journal([x], [afa,
                             Posting(2, "Inventar:Mikrofon", x, -6000, Date(2016, 12, 31)),
                             Posting(3, "Inventar:Mikrofon", x, -4000, Date(2016, 12, 31))]);
      InventoryAccountsAsWritten(j, [afa]) == ["Inventar:Mikrofon", "Inventar:Mikrofon"] &&
      !NoDuplicates(InventoryAccountsAsWritten(j, [afa]))
  {
    var x := Xact(1, "a99", "NTG3 Mikrofon", Date(2016, 12, 31));
    var afa := Posting(1, "AfA:Mikrofone", x, 10000, Date(2016, 12, 31));
    var p2 := Posting(2, "Inventar:Mikrofon", x, -6000, Date(2016, 12, 31));
    var p3 := Posting(3, "Inventar:Mikrofon", x, -4000, Date(2016, 12, 31));
    var j := Journal([x], [afa, p2, p3]);
    var keep := InXact(x);
    assert keep(afa) && keep(p2) && keep(p3);
    assert j.posts[1..] == [p2, p3];
    assert [p2, p3][1..] == [p3];
    assert [p3][1..] == [];
    assert PostsWhere([p3], keep) == [p3];
    assert PostsWhere([p2, p3], keep) == [p2, p3];
    assert XactPosts(j, x) == [afa, p2, p3];
    assert [afa, p2, p3][1..] == [p2, p3];
    assert OthersIn([p3], afa.account) == ["Inventar:Mikrofon"];
    assert OthersIn([p2, p3], afa.account) == ["Inventar:Mikrofon", "Inventar:Mikrofon"];
    assert OtherAccounts(j, afa) == ["Inventar:Mikrofon", "Inventar:Mikrofon"];
    var others := OtherAccounts(j, afa);
    assert others[..1] == ["Inventar:Mikrofon"];
    assert NotKnown(others[..1], []) == ["Inventar:Mikrofon"];
    assert [afa][..0] == [];
  }

  // ---------------------------------------------------------------------------
  // One depreciated item

  /**
   * The inventory account of a transaction: the account of its first posting
   * with a negative amount, or `default` when it has none.
   */
  function FirstNegativeAccount(ps: seq<Posting>, default: string): (r: string)
    ensures (forall k :: 0 <= k < |ps| ==> ps[k].amount >= 0) ==> r == default
    ensures (exists k :: 0 <= k < |ps| && ps[k].amount < 0) ==>
      exists k :: 0 <= k < |ps| && ps[k].amount < 0 && r == ps[k].account &&
        forall m :: 0 <= m < k ==> ps[m].amount >= 0
  {
    if ps == [] then default
    else if ps[0].amount < 0 then ps[0].account
    else
      var r := FirstNegativeAccount(ps[1..], default);
      assert forall k :: 1 <= k < |ps| ==> ps[k] == ps[1..][k - 1];
      r
  }

  /** `SingleAfaTransaction.calculate_account`: a scan with an early return. */
  method CalculateAccount(j: Journal, transaction: Xact, default: string) returns (account: string)
    ensures account == FirstNegativeAccount(XactPosts(j, transaction), default)
  {
    var posts := XactPosts(j, transaction);
    for i := 0 to |posts|
      invariant FirstNegativeAccount(posts[i..], default) == FirstNegativeAccount(posts, default)
    {
      if posts[i].amount < 0 {
        return posts[i].account;
      }
      assert posts[i..][1..] == posts[i + 1..];
    }
    return default;
  }

  /** The dates of the transactions that carry `code`. */
  function CodeDates(xacts: seq<Xact>, code: string): (r: seq<Date>)
    ensures forall d :: d in r <==> exists x :: x in xacts && x.code == code && x.date == d
  {
    if xacts == [] then []
    else
      var rest := CodeDates(xacts[1..], code);
      assert forall x :: x in xacts <==> x == xacts[0] || x in xacts[1..];
      if xacts[0].code == code then [xacts[0].date] + rest else rest
  }

  /**
   * `SingleAfaTransaction.calculate_date`: the purchase date is the earliest
   * date of any transaction with the same code.
   */
  function CalculateDate(xacts: seq<Xact>, code: string): (r: Date)
    requires exists x :: x in xacts && x.code == code
    ensures exists x :: x in xacts && x.code == code && x.date == r
    ensures forall x :: x in xacts && x.code == code ==> DateLe(r, x.date)
  {
    var ds := CodeDates(xacts, code);
    var x :| x in xacts && x.code == code;
    assert x.date in ds;
    MinDate(ds)
  }

  /** The three ledger totals `calculate_costs` asks for. */
  datatype Costs = Costs(totalCosts: int, costsBegin: int, costsEnd: int)

  /** A `SingleAfaTransaction` once constructed. */
  datatype SingleAfaTransaction = SingleAfaTransaction(
    transaction: Xact, account: string, buyDate: Date,
    totalCosts: int, costsBegin: int, costsEnd: int)
  {
    /** `costs_diff`: the book value lost in the year. */
    function CostsDiff(): int {
      costsBegin - costsEnd
    }
  }

  /**
   * What the constructor of `SingleAfaTransaction` makes of `transaction`
   * found through an account named `accountName`. The three ledger queries of
   * `calculate_costs` are the parameter `queryTotals`, applied to the buy
   * date, the inventory account, the transaction and the year.
   */
  function Construct(j: Journal, transaction: Xact, accountName: string, year: int,
                     queryTotals: (Date, string, Xact, int) -> Costs): SingleAfaTransaction
    requires transaction in j.xacts
  {
    var account := FirstNegativeAccount(XactPosts(j, transaction), accountName);
    var buyDate := CalculateDate(j.xacts, transaction.code);
    var c := queryTotals(buyDate, account, transaction, year);
    SingleAfaTransaction(transaction, account, buyDate, c.totalCosts, c.costsBegin, c.costsEnd)
  }

  /** The constructor of `SingleAfaTransaction`, step by step. */
  method NewSingleAfaTransaction(j: Journal, transaction: Xact, accountName: string, year: int,
                                 queryTotals: (Date, string, Xact, int) -> Costs)
    returns (t: SingleAfaTransaction)
    requires transaction in j.xacts
    ensures t == Construct(j, transaction, accountName, year, queryTotals)
  {
    var account := CalculateAccount(j, transaction, accountName);
    var buyDate := CalculateDate(j.xacts, transaction.code);
    var c := queryTotals(buyDate, account, transaction, year);
    t := SingleAfaTransaction(transaction, account, buyDate, c.totalCosts, c.costsBegin, c.costsEnd);
  }

  // ---------------------------------------------------------------------------
  // Selecting the year-end depreciation transactions

  /** How `get_afa_accounts` tells transactions apart: code and payee, concatenated. */
  function Key(x: Xact): string {
    x.code + x.payee
  }

  /** The keys of the transactions selected so far, `t.transaction.code + t.transaction.payee`. */
  function Keys(out: seq<SingleAfaTransaction>): (r: seq<string>)
    ensures |r| == |out|
    ensures forall k :: 0 <= k < |out| ==> r[k] == Key(out[k].transaction)
  {
    if out == [] then [] else [Key(out[0].transaction)] + Keys(out[1..])
  }

  /**
   * Posting `p` of transaction `x` marks `x` as a depreciation of `year`: `x`
   * is dated on December 31 of that year and has a code, and `p` is a positive
   * posting to an account whose name the account pattern matches.
   */
  ghost predicate IsAfaPosting(j: Journal, matches: string -> bool, year: int, x: Xact, p: Posting) {
    x.date == Date(year, 12, 31) && x.code != "" && p in XactPosts(j, x) && matches(p.account) && p.amount > 0
  }

  /** Transaction `x` is a depreciation of `year` that `get_afa_accounts` must pick up. */
  ghost predicate Qualifies(j: Journal, matches: string -> bool, year: int, x: Xact) {
    exists p :: IsAfaPosting(j, matches, year, x, p)
  }

  /** Every qualifying transaction of `xs` has its key among those of `out`. */
  ghost predicate Covered(j: Journal, matches: string -> bool, year: int,
                          xs: seq<Xact>, out: seq<SingleAfaTransaction>)
  {
    forall x :: x in xs && Qualifies(j, matches, year, x) ==> Key(x) in Keys(out)
  }

  /** `t` is built from some depreciation posting of `year`. */
  ghost predicate Built(j: Journal, matches: string -> bool, year: int,
                        queryTotals: (Date, string, Xact, int) -> Costs, t: SingleAfaTransaction)
  {
    t.transaction in j.xacts &&
    exists p :: IsAfaPosting(j, matches, year, t.transaction, p) &&
      t == Construct(j, t.transaction, p.account, year, queryTotals)
  }

  /** Every element of `out` is built from a depreciation posting of `year`. */
  ghost predicate AllBuilt(j: Journal, matches: string -> bool, year: int,
                           queryTotals: (Date, string, Xact, int) -> Costs, out: seq<SingleAfaTransaction>)
  {
    forall k :: 0 <= k < |out| ==> Built(j, matches, year, queryTotals, out[k])
  }

  /** No two elements of `out` share code and payee. */
  ghost predicate KeysUnique(out: seq<SingleAfaTransaction>) {
    forall a, b :: 0 <= a < b < |out| ==> Key(out[a].transaction) != Key(out[b].transaction)
  }

  /** Whether `post` of `trans` starts a new item: `matches and amount_positive and not exists`. */
  predicate Starts(matches: string -> bool, trans: Xact, post: Posting, out: seq<SingleAfaTransaction>) {
    matches(post.account) && post.amount > 0 && Key(trans) !in Keys(out)
  }

  /** The body of the inner loop of `get_afa_accounts`: `out` after looking at `post`. */
  function AfterPost(j: Journal, matches: string -> bool, year: int,
                     queryTotals: (Date, string, Xact, int) -> Costs,
                     trans: Xact, post: Posting, out: seq<SingleAfaTransaction>): seq<SingleAfaTransaction>
    requires trans in j.xacts
  {
    if Starts(matches, trans, post, out)
    then out + [Construct(j, trans, post.account, year, queryTotals)]
    else out
  }

  /** The inner loop of `get_afa_accounts` over `posts`, the postings of `trans`, adding to `out`. */
  function ScanPosts(j: Journal, matches: string -> bool, year: int,
                     queryTotals: (Date, string, Xact, int) -> Costs,
                     trans: Xact, posts: seq<Posting>, out: seq<SingleAfaTransaction>): seq<SingleAfaTransaction>
    requires trans in j.xacts
  {
    if posts == [] then out
    else ScanPosts(j, matches, year, queryTotals, trans, posts[1..],
                   AfterPost(j, matches, year, queryTotals, trans, posts[0], out))
  }

  /** The outer loop of `get_afa_accounts` over `xs`, adding to `out`. */
  function ScanXacts(j: Journal, matches: string -> bool, year: int,
                     queryTotals: (Date, string, Xact, int) -> Costs,
                     xs: seq<Xact>, out: seq<SingleAfaTransaction>): seq<SingleAfaTransaction>
    requires forall x :: x in xs ==> x in j.xacts
  {
    if xs == [] then out
    else
      var trans := xs[0];
      var next := if trans.date == Date(year, 12, 31) && trans.code != ""
                  then ScanPosts(j, matches, year, queryTotals, trans, XactPosts(j, trans), out)
                  else out;
      ScanXacts(j, matches, year, queryTotals, xs[1..], next)
  }

  /**
   * `get_afa_accounts`: the depreciation transactions of `year`, one per code
   * and payee, each built from its first matching positive posting. The
   * pattern match `re.match(account, name, re.IGNORECASE)` is `matches`.
   */
  method GetAfaAccounts(j: Journal, matches: string -> bool, year: int,
                        queryTotals: (Date, string, Xact, int) -> Costs)
    returns (out: seq<SingleAfaTransaction>)
    ensures out == ScanXacts(j, matches, year, queryTotals, j.xacts, [])
    ensures AllBuilt(j, matches, year, queryTotals, out)
    ensures KeysUnique(out)
    ensures Covered(j, matches, year, j.xacts, out)
  {
    out := [];
    var thisYear := Date(year, 12, 31);
    for i := 0 to |j.xacts|
      invariant ScanXacts(j, matches, year, queryTotals, j.xacts[i..], out) ==
                ScanXacts(j, matches, year, queryTotals, j.xacts, [])
    {
      var trans := j.xacts[i];
      if trans.date == thisYear && trans.code != "" {
        out := ScanTransactionPosts(j, matches, year, queryTotals, trans, out);
      }
      assert j.xacts[i..][1..] == j.xacts[i + 1..];
    }
    SelectionIsSound(j, matches, year, queryTotals);
  }

  /** The inner loop of `get_afa_accounts`: the postings of `trans`, each starting an item when it matches. */
  method ScanTransactionPosts(j: Journal, matches: string -> bool, year: int,
                              queryTotals: (Date, string, Xact, int) -> Costs,
                              trans: Xact, out0: seq<SingleAfaTransaction>)
    returns (out: seq<SingleAfaTransaction>)
    requires trans in j.xacts
    ensures out == ScanPosts(j, matches, year, queryTotals, trans, XactPosts(j, trans), out0)
  {
    out := out0;
    var posts := XactPosts(j, trans);
    for k := 0 to |posts|
      invariant ScanPosts(j, matches, year, queryTotals, trans, posts[k..], out) ==
                ScanPosts(j, matches, year, queryTotals, trans, posts, out0)
    {
      var post := posts[k];
      var name := post.account;
      var amountPositive := post.amount > 0;
      var known := Key(trans) in Keys(out);
      if matches(name) && amountPositive && !known {
        var tx := NewSingleAfaTransaction(j, trans, name, year, queryTotals);
        out := out + [tx];
      }
      assert posts[k..][1..] == posts[k + 1..];
    }
    assert posts[|posts|..] == [];
  }

  /** The selection keeps one correctly built item per code and payee, and misses no depreciation. */
  lemma SelectionIsSound(j: Journal, matches: string -> bool, year: int,
                         queryTotals: (Date, string, Xact, int) -> Costs)
    ensures var out := ScanXacts(j, matches, year, queryTotals, j.xacts, []);
      AllBuilt(j, matches, year, queryTotals, out) && KeysUnique(out) &&
      Covered(j, matches, year, j.xacts, out)
  {
    ScanXactsKeeps(j, matches, year, queryTotals, j.xacts, []);
  }

  /** The outer scan keeps the items built and their keys unique, and covers every qualifying transaction. */
  lemma {:induction false} ScanXactsKeeps(j: Journal, matches: string -> bool, year: int,
                                          queryTotals: (Date, string, Xact, int) -> Costs,
                                          xs: seq<Xact>, out: seq<SingleAfaTransaction>)
    requires forall x :: x in xs ==> x in j.xacts
    requires AllBuilt(j, matches, year, queryTotals, out) && KeysUnique(out)
    ensures var r := ScanXacts(j, matches, year, queryTotals, xs, out);
      AllBuilt(j, matches, year, queryTotals, r) && KeysUnique(r) &&
      (forall key :: key in Keys(out) ==> key in Keys(r)) &&
      Covered(j, matches, year, xs, r)
    decreases |xs|
  {
    if xs != [] {
      var trans := xs[0];
      var next := if trans.date == Date(year, 12, 31) && trans.code != ""
                  then ScanPosts(j, matches, year, queryTotals, trans, XactPosts(j, trans), out)
                  else out;
      if trans.date == Date(year, 12, 31) && trans.code != "" {
        ScanPostsKeeps(j, matches, year, queryTotals, trans, XactPosts(j, trans), out);
        if Key(trans) !in Keys(next) {
          NoneMatchNotQualifies(j, matches, year, trans);
        }
      }
      assert forall x :: x in xs[1..] ==> x in xs;
      ScanXactsKeeps(j, matches, year, queryTotals, xs[1..], next);
      var r := ScanXacts(j, matches, year, queryTotals, xs, out);
      forall x | x in xs && Qualifies(j, matches, year, x)
        ensures Key(x) in Keys(r)
      {
        if x != trans {
          assert x in xs[1..];
        }
      }
    }
  }

  /** The inner scan keeps the items built and their keys unique, and ends with `trans` if a posting matched. */
  lemma {:induction false} ScanPostsKeeps(j: Journal, matches: string -> bool, year: int,
                                          queryTotals: (Date, string, Xact, int) -> Costs,
                                          trans: Xact, posts: seq<Posting>, out: seq<SingleAfaTransaction>)
    requires trans in j.xacts && trans.date == Date(year, 12, 31) && trans.code != ""
    requires forall p :: p in posts ==> p in XactPosts(j, trans)
    requires AllBuilt(j, matches, year, queryTotals, out) && KeysUnique(out)
    ensures var r := ScanPosts(j, matches, year, queryTotals, trans, posts, out);
      AllBuilt(j, matches, year, queryTotals, r) && KeysUnique(r) &&
      (forall key :: key in Keys(out) ==> key in Keys(r)) &&
      (Key(trans) in Keys(r) || NoneMatch(matches, posts))
    decreases |posts|
  {
    if posts != [] {
      var post := posts[0];
      var next := AfterPost(j, matches, year, queryTotals, trans, post, out);
      AfterPostKeeps(j, matches, year, queryTotals, trans, post, out);
      assert forall p :: p in posts[1..] ==> p in posts;
      ScanPostsKeeps(j, matches, year, queryTotals, trans, posts[1..], next);
      assert forall p :: p in posts ==> p == post || p in posts[1..];
    }
  }

  /** One posting: the items stay built, the keys unique, and `trans` is there if `post` matched. */
  lemma AfterPostKeeps(j: Journal, matches: string -> bool, year: int,
                       queryTotals: (Date, string, Xact, int) -> Costs,
                       trans: Xact, post: Posting, out: seq<SingleAfaTransaction>)
    requires trans in j.xacts && trans.date == Date(year, 12, 31) && trans.code != ""
    requires post in XactPosts(j, trans)
    requires AllBuilt(j, matches, year, queryTotals, out) && KeysUnique(out)
    ensures var r := AfterPost(j, matches, year, queryTotals, trans, post, out);
      AllBuilt(j, matches, year, queryTotals, r) && KeysUnique(r) &&
      (forall key :: key in Keys(out) ==> key in Keys(r)) &&
      (Key(trans) in Keys(r) || !(matches(post.account) && post.amount > 0))
  {
    if Starts(matches, trans, post, out) {
      var tx := Construct(j, trans, post.account, year, queryTotals);
      assert IsAfaPosting(j, matches, year, trans, post);
      ConstructedIsBuilt(j, matches, year, queryTotals, post, tx);
      AppendBuilt(j, matches, year, queryTotals, out, tx);
      AppendFreshKey(out, tx);
    }
  }

  /** No posting of `ps` is positive on an account the pattern matches. */
  ghost predicate NoneMatch(matches: string -> bool, ps: seq<Posting>) {
    forall p :: p in ps ==> !(matches(p.account) && p.amount > 0)
  }

  /** A transaction none of whose postings matches is no depreciation. */
  lemma NoneMatchNotQualifies(j: Journal, matches: string -> bool, year: int, trans: Xact)
    requires NoneMatch(matches, XactPosts(j, trans))
    ensures !Qualifies(j, matches, year, trans)
  {
  }

  /** What the constructor makes of a depreciation posting is correctly built. */
  lemma ConstructedIsBuilt(j: Journal, matches: string -> bool, year: int,
                           queryTotals: (Date, string, Xact, int) -> Costs,
                           post: Posting, tx: SingleAfaTransaction)
    requires tx.transaction in j.xacts
    requires IsAfaPosting(j, matches, year, tx.transaction, post)
    requires tx == Construct(j, tx.transaction, post.account, year, queryTotals)
    ensures Built(j, matches, year, queryTotals, tx)
  {
  }

  /** Appending a correctly built transaction keeps every element correctly built. */
  lemma AppendBuilt(j: Journal, matches: string -> bool, year: int,
                    queryTotals: (Date, string, Xact, int) -> Costs,
                    out: seq<SingleAfaTransaction>, tx: SingleAfaTransaction)
    requires AllBuilt(j, matches, year, queryTotals, out)
    requires Built(j, matches, year, queryTotals, tx)
    ensures AllBuilt(j, matches, year, queryTotals, out + [tx])
  {
    var n := out + [tx];
    forall k | 0 <= k < |n|
      ensures Built(j, matches, year, queryTotals, n[k])
    {
      if k < |out| {
        assert n[k] == out[k];
      }
    }
  }

  /** Appending a transaction with a fresh key keeps the keys unique. */
  lemma AppendFreshKey(out: seq<SingleAfaTransaction>, tx: SingleAfaTransaction)
    requires KeysUnique(out)
    requires Key(tx.transaction) !in Keys(out)
    ensures KeysUnique(out + [tx])
    ensures Keys(out + [tx]) == Keys(out) + [Key(tx.transaction)]
  {
    var n := out + [tx];
    assert Keys(n) == Keys(out) + [Key(tx.transaction)] by {
      assert forall k :: 0 <= k < |n| ==> Keys(n)[k] == (Keys(out) + [Key(tx.transaction)])[k];
    }
    forall a, b | 0 <= a < b < |n|
      ensures Key(n[a].transaction) != Key(n[b].transaction)
    {
      if b == |out| {
        assert Key(n[a].transaction) == Keys(out)[a];
      } else {
        assert n[a] == out[a] && n[b] == out[b];
      }
    }
  }
}

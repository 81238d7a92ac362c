/**
 * The part of a ledger journal that the depreciation report reads: a tree of
 * accounts, transactions ("xacts") and their postings. Accounts are keyed by
 * their full name (for example "Inventar:Laptop"), so two handles to the same
 * account compare equal exactly when their full names do. Money is an integer
 * number of cents.
 */
module Ledger {

  /** A calendar date, ordered as Python orders `datetime.date`: year, then month, then day. */
  datatype Date = Date(year: int, month: int, day: int)

  predicate DateLe(a: Date, b: Date) {
    a.year < b.year ||
    (a.year == b.year && (a.month < b.month || (a.month == b.month && a.day <= b.day)))
  }

  predicate DateLt(a: Date, b: Date) {
    DateLe(a, b) && a != b
  }

  /** A transaction; `id` stands for the identity of the transaction object. */
  datatype Xact = Xact(id: nat, code: string, payee: string, date: Date)

  /** A posting: one signed amount booked to one account inside one transaction. */
  datatype Posting = Posting(id: nat, account: string, xact: Xact, amount: int, date: Date)

  /** A node of the chart of accounts: its own name, its full name and its sub-accounts. */
  datatype Account = Account(name: string, fullname: string, children: seq<Account>)

  /** A loaded journal: its transactions and all its postings, in journal order. */
  datatype Journal = Journal(xacts: seq<Xact>, posts: seq<Posting>)

  /** Posting identifiers are unique within the journal. */
  ghost predicate UniquePostIds(j: Journal) {
    forall m, n :: 0 <= m < |j.posts| && 0 <= n < |j.posts| && j.posts[m].id == j.posts[n].id ==> j.posts[m] == j.posts[n]
  }

  /** No string occurs twice in `s`. */
  ghost predicate NoDuplicates(s: seq<string>) {
    forall a, b :: 0 <= a < b < |s| ==> s[a] != s[b]
  }

  function Abs(x: int): int {
    if x < 0 then -x else x
  }

  /** The postings of `ps` that satisfy `keep`, in their order in `ps`. */
  function PostsWhere(ps: seq<Posting>, keep: Posting -> bool): (r: seq<Posting>)
    ensures |r| <= |ps|
    ensures forall p :: p in r <==> p in ps && keep(p)
  {
    if ps == [] then []
    else (if keep(ps[0]) then [ps[0]] else []) + PostsWhere(ps[1..], keep)
  }

  function InXact(x: Xact): Posting -> bool {
    (p: Posting) => p.xact == x
  }

  function OnAccount(fullname: string): Posting -> bool {
    (p: Posting) => p.account == fullname
  }

  /** `xact.posts()`: the postings that belong to transaction `x`. */
  function XactPosts(j: Journal, x: Xact): seq<Posting> {
    PostsWhere(j.posts, InXact(x))
  }

  /** `account.posts()`: the postings booked to the account with full name `fullname`. */
  function AccountPosts(j: Journal, fullname: string): seq<Posting> {
    PostsWhere(j.posts, OnAccount(fullname))
  }

  /** `sum(p.amount for p in ps if keep(p))`. */
  function SumWhere(ps: seq<Posting>, keep: Posting -> bool): int {
    if ps == [] then 0
    else (if keep(ps[0]) then ps[0].amount else 0) + SumWhere(ps[1..], keep)
  }

  /** The dates of the postings of `ps`, in order. */
  function Dates(ps: seq<Posting>): (r: seq<Date>)
    ensures |r| == |ps|
    ensures forall k :: 0 <= k < |ps| ==> r[k] == ps[k].date
  {
    if ps == [] then [] else [ps[0].date] + Dates(ps[1..])
  }

  /** Python's `min` over a non-empty sequence of dates. */
  function MinDate(ds: seq<Date>): (r: Date)
    requires |ds| > 0
    ensures r in ds
    ensures forall d :: d in ds ==> DateLe(r, d)
  {
    if |ds| == 1 then ds[0]
    else
      var rest := MinDate(ds[1..]);
      assert forall d :: d in ds ==> d == ds[0] || d in ds[1..];
      if DateLe(ds[0], rest) then ds[0] else rest
  }

  /** `account.name`: the last segment of a full account name, after its last ':'. */
  function LeafName(fullname: string): (r: string)
    ensures ':' !in r
    ensures |r| <= |fullname| && r == fullname[|fullname| - |r|..]
    ensures |r| < |fullname| ==> fullname[|fullname| - |r| - 1] == ':'
  {
    if fullname == [] then []
    else if fullname[|fullname| - 1] == ':' then []
    else LeafName(fullname[..|fullname| - 1]) + [fullname[|fullname| - 1]]
  }

  /** The account named `name` below the account `parent` has the leaf name `name`. */
  lemma {:induction false} LeafNameOfChild(parent: string, name: string)
    requires ':' !in name
    ensures LeafName(parent + ":" + name) == name
  {
    if name == [] {
      assert (parent + ":" + name)[|parent + ":" + name| - 1] == ':';
    } else {
      var init := name[..|name| - 1];
      assert (parent + ":" + name)[..|parent + ":" + name| - 1] == parent + ":" + init;
      LeafNameOfChild(parent, init);
      assert init + [name[|name| - 1]] == name;
    }
  }

  /** Adding the amounts kept by `f` is adding those kept by `g` and by `h`, when that holds posting by posting. */
  lemma {:induction false} SumWhereAdditive(ps: seq<Posting>, f: Posting -> bool, g: Posting -> bool, h: Posting -> bool)
    requires forall p :: p in ps ==>
      (if f(p) then p.amount else 0) == (if g(p) then p.amount else 0) + (if h(p) then p.amount else 0)
    ensures SumWhere(ps, f) == SumWhere(ps, g) + SumWhere(ps, h)
  {
    if ps != [] {
      assert ps[0] in ps;
      SumWhereAdditive(ps[1..], f, g, h);
    }
  }

  /** A sum that keeps only non-positive amounts is not positive. */
  lemma {:induction false} SumWhereNonPositive(ps: seq<Posting>, keep: Posting -> bool)
    requires forall p :: p in ps && keep(p) ==> p.amount <= 0
    ensures SumWhere(ps, keep) <= 0
  {
    if ps != [] {
      assert ps[0] in ps;
      SumWhereNonPositive(ps[1..], keep);
    }
  }

  /** A sum that keeps only non-negative amounts is not negative. */
  lemma {:induction false} SumWhereNonNegative(ps: seq<Posting>, keep: Posting -> bool)
    requires forall p :: p in ps && keep(p) ==> p.amount >= 0
    ensures SumWhere(ps, keep) >= 0
  {
    if ps != [] {
      assert ps[0] in ps;
      SumWhereNonNegative(ps[1..], keep);
    }
  }
}

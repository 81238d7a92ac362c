/**
 * Walking the chart of accounts: `get_sub_accounts`, which both ledger versions
 * define identically, and the postings of a list of accounts, which both
 * versions of `get_afa_posts` collect.
 */
module Accounts {
  import opened Ledger

  /** `d` lies strictly below `a` in the account tree. */
  ghost predicate IsDescendant(d: Account, a: Account)
    decreases a
  {
    exists i :: 0 <= i < |a.children| && (d == a.children[i] || IsDescendant(d, a.children[i]))
  }

  /** `d` lies strictly below one of the accounts `cs`. */
  ghost predicate BelowSome(d: Account, cs: seq<Account>) {
    exists i :: 0 <= i < |cs| && IsDescendant(d, cs[i])
  }

  /** The number of accounts in the tree rooted at `a`, counting `a` itself. */
  function Size(a: Account): nat
    decreases a
  {
    1 + SizeAll(a.children)
  }

  function SizeAll(cs: seq<Account>): nat
    decreases cs
  {
    if cs == [] then 0 else Size(cs[0]) + SizeAll(cs[1..])
  }

  /** `get_sub_accounts`: the direct children of `a`, then each child's own sub-accounts. */
  function SubAccounts(a: Account): seq<Account>
    decreases a
  {
    a.children + SubAccountsAll(a.children)
  }

  /** The concatenated sub-accounts of each account of `cs`. */
  function SubAccountsAll(cs: seq<Account>): seq<Account>
    decreases cs
  {
    if cs == [] then [] else SubAccounts(cs[0]) + SubAccountsAll(cs[1..])
  }

  /** An account named `name` is `top` or lies below it. */
  ghost predicate InSubtree(name: string, top: Account) {
    name == top.fullname || exists d :: IsDescendant(d, top) && d.fullname == name
  }

  /**
   * `get_sub_accounts` returns exactly the proper descendants of `a`, direct
   * children first, one entry per node of the tree below `a`, and never `a` itself.
   */
  lemma SubAccountsAreDescendants(a: Account)
    ensures forall d :: d in SubAccounts(a) <==> IsDescendant(d, a)
    ensures a !in SubAccounts(a)
    ensures |SubAccounts(a)| == Size(a) - 1
    ensures SubAccounts(a)[..|a.children|] == a.children
  {
    SubAccountsMembership(a);
    SubAccountsCount(a);
    if a in SubAccounts(a) {
      DescendantIsSmaller(a, a);
      assert false;
    }
  }

  lemma {:induction false} SubAccountsMembership(a: Account)
    ensures forall d :: d in SubAccounts(a) <==> IsDescendant(d, a)
    decreases a, 1
  {
    SubAccountsAllMembership(a.children);
  }

  lemma {:induction false} SubAccountsAllMembership(cs: seq<Account>)
    ensures forall d :: d in SubAccountsAll(cs) <==> BelowSome(d, cs)
    decreases cs, 0
  {
    if cs != [] {
      SubAccountsMembership(cs[0]);
      SubAccountsAllMembership(cs[1..]);
      forall d
        ensures BelowSome(d, cs) <==> IsDescendant(d, cs[0]) || BelowSome(d, cs[1..])
      {
        if BelowSome(d, cs) {
          var i :| 0 <= i < |cs| && IsDescendant(d, cs[i]);
          if i > 0 {
            assert cs[1..][i - 1] == cs[i];
          }
        }
        if BelowSome(d, cs[1..]) {
          var i :| 0 <= i < |cs[1..]| && IsDescendant(d, cs[1..][i]);
          assert cs[i + 1] == cs[1..][i];
        }
      }
    }
  }

  lemma {:induction false} SubAccountsCount(a: Account)
    ensures |SubAccounts(a)| == Size(a) - 1
    decreases a, 1
  {
    SubAccountsAllCount(a.children);
  }

  lemma {:induction false} SubAccountsAllCount(cs: seq<Account>)
    ensures |SubAccountsAll(cs)| == SizeAll(cs) - |cs|
    decreases cs, 0
  {
    if cs != [] {
      SubAccountsCount(cs[0]);
      SubAccountsAllCount(cs[1..]);
    }
  }

  lemma {:induction false} ChildIsSmaller(cs: seq<Account>, i: int)
    requires 0 <= i < |cs|
    ensures Size(cs[i]) <= SizeAll(cs)
  {
    if i > 0 {
      ChildIsSmaller(cs[1..], i - 1);
    }
  }

  lemma {:induction false} DescendantIsSmaller(d: Account, a: Account)
    requires IsDescendant(d, a)
    ensures Size(d) < Size(a)
    decreases a
  {
    var i :| 0 <= i < |a.children| && (d == a.children[i] || IsDescendant(d, a.children[i]));
    ChildIsSmaller(a.children, i);
    if d != a.children[i] {
      DescendantIsSmaller(d, a.children[i]);
    }
  }

  /** One of `accs` has the full name `name`. */
  ghost predicate NamedIn(name: string, accs: seq<Account>) {
    exists k :: 0 <= k < |accs| && accs[k].fullname == name
  }

  /** `[p for a in accs for p in a.posts()]`. */
  function PostsOfAccounts(j: Journal, accs: seq<Account>): (r: seq<Posting>)
    ensures forall p :: p in r <==> p in j.posts && NamedIn(p.account, accs)
  {
    if accs == [] then []
    else
      var rest := PostsOfAccounts(j, accs[1..]);
      assert forall name: string :: NamedIn(name, accs) <==> accs[0].fullname == name || NamedIn(name, accs[1..]) by {
        forall name: string | NamedIn(name, accs)
          ensures accs[0].fullname == name || NamedIn(name, accs[1..])
        {
          var k :| 0 <= k < |accs| && accs[k].fullname == name;
          if k > 0 {
            assert accs[1..][k - 1] == accs[k];
          }
        }
      }
      AccountPosts(j, accs[0].fullname) + rest
  }

  /** The postings of `top` and of every account below it, account by account. */
  function SubtreePosts(j: Journal, top: Account): (r: seq<Posting>)
    ensures forall p :: p in r <==> p in j.posts && InSubtree(p.account, top)
  {
    var accounts := [top] + SubAccounts(top);
    SubAccountsMembership(top);
    assert forall name: string :: NamedIn(name, accounts) <==> InSubtree(name, top) by {
      forall name: string
        ensures NamedIn(name, accounts) <==> InSubtree(name, top)
      {
        if NamedIn(name, accounts) {
          var k :| 0 <= k < |accounts| && accounts[k].fullname == name;
          if k > 0 {
            assert accounts[k] == SubAccounts(top)[k - 1];
            assert IsDescendant(accounts[k], top);
          }
        }
        if name == top.fullname {
          assert accounts[0] == top;
        } else if InSubtree(name, top) {
          var d :| IsDescendant(d, top) && d.fullname == name;
          var k :| 0 <= k < |SubAccounts(top)| && SubAccounts(top)[k] == d;
          assert accounts[k + 1] == d;
        }
      }
    }
    PostsOfAccounts(j, accounts)
  }
}

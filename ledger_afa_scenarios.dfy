/**
 * Worked examples of the current report on a small journal: a laptop bought
 * on 2020-01-15 for 1000 with code "INV1", paid from a liability, and
 * depreciated by 200 on 2021-06-01.
 */
module LedgerAfaScenarios {
  import opened Wrappers
  import opened Ledger
  import opened Accounts
  import opened LedgerAfa

  const Purchase := Xact(1, "INV1", "Laptop", Date(2020, 1, 15))
  const Writedown := Xact(2, "INV1", "AfA Laptop", Date(2021, 6, 1))

  const Asset := Posting(1, "Inventar:Laptop", Purchase, 1000, Date(2020, 1, 15))
  const Funding := Posting(2, "Verbindlichkeiten", Purchase, -1000, Date(2020, 1, 15))
  const Expense := Posting(3, "AfA:Geräte", Writedown, 200, Date(2021, 6, 1))
  const Reduction := Posting(4, "Inventar:Laptop", Writedown, -200, Date(2021, 6, 1))

  const Example := Journal([Purchase, Writedown], [Asset, Funding, Expense, Reduction])

  const AfaTree := Account("AfA", "AfA", [Account("Geräte", "AfA:Geräte", [])])

  /** The depreciation postings of 2021 below "AfA" are the write-down's expense posting alone. */
  lemma DepreciationPostsOf2021()
    ensures var r := GetAfaPosts(Example, "AfA", Some(AfaTree), 2021);
      r.Success? && forall p :: p in r.value <==> p == Expense
  {
    var child := AfaTree.children[0];
    assert IsDescendant(child, AfaTree);
    forall d | IsDescendant(d, AfaTree)
      ensures d == child
    {
      var i :| 0 <= i < |AfaTree.children| && (d == AfaTree.children[i] || IsDescendant(d, AfaTree.children[i]));
    }
    assert InSubtree(Expense.account, AfaTree);
    assert !InSubtree(Asset.account, AfaTree);
  }

  /** In 2021 the asset opens at 1000, loses 200 and closes at 800. */
  lemma YearAfterPurchase()
    ensures MakeInventoryItem(Example, "Inventar:Laptop", Writedown, 2021) ==
      Success(InventoryItem("INV1", "Laptop", "Inventar:Laptop", 2021, Date(2020, 1, 15), 1000, 1000, -200, 800))
  {
    var ps := AssetPosts();
    PurchaseDate();
    AssetName();
    PurchaseValue();
    assert [Asset, Reduction][1..] == [Reduction];
    assert OpeningKeep("INV1", 2021)(Asset) && !OpeningKeep("INV1", 2021)(Reduction);
    assert SumWhere([Reduction], OpeningKeep("INV1", 2021)) == 0;
    assert SumWhere(ps, OpeningKeep("INV1", 2021)) == 1000;
    assert !DepreciationKeep("INV1", 2021, Asset.id)(Asset) && DepreciationKeep("INV1", 2021, Asset.id)(Reduction);
    assert SumWhere([Reduction], DepreciationKeep("INV1", 2021, Asset.id)) == -200;
    assert SumWhere(ps, DepreciationKeep("INV1", 2021, Asset.id)) == -200;
    assert ClosingKeep("INV1", 2021)(Asset) && ClosingKeep("INV1", 2021)(Reduction);
    assert SumWhere([Reduction], ClosingKeep("INV1", 2021)) == -200;
    assert SumWhere(ps, ClosingKeep("INV1", 2021)) == 800;
  }

  /** In the purchase year the purchase is counted into the opening value and nothing is depreciated. */
  lemma PurchaseYear()
    ensures MakeInventoryItem(Example, "Inventar:Laptop", Writedown, 2020) ==
      Success(InventoryItem("INV1", "Laptop", "Inventar:Laptop", 2020, Date(2020, 1, 15), 1000, 1000, 0, 1000))
  {
    var ps := AssetPosts();
    PurchaseDate();
    AssetName();
    PurchaseValue();
    assert [Asset, Reduction][1..] == [Reduction];
    assert OpeningKeep("INV1", 2020)(Asset) && !OpeningKeep("INV1", 2020)(Reduction);
    assert SumWhere([Reduction], OpeningKeep("INV1", 2020)) == 0;
    assert SumWhere(ps, OpeningKeep("INV1", 2020)) == 1000;
    assert !DepreciationKeep("INV1", 2020, Asset.id)(Asset) && !DepreciationKeep("INV1", 2020, Asset.id)(Reduction);
    assert SumWhere([Reduction], DepreciationKeep("INV1", 2020, Asset.id)) == 0;
    assert SumWhere(ps, DepreciationKeep("INV1", 2020, Asset.id)) == 0;
    assert ClosingKeep("INV1", 2020)(Asset) && !ClosingKeep("INV1", 2020)(Reduction);
    assert SumWhere([Reduction], ClosingKeep("INV1", 2020)) == 0;
    assert SumWhere(ps, ClosingKeep("INV1", 2020)) == 1000;
  }

  /** The asset was bought on 2020-01-15, and the purchase posting is the first post. */
  lemma PurchaseDate()
    ensures CodePosts([Asset, Reduction], "INV1") != []
    ensures BuyDate([Asset, Reduction], "INV1") == Date(2020, 1, 15)
    ensures FirstPostCandidates([Asset, Reduction], "INV1", Date(2020, 1, 15)) == [Asset]
  {
    var ps := [Asset, Reduction];
    assert ps[1..] == [Reduction];
    assert WithCode("INV1")(Asset) && WithCode("INV1")(Reduction);
    assert PostsWhere([Reduction], WithCode("INV1")) == [Reduction];
    assert CodePosts(ps, "INV1") == ps;
    assert EarliestCodeDate(ps, "INV1", Date(2020, 1, 15));
    EarliestCodeDateIsUnique(ps, "INV1", Date(2020, 1, 15));
    assert PostsWhere([Reduction], FirstPostKeep("INV1", Date(2020, 1, 15))) == [];
  }

  lemma AssetName()
    ensures LeafName("Inventar:Laptop") == "Laptop"
  {
    assert "Inventar:Laptop" == "Inventar" + ":" + "Laptop";
    LeafNameOfChild("Inventar", "Laptop");
  }

  /** The asset account's postings: the purchase and the write-down. */
  lemma AssetPosts() returns (ps: seq<Posting>)
    ensures AccountPosts(Example, "Inventar:Laptop") == ps == [Asset, Reduction]
  {
    ps := [Asset, Reduction];
    var keep := OnAccount("Inventar:Laptop");
    assert Example.posts[1..] == [Funding, Expense, Reduction];
    assert Example.posts[1..][1..] == [Expense, Reduction];
    assert Example.posts[1..][1..][1..] == [Reduction];
    assert keep(Asset) && !keep(Funding) && !keep(Expense) && keep(Reduction);
    assert PostsWhere([Reduction], keep) == [Reduction];
    assert PostsWhere([Expense, Reduction], keep) == [Reduction];
    assert PostsWhere([Funding, Expense, Reduction], keep) == [Reduction];
    assert Example.posts == [Asset, Funding, Expense, Reduction];
  }

  /** The purchase is worth 1000: the asset posting faces one negative funding posting. */
  lemma PurchaseValue()
    ensures TotalValue(Example, [Asset, Reduction], "INV1", Date(2020, 1, 15)) == 1000
  {
    var buy := Date(2020, 1, 15);
    assert XactPosts(Example, Purchase) == [Asset, Funding] by {
      var keep := InXact(Purchase);
      assert Example.posts[1..] == [Funding, Expense, Reduction];
      assert Example.posts[1..][1..] == [Expense, Reduction];
      assert Example.posts[1..][1..][1..] == [Reduction];
      assert keep(Asset) && keep(Funding) && !keep(Expense) && !keep(Reduction);
      assert PostsWhere([Reduction], keep) == [];
      assert PostsWhere([Expense, Reduction], keep) == [];
      assert PostsWhere([Funding, Expense, Reduction], keep) == [Funding];
      assert Example.posts == [Asset, Funding, Expense, Reduction];
    }
    assert [Asset, Funding][1..] == [Funding];
    assert HasFunder(Asset, [Asset, Funding]) by {
      assert [Asset, Funding][1] == Funding;
    }
    assert PaidValue(Asset, [Asset, Funding], "INV1", buy) == 1000;
    assert PaidValue(Reduction, XactPosts(Example, Writedown), "INV1", buy) == 0;
    assert TotalValue(Example, [Reduction], "INV1", buy) == 0;
    assert [Asset, Reduction][1..] == [Reduction];
  }

  /**
   * A desk bought for 1000 and paid in two parts, -600 from the bank and -400
   * in cash: as written the asset posting counts once per payment, 2000 in
   * all; counted once, as the comment of the code describes, it is 1000.
   */
  lemma SplitFundingCountsTwice()
    ensures var d := Date(2020, 3, 1);
      var x := Xact(3, "INV2", "Desk", d);
      var p := Posting(5, "Inventar:Desk", x, 1000, d);
      var pns := [p, Posting(6, "Bank", x, -600, d), Posting(7, "Kasse", x, -400, d)];
      PairValue(p, pns, "INV2", d) == 2000 && PaidValue(p, pns, "INV2", d) == 1000
  {
    var d := Date(2020, 3, 1);
    var x := Xact(3, "INV2", "Desk", d);
    var p := Posting(5, "Inventar:Desk", x, 1000, d);
    var b := Posting(6, "Bank", x, -600, d);
    var c := Posting(7, "Kasse", x, -400, d);
    var pns := [p, b, c];
    assert pns[1..] == [b, c];
    assert [b, c][1..] == [c];
    assert [c][1..] == [];
    assert PairValue(p, [c], "INV2", d) == 1000;
    assert PairValue(p, [b, c], "INV2", d) == 2000;
    assert pns[1] == b;
  }
}

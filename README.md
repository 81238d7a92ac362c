# ledger-afa in Dafny

ledger-afa reports tax depreciation ("Absetzung für Abnutzung", AfA) of
business assets booked in a ledger journal. For a reporting year it finds the
depreciation postings, traces them back to the asset accounts and their
purchase transactions, and values each asset. The values are its purchase
price, its book value at the start and at the end of the year, and the year's
depreciation. The program exists in three generations, and each is modelled
in its own module:

- `LedgerAfa` (`ledger_afa.py`, the current version):
  - selects the year's postings below the depreciation account;
  - collects the (asset account, transaction) pairs as a set;
  - values each `InventoryItem` by filtered sums over the asset account's postings
    (`total_value` counts each purchase posting once; see "Findings");
  - lays out the report table sorted by buy date, with a footer of column sums.
- `LedgerAfaOld` (`ledger-afa.py`):
  - collects the inventory accounts into an order-keeping list;
  - selects the year-end depreciation transactions, one per code and payee;
  - computes the inventory account and buy date of a `SingleAfaTransaction`.
- `Afa` (`afa.py`): a script whose `Afa_Transactions` objects compute their own
  values with explicit loops. They find the buy date and cost by a running
  minimum and the book values by a year-by-year subtraction. The script finds
  its items with a discovery loop keyed by `gen_id`. The loop's specification
  and its lemmas take the test on one entry as a parameter, and the script's
  methods plug in the name-and-sign test of the source.

Shared modules:

- `Ledger`: the journal as values. It has dates, transactions, postings with
  integer amounts in cents, and the account tree; accounts are keyed by full name.
- `Accounts`: `get_sub_accounts`, which both ledger versions define
  identically, and the postings of an account subtree.
- `Wrappers`: `Option` and `Result`.
- `LedgerAfaScenarios`: worked examples on a small journal. A laptop is
  bought for 1000 and written down by 200 a year later.

Where the source mutates state, so does the model:

- `GetInventory`, `GetInventoryAccounts`, `GetAfaAccounts` and `CreateTable`
  are loops.
- `Afa.AfaTransaction` is a class whose methods update `buyDate`,
  `totalCosts`, `costsBegin` and `costsEnd` in place.

Each loop is proved against a recursive function or a predicate that states what it computes.
The source's promises are lemmas about those functions.

Two details of the code that its names and comments do not suggest:

- `get_inventory` deduplicates by account full name and transaction object. Two
  different transactions that share a code therefore give two items, not one.
- A `first_post` that does not resolve does not stop the item in the code.
  Python prints the error and carries on; it fails later, and only if a posting
  of the account falls in the year. See `LedgerAfa.MakeInventoryItem` under "Left out".

## Model

| member | source | states |
|---|---|---|
| Accounts.SubAccountsAreDescendants | ledger_afa.py:12-15 | `get_sub_accounts` returns exactly the proper descendants of the account, each node once (length is tree size minus one), direct children first, never the account itself; the copy in ledger-afa.py (lines 34-37) is the same function |
| Accounts.SubAccounts | ledger_afa.py:12-15 | definition: the children, then the sub-accounts of each child in turn; its properties are lemma `Accounts.SubAccountsAreDescendants` |
| Accounts.PostsOfAccounts | ledger_afa.py:30 | the postings of a list of accounts are exactly the journal postings booked to one of them |
| Accounts.SubtreePosts | ledger_afa.py:29-30 | the postings of `[top] + get_sub_accounts(top)` are exactly the journal postings booked to `top` or an account below it |
| Ledger.MinDate | ledger_afa.py:136-137 | Python's `min` over a non-empty list of dates returns one of them, no later than any |
| Ledger.LeafName | ledger_afa.py:132 | `account.name` is the suffix of the full name after its last colon and holds no colon |
| Ledger.LeafNameOfChild | ledger_afa.py:132 | the child `name` of any parent has leaf name `name` |
| LedgerAfa.GetAfaPosts | ledger_afa.py:18-31 | fails with the account error exactly when the lookup finds no account; otherwise returns exactly the journal postings of the year booked to the found account or below it |
| LedgerAfa.GetInventory | ledger_afa.py:34-52 | the set holds exactly the (account, transaction) pairs of postings in the transaction of an input posting whose account differs from that posting's |
| LedgerAfa.BuyDate | ledger_afa.py:136-137 | `buy_date` is attained by a code-matching posting of the account and is no later than any of them |
| LedgerAfa.CodePosts | ledger_afa.py:136-137 | definition: the account's postings whose transaction carries the code, the generator inside `min()`; its properties are `LedgerAfa.BuyDate` and the failure clause of `LedgerAfa.MakeInventoryItem` |
| LedgerAfa.FirstPostCandidates | ledger_afa.py:139-146 | definition: the positive code-matching postings on the buy date, the list unpacked into `first_post`; its properties are `LedgerAfa.MakeInventoryItem` (exactly one on success) and `LedgerAfa.FirstPostIsNotDepreciation` |
| LedgerAfa.EarliestCodeDateIsUnique | ledger_afa.py:136-137 | the earliest code date is unique, so the buy date is well defined |
| LedgerAfa.OpeningKeep | ledger_afa.py:162-168 | definition: the filter of `last_year_value`; its properties are lemmas `LedgerAfa.YearIdentity` and `LedgerAfa.ClosingIsOpeningPlusDepreciation` |
| LedgerAfa.ClosingKeep | ledger_afa.py:170-173 | definition: the filter of `next_year_value`; its properties are lemmas `LedgerAfa.YearIdentity` and `LedgerAfa.BookValueDoesNotGrowWithoutPurchases` |
| LedgerAfa.DepreciationKeep | ledger_afa.py:175-181 | definition: the filter of `deprecation_amount`; its properties are lemmas `LedgerAfa.YearIdentity` and `LedgerAfa.FirstPostIsNotDepreciation` |
| LedgerAfa.PairValue | ledger_afa.py:155-160 | the generator as written: one asset posting's contribution is never negative |
| LedgerAfa.Funders | ledger_afa.py:156-160 | definition: the number of negative postings of the transaction other than the asset posting; its properties are lemmas `LedgerAfa.PairValueCountsFunders` and `LedgerAfa.FundersIffHasFunder` |
| LedgerAfa.PairValueCountsFunders | ledger_afa.py:155-160 | as written, an asset posting on the buy date with the code adds `abs(amount)` once per funding posting, and nothing otherwise |
| LedgerAfa.FundersIffHasFunder | ledger_afa.py:159-160 | there is at least one funding posting exactly when some other posting of the transaction is negative |
| LedgerAfa.PaidValue | ledger_afa.py:150-160 | the corrected contribution: `abs(amount)` once when the posting is on the buy date, carries the code and is funded, otherwise 0; between 0 and `abs(amount)` |
| LedgerAfa.PaidValueAgreesWithOneFunder | ledger_afa.py:155-160 | with at most one funding posting, the corrected contribution equals the one as written |
| LedgerAfa.TotalValueAsWritten | ledger_afa.py:155-160 | `total_value` as written is never negative |
| LedgerAfa.TotalValue | ledger_afa.py:150-160 | the corrected `total_value`, each purchase posting counted once, is never negative |
| LedgerAfa.TotalValueAgreesWithOneFunder | ledger_afa.py:155-160 | when every posting of the account has at most one funding posting, the corrected `total_value` equals the one as written |
| LedgerAfa.MakeInventoryItem | ledger_afa.py:128-181 | fails exactly when no posting of the account carries the code, or when the earliest date has other than one positive code-matching posting; on success the item has the transaction's code, the account, its leaf name, the earliest code date as buy date and a unique first post; `total_value` is the corrected sum (each purchase posting once; see "Findings"), never negative; `last_year_value`, `next_year_value` and `deprecation_amount` are the sums of the account's postings under the opening, closing and depreciation filters, the last excluding the first post, and never positive |
| LedgerAfa.ClosingIsOpeningPlusDepreciation | ledger_afa.py:162-181 | with unique posting ids, `next_year_value == last_year_value + deprecation_amount` for every item that resolves |
| LedgerAfa.FirstPostIsNotDepreciation | ledger_afa.py:175-181 | the positive first post never shares its id with a negative posting, so excluding it removes no depreciation |
| LedgerAfa.YearIdentity | ledger_afa.py:162-181 | posting by posting, the closing filter is the opening filter plus the depreciation filter |
| LedgerAfa.BookValueDoesNotGrowWithoutPurchases | ledger_afa.py:170-173 | with no positive posting in the next year, the next year's closing value is at most this year's |
| LedgerAfa.ColumnTotals | ledger_afa.py:96-99 | definition: the four column sums; its properties are lemmas `LedgerAfa.InsertAddsColumns` and `LedgerAfa.FooterKeepsItemFacts` |
| LedgerAfa.InsertByBuyDate | ledger_afa.py:101 | one step of the sort: the list grows by one; its other properties are lemmas `LedgerAfa.InsertAddsItem`, `LedgerAfa.InsertKeepsSorted` and `LedgerAfa.InsertKeepsLowerBound` |
| LedgerAfa.InsertAddsItem | ledger_afa.py:101 | inserting an item adds exactly that item (length and multiset) |
| LedgerAfa.InsertKeepsLowerBound | ledger_afa.py:101 | inserting keeps every item bought no earlier than a common bound |
| LedgerAfa.InsertKeepsSorted | ledger_afa.py:101 | inserting into a list sorted by buy date keeps it sorted |
| LedgerAfa.InsertAddsColumns | ledger_afa.py:96-101 | inserting an item adds its four columns to the column sums |
| LedgerAfa.SortByBuyDate | ledger_afa.py:101 | `sorted(items, key=buy_date)` is a permutation of the items, ascending by buy date, with the same column sums |
| LedgerAfa.CreateTable | ledger_afa.py:94-121 | one header row with both years, then one row per item in buy-date order, then a footer holding the column sums over all items, which equal the sums over the rows shown |
| LedgerAfa.FooterKeepsItemFacts | ledger_afa.py:96-99 | the footer keeps closing = opening + depreciation, a non-negative total and a non-positive depreciation when every item does |
| LedgerAfaScenarios.DepreciationPostsOf2021 | ledger_afa.py:29-31 | in the example, the depreciation postings of 2021 are the write-down's expense posting alone |
| LedgerAfaScenarios.YearAfterPurchase | ledger_afa.py:128-181 | in the year after purchase the laptop is valued 1000, opens at 1000, loses 200 and closes at 800 |
| LedgerAfaScenarios.PurchaseYear | ledger_afa.py:162-181 | in the purchase year the purchase counts into the opening value (1000) and nothing is depreciated |
| LedgerAfaScenarios.PurchaseDate | ledger_afa.py:136-146 | the example's buy date is the purchase date and its first post is the purchase posting |
| LedgerAfaScenarios.AssetName | ledger_afa.py:132 | the item name of "Inventar:Laptop" is "Laptop" |
| LedgerAfaScenarios.AssetPosts | ledger_afa.py:136 | the asset account's postings are the purchase and the write-down, in journal order |
| LedgerAfaScenarios.PurchaseValue | ledger_afa.py:155-160 | the purchase value is the asset posting's amount, counted once against the one negative funding posting |
| LedgerAfaScenarios.SplitFundingCountsTwice | ledger_afa.py:155-160 | a desk of 1000 paid by -600 and -400 is valued 2000 as written and 1000 when corrected |
| LedgerAfaOld.GetAfaPosts | ledger-afa.py:154-159 | returns exactly the journal postings of the depreciation account and of the accounts below it, of any year |
| LedgerAfaOld.OthersIn | ledger-afa.py:169-170 | `other_accounts` holds exactly the accounts of the transaction's postings other than the triggering posting's |
| LedgerAfaOld.OtherAccounts | ledger-afa.py:169-170 | definition: `other_accounts` for one posting, `OthersIn` over its transaction's postings; its properties are `LedgerAfaOld.OthersIn` and `LedgerAfaOld.AllOtherAccounts` |
| LedgerAfaOld.NotKnown | ledger-afa.py:172-174 | `new_accounts` holds exactly the other accounts not yet in the inventory |
| LedgerAfaOld.AllOtherAccounts | ledger-afa.py:166-170 | the concatenated other accounts hold exactly the accounts reached from some input posting |
| LedgerAfaOld.InventoryAccountsAsWritten | ledger-afa.py:165-178 | definition: the inventory list as the loop builds it; its properties are lemmas `LedgerAfaOld.AsWrittenAgreesWithoutRepeatedAccounts` and `LedgerAfaOld.AsWrittenRepeatsASplitAccount` |
| LedgerAfaOld.Dedup | ledger-afa.py:163-176 | definition: first-seen deduplication; its properties are lemmas `LedgerAfaOld.DedupIsSetOfElements` and `LedgerAfaOld.DedupAppend` |
| LedgerAfaOld.DedupIsSetOfElements | ledger-afa.py:161-178 | first-seen deduplication keeps every element, each once |
| LedgerAfaOld.GetInventoryAccounts | ledger-afa.py:161-178 | the corrected inventory list is the first-seen deduplication of all other accounts: no full name twice, exactly the accounts reached, in first-seen order |
| LedgerAfaOld.AsWrittenAgreesWithoutRepeatedAccounts | ledger-afa.py:165-178 | the list as written equals the corrected one whenever no transaction books the same other account twice |
| LedgerAfaOld.DedupAppend | ledger-afa.py:172-176 | deduplicating after appending a repeat-free list appends exactly its unseen part |
| LedgerAfaOld.AsWrittenRepeatsASplitAccount | ledger-afa.py:165-178 | a depreciation transaction with two postings to one inventory account puts that account twice into the list as written |
| LedgerAfaOld.FirstNegativeAccount | ledger-afa.py:118-125 | the account of the first posting with a negative amount, or the default when none is negative |
| LedgerAfaOld.CalculateAccount | ledger-afa.py:118-125 | the early-return scan returns that first negative posting's account, or the default |
| LedgerAfaOld.CodeDates | ledger-afa.py:115-116 | exactly the dates of the transactions carrying the code |
| LedgerAfaOld.CalculateDate | ledger-afa.py:110-116 | the buy date is the date of some transaction with the code and no later than any of them |
| LedgerAfaOld.Construct | ledger-afa.py:55-72 | definition: the fields the constructor computes; its properties are method `LedgerAfaOld.NewSingleAfaTransaction` and lemma `LedgerAfaOld.ConstructedIsBuilt` |
| LedgerAfaOld.NewSingleAfaTransaction | ledger-afa.py:55-72 | the constructor computes the inventory account and the buy date as the two helpers do, and takes the three cost figures from the ledger queries |
| LedgerAfaOld.Keys | ledger-afa.py:195 | the list of `code + payee` of the selected transactions, element by element |
| LedgerAfaOld.Key | ledger-afa.py:195 | definition: `trans.code + trans.payee`; its properties are `LedgerAfaOld.Keys` and `LedgerAfaOld.AppendFreshKey` |
| LedgerAfaOld.GetAfaAccounts | ledger-afa.py:180-205 | the selection equals its scan function; each result is built from a positive posting on a matching account of a Dec-31 transaction with a code; no two results share code+payee; every such transaction's code+payee is among the results |
| LedgerAfaOld.ScanXacts | ledger-afa.py:185-205 | definition: the transaction loop; its properties are lemmas `LedgerAfaOld.ScanXactsKeeps` and `LedgerAfaOld.SelectionIsSound` |
| LedgerAfaOld.ScanPosts | ledger-afa.py:190-204 | definition: the posting loop; its properties are lemma `LedgerAfaOld.ScanPostsKeeps` and method `LedgerAfaOld.ScanTransactionPosts` |
| LedgerAfaOld.AfterPost | ledger-afa.py:191-204 | definition: one posting's step; its properties are lemmas `LedgerAfaOld.AfterPostKeeps`, `LedgerAfaOld.ConstructedIsBuilt` and `LedgerAfaOld.AppendFreshKey` |
| LedgerAfaOld.ScanTransactionPosts | ledger-afa.py:190-204 | the posting loop of one transaction computes exactly the inner scan function |
| LedgerAfaOld.SelectionIsSound | ledger-afa.py:185-205 | the scan keeps every item correctly built, keys unique, and covers every qualifying transaction |
| LedgerAfaOld.ScanXactsKeeps | ledger-afa.py:185-205 | the outer loop keeps items built, keys unique and earlier keys, and covers the transactions it passes |
| LedgerAfaOld.ScanPostsKeeps | ledger-afa.py:190-204 | the inner loop keeps items built and keys unique, and ends with the transaction's key unless no posting matched |
| LedgerAfaOld.AfterPostKeeps | ledger-afa.py:191-204 | one posting keeps items built and keys unique, and a matching positive posting leaves the transaction's key present |
| LedgerAfaOld.NoneMatchNotQualifies | ledger-afa.py:193-197 | a transaction with no positive matching posting is not a depreciation |
| LedgerAfaOld.ConstructedIsBuilt | ledger-afa.py:198-203 | what the constructor makes from a qualifying posting is correctly built |
| LedgerAfaOld.AppendBuilt | ledger-afa.py:204 | appending a correctly built item keeps all items correctly built |
| LedgerAfaOld.AppendFreshKey | ledger-afa.py:195-204 | appending an item with a new code+payee keeps keys unique and appends that key |
| Afa.Lower | afa.py:149 | `lower()` keeps the length and lowers each character on its own |
| Afa.ContainsIffOccurs | afa.py:149 | `sub in s` holds exactly when `sub` occurs in `s` at some index |
| Afa.FragmentHasNoCapitals | afa.py:20 | the depreciation fragment holds no ASCII capital |
| Afa.NoCapitalsLowerIsIdentity | afa.py:149 | lowering a string without capitals changes nothing, so `AFA_ACCOUNT.lower()` is the fragment itself |
| Afa.FragmentLowerIsItself | afa.py:149 | `AFA_ACCOUNT.lower()` is `AFA_ACCOUNT` |
| Afa.Contains | afa.py:149 | definition: Python's `in` on strings; its property is lemma `Afa.ContainsIffOccurs` |
| Afa.IsAfaAccountName | afa.py:149 | definition: the lowered name contains the fragment; by `Afa.FragmentLowerIsItself` this is the source's test `AFA_ACCOUNT.lower() in name.lower()` |
| Afa.HasAfaAccount | afa.py:70 | definition: some entry of the transaction has a depreciation account name, the `any(...)` test; its property is `Afa.IrrelevantIsIgnored` |
| Afa.GenIdInjective | afa.py:29-30 | equal ids mean equal code, payee and account name, when codes and payees hold no dash |
| Afa.GenIdCollidesOnDashes | afa.py:29-30 | with a dash in a code, two items with different codes can share an id |
| Afa.GenId | afa.py:29-30 | definition: code, dash, payee, dash, account name; its properties are lemmas `Afa.GenIdInjective` and `Afa.GenIdCollidesOnDashes` |
| Afa.FirstNegative | afa.py:95-102 | the name of the first entry with a negative balance, or the fallback when none is negative |
| Afa.CalculateAccount | afa.py:95-102 | the early-return scan returns that first negative entry's name, or the fallback |
| Afa.Candidates | afa.py:82-93 | definition: the (aux date, balance) pairs the loop compares, in journal order; its properties are lemmas `Afa.CandidatesAppend` and `Afa.OtherCodeOffersNoCandidates` |
| Afa.RunningMin | afa.py:89-93 | definition: the strict running minimum; its properties are lemmas `Afa.RunningMinSnoc`, `Afa.RunningMinAppend`, `Afa.RunningMinIsLowest` and `Afa.RunningMinIsFirstEarliest` |
| Afa.RunningMinSnoc | afa.py:89-93 | a later candidate replaces the running minimum only when strictly earlier |
| Afa.RunningMinAppend | afa.py:82-93 | running over the candidates of several transactions is running over each in turn, from where the previous one left off |
| Afa.RunningMinIsLowest | afa.py:82-93 | the buy date found is no later than the initial moment and than every candidate |
| Afa.RunningMinIsFirstEarliest | afa.py:82-93 | with no candidate strictly before the initial moment nothing changes; otherwise the result is the first candidate at the earliest moment, so on ties the cost comes from the first such transaction |
| Afa.EntriesDeduction | afa.py:72-75 | definition: `abs(balance)` summed over the entries on the account; its property is lemma `Afa.EntriesDeductionNonNegative` |
| Afa.YearDeduction | afa.py:64-75 | definition: one year's deduction over the journal; its properties are lemmas `Afa.YearDeductionNonNegative` and `Afa.YearDeductionAppend` |
| Afa.Deducted | afa.py:62-78 | definition: the deductions over a range of years; its properties are lemmas `Afa.DeductedNonNegative`, `Afa.DeductedMonotone`, `Afa.YearIsTheDifference` and `Afa.IrrelevantIsIgnored` |
| Afa.Relevant | afa.py:66-70 | definition: the three nested tests (same code, booked in the year, a depreciation account in it); the test `Afa.AfaTransaction.DeductYear` runs, whose negation `Afa.IrrelevantIsIgnored` requires |
| Afa.EntriesDeductionNonNegative | afa.py:72-78 | what one transaction deducts is a sum of `abs(...)`, never negative |
| Afa.YearDeductionNonNegative | afa.py:64-78 | the deduction of one year is never negative |
| Afa.DeductedNonNegative | afa.py:62-78 | the deduction over a range of years is never negative |
| Afa.DeductedMonotone | afa.py:62-78 | deducting over more years never deducts less, so book values never grow |
| Afa.YearIsTheDifference | afa.py:75-78 | the start value minus the end value is the deduction of the chosen year, once the item was bought by then |
| Afa.IrrelevantIsIgnored | afa.py:62-78 | a transaction with another code, outside the years, or without a depreciation account, anywhere in the journal, leaves the deductions of those years unchanged |
| Afa.YearDeductionAppend | afa.py:64-78 | the deduction of a year over two journals joined is the sum of the deductions over each |
| Afa.CandidatesAppend | afa.py:82-93 | the candidates of two journals joined are those of the first followed by those of the second |
| Afa.OtherCodeOffersNoCandidates | afa.py:82-84 | a transaction with another code, anywhere in the journal, offers no candidate; with the constructor's contract and `Afa.IrrelevantIsIgnored`, it changes neither buy date, cost nor book values |
| Afa.AfaTransaction.constructor | afa.py:47-58 | the account is the first negative entry's or the given name; the id is `gen_id`; buy date and cost are the running minimum from `now`; start and end values are the cost minus the deductions of the years before `year` and up to `year`; end <= start <= cost |
| Afa.AfaTransaction.CalculateDateAndTotalCosts | afa.py:80-93 | buy date and cost become the running minimum over the code-matching entries on the account, starting from their old values |
| Afa.AfaTransaction.ScanTransaction | afa.py:84-93 | one transaction's pass continues the running minimum over its entries on the account when the code matches, and leaves it alone otherwise |
| Afa.AfaTransaction.CalculateCostsBeginAndEnd | afa.py:60-78 | the end value loses the deductions of the purchase year up to `year`, the start value those before `year` |
| Afa.AfaTransaction.DeductYear | afa.py:64-78 | one year's pass subtracts that year's deduction from the end value, and from the start value only for years before `year` |
| Afa.AfaTransaction.DeductTransaction | afa.py:72-78 | one transaction subtracts `abs(balance)` of each entry on the account |
| Afa.AfaTransaction.CostsDiff | afa.py:104-105 | `costs_end + costs_diff() == costs_begin`; on a constructed item it lies between 0 and the total written off |
| Afa.FoundIds | afa.py:153 | the ids of the items found so far, element by element |
| Afa.AfterEntry | afa.py:148-154 | one entry adds at most one item and never removes one |
| Afa.MarksDepreciation | afa.py:149-151 | definition: the entry's lowered name contains the fragment and its balance is positive; the script's test that `Afa.DiscoverTransactions` plugs into the discovery specification |
| Afa.AfterEntries | afa.py:148-154 | definition: the entry loop; its properties are lemmas `Afa.AfterEntriesGrows`, `Afa.AfterEntriesUnique`, `Afa.AfterEntriesSound` and `Afa.AfterEntriesCovers` |
| Afa.Discovered | afa.py:142-154 | definition: the transaction loop; its properties are lemmas `Afa.DiscoveredGrows`, `Afa.DiscoveredUnique`, `Afa.DiscoveredSound` and `Afa.DiscoveredCovers` |
| Afa.AfterEntriesGrows | afa.py:148-154 | the entry loop only appends |
| Afa.DiscoveredGrows | afa.py:142-154 | the transaction loop only appends |
| Afa.AppendFresh | afa.py:153-154 | appending an item with a new id keeps ids unique |
| Afa.AfterEntryUnique | afa.py:149-154 | one entry keeps the ids unique |
| Afa.AfterEntrySound | afa.py:149-154 | one entry of a qualifying transaction keeps every item from a qualifying entry of the journal, carrying that entry's id |
| Afa.AfterEntriesUnique | afa.py:148-154 | the entry loop keeps the ids unique |
| Afa.AfterEntriesSound | afa.py:148-154 | the entry loop keeps every item from a qualifying entry of the journal, carrying that entry's id |
| Afa.DiscoveredUnique | afa.py:142-154 | the discovered items have unique ids |
| Afa.DiscoveredSound | afa.py:142-154 | each discovered item comes from a qualifying entry of a journal transaction and carries that entry's id |
| Afa.AfterEntryCovers | afa.py:149-154 | after a qualifying entry its id is taken |
| Afa.AfterEntriesCovers | afa.py:148-154 | after the entry loop every qualifying entry's id is taken |
| Afa.DiscoveredCovers | afa.py:142-154 | every qualifying entry of the journal has its id among the discovered items |
| Afa.Ids | afa.py:153 | `[t.id for t in TRANSACTIONS]`, element by element |
| Afa.MatchesIds | afa.py:153 | the built items have the ids of the found ones, in order |
| Afa.MatchedAreUnique | afa.py:142-154 | the built items' ids are unique |
| Afa.MatchedAreSound | afa.py:142-154 | each built item is for a journal transaction with a qualifying entry whose id it carries |
| Afa.MatchedAreComplete | afa.py:142-154 | every qualifying entry has its id among the built items |
| Afa.Computed | afa.py:47-58 | definition: an item holds the constructor's values for its found entry (account, buy date and cost, start and end values, `end <= start <= cost`); the loops keep it by `Afa.ComputedSnoc` |
| Afa.ComputedSnoc | afa.py:154 | appending a freshly constructed item for a found entry keeps every item holding its constructor's values |
| Afa.DiscoverAtEntry | afa.py:149-154 | one pass of the entry loop appends a constructed item exactly when the specification's step finds one, and the new item holds its constructor's values |
| Afa.DiscoverInTransaction | afa.py:148-154 | the entry loop builds exactly the items the specification finds, each holding what its constructor computes |
| Afa.DiscoverTransactions | afa.py:139-154 | builds exactly the items the specification finds. They have unique ids, each comes from an entry meeting every condition of the loop (Dec-31 aux date, a code, the fragment in the name, positive balance), and every such entry's id is present. Each item holds what its constructor computes: the first negative entry's account, buy date and cost as the running minimum from `now` over the whole journal, and start and end values as the cost minus the deductions before and up to `year`, with `end <= start <= cost` |

## Left out

- The ledger and ledgerparse libraries, which are not part of this model. This covers reading and parsing the journal file, and the `xacts()` and `posts()` traversals. The journal is given as sequences of values.
- Account lookup: `find_account_re` becomes the `Option<Account>` parameter of `LedgerAfa.GetAfaPosts`. The older `find_account` creates missing accounts, so `LedgerAfaOld.GetAfaPosts` takes the account itself.
- `re.match(..., re.IGNORECASE)` in `get_afa_accounts` becomes the predicate parameter `matches`.
- `SingleAfaTransaction.calculate_costs`, which passes ledger query strings to `LedgerClass.query_total`. The three figures come from the function parameter `queryTotals`, because their meaning lives in ledger's query language.
- `LEDGER_CLASS.query_to_double` of the script, and the stray print and `exit()` after the discovery loop: they work in floating point and output.
- Money is an integer number of cents everywhere; ledger `Amount` and ledgerparse `Money` rounding are not modelled.
- `balance_account(i)`: how ledgerparse works out the amount of a posting line written without one is not modelled. Each entry carries its balance as a given number.
- Rendering: `colored`, `colorama.init`, `tabulate`, `decode`/`unicode`, `table_entry`, `add_table_entry` and the older `output`. The table is modelled as rows of values.
- Command-line parsing, `main`, the default year and `datetime.now()`/`date.today()`. The year and the current moment are parameters.
- The `__str__` methods, which cannot run as written (a missing format argument, an undefined attribute).
- The monkey-patched `__hash__`/`__eq__` of `ledger.Account`: accounts are keyed by full name instead.
- `Afa.Lower`: only ASCII capitals are lowered, as Python 2 `str.lower()` does for byte strings; no other case mapping is modelled.
- `LedgerAfa.MakeInventoryItem`: a `first_post` that is missing or not unique is an explicit failure for that item. In the code the error is printed, and the item fails later, only if some posting of the account falls in the year.
- `LedgerAfa.MakeInventoryItem`: when no posting of the account carries the code, Python's `min()` raises `ValueError`, which ends the whole run; the model fails only that item. For pairs from `get_inventory` the pair's own posting carries the code, so this path does not arise there.
- `LedgerAfa.SortByBuyDate`: sortedness, permutation and sums are proved. That items with equal buy dates keep their input order, as Python's stable sort does, is not stated.
- `LedgerAfaOld.SingleAfaTransaction.CostsDiff`: a plain difference of two query results; nothing is proved about it.
- `LedgerAfaOld.NewSingleAfaTransaction`: the three cost figures are whatever `queryTotals` returns, so nothing is proved about them.
- `Afa.DiscoverTransactions`: every field of every built item is stated, but not that the items are distinct, freshly allocated objects. Aliasing between them is not modelled because the script never updates an item after building it.

## Findings

| source | as written | input that shows it | evidently intended | confidence | as-written member | corrected member |
|---|---|---|---|---|---|---|
| ledger-afa.py:172-176 | `new_accounts` is filtered against the inventory as it was before the transaction, so one account booked twice in the same transaction is added twice | a Dec-31 transaction with one depreciation posting and two postings to "Inventar:Mikrofon" gives `["Inventar:Mikrofon", "Inventar:Mikrofon"]` | each inventory account full name once, in first-seen order, as the surrounding comment's "set operation" says | high, not executed | LedgerAfaOld.AsWrittenRepeatsASplitAccount | LedgerAfaOld.GetInventoryAccounts |
| ledger_afa.py:155-160 | `abs(p.amount)` is summed once for every negative other posting of the purchase transaction | a desk of 1000 paid by -600 from the bank and -400 from the till is valued 2000 | the purchase price counted once, as the comment at lines 150-154 describes one paying account | medium, not executed | LedgerAfaScenarios.SplitFundingCountsTwice | LedgerAfa.TotalValue |

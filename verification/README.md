# Account distribution, modelled in Dafny

This project models the computation behind the account-distribution view of
Ledger Live Desktop (`src/renderer/components/AccountDistribution/index.js`).

- **The total.** The view adds up every account's balance, starting from 0.
- **The items.** It turns each account into one item. An item holds the
  account, its currency, and its share of the total. The share is
  `balance.div(total).toFixed(2)`. It also holds the raw balance and its
  countervalue in the selected currency.
- **The order.** It sorts the items by share, largest first.
- **The visibility flag.** It keeps a flag `isVisible`. The flag starts false.
  The intersection-observer callback sets it to true the first time the
  callback's first entry is intersecting.

Files:

- `decimal.dfy` (module `Decimal`): bignumber.js division and `toFixed(2)`.
  Values are integer counts of decimal units. A balance counts smallest
  units, the 20-place quotient counts 10^-20, and a share counts hundredths.
  `div` rounds to 20 decimal places with ROUND_HALF_UP. `toFixed(2)` then
  rounds to 2 places with ROUND_HALF_UP. These are the library's defaults.
- `distribution.dfy` (module `AccountDistribution`): accounts, items, the
  total, the map, the sort and the resulting list.
- `visibility.dfy` (module `Visibility`): the flag as the class
  `AccountDistributionView`, and a fold of the callback over a series of
  observer reports.

Three things are parameters, bundled in `Valuation`:

- the selected countervalue currency, read from the settings store;
- `getAccountCurrency`;
- `calculate`, with the countervalues state it closes over.

The sort comparator is `b.distribution - a.distribution` on the
two-decimal strings. For shares in hundredths this is the order of the
integers. `Array.prototype.sort` is stable, so the model sorts with a stable
insertion sort. `StableOrderUnique` shows that only one arrangement is both
ordered and stable, so this sort's result is the one any stable sort gives.

Two points of the code's behaviour that are easy to misread:

- After the flag is raised, the observer is not disconnected. It is only
  disconnected when the component unmounts. Later callbacks therefore still
  run, and they leave the flag true.
- A share is rounded half-up, not truncated. It is also rounded twice:
  first to 20 places, then to 2 (`ShareRoundsTwice`).

## Model

| member | source | states |
|---|---|---|
| `Decimal.RoundHalfUp` | src/renderer/components/AccountDistribution/index.js:33 | the result is the integer nearest n / d, with a half rounded up (ROUND_HALF_UP): n/d - 1/2 < r <= n/d + 1/2 |
| `Decimal.RoundHalfUpMonotone` | src/renderer/components/AccountDistribution/index.js:33 | rounding half-up never reverses the order of two quotients with the same divisor |
| `Decimal.RoundHalfUpExact` | src/renderer/components/AccountDistribution/index.js:33 | a quotient that is already a whole number is not changed by rounding |
| `Decimal.ShareBounds` | src/renderer/components/AccountDistribution/index.js:33 | a zero balance has share 0.00; a balance equal to the total has share 1.00; a balance no larger than the total has a share of at most 1.00 |
| `Decimal.ShareMonotone` | src/renderer/components/AccountDistribution/index.js:33 | for the same total, a larger balance never gets a smaller share |
| `Decimal.ShareError` | src/renderer/components/AccountDistribution/index.js:33 | the two-place share differs from the exact 100 * balance / total by at most 1/2 + 1/2 * 10^-18 hundredths; the second term is the error of the 20-place quotient |
| `Decimal.ShareRoundsTwice` | src/renderer/components/AccountDistribution/index.js:33 | there is a balance whose exact share is below 0.005 but which shows as 0.01, because the 20-place quotient rounds up to exactly 0.005 first |
| `AccountDistribution.TotalFromFront` | src/renderer/components/AccountDistribution/index.js:24 | the left-to-right sum from 0 equals the first balance plus the total of the rest |
| `AccountDistribution.BalanceWithinTotal` | src/renderer/components/AccountDistribution/index.js:24 | no balance exceeds the total; the total is 0 exactly when every balance is 0 |
| `AccountDistribution.MapItems` | src/renderer/components/AccountDistribution/index.js:27-42 | one item per account, in the accounts' order; the item at position i is the one built from account i |
| `AccountDistribution.AccountsOfMapItems` | src/renderer/components/AccountDistribution/index.js:27-31 | each item's `account` field is the account it was built from, so the mapped items' accounts are exactly the input accounts in order |
| `AccountDistribution.InsertContents` | src/renderer/components/AccountDistribution/index.js:43 | inserting an item gives one more element, adds its share to the share sum, and the new head is the item or the old head |
| `AccountDistribution.InsertPermutes` | src/renderer/components/AccountDistribution/index.js:43 | inserting an item adds exactly that item to the multiset of items |
| `AccountDistribution.InsertAccounts` | src/renderer/components/AccountDistribution/index.js:43 | inserting an item adds exactly its account to the multiset of accounts |
| `AccountDistribution.InsertSorted` | src/renderer/components/AccountDistribution/index.js:43 | inserting into a list ordered by share, largest first, keeps it ordered |
| `AccountDistribution.InsertStable` | src/renderer/components/AccountDistribution/index.js:43 | insertion puts the item ahead of every item with the same share, as if it had been at the front |
| `AccountDistribution.SortByShareContents` | src/renderer/components/AccountDistribution/index.js:43 | the sort is a permutation: same length, same multiset of items, same multiset of accounts, same share sum |
| `AccountDistribution.SortByShareSorted` | src/renderer/components/AccountDistribution/index.js:43 | the sorted list is non-increasing by share |
| `AccountDistribution.SortByShareStable` | src/renderer/components/AccountDistribution/index.js:43 | for every share value, the items with that share keep their input order |
| `AccountDistribution.StableOrderUnique` | src/renderer/components/AccountDistribution/index.js:43 | two lists that are both ordered by share and agree on the order of the items of every share are equal |
| `AccountDistribution.DistributeItems` | src/renderer/components/AccountDistribution/index.js:25-45 | the list has one item per account, which is the count the header shows. Its accounts are a permutation of the input. Each item comes from one input account. It holds that account's currency, its share `Share(balance, total)` against the sum of all balances, and its balance unchanged. Its countervalue is `calculate` applied to that balance, from its currency to the selected one, with rounding disabled |
| `AccountDistribution.DistributeEmpty` | src/renderer/components/AccountDistribution/index.js:24-45 | an empty account list gives an empty list, and no division takes place |
| `AccountDistribution.DistributeOrderedAndBounded` | src/renderer/components/AccountDistribution/index.js:33-43 | the list is ordered by share, largest first; every share is at most 1.00; an account holding the whole total shows 1.00 |
| `AccountDistribution.DistributeStable` | src/renderer/components/AccountDistribution/index.js:43 | accounts with equal rounded shares keep their input order, and every list ordered by share that keeps that order is this list |
| `AccountDistribution.DistributeSixtyForty` | src/renderer/components/AccountDistribution/index.js:24-43 | balances 60 and 40 give shares 0.60 and 0.40, in the given order |
| `AccountDistribution.DistributeFollowsBalances` | src/renderer/components/AccountDistribution/index.js:33-43 | an account can be listed ahead of one with a larger or equal balance only when both have the same rounded share |
| `AccountDistribution.MapItemsShareError` | src/renderer/components/AccountDistribution/index.js:24-42 | summed over all items against one total, the share errors add up to at most (1/2 + 1/2 * 10^-18) hundredths per account |
| `AccountDistribution.DistributeSharesSum` | src/renderer/components/AccountDistribution/index.js:24-43 | with a positive total, the shares add up to 1.00 within (1/2 + 1/2 * 10^-18) hundredths per account. With fewer than 10^18 accounts, 2 * abs(sum - 100) is at most the number of accounts |
| `Visibility.ReplayKeepsVisible` | src/renderer/components/AccountDistribution/index.js:55-58 | once the flag is true, no series of callbacks makes it false |
| `Visibility.ReplayFromHidden` | src/renderer/components/AccountDistribution/index.js:48-58 | from the initial false, the flag is true after a series of callbacks exactly when one of them had an intersecting first entry |
| `Visibility.ReplayPrefixMonotone` | src/renderer/components/AccountDistribution/index.js:55-58 | one-way: if the flag is true after a prefix of the callbacks, it is true after all of them |
| `Visibility.AccountDistributionView.constructor` | src/renderer/components/AccountDistribution/index.js:48 | the flag starts false |
| `Visibility.AccountDistributionView.OnIntersection` | src/renderer/components/AccountDistribution/index.js:55-58 | one callback leaves the flag as `Next` says: it becomes true when the first entry exists and is intersecting, and otherwise stays as it was. It never goes from true to false, and it changes only on an intersecting first entry |

## Left out

- `Distribute`: a non-empty list whose balances are all 0 makes the total 0. Line 33 then divides by it unguarded, and every share comes out as the string "NaN". The model requires a positive total for a non-empty list, and says nothing about that case.
- Balances are naturals in smallest units. Negative or fractional bignumber values are not modelled.
- The currency lookup (`getAccountCurrency`), the countervalue conversion (`calculate`) and the countervalues state are foreign calls. The selected currency comes from the settings store. All of these are opaque parameters (`Valuation`); their internals are not part of this model.
- The comparator's string-to-number coercion is not modelled. Shares are compared as integer hundredths, which gives the same order for two-decimal strings.
- React rendering, `useMemo` memoisation and its dependency list, `Trans` header text, `Row`/`Header`/`Card` presentation: UI framework behaviour with no computation of its own.
- The intersection observer's wiring is not modelled: its construction, threshold and root margin, the `scroll-area` lookup, the early return when the card is not mounted, and `disconnect` on unmount. These are browser API calls. Only the flag transition they feed is modelled.
- `tests/po/addAccountModal.page.js`: an asynchronous UI-automation page object (clicks, waits, key presses against a remote driver) with no computation; it is not part of this model.

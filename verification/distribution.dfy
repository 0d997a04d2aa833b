/**
 * The account-distribution computation of the AccountDistribution view:
 * the total of all balances, one item per account carrying its share of
 * that total and its countervalue, and the items ordered by share, largest
 * first, with the stable sort of Array.prototype.sort.
 *
 * Balances are naturals in smallest units and shares are integer hundredths
 * (see module Decimal). The currency lookup and the countervalue conversion
 * are calls into other libraries; they are parameters here, bundled as a
 * Valuation.
 */
module AccountDistribution {
  import opened Decimal

  datatype Account<C> = Account(id: string, balance: nat, currency: C)

  /** The argument record of the countervalue conversion. */
  datatype Request<C> = Request(value: nat, from: C, to: C, disableRounding: bool)

  /** What the view knows of the outside world: the selected countervalue
      currency, the account-currency lookup and the conversion (which holds
      the countervalues state). */
  datatype Valuation<!C, V> = Valuation(
    to: C,
    currencyOf: Account<C> -> C,
    calculate: Request<C> -> V)

  /** One row of the distribution; `distribution` is in hundredths. */
  datatype Item<C, V> = Item(
    account: Account<C>,
    currency: C,
    distribution: nat,
    amount: nat,
    countervalue: V)

  // ---------------------------------------------------------------------
  // The total

  /** The accounts' balances added up from 0, left to right. */
  function Total<C>(accounts: seq<Account<C>>): nat
  {
    if accounts == [] then 0 else Total(accounts[..|accounts| - 1]) + accounts[|accounts| - 1].balance
  }

  /** Adding up from the front gives the same total. */
  lemma {:induction false} TotalFromFront<C>(accounts: seq<Account<C>>)
    requires accounts != []
    ensures Total(accounts) == accounts[0].balance + Total(accounts[1..])
  {
    var n := |accounts|;
    if n > 1 {
      TotalFromFront(accounts[..n - 1]);
      assert accounts[..n - 1][1..] == accounts[1..][..n - 2];
      assert accounts[..n - 1][0] == accounts[0];
    } else {
      assert accounts[1..] == [];
    }
  }

  /** No account's balance exceeds the total, and the total is 0 exactly
      when every balance is 0. */
  lemma {:induction false} BalanceWithinTotal<C>(accounts: seq<Account<C>>)
    ensures forall a :: a in accounts ==> a.balance <= Total(accounts)
    ensures Total(accounts) == 0 <==> forall a :: a in accounts ==> a.balance == 0
  {
    if accounts != [] {
      TotalFromFront(accounts);
      BalanceWithinTotal(accounts[1..]);
      forall a | a in accounts
        ensures a.balance <= Total(accounts)
      {
        if a != accounts[0] {
          assert a in accounts[1..];
        }
      }
    }
  }

  // ---------------------------------------------------------------------
  // The items

  /** The item built for one account: the account, its currency, its share
      of the total, its balance and the conversion of that balance, with
      rounding disabled, into the selected currency. */
  function MakeItem<C, V>(a: Account<C>, total: nat, val: Valuation<C, V>): Item<C, V>
    requires total > 0
  {
    var from := val.currencyOf(a);
    Item(a, from, Share(a.balance, total), a.balance,
         val.calculate(Request(a.balance, from, val.to, true)))
  }

  /** `accounts.map(...)`: one item per account, in the accounts' order. */
  function MapItems<C, V>(accounts: seq<Account<C>>, total: nat, val: Valuation<C, V>): (r: seq<Item<C, V>>)
    requires accounts == [] || total > 0
    ensures |r| == |accounts|
    ensures forall i :: 0 <= i < |r| ==> r[i] == MakeItem(accounts[i], total, val)
  {
    if accounts == [] then []
    else [MakeItem(accounts[0], total, val)] + MapItems(accounts[1..], total, val)
  }

  /** The accounts the items are about, in the items' order. */
  function Accounts<C, V>(items: seq<Item<C, V>>): seq<Account<C>>
  {
    if items == [] then [] else [items[0].account] + Accounts(items[1..])
  }

  /** The items' shares added up. */
  function SumShares<C, V>(items: seq<Item<C, V>>): nat
  {
    if items == [] then 0 else items[0].distribution + SumShares(items[1..])
  }

  /** The items whose share is v, in their order. */
  function WithShare<C, V>(items: seq<Item<C, V>>, v: nat): seq<Item<C, V>>
  {
    if items == [] then []
    else (if items[0].distribution == v then [items[0]] else []) + WithShare(items[1..], v)
  }

  /** Ordered by share, largest first. */
  ghost predicate SortedByShare<C, V>(items: seq<Item<C, V>>)
  {
    forall i, j :: 0 <= i < j < |items| ==> items[i].distribution >= items[j].distribution
  }

  lemma {:induction false} AccountsOfMapItems<C, V>(accounts: seq<Account<C>>, total: nat, val: Valuation<C, V>)
    requires accounts == [] || total > 0
    ensures Accounts(MapItems(accounts, total, val)) == accounts
  {
    if accounts != [] {
      var r := MapItems(accounts, total, val);
      assert r[1..] == MapItems(accounts[1..], total, val);
      AccountsOfMapItems(accounts[1..], total, val);
      assert accounts == [accounts[0]] + accounts[1..];
    }
  }

  // ---------------------------------------------------------------------
  // The sort: `.sort((a, b) => b.distribution - a.distribution)`

  /** Places x in front of the first item whose share is not larger than
      its own, so that x stays ahead of the items of equal share. */
  function Insert<C, V>(x: Item<C, V>, ys: seq<Item<C, V>>): seq<Item<C, V>>
  {
    if ys == [] || ys[0].distribution <= x.distribution then [x] + ys
    else [ys[0]] + Insert(x, ys[1..])
  }

  /** Stable insertion sort by share, largest first. */
  function SortByShare<C, V>(items: seq<Item<C, V>>): seq<Item<C, V>>
  {
    if items == [] then [] else Insert(items[0], SortByShare(items[1..]))
  }

  /** Inserting adds one item, whose share joins the sum, at the head or
      behind the old head. */
  lemma {:induction false} InsertContents<C, V>(x: Item<C, V>, ys: seq<Item<C, V>>)
    ensures |Insert(x, ys)| == |ys| + 1
    ensures SumShares(Insert(x, ys)) == x.distribution + SumShares(ys)
    ensures Insert(x, ys)[0] == x || Insert(x, ys)[0] == ys[0]
  {
    if ys != [] && ys[0].distribution > x.distribution {
      InsertContents(x, ys[1..]);
      assert Insert(x, ys)[1..] == Insert(x, ys[1..]);
    }
  }

  /** Inserting adds exactly that item. */
  lemma {:induction false} InsertPermutes<C, V>(x: Item<C, V>, ys: seq<Item<C, V>>)
    ensures multiset(Insert(x, ys)) == multiset{x} + multiset(ys)
  {
    if ys != [] && ys[0].distribution > x.distribution {
      InsertPermutes(x, ys[1..]);
      assert ys == [ys[0]] + ys[1..];
    }
  }

  /** Inserting adds exactly that item's account. */
  lemma {:induction false} InsertAccounts<C, V>(x: Item<C, V>, ys: seq<Item<C, V>>)
    ensures multiset(Accounts(Insert(x, ys))) == multiset{x.account} + multiset(Accounts(ys))
  {
    var r := Insert(x, ys);
    if ys == [] || ys[0].distribution <= x.distribution {
      assert r[1..] == ys;
    } else {
      InsertAccounts(x, ys[1..]);
      assert r[1..] == Insert(x, ys[1..]);
    }
  }

  lemma {:induction false} InsertSorted<C, V>(x: Item<C, V>, ys: seq<Item<C, V>>)
    requires SortedByShare(ys)
    ensures SortedByShare(Insert(x, ys))
  {
    if ys != [] && ys[0].distribution > x.distribution {
      var rest := Insert(x, ys[1..]);
      assert SortedByShare(ys[1..]) by {
        forall i, j | 0 <= i < j < |ys[1..]|
          ensures ys[1..][i].distribution >= ys[1..][j].distribution
        {
          assert ys[1..][i] == ys[i + 1] && ys[1..][j] == ys[j + 1];
        }
      }
      InsertSorted(x, ys[1..]);
      InsertContents(x, ys[1..]);
      assert ys[0].distribution >= rest[0].distribution;
      var r := Insert(x, ys);
      assert r == [ys[0]] + rest;
      forall i, j | 0 <= i < j < |r|
        ensures r[i].distribution >= r[j].distribution
      {
        if i == 0 {
          assert r[j] == rest[j - 1];
        } else {
          assert r[i] == rest[i - 1] && r[j] == rest[j - 1];
        }
      }
    }
  }

  lemma {:induction false} InsertStable<C, V>(x: Item<C, V>, ys: seq<Item<C, V>>, v: nat)
    ensures WithShare(Insert(x, ys), v) == WithShare([x] + ys, v)
  {
    var r := Insert(x, ys);
    if ys == [] || ys[0].distribution <= x.distribution {
    } else {
      InsertStable(x, ys[1..], v);
      assert r[1..] == Insert(x, ys[1..]);
      assert ([x] + ys)[1..] == ys;
      assert ([x] + ys[1..])[1..] == ys[1..];
      assert ys[1..] == ys[1..];
    }
  }

  /** The sort returns the same items, so the same accounts and the same
      sum of shares. */
  lemma {:induction false} SortByShareContents<C, V>(items: seq<Item<C, V>>)
    ensures |SortByShare(items)| == |items|
    ensures multiset(SortByShare(items)) == multiset(items)
    ensures multiset(Accounts(SortByShare(items))) == multiset(Accounts(items))
    ensures SumShares(SortByShare(items)) == SumShares(items)
  {
    if items != [] {
      var rest := items[1..];
      SortByShareContents(rest);
      InsertContents(items[0], SortByShare(rest));
      InsertPermutes(items[0], SortByShare(rest));
      InsertAccounts(items[0], SortByShare(rest));
      assert items == [items[0]] + rest;
      assert multiset(items) == multiset{items[0]} + multiset(rest);
      assert Accounts(items) == [items[0].account] + Accounts(rest);
      assert multiset(Accounts(items)) == multiset{items[0].account} + multiset(Accounts(rest));
    }
  }

  /** The sort orders the items by share, largest first. */
  lemma {:induction false} SortByShareSorted<C, V>(items: seq<Item<C, V>>)
    ensures SortedByShare(SortByShare(items))
  {
    if items != [] {
      SortByShareSorted(items[1..]);
      InsertSorted(items[0], SortByShare(items[1..]));
    }
  }

  /** The sort is stable: the items of any one share keep their input order. */
  lemma {:induction false} SortByShareStable<C, V>(items: seq<Item<C, V>>, v: nat)
    ensures WithShare(SortByShare(items), v) == WithShare(items, v)
  {
    if items != [] {
      SortByShareStable(items[1..], v);
      InsertStable(items[0], SortByShare(items[1..]), v);
      assert ([items[0]] + SortByShare(items[1..]))[1..] == SortByShare(items[1..]);
    }
  }

  lemma WithShareOfFirst<C, V>(items: seq<Item<C, V>>)
    requires items != []
    ensures WithShare(items, items[0].distribution) != []
  {
  }

  lemma {:induction false} WithShareBelowFirst<C, V>(items: seq<Item<C, V>>, v: nat)
    requires SortedByShare(items) && items != [] && WithShare(items, v) != []
    ensures v <= items[0].distribution
  {
    if items[0].distribution != v {
      var rest := items[1..];
      assert WithShare(rest, v) != [];
      assert rest != [];
      assert SortedByShare(rest) by {
        forall i, j | 0 <= i < j < |rest|
          ensures rest[i].distribution >= rest[j].distribution
        {
          assert rest[i] == items[i + 1] && rest[j] == items[j + 1];
        }
      }
      WithShareBelowFirst(rest, v);
      assert rest[0] == items[1];
    }
  }

  /** A sorted and stable arrangement is unique: two sequences ordered by
      share, largest first, that agree on the order of the items of every
      share are equal. So SortByShare gives the one result a stable sort
      with this comparator can give. */
  lemma {:induction false} StableOrderUnique<C, V>(t: seq<Item<C, V>>, u: seq<Item<C, V>>)
    requires SortedByShare(t) && SortedByShare(u)
    requires forall v :: WithShare(t, v) == WithShare(u, v)
    ensures t == u
  {
    if t == [] {
      if u != [] {
        WithShareOfFirst(u);
        assert false;
      }
    } else if u == [] {
      WithShareOfFirst(t);
      assert false;
    } else {
      var m, k := t[0].distribution, u[0].distribution;
      assert WithShare(u, m) != [] by { assert WithShare(t, m) != []; }
      WithShareBelowFirst(u, m);
      assert WithShare(t, k) != [] by { assert WithShare(u, k) != []; }
      WithShareBelowFirst(t, k);
      assert m == k;
      assert WithShare(t, m) == [t[0]] + WithShare(t[1..], m);
      assert WithShare(u, m) == [u[0]] + WithShare(u[1..], m);
      assert t[0] == WithShare(t, m)[0] == WithShare(u, m)[0] == u[0];
      var t', u' := t[1..], u[1..];
      forall v
        ensures WithShare(t', v) == WithShare(u', v)
      {
        if v == m {
          assert WithShare(t', v) == WithShare(t, m)[1..];
          assert WithShare(u', v) == WithShare(u, m)[1..];
        } else {
          assert WithShare(t', v) == WithShare(t, v);
          assert WithShare(u', v) == WithShare(u, v);
        }
      }
      assert SortedByShare(t') by {
        forall i, j | 0 <= i < j < |t'|
          ensures t'[i].distribution >= t'[j].distribution
        {
          assert t'[i] == t[i + 1] && t'[j] == t[j + 1];
        }
      }
      assert SortedByShare(u') by {
        forall i, j | 0 <= i < j < |u'|
          ensures u'[i].distribution >= u'[j].distribution
        {
          assert u'[i] == u[i + 1] && u'[j] == u[j + 1];
        }
      }
      StableOrderUnique(t', u');
      assert t == [t[0]] + t' && u == [u[0]] + u';
    }
  }

  // ---------------------------------------------------------------------
  // The distribution

  /** The view's list: the items of all accounts against their total,
      sorted by share. The source divides by the total unguarded, so a
      non-empty list whose balances are all 0 is outside the model. */
  function Distribute<C, V>(accounts: seq<Account<C>>, val: Valuation<C, V>): seq<Item<C, V>>
    requires accounts == [] || Total(accounts) > 0
  {
    SortByShare(MapItems(accounts, Total(accounts), val))
  }

  /** One item per account (the count shown in the header), each built from
      its own account: its currency, its share of the total, its balance
      unchanged, and the conversion of that balance from its currency into
      the selected one with rounding disabled. The accounts of the items are
      a permutation of the input accounts. */
  lemma {:induction false} DistributeItems<C, V>(accounts: seq<Account<C>>, val: Valuation<C, V>)
    requires accounts == [] || Total(accounts) > 0
    ensures var r := Distribute(accounts, val);
      && |r| == |accounts|
      && multiset(Accounts(r)) == multiset(accounts)
      && forall i :: 0 <= i < |r| ==>
           && r[i].account in accounts
           && r[i].currency == val.currencyOf(r[i].account)
           && r[i].distribution == Share(r[i].account.balance, Total(accounts))
           && r[i].amount == r[i].account.balance
           && r[i].countervalue == val.calculate(Request(r[i].account.balance, val.currencyOf(r[i].account), val.to, true))
  {
    var items := MapItems(accounts, Total(accounts), val);
    var r := Distribute(accounts, val);
    SortByShareContents(items);
    AccountsOfMapItems(accounts, Total(accounts), val);
    forall i | 0 <= i < |r|
      ensures r[i].account in accounts
      ensures r[i] == MakeItem(r[i].account, Total(accounts), val)
    {
      assert r[i] in multiset(items);
      var j :| 0 <= j < |items| && items[j] == r[i];
    }
  }

  /** An empty list gives an empty distribution, without any division. */
  lemma DistributeEmpty<C, V>(val: Valuation<C, V>)
    ensures Distribute([], val) == []
  {
  }

  /** The list is ordered by share, largest first, and every share lies
      between 0.00 and 1.00; an account holding the whole total gets 1.00. */
  lemma {:induction false} DistributeOrderedAndBounded<C, V>(accounts: seq<Account<C>>, val: Valuation<C, V>)
    requires accounts == [] || Total(accounts) > 0
    ensures var r := Distribute(accounts, val);
      && SortedByShare(r)
      && (forall i :: 0 <= i < |r| ==> r[i].distribution <= 100)
      && (forall i :: 0 <= i < |r| && r[i].account.balance == Total(accounts) ==> r[i].distribution == 100)
  {
    var r := Distribute(accounts, val);
    SortByShareSorted(MapItems(accounts, Total(accounts), val));
    DistributeItems(accounts, val);
    BalanceWithinTotal(accounts);
    forall i | 0 <= i < |r|
      ensures r[i].distribution <= 100
      ensures r[i].account.balance == Total(accounts) ==> r[i].distribution == 100
    {
      ShareBounds(r[i].account.balance, Total(accounts));
    }
  }

  /** Accounts whose shares round equally keep the order they had in the
      input; and the order is the only one a stable sort can produce. */
  lemma {:induction false} DistributeStable<C, V>(accounts: seq<Account<C>>, val: Valuation<C, V>, other: seq<Item<C, V>>)
    requires accounts == [] || Total(accounts) > 0
    requires SortedByShare(other)
    requires forall v :: WithShare(other, v) == WithShare(MapItems(accounts, Total(accounts), val), v)
    ensures forall v :: WithShare(Distribute(accounts, val), v) == WithShare(MapItems(accounts, Total(accounts), val), v)
    ensures other == Distribute(accounts, val)
  {
    var items := MapItems(accounts, Total(accounts), val);
    forall v
      ensures WithShare(Distribute(accounts, val), v) == WithShare(items, v)
    {
      SortByShareStable(items, v);
    }
    SortByShareSorted(items);
    StableOrderUnique(other, Distribute(accounts, val));
  }

  /** Balances 60 and 40 give shares 0.60 and 0.40, in that order. */
  lemma {:induction false} DistributeSixtyForty<C, V>(a: Account<C>, b: Account<C>, val: Valuation<C, V>)
    requires a.balance == 60 && b.balance == 40
    ensures var r := Distribute([a, b], val);
      && |r| == 2
      && r[0].account == a && r[0].distribution == 60
      && r[1].account == b && r[1].distribution == 40
  {
    var accounts := [a, b];
    assert accounts[..1] == [a];
    assert accounts[..1][..0] == [];
    assert Total([a]) == 60;
    assert Total(accounts) == 100;
    assert accounts[1..] == [b];
    assert Share(60, 100) == 60;
    assert Share(40, 100) == 40;
    var items := MapItems(accounts, 100, val);
    assert items == [MakeItem(a, 100, val), MakeItem(b, 100, val)];
    assert items[1..] == [MakeItem(b, 100, val)];
    assert items[1..][1..] == [];
    assert SortByShare(items[1..]) == [MakeItem(b, 100, val)];
  }

  /** An account listed ahead of one with a larger balance has the same
      rounded share: the order never contradicts the balances. */
  lemma {:induction false} DistributeFollowsBalances<C, V>(accounts: seq<Account<C>>, val: Valuation<C, V>, i: nat, j: nat)
    requires accounts == [] || Total(accounts) > 0
    requires i < j < |Distribute(accounts, val)|
    requires Distribute(accounts, val)[i].account.balance <= Distribute(accounts, val)[j].account.balance
    ensures Distribute(accounts, val)[i].distribution == Distribute(accounts, val)[j].distribution
  {
    var r := Distribute(accounts, val);
    DistributeItems(accounts, val);
    DistributeOrderedAndBounded(accounts, val);
    ShareMonotone(r[i].account.balance, r[j].account.balance, Total(accounts));
  }

  // ---------------------------------------------------------------------
  // The shares add up to 1.00, within half a hundredth per account

  /** One more account adds its share's error to the running bound. */
  lemma ErrorStep(p: int, k: int, h: int, s0: int, sr: int, b0: int, br: int, n: nat)
    requires -k < p * s0 - h * b0 <= k
    requires -(n * k) <= p * sr - h * br <= n * k
    ensures -((n + 1) * k) <= p * (s0 + sr) - h * (b0 + br) <= (n + 1) * k
  {
    assert p * (s0 + sr) == p * s0 + p * sr;
    assert h * (b0 + br) == h * b0 + h * br;
    assert (n + 1) * k == n * k + k;
  }

  /** Summed over the items built against one total, the share errors add up:
      |2 * 10^18 * total * (sum of shares) - 200 * 10^18 * (sum of balances)|
      <= |accounts| * (10^18 + 1) * total. */
  lemma {:induction false} MapItemsShareError<C, V>(accounts: seq<Account<C>>, total: nat, val: Valuation<C, V>)
    requires total > 0
    ensures var p, k := 2 * HundredthIn20 * total, (HundredthIn20 + 1) * total;
      var e := p * SumShares(MapItems(accounts, total, val)) - 200 * HundredthIn20 * Total(accounts);
      -(|accounts| * k) <= e <= |accounts| * k
  {
    if accounts != [] {
      var items := MapItems(accounts, total, val);
      var rest := accounts[1..];
      MapItemsShareError(rest, total, val);
      TotalFromFront(accounts);
      ShareError(accounts[0].balance, total);
      assert items[1..] == MapItems(rest, total, val);
      ErrorStep(2 * HundredthIn20 * total, (HundredthIn20 + 1) * total, 200 * HundredthIn20,
                items[0].distribution, SumShares(MapItems(rest, total, val)),
                accounts[0].balance, Total(rest), |rest|);
    }
  }

  lemma MulCancelLe(c: nat, x: int, y: int)
    requires c > 0 && x * c <= y * c
    ensures x <= y
  {
    if y < x {
      MulMonotone(c, y + 1, x);
    }
  }

  /** Dividing a chain of inequalities by a positive factor. */
  lemma ScaleBack(c: nat, lo: int, mid: int, hi: int)
    requires c > 0 && lo * c <= mid * c <= hi * c
    ensures lo <= mid <= hi
  {
    MulCancelLe(c, lo, mid);
    MulCancelLe(c, mid, hi);
  }

  /** The bound on the summed error, divided by the total. */
  lemma SumBound(e: nat, t: nat, sum: int, n: int)
    requires e > 0 && t > 0
    requires -(n * ((e + 1) * t)) <= (2 * e * t) * sum - 200 * e * t <= n * ((e + 1) * t)
    ensures -(n * (e + 1)) <= 2 * e * (sum - 100) <= n * (e + 1)
  {
    var m := 2 * e * (sum - 100);
    var b := n * (e + 1);
    assert (2 * e * t) * sum - 200 * e * t == m * t by {
      assert (2 * e * t) * sum == (2 * e * sum) * t;
      assert 200 * e * t == (200 * e) * t;
      assert m == 2 * e * sum - 200 * e;
      MulSubRight(2 * e * sum, 200 * e, t);
    }
    assert n * ((e + 1) * t) == b * t;
    assert -(b * t) == (-b) * t;
    ScaleBack(t, -b, m, b);
  }

  lemma MulSubRight(x: int, y: int, t: int)
    ensures (x - y) * t == x * t - y * t
  {
  }

  /** With fewer accounts than 10^18 the bound rounds to half a hundredth
      per account. */
  lemma SumBoundRounded(e: nat, d: int, n: int)
    requires 0 <= n < e
    requires -(n * (e + 1)) <= 2 * e * d <= n * (e + 1)
    ensures -n <= 2 * d <= n
  {
    var m := 2 * e * d;
    assert e * (2 * d) == m;
    // e * |2 * d| <= n * e + n < (n + 1) * e
    assert e * (n + 1) == n * (e + 1) + e - n;
    MulCancel(e, 2 * d, n + 1);
    assert e * (-n - 1) == -(n * (e + 1)) - e + n;
    MulCancel(e, -n - 1, 2 * d);
  }

  /** With a positive total, the shares add up to 100 hundredths within
      one half (plus 10^-18) of a hundredth per account; with fewer than
      10^18 accounts that makes 2 * |sum - 100| <= the number of accounts. */
  lemma {:induction false} DistributeSharesSum<C, V>(accounts: seq<Account<C>>, val: Valuation<C, V>)
    requires Total(accounts) > 0
    ensures var n, d := |accounts| as int, SumShares(Distribute(accounts, val)) - 100;
      && -(n * (HundredthIn20 + 1)) <= 2 * HundredthIn20 * d <= n * (HundredthIn20 + 1)
      && (n < HundredthIn20 ==> -n <= 2 * d <= n)
  {
    var items := MapItems(accounts, Total(accounts), val);
    var n := |accounts| as int;
    SortByShareContents(items);
    var sum := SumShares(items);
    assert SumShares(Distribute(accounts, val)) == sum;
    var t := Total(accounts);
    var e := HundredthIn20;
    assert -(n * ((e + 1) * t)) <= (2 * e * t) * sum - 200 * e * t <= n * ((e + 1) * t) by {
      MapItemsShareError(accounts, t, val);
    }
    SumBound(e, t, sum, n);
    if n < HundredthIn20 {
      SumBoundRounded(HundredthIn20, sum - 100, n);
    }
  }
}

/** The shared-cost allocator of the bill splitter: a parsed wireless bill
    holds one charge list per line owner plus charges shared by everyone.
    Each user ends up owing their own total plus an equal part of the shared
    total, rounded to cents, under a key that is their e-mail when the
    phone-to-e-mail contact map knows their phone number and their name
    otherwise. */
module SplitCalculator {
  import opened Wrappers
  import opened Money
  import opened Dicts

  /** One charge on the bill, in cents. */
  datatype LineItem = LineItem(description: string, amount: int, category: string)

  /** The charges of one line owner; `total` is taken as parsed, not recomputed from `items`. */
  datatype UserCharge = UserCharge(name: string, phoneNumber: Option<string>, items: seq<LineItem>, total: int)

  /** The parsed bill, as the bill parser's record hands it over. */
  datatype BillData = BillData(
    totalAmount: int,
    periodStart: string,
    periodEnd: string,
    sharedCosts: seq<LineItem>,
    userCharges: seq<UserCharge>)

  /** The `details` entry of one key. */
  datatype Detail = Detail(individualCharges: int, sharedPortion: int, items: seq<LineItem>)

  datatype SplitResult = SplitResult(
    splits: map<string, int>,
    totalBill: int,
    details: map<string, Detail>,
    description: string)

  /** The amounts of a list of charges, in order. */
  function ItemAmounts(costs: seq<LineItem>): seq<int>
  {
    seq(|costs|, i requires 0 <= i < |costs| => costs[i].amount)
  }

  /** The sum of the shared charges; 0 for none. */
  function TotalShared(costs: seq<LineItem>): int
  {
    Sum(ItemAmounts(costs))
  }

  /** The shared total is additive: splitting the list of shared charges in
      two splits the total the same way. */
  lemma {:induction false} TotalSharedAppend(xs: seq<LineItem>, ys: seq<LineItem>)
    ensures TotalShared(xs + ys) == TotalShared(xs) + TotalShared(ys)
    decreases |ys|
  {
    assert ItemAmounts(xs + ys) == ItemAmounts(xs) + ItemAmounts(ys);
    SumAppend(ItemAmounts(xs), ItemAmounts(ys));
  }

  /** The shared portion recorded in the details: the shared total over the
      number of users rounded to cents, or 0 when there are no users. */
  function SharedPortion(totalShared: int, numUsers: nat): (r: int)
    ensures numUsers == 0 ==> r == 0
    ensures numUsers > 0 ==> 2 * Abs(totalShared - numUsers * r) <= numUsers
    ensures numUsers > 0 && 2 * Abs(totalShared - numUsers * r) == numUsers ==> r % 2 == 0
  {
    if numUsers > 0 then RoundHalfEven(totalShared, numUsers) else 0
  }

  /** A user's split: the whole number of cents nearest to
      userTotal + totalShared / numUsers (ties to even), or the user's own
      total when there are no users to share with. */
  function FinalAmount(userTotal: int, totalShared: int, numUsers: nat): (r: int)
    ensures numUsers == 0 ==> r == userTotal
    ensures numUsers > 0 ==> 2 * Abs(userTotal * numUsers + totalShared - numUsers * r) <= numUsers
    ensures numUsers > 0 && 2 * Abs(userTotal * numUsers + totalShared - numUsers * r) == numUsers ==> r % 2 == 0
  {
    if numUsers > 0 then RoundHalfEven(userTotal * numUsers + totalShared, numUsers) else userTotal
  }

  /** The contact map is used for this user: it is given, the user has a
      non-empty phone number, the map holds that number, and the e-mail it
      holds is not empty. */
  predicate PhoneResolves(user: UserCharge, userMap: Option<map<string, string>>)
  {
    userMap.Some? && user.phoneNumber.Some? && user.phoneNumber.value != "" &&
    user.phoneNumber.value in userMap.value && userMap.value[user.phoneNumber.value] != ""
  }

  /** The output key of one user. A user whose phone is unknown keeps their
      name, so no user is dropped. An absent map and an empty one (both falsy
      in the source) behave alike. */
  function ResolveKey(user: UserCharge, userMap: Option<map<string, string>>): (key: string)
    ensures PhoneResolves(user, userMap) ==> key == userMap.value[user.phoneNumber.value]
    ensures !PhoneResolves(user, userMap) ==> key == user.name
  {
    assert PhoneResolves(user, userMap) ==> user.phoneNumber.value in userMap.value.Keys;
    if userMap.Some? && |userMap.value| > 0 then
      if user.phoneNumber.Some? && user.phoneNumber.value != "" then
        var phone := user.phoneNumber.value;
        if phone in userMap.value && userMap.value[phone] != "" then userMap.value[phone] else user.name
      else
        user.name
    else
      user.name
  }

  /** The key, the split value and the details entry of each user, in input order. */
  function Keys(users: seq<UserCharge>, userMap: Option<map<string, string>>): seq<string>
  {
    seq(|users|, i requires 0 <= i < |users| => ResolveKey(users[i], userMap))
  }

  function Amounts(users: seq<UserCharge>, totalShared: int, numUsers: nat): seq<int>
  {
    seq(|users|, i requires 0 <= i < |users| => FinalAmount(users[i].total, totalShared, numUsers))
  }

  function Details(users: seq<UserCharge>, totalShared: int, numUsers: nat): seq<Detail>
  {
    seq(|users|, i requires 0 <= i < |users| =>
      Detail(users[i].total, SharedPortion(totalShared, numUsers), users[i].items))
  }

  function Description(bill: BillData): string
  {
    "Bill for " + bill.periodStart + " to " + bill.periodEnd
  }

  /** The result of the allocator: both dictionaries are filled by plain updates
      in user order, and the bill's declared total is passed through. */
  function Allocate(bill: BillData, userMap: Option<map<string, string>>): SplitResult
  {
    var users := bill.userCharges;
    var totalShared := TotalShared(bill.sharedCosts);
    var keys := Keys(users, userMap);
    SplitResult(
      Assign(keys, Amounts(users, totalShared, |users|)),
      bill.totalAmount,
      Assign(keys, Details(users, totalShared, |users|)),
      Description(bill))
  }

  /** The loop of the source: one pass over the users, updating both dictionaries. */
  method CalculateSplit(bill: BillData, userMap: Option<map<string, string>>) returns (result: SplitResult)
    ensures result == Allocate(bill, userMap)
    ensures result.totalBill == bill.totalAmount
  {
    var totalShared := TotalShared(bill.sharedCosts);
    var numUsers := |bill.userCharges|;
    ghost var keys := Keys(bill.userCharges, userMap);
    ghost var amounts := Amounts(bill.userCharges, totalShared, numUsers);
    ghost var entries := Details(bill.userCharges, totalShared, numUsers);
    var splits: map<string, int> := map[];
    var details: map<string, Detail> := map[];
    var i := 0;
    while i < numUsers
      invariant 0 <= i <= numUsers
      invariant splits == Assign(keys[..i], amounts[..i])
      invariant details == Assign(keys[..i], entries[..i])
    {
      var user := bill.userCharges[i];
      var key := ResolveKey(user, userMap);
      assert key == keys[i];
      splits := splits[key := FinalAmount(user.total, totalShared, numUsers)];
      assert splits == Assign(keys[..i], amounts[..i])[keys[i] := amounts[i]];
      details := details[key := Detail(user.total, SharedPortion(totalShared, numUsers), user.items)];
      assert details == Assign(keys[..i], entries[..i])[keys[i] := entries[i]];
      AssignPrefixStep(keys, amounts, i);
      AssignPrefixStep(keys, entries, i);
      i := i + 1;
    }
    assert keys[..numUsers] == keys && amounts[..numUsers] == amounts && entries[..numUsers] == entries;
    result := SplitResult(splits, bill.totalAmount, details, "Bill for " + bill.periodStart + " to " + bill.periodEnd);
    assert result.description == Description(bill);
  }

  /** The keys of both dictionaries are exactly the users' resolved keys: every
      user appears, under their e-mail or their name, and nothing else does. */
  lemma AllocateDomain(bill: BillData, userMap: Option<map<string, string>>, key: string)
    ensures key in Allocate(bill, userMap).splits <==>
            exists i :: 0 <= i < |bill.userCharges| && ResolveKey(bill.userCharges[i], userMap) == key
    ensures key in Allocate(bill, userMap).details <==> key in Allocate(bill, userMap).splits
  {
    var users := bill.userCharges;
    var totalShared := TotalShared(bill.sharedCosts);
    var keys := Keys(users, userMap);
    AssignDomain(keys, Amounts(users, totalShared, |users|), key);
    AssignDomain(keys, Details(users, totalShared, |users|), key);
    assert key in keys <==> exists i :: 0 <= i < |users| && ResolveKey(users[i], userMap) == key by {
      if key in keys {
        var i :| 0 <= i < |keys| && keys[i] == key;
        assert ResolveKey(users[i], userMap) == key;
      }
      if exists i :: 0 <= i < |users| && ResolveKey(users[i], userMap) == key {
        var i :| 0 <= i < |users| && ResolveKey(users[i], userMap) == key;
        assert keys[i] == key;
      }
    }
  }

  /** Last write wins: the entries under a key are those of the last user in
      input order that resolves to it; the split is that user's total plus the
      rounded equal share, the details record their own total, the rounded
      shared portion and their items unchanged. */
  lemma AllocateLastWriteWins(bill: BillData, userMap: Option<map<string, string>>, i: nat)
    requires i < |bill.userCharges|
    requires forall j :: i < j < |bill.userCharges| ==>
               ResolveKey(bill.userCharges[j], userMap) != ResolveKey(bill.userCharges[i], userMap)
    ensures var key, user, n := ResolveKey(bill.userCharges[i], userMap), bill.userCharges[i], |bill.userCharges|;
            var totalShared := TotalShared(bill.sharedCosts);
            key in Allocate(bill, userMap).splits && key in Allocate(bill, userMap).details &&
            Allocate(bill, userMap).splits[key] == FinalAmount(user.total, totalShared, n) &&
            Allocate(bill, userMap).details[key] == Detail(user.total, SharedPortion(totalShared, n), user.items)
  {
    var users := bill.userCharges;
    var totalShared := TotalShared(bill.sharedCosts);
    var keys := Keys(users, userMap);
    assert forall j :: i < j < |keys| ==> keys[j] != keys[i];
    AssignLastWrite(keys, Amounts(users, totalShared, |users|), i);
    AssignLastWrite(keys, Details(users, totalShared, |users|), i);
  }

  /** With no users nothing is divided and both dictionaries are empty; no
      division by zero happens. */
  lemma AllocateNoUsers(bill: BillData, userMap: Option<map<string, string>>)
    requires |bill.userCharges| == 0
    ensures Allocate(bill, userMap).splits == map[]
    ensures Allocate(bill, userMap).details == map[]
    ensures Allocate(bill, userMap).totalBill == bill.totalAmount
  {
  }

  /** The users' own totals, in input order. */
  function UserTotals(users: seq<UserCharge>): seq<int>
  {
    seq(|users|, i requires 0 <= i < |users| => users[i].total)
  }

  /** After the first k users, the rounding errors add up to at most half a
      cent each (scaled by the number of users n). */
  lemma {:induction false} RoundingDriftPrefix(users: seq<UserCharge>, totalShared: int, k: nat)
    requires 0 < |users| && k <= |users|
    ensures 2 * Abs(|users| * Sum(Amounts(users, totalShared, |users|)[..k])
                    - |users| * Sum(UserTotals(users)[..k]) - k * totalShared) <= k * |users|
    decreases k
  {
    var n := |users|;
    var amounts, totals := Amounts(users, totalShared, n), UserTotals(users);
    if k > 0 {
      RoundingDriftPrefix(users, totalShared, k - 1);
      var ak, tk := amounts[..k], totals[..k];
      assert ak[..k - 1] == amounts[..k - 1] && tk[..k - 1] == totals[..k - 1];
      assert Sum(ak) == Sum(amounts[..k - 1]) + amounts[k - 1];
      assert Sum(tk) == Sum(totals[..k - 1]) + totals[k - 1];
      assert amounts[k - 1] == FinalAmount(users[k - 1].total, totalShared, n);
      DriftStep(n, k, totalShared, Sum(amounts[..k - 1]), Sum(totals[..k - 1]), amounts[k - 1], totals[k - 1]);
    } else {
      assert amounts[..0] == [] && totals[..0] == [];
    }
  }

  /** The arithmetic of one step of RoundingDriftPrefix: the scaled error so
      far plus this user's scaled rounding error. */
  lemma DriftStep(n: int, k: int, s: int, sumA: int, sumT: int, a: int, t: int)
    requires n > 0 && k > 0
    requires 2 * Abs(n * sumA - n * sumT - (k - 1) * s) <= (k - 1) * n
    requires 2 * Abs(t * n + s - n * a) <= n
    ensures 2 * Abs(n * (sumA + a) - n * (sumT + t) - k * s) <= k * n
  {
  }

  /** From 2 * |n * a - n * b - n * c| <= n * n it follows that 2 * |a - b - c| <= n. */
  lemma ScaleDown(n: int, a: int, b: int, c: int)
    requires n > 0
    requires 2 * Abs(n * a - n * b - n * c) <= n * n
    ensures 2 * Abs(a - b - c) <= n
  {
  }

  /** Rounding each user's split to cents moves the sum of the splits away
      from the exact sum of the users' totals plus the shared total by at most
      half a cent per user. */
  lemma SplitsSumDrift(bill: BillData)
    requires |bill.userCharges| > 0
    ensures var users, totalShared := bill.userCharges, TotalShared(bill.sharedCosts);
            2 * Abs(Sum(Amounts(users, totalShared, |users|)) - Sum(UserTotals(users)) - totalShared) <= |users|
  {
    var users, totalShared := bill.userCharges, TotalShared(bill.sharedCosts);
    var n := |users|;
    var amounts, totals := Amounts(users, totalShared, n), UserTotals(users);
    RoundingDriftPrefix(users, totalShared, n);
    assert amounts[..n] == amounts && totals[..n] == totals;
    ScaleDown(n, Sum(amounts), Sum(totals), totalShared);
  }

  /** The dictionary two users with different keys leave behind. */
  lemma AssignTwo<V>(k0: string, k1: string, v0: V, v1: V)
    ensures Assign([k0, k1], [v0, v1]) == map[k0 := v0][k1 := v1]
  {
    assert [k0, k1][..1] == [k0] && [v0, v1][..1] == [v0];
    assert [k0][..0] == [] && [v0][..0] == [];
    assert Assign([k0], [v0]) == map[k0 := v0];
  }

  /** The basic scenario: a 20.00 shared plan and two users with 30.00 and
      50.00 of their own give 40.00 and 60.00; the bill total passes through. */
  lemma BasicSplitExample()
    ensures var bill := BillData(10000, "2025-11-01", "2025-12-01",
                                [LineItem("Base Plan", 2000, "Plan")],
                                [UserCharge("Alice", None, [], 3000), UserCharge("Bob", None, [], 5000)]);
            Allocate(bill, None).splits == map["Alice" := 4000, "Bob" := 6000] &&
            Allocate(bill, None).totalBill == 10000
  {
    var shared := [LineItem("Base Plan", 2000, "Plan")];
    var users := [UserCharge("Alice", None, [], 3000), UserCharge("Bob", None, [], 5000)];
    var bill := BillData(10000, "2025-11-01", "2025-12-01", shared, users);
    assert TotalShared(shared) == 2000 by {
      assert ItemAmounts(shared) == [2000];
      assert [2000][..0] == [];
    }
    assert Keys(users, None) == ["Alice", "Bob"];
    assert FinalAmount(3000, 2000, 2) == 4000 by { RoundWhole(4000, 2); }
    assert FinalAmount(5000, 2000, 2) == 6000 by { RoundWhole(6000, 2); }
    assert Amounts(users, 2000, 2) == [4000, 6000];
    AssignTwo("Alice", "Bob", 4000, 6000);
    assert Allocate(bill, None).splits == Assign(["Alice", "Bob"], [4000, 6000]);
  }

  /** Without shared charges each split is the user's own total. */
  lemma NoSharedCostsExample()
    ensures var bill := BillData(8000, "", "", [],
                                [UserCharge("Alice", None, [], 3000), UserCharge("Bob", None, [], 5000)]);
            Allocate(bill, None).splits == map["Alice" := 3000, "Bob" := 5000]
  {
    var users := [UserCharge("Alice", None, [], 3000), UserCharge("Bob", None, [], 5000)];
    var bill := BillData(8000, "", "", [], users);
    assert Keys(users, None) == ["Alice", "Bob"];
    assert FinalAmount(3000, 0, 2) == 3000 by { RoundWhole(3000, 2); }
    assert FinalAmount(5000, 0, 2) == 5000 by { RoundWhole(5000, 2); }
    assert Amounts(users, 0, 2) == [3000, 5000];
    AssignTwo("Alice", "Bob", 3000, 5000);
    assert Allocate(bill, None).splits == Assign(["Alice", "Bob"], [3000, 5000]);
  }

  /** The contact map is keyed by phone number: a user whose phone it holds is
      keyed by the e-mail; a user without a phone, or one the map holds under
      their name only, keeps their name. */
  lemma KeyResolutionExample()
    ensures var contacts := map["555-0100" := "alice@example.com", "Bob" := "bob@example.com"];
            Keys([UserCharge("Alice", Some("555-0100"), [], 3000), UserCharge("Bob", None, [], 5000)], Some(contacts))
              == ["alice@example.com", "Bob"]
  {
  }
}

/** The expense split reconciler behind the `add_expense_to_splitwise` tool:
    pick the first ledger group whose name contains the filter, then turn the
    request into one ledger entry per participant, either from an explicit
    e-mail -> amount split (checked against the expense total with a 5-cent
    tolerance) or by dividing the total equally among the group's members,
    the last member absorbing the rounding remainder. The current user is
    always the single payer. The ledger's groups and current user are inputs;
    creating the expense is not part of this model. */
module McpServer {
  import opened Wrappers
  import opened Money

  /** A ledger group member; `email` is "" when the ledger has none. */
  datatype Member = Member(id: int, email: string)

  datatype Group = Group(id: int, name: string, members: seq<Member>)

  /** The ledger's account of the current user. */
  datatype CurrentUser = CurrentUser(id: int, email: string)

  /** One entry of the request's `splits` dictionary, in insertion order. */
  datatype SplitEntry = SplitEntry(email: string, amount: int)

  /** The add-expense request; amounts in cents. */
  datatype ExpenseRequest = ExpenseRequest(
    totalAmount: int,
    description: string,
    groupNameFilter: string,
    splits: Option<seq<SplitEntry>>)

  /** One participant of the expense: who, what they owe, what they paid. */
  datatype ExpenseUser = ExpenseUser(id: int, owedShare: int, paidShare: int)

  /** The expense as prepared for the ledger. */
  datatype Expense = Expense(cost: int, description: string, groupId: int, currencyCode: string, users: seq<ExpenseUser>)

  /** The failure responses of the reconciler (`success=False`). */
  datatype Error =
    | GroupNotFound(filter: string)
    | MemberNotFound(email: string)
    | SplitsMismatch(observed: int, expected: int)
    | NoMembers

  /** The tolerance of the explicit-split check: 0.05, in cents. */
  const Tolerance: int := 5

  // ---------------------------------------------------------------------
  // Group lookup

  predicate IsUpper(c: char)
  {
    'A' <= c <= 'Z'
  }

  /** Lower-casing of one character (ASCII letters only): an upper-case
      letter becomes the lower-case letter at the same place in the
      alphabet, every other character is left alone. */
  function LowerChar(c: char): (r: char)
    ensures !IsUpper(r)
    ensures !IsUpper(c) ==> r == c
    ensures IsUpper(c) ==> 'a' <= r <= 'z' && r as int - 'a' as int == c as int - 'A' as int
  {
    if IsUpper(c) then (c as int + 32) as char else c
  }

  /** Lower-casing of a string, ASCII letters only: no upper-case letter is
      left, upper-case letters become their lower-case partners, and every
      other character stays where it was. */
  function Lower(s: string): (r: string)
    ensures |r| == |s|
    ensures forall i :: 0 <= i < |r| ==> !IsUpper(r[i])
    ensures forall i :: 0 <= i < |s| && !IsUpper(s[i]) ==> r[i] == s[i]
    ensures forall i :: 0 <= i < |s| && IsUpper(s[i]) ==>
              'a' <= r[i] <= 'z' && r[i] as int - 'a' as int == s[i] as int - 'A' as int
  {
    seq(|s|, i requires 0 <= i < |s| => LowerChar(s[i]))
  }

  /** Lower-casing twice is lower-casing once. */
  lemma LowerIdempotent(s: string)
    ensures Lower(Lower(s)) == Lower(s)
  {
  }

  /** Two strings that differ at most in the case of ASCII letters: the same
      length, and at each place the same character or the upper- and
      lower-case forms of one letter. */
  predicate SameUpToCase(a: string, b: string)
  {
    |a| == |b| &&
    forall i :: 0 <= i < |a| ==>
      a[i] == b[i] ||
      (IsUpper(a[i]) && b[i] as int == a[i] as int + 32) ||
      (IsUpper(b[i]) && a[i] as int == b[i] as int + 32)
  }

  /** Strings that differ only in ASCII case lower-case to the same string. */
  lemma {:induction false} SameUpToCaseLower(a: string, b: string)
    requires SameUpToCase(a, b)
    ensures Lower(a) == Lower(b)
  {
    forall i | 0 <= i < |a|
      ensures Lower(a)[i] == Lower(b)[i]
    {
      assert LowerChar(a[i]) == LowerChar(b[i]);
    }
  }

  /** The group lookup ignores ASCII case: renaming the filter or the group
      by case only does not change whether they match. */
  lemma GroupMatchesIgnoresCase(filter: string, filter': string, group: Group, name': string)
    requires SameUpToCase(filter, filter') && SameUpToCase(group.name, name')
    ensures GroupMatches(filter, group) <==> GroupMatches(filter', group.(name := name'))
  {
    SameUpToCaseLower(filter, filter');
    SameUpToCaseLower(group.name, name');
  }

  /** Python's `needle in hay` on strings: hay has needle as a prefix, or
      further on. */
  predicate Contains(hay: string, needle: string)
    decreases |hay|
  {
    |needle| <= |hay| && (hay[..|needle|] == needle || (|hay| > 0 && Contains(hay[1..], needle)))
  }

  /** needle occurs in hay at offset i. */
  predicate OccursAt(hay: string, needle: string, i: int)
  {
    0 <= i && i + |needle| <= |hay| && hay[i..i + |needle|] == needle
  }

  /** Dropping the first character of hay moves every occurrence one to the left. */
  lemma OccursShift(hay: string, needle: string, i: int)
    requires |hay| > 0 && 0 <= i
    ensures OccursAt(hay[1..], needle, i) <==> OccursAt(hay, needle, i + 1)
  {
    if i + 1 + |needle| <= |hay| {
      assert hay[1..][i..i + |needle|] == hay[i + 1..i + 1 + |needle|];
    }
  }

  /** Contains agrees with the definition by position: needle occurs at some
      offset of hay. */
  lemma {:induction false} ContainsAt(hay: string, needle: string)
    ensures Contains(hay, needle) <==> exists i :: OccursAt(hay, needle, i)
    decreases |hay|
  {
    if |needle| <= |hay| && hay[..|needle|] == needle {
      assert OccursAt(hay, needle, 0);
    } else if |needle| <= |hay| && |hay| > 0 {
      ContainsAt(hay[1..], needle);
      if exists i :: OccursAt(hay, needle, i) {
        var i :| OccursAt(hay, needle, i);
        assert i != 0;
        OccursShift(hay, needle, i - 1);
      }
      if Contains(hay[1..], needle) {
        var i :| OccursAt(hay[1..], needle, i);
        OccursShift(hay, needle, i);
      }
    }
  }

  /** The group's name contains the filter, both lower-cased. */
  predicate GroupMatches(filter: string, group: Group)
  {
    Contains(Lower(group.name), Lower(filter))
  }

  /** Group i is the one the lookup picks: it matches and no earlier one does. */
  predicate IsFirstMatch(groups: seq<Group>, filter: string, i: int)
  {
    0 <= i < |groups| && GroupMatches(filter, groups[i]) &&
    forall j :: 0 <= j < i ==> !GroupMatches(filter, groups[j])
  }

  /** The lookup loop: the first matching group, or none. */
  method FindGroup(groups: seq<Group>, filter: string) returns (target: Option<Group>)
    ensures target.None? <==> forall j :: 0 <= j < |groups| ==> !GroupMatches(filter, groups[j])
    ensures forall i :: IsFirstMatch(groups, filter, i) ==> target == Some(groups[i])
  {
    target := None;
    var i := 0;
    while i < |groups|
      invariant 0 <= i <= |groups|
      invariant forall j :: 0 <= j < i ==> !GroupMatches(filter, groups[j])
    {
      if GroupMatches(filter, groups[i]) {
        target := Some(groups[i]);
        break;
      }
      i := i + 1;
    }
  }

  // ---------------------------------------------------------------------
  // Explicit split

  /** The e-mail -> member id dictionary of the group: members in order,
      skipping those without an e-mail; a later member with the same e-mail
      replaces an earlier one. */
  function MemberMap(members: seq<Member>): map<string, int>
    decreases |members|
  {
    if |members| == 0 then map[]
    else
      var m := members[|members| - 1];
      var earlier := MemberMap(members[..|members| - 1]);
      if m.email != "" then earlier[m.email := m.id] else earlier
  }

  /** The map holds exactly the non-empty e-mails of the members. */
  lemma {:induction false} MemberMapDomain(members: seq<Member>, email: string)
    ensures email in MemberMap(members) <==>
            email != "" && exists j :: 0 <= j < |members| && members[j].email == email
    decreases |members|
  {
    if |members| > 0 {
      var n := |members| - 1;
      MemberMapDomain(members[..n], email);
      if exists j :: 0 <= j < |members| && members[j].email == email {
        var j :| 0 <= j < |members| && members[j].email == email;
        if j < n {
          assert members[..n][j].email == email;
        }
      }
      if exists j :: 0 <= j < n && members[..n][j].email == email {
        var j :| 0 <= j < n && members[..n][j].email == email;
        assert members[j].email == email;
      }
    }
  }

  /** An e-mail maps to the id of the last member that has it. */
  lemma {:induction false} MemberMapLast(members: seq<Member>, j: nat)
    requires j < |members| && members[j].email != ""
    requires forall k :: j < k < |members| ==> members[k].email != members[j].email
    ensures members[j].email in MemberMap(members) && MemberMap(members)[members[j].email] == members[j].id
    decreases |members|
  {
    var n := |members| - 1;
    if j < n {
      MemberMapLast(members[..n], j);
    }
  }

  /** The member id an e-mail of the split resolves to: the group's member
      with it (an id of 0 is falsy and counts as not found),
      else the current user when it is their e-mail, else none. */
  function Resolve(email: string, members: seq<Member>, currentUser: CurrentUser): Option<int>
  {
    var memberMap := MemberMap(members);
    if email in memberMap && memberMap[email] != 0 then Some(memberMap[email])
    else if email == currentUser.email then Some(currentUser.id)
    else None
  }

  /** An e-mail of the group resolves to the id of its last member with it. */
  lemma ResolveMember(email: string, members: seq<Member>, currentUser: CurrentUser, j: nat)
    requires j < |members| && members[j].email == email && email != "" && members[j].id != 0
    requires forall k :: j < k < |members| ==> members[k].email != email
    ensures Resolve(email, members, currentUser) == Some(members[j].id)
  {
    MemberMapLast(members, j);
  }

  /** An e-mail no member has resolves to the current user when it is theirs,
      and to nothing otherwise: it is never dropped silently. */
  lemma ResolveOutsideGroup(email: string, members: seq<Member>, currentUser: CurrentUser)
    requires forall j :: 0 <= j < |members| ==> members[j].email != email
    ensures Resolve(email, members, currentUser) ==
            if email == currentUser.email then Some(currentUser.id) else None
  {
    MemberMapDomain(members, email);
  }

  /** Single payer: the current user paid the whole total, everyone else nothing. */
  function PaidShare(id: int, currentUser: CurrentUser, totalAmount: int): int
  {
    if id == currentUser.id then totalAmount else 0
  }

  /** The amounts of the split entries, in order. */
  function SplitAmounts(splits: seq<SplitEntry>): seq<int>
  {
    seq(|splits|, i requires 0 <= i < |splits| => splits[i].amount)
  }

  /** Sum of the split amounts: the running check total after the loop. */
  function SplitsTotal(splits: seq<SplitEntry>): int
  {
    Sum(SplitAmounts(splits))
  }

  /** The entries built for the explicit split, failing at the first e-mail
      that resolves to nobody. */
  function ExplicitUsers(splits: seq<SplitEntry>, members: seq<Member>, currentUser: CurrentUser, totalAmount: int)
    : Result<seq<ExpenseUser>, Error>
    decreases |splits|
  {
    if |splits| == 0 then Success([])
    else
      match ExplicitUsers(splits[..|splits| - 1], members, currentUser, totalAmount)
      case Failure(e) => Failure(e)
      case Success(users) =>
        var entry := splits[|splits| - 1];
        match Resolve(entry.email, members, currentUser)
        case None => Failure(MemberNotFound(entry.email))
        case Some(id) => Success(users + [ExpenseUser(id, entry.amount, PaidShare(id, currentUser, totalAmount))])
  }

  /** The explicit mode: resolve every entry, then compare the split total
      with the expense total. */
  function ExplicitSplit(splits: seq<SplitEntry>, members: seq<Member>, currentUser: CurrentUser, totalAmount: int)
    : Result<seq<ExpenseUser>, Error>
  {
    match ExplicitUsers(splits, members, currentUser, totalAmount)
    case Failure(e) => Failure(e)
    case Success(users) =>
      if Abs(SplitsTotal(splits) - totalAmount) > Tolerance then Failure(SplitsMismatch(SplitsTotal(splits), totalAmount))
      else Success(users)
  }

  /** A failure in a prefix of the splits is the failure of the whole. */
  lemma {:induction false} ExplicitUsersFailureStays(splits: seq<SplitEntry>, members: seq<Member>,
                                                     currentUser: CurrentUser, totalAmount: int, k: nat)
    requires k <= |splits|
    requires ExplicitUsers(splits[..k], members, currentUser, totalAmount).Failure?
    ensures ExplicitUsers(splits, members, currentUser, totalAmount) == ExplicitUsers(splits[..k], members, currentUser, totalAmount)
    decreases |splits| - k
  {
    if k < |splits| {
      var n := |splits| - 1;
      assert splits[..n][..k] == splits[..k];
      ExplicitUsersFailureStays(splits[..n], members, currentUser, totalAmount, k);
    } else {
      assert splits[..k] == splits;
    }
  }

  /** The loop of the explicit mode. */
  method BuildExplicitUsers(splits: seq<SplitEntry>, members: seq<Member>, currentUser: CurrentUser, totalAmount: int)
    returns (result: Result<seq<ExpenseUser>, Error>)
    ensures result == ExplicitSplit(splits, members, currentUser, totalAmount)
  {
    var memberMap := MemberMap(members);
    var totalOwedCheck := 0;
    var users: seq<ExpenseUser> := [];
    var i := 0;
    while i < |splits|
      invariant 0 <= i <= |splits|
      invariant ExplicitUsers(splits[..i], members, currentUser, totalAmount) == Success(users)
      invariant totalOwedCheck == SplitsTotal(splits[..i])
    {
      var entry := splits[i];
      assert splits[..i + 1][..i] == splits[..i];
      var memberId: int;
      if entry.email in memberMap && memberMap[entry.email] != 0 {
        memberId := memberMap[entry.email];
      } else if entry.email == currentUser.email {
        memberId := currentUser.id;
      } else {
        ExplicitUsersFailureStays(splits, members, currentUser, totalAmount, i + 1);
        return Failure(MemberNotFound(entry.email));
      }
      var paid := if memberId == currentUser.id then totalAmount else 0;
      users := users + [ExpenseUser(memberId, entry.amount, paid)];
      totalOwedCheck := totalOwedCheck + entry.amount;
      assert SplitAmounts(splits[..i + 1]) == SplitAmounts(splits[..i]) + [entry.amount];
      assert (SplitAmounts(splits[..i]) + [entry.amount])[..i] == SplitAmounts(splits[..i]);
      i := i + 1;
    }
    assert splits[..|splits|] == splits;
    if Abs(totalOwedCheck - totalAmount) > Tolerance {
      return Failure(SplitsMismatch(totalOwedCheck, totalAmount));
    }
    result := Success(users);
  }

  /** Every entry resolves exactly when the entries are all built: then there
      is one per split entry, in split order, owing the given amount, with
      the single-payer paid share. */
  lemma {:induction false} ExplicitUsersResolved(splits: seq<SplitEntry>, members: seq<Member>,
                                                 currentUser: CurrentUser, totalAmount: int)
    ensures ExplicitUsers(splits, members, currentUser, totalAmount).Success? <==>
            forall j :: 0 <= j < |splits| ==> Resolve(splits[j].email, members, currentUser).Some?
    ensures ExplicitUsers(splits, members, currentUser, totalAmount).Success? ==>
            var users := ExplicitUsers(splits, members, currentUser, totalAmount).value;
            |users| == |splits| &&
            forall j :: 0 <= j < |splits| ==>
              var id := Resolve(splits[j].email, members, currentUser).value;
              users[j] == ExpenseUser(id, splits[j].amount, PaidShare(id, currentUser, totalAmount))
    decreases |splits|
  {
    if |splits| > 0 {
      var n := |splits| - 1;
      var prefix := splits[..n];
      ExplicitUsersResolved(prefix, members, currentUser, totalAmount);
      assert forall j :: 0 <= j < n ==> prefix[j] == splits[j];
      if ExplicitUsers(prefix, members, currentUser, totalAmount).Failure? {
        var j :| 0 <= j < n && Resolve(prefix[j].email, members, currentUser).None?;
        assert Resolve(splits[j].email, members, currentUser).None?;
      }
    }
  }

  /** An e-mail that resolves to nobody fails the explicit split with that
      e-mail, the first such one in split order, whatever the amounts. */
  lemma ExplicitUnknownMember(splits: seq<SplitEntry>, members: seq<Member>,
                              currentUser: CurrentUser, totalAmount: int, i: nat)
    requires i < |splits| && Resolve(splits[i].email, members, currentUser).None?
    requires forall j :: 0 <= j < i ==> Resolve(splits[j].email, members, currentUser).Some?
    ensures ExplicitSplit(splits, members, currentUser, totalAmount) == Failure(MemberNotFound(splits[i].email))
  {
    var prefix := splits[..i];
    assert forall j :: 0 <= j < i ==> prefix[j] == splits[j];
    ExplicitUsersResolved(prefix, members, currentUser, totalAmount);
    assert splits[..i + 1][..i] == prefix;
    ExplicitUsersFailureStays(splits, members, currentUser, totalAmount, i + 1);
  }

  /** When every e-mail resolves, the explicit split fails exactly when the
      amounts add up to more than 0.05 away from the expense total, with both
      totals in the failure; otherwise it yields one entry per split entry, in
      order, owing the given amount. */
  lemma ExplicitTolerance(splits: seq<SplitEntry>, members: seq<Member>, currentUser: CurrentUser, totalAmount: int)
    requires forall j :: 0 <= j < |splits| ==> Resolve(splits[j].email, members, currentUser).Some?
    ensures var r := ExplicitSplit(splits, members, currentUser, totalAmount);
            (r.Failure? <==> Abs(SplitsTotal(splits) - totalAmount) > Tolerance) &&
            (r.Failure? ==> r.error == SplitsMismatch(SplitsTotal(splits), totalAmount)) &&
            (r.Success? ==>
               |r.value| == |splits| &&
               forall j :: 0 <= j < |splits| ==>
                 r.value[j].id == Resolve(splits[j].email, members, currentUser).value &&
                 r.value[j].owedShare == splits[j].amount)
  {
    ExplicitUsersResolved(splits, members, currentUser, totalAmount);
  }

  /** The explicit scenario: 40.00 + 65.00 against a 100.00 expense is 5.00
      off and fails with both totals. */
  lemma ExplicitMismatchExample()
    ensures var members := [Member(1, "a@x.com"), Member(2, "b@x.com")];
            ExplicitSplit([SplitEntry("a@x.com", 4000), SplitEntry("b@x.com", 6500)], members, CurrentUser(1, "a@x.com"), 10000)
              == Failure(SplitsMismatch(10500, 10000))
  {
    var members := [Member(1, "a@x.com"), Member(2, "b@x.com")];
    var splits := [SplitEntry("a@x.com", 4000), SplitEntry("b@x.com", 6500)];
    var me := CurrentUser(1, "a@x.com");
    assert members[..1] == [Member(1, "a@x.com")] && members[..1][..0] == [];
    assert MemberMap(members) == map["a@x.com" := 1, "b@x.com" := 2];
    assert splits[..1] == [SplitEntry("a@x.com", 4000)] && splits[..1][..0] == [];
    assert SplitsTotal(splits) == 10500 by {
      assert SplitAmounts(splits) == [4000, 6500];
      assert [4000, 6500][..1] == [4000] && [4000][..0] == [];
    }
    ExplicitTolerance(splits, members, me, 10000);
  }

  // ---------------------------------------------------------------------
  // Equal split

  /** The total over n, rounded to cents: every member's share. */
  function BaseShare(totalAmount: int, numMembers: nat): int
    requires numMembers > 0
  {
    RoundHalfEven(totalAmount, numMembers)
  }

  /** What the base shares leave over, rounded to cents as the source does;
      being a whole number of cents already, rounding leaves it unchanged. */
  function Remainder(totalAmount: int, numMembers: nat): (r: int)
    requires numMembers > 0
    ensures r + BaseShare(totalAmount, numMembers) * numMembers == totalAmount
  {
    var left := totalAmount - BaseShare(totalAmount, numMembers) * numMembers;
    RoundWhole(left, 1);
    assert left * 1 == left;
    RoundHalfEven(left, 1)
  }

  /** What member i of n owes: the base share, plus the remainder for the last one. */
  function EqualOwed(totalAmount: int, numMembers: nat, i: nat): int
    requires numMembers > 0
  {
    if i == numMembers - 1 then BaseShare(totalAmount, numMembers) + Remainder(totalAmount, numMembers)
    else BaseShare(totalAmount, numMembers)
  }

  /** The equal mode: one entry per member, in member order. */
  function EqualSplit(members: seq<Member>, currentUser: CurrentUser, totalAmount: int): Result<seq<ExpenseUser>, Error>
  {
    if |members| == 0 then Failure(NoMembers)
    else
      Success(seq(|members|, i requires 0 <= i < |members| =>
        ExpenseUser(members[i].id, EqualOwed(totalAmount, |members|, i), PaidShare(members[i].id, currentUser, totalAmount))))
  }

  /** The loop of the equal mode. */
  method BuildEqualUsers(members: seq<Member>, currentUser: CurrentUser, totalAmount: int)
    returns (result: Result<seq<ExpenseUser>, Error>)
    ensures result == EqualSplit(members, currentUser, totalAmount)
  {
    var numMembers := |members|;
    if numMembers == 0 {
      return Failure(NoMembers);
    }
    var splitAmount := RoundHalfEven(totalAmount, numMembers);
    var totalAllocated := splitAmount * numMembers;
    var remainder := RoundHalfEven(totalAmount - totalAllocated, 1);
    var users: seq<ExpenseUser> := [];
    var i := 0;
    while i < numMembers
      invariant 0 <= i <= numMembers
      invariant |users| == i
      invariant forall j :: 0 <= j < i ==>
                  users[j] == ExpenseUser(members[j].id, EqualOwed(totalAmount, numMembers, j),
                                          PaidShare(members[j].id, currentUser, totalAmount))
    {
      var member := members[i];
      var amount := splitAmount;
      if i == numMembers - 1 {
        amount := amount + remainder;
      }
      var paid := if member.id == currentUser.id then totalAmount else 0;
      users := users + [ExpenseUser(member.id, amount, paid)];
      i := i + 1;
    }
    ghost var expected := EqualSplit(members, currentUser, totalAmount).value;
    assert |expected| == numMembers;
    assert forall j :: 0 <= j < numMembers ==> users[j] == expected[j];
    assert users == expected;
    result := Success(users);
  }

  /** The owed shares of a list of entries, in order. */
  function OwedShares(users: seq<ExpenseUser>): seq<int>
  {
    seq(|users|, i requires 0 <= i < |users| => users[i].owedShare)
  }

  /** The owed shares of a list of entries, added up. */
  function OwedTotal(users: seq<ExpenseUser>): int
  {
    Sum(OwedShares(users))
  }

  /** With no members the equal split fails and builds no entries; otherwise
      it has one entry per member, in member order and with that member's id;
      each owes the base share `round(total / n, 2)`, the last one plus the
      remainder, and the current user's entry paid the total. */
  lemma EqualSplitShape(members: seq<Member>, currentUser: CurrentUser, totalAmount: int)
    ensures |members| == 0 <==> EqualSplit(members, currentUser, totalAmount) == Failure(NoMembers)
    ensures |members| > 0 ==>
            var r, n := EqualSplit(members, currentUser, totalAmount), |members|;
            var base := BaseShare(totalAmount, n);
            r.Success? && |r.value| == n &&
            (forall i :: 0 <= i < n ==> r.value[i].id == members[i].id) &&
            (forall i :: 0 <= i < n - 1 ==> r.value[i].owedShare == base) &&
            r.value[n - 1].owedShare == base + (totalAmount - base * n) &&
            (forall i :: 0 <= i < n ==> r.value[i].paidShare == PaidShare(members[i].id, currentUser, totalAmount))
  {
  }

  /** The base share is the cent amount nearest to total / n, and the
      remainder the last member absorbs is at most half a cent per member. */
  lemma EqualShareNearest(totalAmount: int, numMembers: nat)
    requires numMembers > 0
    ensures 2 * Abs(totalAmount - numMembers * BaseShare(totalAmount, numMembers)) <= numMembers
    ensures 2 * Abs(Remainder(totalAmount, numMembers)) <= numMembers
  {
  }

  /** The entries of the equal split owe, in cents, exactly the expense total. */
  lemma EqualSplitSum(members: seq<Member>, currentUser: CurrentUser, totalAmount: int)
    requires |members| > 0
    ensures OwedTotal(EqualSplit(members, currentUser, totalAmount).value) == totalAmount
  {
    var n := |members|;
    var users := EqualSplit(members, currentUser, totalAmount).value;
    var base := BaseShare(totalAmount, n);
    EqualPrefixSum(users, base, n - 1);
    assert users[..n] == users;
    assert OwedShares(users)[..n - 1] == OwedShares(users[..n - 1]);
    assert OwedTotal(users) == (n - 1) * base + users[n - 1].owedShare;
    assert (n - 1) * base + base == n * base;
  }

  /** The first k entries, all owing base, owe k * base together. */
  lemma {:induction false} EqualPrefixSum(users: seq<ExpenseUser>, base: int, k: nat)
    requires k <= |users|
    requires forall i :: 0 <= i < k ==> users[i].owedShare == base
    ensures OwedTotal(users[..k]) == k * base
    decreases k
  {
    if k > 0 {
      assert OwedShares(users[..k])[..k - 1] == OwedShares(users[..k - 1]);
      EqualPrefixSum(users, base, k - 1);
      assert k * base == (k - 1) * base + base;
    } else {
      assert users[..0] == [];
    }
  }

  /** The equal scenario: 100.00 among three members is 33.33, 33.33 and
      33.34, the last member taking the remainder. */
  lemma EqualSplitExample()
    ensures var members := [Member(1, "a@x.com"), Member(2, "b@x.com"), Member(3, "c@x.com")];
            var r := EqualSplit(members, CurrentUser(1, "a@x.com"), 10000);
            r.Success? && |r.value| == 3 &&
            r.value[0].owedShare == 3333 && r.value[1].owedShare == 3333 && r.value[2].owedShare == 3334 &&
            r.value[0].paidShare == 10000 && r.value[1].paidShare == 0 && r.value[2].paidShare == 0
  {
  }

  // ---------------------------------------------------------------------
  // The whole request

  /** Explicit mode when the request carries a non-empty split; equal mode otherwise. */
  function Reconcile(request: ExpenseRequest, members: seq<Member>, currentUser: CurrentUser): Result<seq<ExpenseUser>, Error>
  {
    if request.splits.Some? && |request.splits.value| > 0 then
      ExplicitSplit(request.splits.value, members, currentUser, request.totalAmount)
    else
      EqualSplit(members, currentUser, request.totalAmount)
  }

  /** The expense for the chosen group, or the reconciler's failure. */
  function PrepareExpense(request: ExpenseRequest, group: Group, currentUser: CurrentUser): Result<Expense, Error>
  {
    match Reconcile(request, group.members, currentUser)
    case Failure(e) => Failure(e)
    case Success(users) => Success(Expense(request.totalAmount, request.description, group.id, "USD", users))
  }

  /** Both modes follow the single-payer rule: in every entry of a
      successful reconciliation the current user's id has paid the whole total
      and every other id nothing. */
  lemma SinglePayer(request: ExpenseRequest, members: seq<Member>, currentUser: CurrentUser)
    requires Reconcile(request, members, currentUser).Success?
    ensures forall u :: u in Reconcile(request, members, currentUser).value ==>
              u.paidShare == (if u.id == currentUser.id then request.totalAmount else 0)
  {
    var users := Reconcile(request, members, currentUser).value;
    if request.splits.Some? && |request.splits.value| > 0 {
      ExplicitUsersResolved(request.splits.value, members, currentUser, request.totalAmount);
    }
    forall u | u in users
      ensures u.paidShare == (if u.id == currentUser.id then request.totalAmount else 0)
    {
      var i :| 0 <= i < |users| && users[i] == u;
    }
  }

  /** A character of the needle that the haystack lacks rules a match out. */
  lemma {:induction false} MissingCharNoMatch(hay: string, needle: string, c: char)
    requires c in needle && c !in hay
    ensures !Contains(hay, needle)
    decreases |hay|
  {
    if |needle| <= |hay| {
      assert hay[..|needle|] != needle by {
        var k :| 0 <= k < |needle| && needle[k] == c;
        assert c != hay[k];
      }
      if |hay| > 0 {
        MissingCharNoMatch(hay[1..], needle, c);
      }
    }
  }

  /** The lookup is case-insensitive: filter "at&t" finds the group
      "AT&T Family". */
  lemma GroupMatchExample()
    ensures GroupMatches("at&t", Group(7, "AT&T Family", []))
  {
    assert Lower("AT&T Family")[..4] == "at&t";
  }

  /** A group whose name has no "&" does not match the filter "at&t". */
  lemma GroupMismatchExample()
    ensures !GroupMatches("at&t", Group(8, "Roommates", []))
  {
    var rooms := Lower("Roommates");
    assert forall k :: 0 <= k < |rooms| ==> rooms[k] != '&';
    assert "at&t"[2] == '&';
    MissingCharNoMatch(rooms, Lower("at&t"), '&');
  }

  /** The add-expense logic up to the call that creates the expense: the
      groups and the current user are what the ledger client returned. */
  method AddExpenseToSplitwiseLogic(request: ExpenseRequest, groups: seq<Group>, currentUser: CurrentUser)
    returns (result: Result<Expense, Error>)
    ensures (forall j :: 0 <= j < |groups| ==> !GroupMatches(request.groupNameFilter, groups[j])) ==>
            result == Failure(GroupNotFound(request.groupNameFilter))
    ensures forall i :: IsFirstMatch(groups, request.groupNameFilter, i) ==>
            result == PrepareExpense(request, groups[i], currentUser)
  {
    var target := FindGroup(groups, request.groupNameFilter);
    if target.None? {
      return Failure(GroupNotFound(request.groupNameFilter));
    }
    var group := target.value;
    var users: Result<seq<ExpenseUser>, Error>;
    if request.splits.Some? && |request.splits.value| > 0 {
      users := BuildExplicitUsers(request.splits.value, group.members, currentUser, request.totalAmount);
    } else {
      users := BuildEqualUsers(group.members, currentUser, request.totalAmount);
    }
    if users.Failure? {
      return Failure(users.error);
    }
    result := Success(Expense(request.totalAmount, request.description, group.id, "USD", users.value));
  }
}

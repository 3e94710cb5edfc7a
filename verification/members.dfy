/** The member store (`useMembers`): the member list, the filtered view the
    page shows, and the add / update / delete / statistics operations. */
module Members {
  import opened Seqs
  import opened Text
  import opened Results

  datatype Status = Active | Inactive | Suspended
  datatype MembershipType = Regular | Associate | Premium

  /** Amounts are whole currency units. */
  datatype Member = Member(
    id: string,
    memberNumber: string,
    firstName: string,
    lastName: string,
    email: string,
    phone: string,
    address: string,
    dateJoined: string,
    status: Status,
    membershipType: MembershipType,
    contributionAmount: int,
    loanBalance: int,
    savingsBalance: int)

  /** What the add-member dialog collects. */
  datatype MemberForm = MemberForm(
    firstName: string,
    lastName: string,
    email: string,
    phone: string,
    address: string,
    membershipType: MembershipType,
    contributionAmount: int)

  /** A filter value: `'all'` or one specific value. */
  datatype Choice<T> = All | Only(value: T)

  datatype Filters = Filters(status: Choice<Status>, membershipType: Choice<MembershipType>, search: string)

  /** The filters the page starts with. */
  const InitialFilters: Filters := Filters(All, All, "")

  function Matches<T(==)>(choice: Choice<T>, v: T): bool {
    choice.All? || choice.value == v
  }

  /** Case-insensitive substring search on first name, last name, e-mail and
      member number; an empty search matches everyone. */
  predicate MatchesSearch(m: Member, search: string) {
    || |search| == 0
    || Includes(Lower(m.firstName), Lower(search))
    || Includes(Lower(m.lastName), Lower(search))
    || Includes(Lower(m.email), Lower(search))
    || Includes(Lower(m.memberNumber), Lower(search))
  }

  predicate Selected(m: Member, f: Filters) {
    Matches(f.status, m.status) && Matches(f.membershipType, m.membershipType) && MatchesSearch(m, f.search)
  }

  /** `filteredMembers`: the members passing all three tests, in list order. */
  function FilterMembers(ms: seq<Member>, f: Filters): seq<Member>
    decreases |ms|
  {
    if |ms| == 0 then []
    else if Selected(ms[0], f) then [ms[0]] + FilterMembers(ms[1..], f)
    else FilterMembers(ms[1..], f)
  }

  /** The view holds exactly the selected members, every copy of them, as a
      subsequence of the list. */
  lemma FilterMembersSpec(ms: seq<Member>, f: Filters)
    ensures forall m :: m in FilterMembers(ms, f) <==> m in ms && Selected(m, f)
    ensures forall x :: multiset(FilterMembers(ms, f))[x] == if Selected(x, f) then multiset(ms)[x] else 0
    ensures IsSubsequence(FilterMembers(ms, f), ms)
  {
    FilterMembersSelects(ms, f);
    FilterMembersCounts(ms, f);
  }

  lemma {:induction false} FilterMembersSelects(ms: seq<Member>, f: Filters)
    ensures forall m :: m in FilterMembers(ms, f) <==> m in ms && Selected(m, f)
    ensures IsSubsequence(FilterMembers(ms, f), ms)
    decreases |ms|
  {
    if |ms| > 0 {
      FilterMembersSelects(ms[1..], f);
      assert forall m :: m in ms <==> m == ms[0] || m in ms[1..];
      if Selected(ms[0], f) {
        assert FilterMembers(ms, f)[1..] == FilterMembers(ms[1..], f);
      } else {
        SubsequenceExtendLeft(FilterMembers(ms[1..], f), [ms[0]], ms[1..]);
        assert [ms[0]] + ms[1..] == ms;
      }
    }
  }

  lemma {:induction false} FilterMembersCounts(ms: seq<Member>, f: Filters)
    ensures forall x :: multiset(FilterMembers(ms, f))[x] == if Selected(x, f) then multiset(ms)[x] else 0
    decreases |ms|
  {
    if |ms| > 0 {
      FilterMembersCounts(ms[1..], f);
      assert ms == [ms[0]] + ms[1..];
      assert multiset(ms) == multiset{ms[0]} + multiset(ms[1..]);
      if Selected(ms[0], f) {
        assert multiset(FilterMembers(ms, f)) == multiset{ms[0]} + multiset(FilterMembers(ms[1..], f));
      }
    }
  }

  /** With every filter open the view is the whole list. */
  lemma {:induction false} InitialFiltersShowAll(ms: seq<Member>)
    ensures FilterMembers(ms, InitialFilters) == ms
    decreases |ms|
  {
    if |ms| > 0 {
      InitialFiltersShowAll(ms[1..]);
      assert [ms[0]] + ms[1..] == ms;
    }
  }

  /** The search ignores the case of what is typed. */
  lemma SearchIgnoresCase(m: Member, search: string)
    ensures MatchesSearch(m, search) <==> MatchesSearch(m, Lower(search))
  {
    LowerIdempotent(search);
  }

  /** A search typed as any part of a member's number finds that member,
      whatever the case of the letters. */
  lemma MemberNumberFound(m: Member, search: string)
    requires Includes(m.memberNumber, search)
    ensures MatchesSearch(m, search)
  {
    LowerKeepsIncludes(m.memberNumber, search);
  }

  predicate IdInUse(ms: seq<Member>, id: string) {
    exists i :: 0 <= i < |ms| && ms[i].id == id
  }

  /** `M-` and the member's position counted from one, padded to three digits. */
  function MemberNumber(n: nat): string {
    "M-" + ZeroPad3(n)
  }

  /** Reading a member number back gives the count it was made from, so
      different counts give different numbers. */
  lemma MemberNumberInjective(a: nat, b: nat)
    ensures MemberNumber(a) == MemberNumber(b) <==> a == b
  {
    if MemberNumber(a) == MemberNumber(b) {
      assert MemberNumber(a)[2..] == ZeroPad3(a);
      assert MemberNumber(b)[2..] == ZeroPad3(b);
      ZeroPad3Injective(a, b);
    }
  }

  /** `addMember`: append one active member with the form's fields, a number
      derived from the list length, no loan and the contribution as savings. */
  function AddMember(ms: seq<Member>, form: MemberForm, freshId: string, today: string): (r: seq<Member>)
    requires !IdInUse(ms, freshId)
    ensures |r| == |ms| + 1 && r[..|ms|] == ms
    ensures r[|ms|].memberNumber == MemberNumber(|ms| + 1)
    ensures var m := r[|ms|];
      && m.id == freshId && m.dateJoined == today
      && m.firstName == form.firstName && m.lastName == form.lastName
      && m.email == form.email && m.phone == form.phone && m.address == form.address
      && m.membershipType == form.membershipType
      && m.contributionAmount == form.contributionAmount
      && m.status == Active && m.loanBalance == 0
      && m.savingsBalance == form.contributionAmount
  {
    var number := MemberNumber(|ms| + 1);
    ms + [Member(freshId, number, form.firstName, form.lastName, form.email, form.phone,
                 form.address, today, Active, form.membershipType, form.contributionAmount,
                 0, form.contributionAmount)]
  }

  /** `Partial<Member>`: each field either supplied or left alone. */
  datatype MemberPatch = MemberPatch(
    id: Option<string>,
    memberNumber: Option<string>,
    firstName: Option<string>,
    lastName: Option<string>,
    email: Option<string>,
    phone: Option<string>,
    address: Option<string>,
    dateJoined: Option<string>,
    status: Option<Status>,
    membershipType: Option<MembershipType>,
    contributionAmount: Option<int>,
    loanBalance: Option<int>,
    savingsBalance: Option<int>)

  const EmptyPatch: MemberPatch :=
    MemberPatch(None, None, None, None, None, None, None, None, None, None, None, None, None)

  /** A patch field: the supplied value, or the current one when left out. */
  function Pick<T>(o: Option<T>, current: T): (r: T)
    ensures o.Some? ==> r == o.value
    ensures o.None? ==> r == current
  {
    if o.Some? then o.value else current
  }

  /** `{ ...member, ...patch }`: supplied fields win, the others stay. */
  function ApplyPatch(m: Member, p: MemberPatch): (r: Member)
    ensures p == EmptyPatch ==> r == m
  {
    Member(Pick(p.id, m.id), Pick(p.memberNumber, m.memberNumber), Pick(p.firstName, m.firstName),
           Pick(p.lastName, m.lastName), Pick(p.email, m.email), Pick(p.phone, m.phone),
           Pick(p.address, m.address), Pick(p.dateJoined, m.dateJoined), Pick(p.status, m.status),
           Pick(p.membershipType, m.membershipType), Pick(p.contributionAmount, m.contributionAmount),
           Pick(p.loanBalance, m.loanBalance), Pick(p.savingsBalance, m.savingsBalance))
  }

  /** `updateMember`: patch every member with the id, leave the rest. */
  function UpdateMember(ms: seq<Member>, id: string, p: MemberPatch): (r: seq<Member>)
    ensures |r| == |ms|
    ensures forall i :: 0 <= i < |ms| && ms[i].id == id ==> r[i] == ApplyPatch(ms[i], p)
    ensures forall i :: 0 <= i < |ms| && ms[i].id != id ==> r[i] == ms[i]
    ensures !IdInUse(ms, id) ==> r == ms
  {
    seq(|ms|, i requires 0 <= i < |ms| => if ms[i].id == id then ApplyPatch(ms[i], p) else ms[i])
  }

  /** Re-sending the same patch changes nothing more, as long as it does not
      move the member to another id; the empty patch changes nothing at all. */
  lemma UpdateMemberIdempotent(ms: seq<Member>, id: string, p: MemberPatch)
    requires p.id.None? || p.id.value == id
    ensures UpdateMember(UpdateMember(ms, id, p), id, p) == UpdateMember(ms, id, p)
    ensures UpdateMember(ms, id, EmptyPatch) == ms
  {
    var once := UpdateMember(ms, id, p);
    forall i | 0 <= i < |ms|
      ensures UpdateMember(once, id, p)[i] == once[i]
    {
      if ms[i].id == id {
        assert once[i].id == id;
      }
    }
  }

  /** `deleteMember`: drop every member with the id, keep the rest in order. */
  function DeleteMember(ms: seq<Member>, id: string): seq<Member>
    decreases |ms|
  {
    if |ms| == 0 then []
    else if ms[0].id == id then DeleteMember(ms[1..], id)
    else [ms[0]] + DeleteMember(ms[1..], id)
  }

  /** Delete keeps exactly the members with another id, every copy of them,
      in order; an unknown id changes nothing. */
  lemma DeleteMemberSpec(ms: seq<Member>, id: string)
    ensures forall m :: m in DeleteMember(ms, id) <==> m in ms && m.id != id
    ensures forall x :: multiset(DeleteMember(ms, id))[x] == if x.id != id then multiset(ms)[x] else 0
    ensures IsSubsequence(DeleteMember(ms, id), ms)
    ensures !IdInUse(ms, id) ==> DeleteMember(ms, id) == ms
  {
    DeleteMemberSelects(ms, id);
    DeleteMemberCounts(ms, id);
  }

  lemma {:induction false} DeleteMemberSelects(ms: seq<Member>, id: string)
    ensures forall m :: m in DeleteMember(ms, id) <==> m in ms && m.id != id
    ensures IsSubsequence(DeleteMember(ms, id), ms)
    ensures !IdInUse(ms, id) ==> DeleteMember(ms, id) == ms
    decreases |ms|
  {
    if |ms| > 0 {
      DeleteMemberSelects(ms[1..], id);
      assert forall m :: m in ms <==> m == ms[0] || m in ms[1..];
      assert [ms[0]] + ms[1..] == ms;
      if ms[0].id == id {
        SubsequenceExtendLeft(DeleteMember(ms[1..], id), [ms[0]], ms[1..]);
      } else {
        assert DeleteMember(ms, id)[1..] == DeleteMember(ms[1..], id);
        assert forall i :: 0 <= i < |ms| - 1 ==> ms[1..][i] == ms[i + 1];
      }
    }
  }

  lemma {:induction false} DeleteMemberCounts(ms: seq<Member>, id: string)
    ensures forall x :: multiset(DeleteMember(ms, id))[x] == if x.id != id then multiset(ms)[x] else 0
    decreases |ms|
  {
    if |ms| > 0 {
      DeleteMemberCounts(ms[1..], id);
      assert ms == [ms[0]] + ms[1..];
      assert multiset(ms) == multiset{ms[0]} + multiset(ms[1..]);
      if ms[0].id != id {
        assert multiset(DeleteMember(ms, id)) == multiset{ms[0]} + multiset(DeleteMember(ms[1..], id));
      }
    }
  }

  datatype MemberStats = MemberStats(totalMembers: nat, activeMembers: nat, totalContributions: int, totalSavings: int)

  function ActiveFlags(ms: seq<Member>): (bs: seq<bool>)
    ensures |bs| == |ms|
    ensures forall i :: 0 <= i < |ms| ==> bs[i] == (ms[i].status == Active)
  {
    seq(|ms|, i requires 0 <= i < |ms| => ms[i].status == Active)
  }

  function Contributions(ms: seq<Member>): (xs: seq<int>)
    ensures |xs| == |ms|
    ensures forall i :: 0 <= i < |ms| ==> xs[i] == ms[i].contributionAmount
  {
    seq(|ms|, i requires 0 <= i < |ms| => ms[i].contributionAmount)
  }

  function Savings(ms: seq<Member>): (xs: seq<int>)
    ensures |xs| == |ms|
    ensures forall i :: 0 <= i < |ms| ==> xs[i] == ms[i].savingsBalance
  {
    seq(|ms|, i requires 0 <= i < |ms| => ms[i].savingsBalance)
  }

  /** `getMemberStats`, always over the whole list, never the filtered view. */
  function GetMemberStats(ms: seq<Member>): (r: MemberStats)
    ensures r.totalMembers == |ms|
    ensures r.activeMembers == CountTrue(ActiveFlags(ms))
    ensures r.totalContributions == Sum(Contributions(ms))
    ensures r.totalSavings == Sum(Savings(ms))
    ensures r.activeMembers <= r.totalMembers
    ensures r.activeMembers == r.totalMembers <==> forall i :: 0 <= i < |ms| ==> ms[i].status == Active
  {
    MemberStats(|ms|, CountTrue(ActiveFlags(ms)), Sum(Contributions(ms)), Sum(Savings(ms)))
  }

  /** The statistics of a list with one more member at the end. */
  lemma StatsSnoc(ms: seq<Member>, m: Member)
    ensures var before, after := GetMemberStats(ms), GetMemberStats(ms + [m]);
      && after.totalMembers == before.totalMembers + 1
      && after.activeMembers == before.activeMembers + (if m.status == Active then 1 else 0)
      && after.totalContributions == before.totalContributions + m.contributionAmount
      && after.totalSavings == before.totalSavings + m.savingsBalance
  {
    var r := ms + [m];
    assert ActiveFlags(r) == ActiveFlags(ms) + [m.status == Active] by {
      assert forall i :: 0 <= i < |ms| ==> r[i] == ms[i];
    }
    assert Contributions(r) == Contributions(ms) + [m.contributionAmount] by {
      assert forall i :: 0 <= i < |ms| ==> r[i] == ms[i];
    }
    assert Savings(r) == Savings(ms) + [m.savingsBalance] by {
      assert forall i :: 0 <= i < |ms| ==> r[i] == ms[i];
    }
    CountTrueAppend(ActiveFlags(ms), [m.status == Active]);
    SumAppend(Contributions(ms), [m.contributionAmount]);
    SumAppend(Savings(ms), [m.savingsBalance]);
  }

  /** Adding a member counts one more (active) member and adds the
      contribution to both the contribution and the savings totals. */
  lemma AddMemberStats(ms: seq<Member>, form: MemberForm, freshId: string, today: string)
    requires !IdInUse(ms, freshId)
    ensures var before, after := GetMemberStats(ms), GetMemberStats(AddMember(ms, form, freshId, today));
      && after.totalMembers == before.totalMembers + 1
      && after.activeMembers == before.activeMembers + 1
      && after.totalContributions == before.totalContributions + form.contributionAmount
      && after.totalSavings == before.totalSavings + form.contributionAmount
  {
    var r := AddMember(ms, form, freshId, today);
    var m := r[|ms|];
    assert r == ms + [m];
    StatsSnoc(ms, m);
  }

  const SeedMembers: seq<Member> := [
    Member("1", "M-001", "Juan", "Dela Cruz", "juan.delacruz@example.com", "+63-912-345-6789",
           "123 Main St, Manila, Philippines", "2023-01-15", Active, Regular, 5000, 25000, 15000),
    Member("2", "M-002", "Maria", "Santos", "maria.santos@example.com", "+63-923-456-7890",
           "456 Oak Ave, Quezon City, Philippines", "2023-02-20", Active, Premium, 10000, 50000, 35000),
    Member("3", "M-003", "Pedro", "Reyes", "pedro.reyes@example.com", "+63-934-567-8901",
           "789 Pine St, Makati, Philippines", "2023-03-10", Inactive, Associate, 3000, 0, 8000)
  ]

  /** The seeded statistics: 3 members, 2 active, 18000 contributed, 58000 saved. */
  lemma SeedMemberStats()
    ensures GetMemberStats(SeedMembers) == MemberStats(3, 2, 18000, 58000)
  {
    assert ActiveFlags(SeedMembers) == [true, true, false];
    assert Contributions(SeedMembers) == [5000, 10000, 3000];
    assert Savings(SeedMembers) == [15000, 35000, 8000];
    assert CountTrue([true, true, false]) == 2;
    assert Sum([5000, 10000, 3000]) == 18000;
    assert Sum([15000, 35000, 8000]) == 58000;
  }

  /** Because the number comes from the list length, deleting a member and
      adding another repeats a number still in use: after removing the first
      seeded member, the new member is numbered M-003 like Pedro Reyes. */
  lemma AddAfterDeleteRepeatsNumber(form: MemberForm, freshId: string, today: string)
    requires freshId != "2" && freshId != "3"
    ensures var ms := DeleteMember(SeedMembers, "1");
      var r := AddMember(ms, form, freshId, today);
      |r| == 3 && r[1].memberNumber == r[2].memberNumber == "M-003" && r[1].id != r[2].id
  {
    var ms := DeleteMember(SeedMembers, "1");
    DeleteFirstSeed();
    ZeroPad3OneDigit(3);
    assert MemberNumber(3) == "M-003";
    var r := AddMember(ms, form, freshId, today);
    assert r[2].memberNumber == MemberNumber(|ms| + 1);
  }

  /** Deleting the first seeded member leaves the other two, in order. */
  lemma DeleteFirstSeed()
    ensures DeleteMember(SeedMembers, "1") == SeedMembers[1..]
  {
    var rest := SeedMembers[1..];
    assert !IdInUse(rest, "1");
    DeleteMemberSpec(rest, "1");
  }
}

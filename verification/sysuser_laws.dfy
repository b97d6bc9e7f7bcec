/**
  Laws of the identity-matching layer that relate several calls: the
  fail-closed default, the `UnixGroup` accessors against `GroupID` itself,
  the group-blind equality of `UserRecord`, and the order- and
  growth-behaviour of group membership.
 */
module SysUserLaws {
  import opened Optional
  import opened SysUser

  /** One `Identifiable` question, dispatched by name. */
  function Ask(x: Identity, c: Check, n: string, id: Id): (r: bool)
  {
    match c
    case HasNameCheck => HasName(x, n)
    case HasUidCheck => HasUid(x, id)
    case IsRootCheck => IsRoot(x)
    case InGroupByNameCheck => InGroupByName(x, n)
    case InGroupByGidCheck => InGroupByGid(x, id)
  }

  /** Default deny: a question the identity's type does not answer itself is
      answered `false`, whatever its argument. */
  lemma FailClosed(x: Identity, c: Check, n: string, id: Id)
    requires c !in Overrides(x)
    ensures !Ask(x, c, n, id)
  {
  }

  /** A type that overrides nothing denies every question. */
  lemma OpaqueDeniesEverything(c: Check, n: string, id: Id)
    ensures !Ask(Opaque, c, n, id)
  {
    FailClosed(Opaque, c, n, id);
  }

  // ----- UnixGroup -----

  /** The accessors of a `GroupID` give back exactly its two fields; a
      corollary of `AsGid`'s contract, stated on `GroupID` itself. */
  lemma CanonicalAccessorsRoundTrip(g: GroupID)
    ensures GroupID(AsGid(Canonical(g)), TryAsName(Canonical(g))) == g
  {
  }

  /** A live group always exposes its name, and its gid unchanged; a
      corollary of `AsGid`'s contract, split field by field. */
  lemma SystemGroupAccessors(og: OsGroup)
    ensures TryAsName(System(og)) == Some(og.name)
    ensures AsGid(System(og)) == og.gid
  {
  }

  /** Any group, seen through its accessors as a `GroupID`, matches exactly
      the name and the id its accessors report. */
  lemma AccessorsAgreeWithMatching(e: GroupEntry, n: string, id: Id)
    ensures HasName(Group(GroupID(AsGid(e), TryAsName(e))), n) <==> TryAsName(e) == Some(n)
    ensures HasUid(Group(GroupID(AsGid(e), TryAsName(e))), id) <==> AsGid(e) == id
  {
  }

  // ----- equality of UserRecord -----

  /** `impl Eq for UserRecord` is sound: the relation is an equivalence. */
  lemma UserEqIsEquivalence()
    ensures forall a :: UserEq(a, a)
    ensures forall a, b :: UserEq(a, b) ==> UserEq(b, a)
    ensures forall a, b, c :: UserEq(a, b) && UserEq(b, c) ==> UserEq(a, c)
  {
  }

  /** Record equality is strictly coarser than structural equality: adding a
      group yields a different record that still compares equal. */
  lemma UserEqCoarserThanIdentity(u: UserRecord, g: GroupID)
    ensures u.(groups := u.groups + [g]) != u
    ensures UserEq(u.(groups := u.groups + [g]), u)
  {
    assert |u.(groups := u.groups + [g]).groups| != |u.groups|;
  }

  /** Replacing the group list never changes equality. */
  lemma UserEqIgnoresGroups(u: UserRecord, gs: seq<GroupID>)
    ensures UserEq(u, u.(groups := gs))
  {
  }

  /** Equal records need not agree on membership: a record with one group
      equals the same record without it, yet only the first is a member. */
  lemma EqualRecordsMayDisagreeOnMembership(u: UserRecord, g: GroupID)
    ensures var a := u.(groups := [g]);
            var b := u.(groups := []);
            && UserEq(a, b)
            && InGroupByGid(Record(a), g.gid) && !InGroupByGid(Record(b), g.gid)
            && (g.name.Some? ==> InGroupByName(Record(a), g.name.value) && !InGroupByName(Record(b), g.name.value))
  {
  }

  // ----- group membership of a UserRecord -----

  /** A record without groups belongs to no group. */
  lemma NoGroupsNoMembership(u: UserRecord, n: string, id: Id)
    requires u.groups == []
    ensures !InGroupByName(Record(u), n)
    ensures !InGroupByGid(Record(u), id)
  {
  }

  /** Membership does not depend on the order of the group list: two lists
      that are permutations of each other give the same answers. */
  lemma MembershipIgnoresOrder(u: UserRecord, v: UserRecord, n: string, id: Id)
    requires multiset(u.groups) == multiset(v.groups)
    ensures InGroupByName(Record(u), n) <==> InGroupByName(Record(v), n)
    ensures InGroupByGid(Record(u), id) <==> InGroupByGid(Record(v), id)
  {
    forall g
      ensures g in u.groups <==> g in v.groups
    {
      assert g in u.groups <==> g in multiset(u.groups);
      assert g in v.groups <==> g in multiset(v.groups);
    }
  }

  /** Appending groups adds exactly their memberships: membership after the
      append is membership before it or in one of the appended groups, so
      in particular it is never lost. */
  lemma MembershipAppend(u: UserRecord, extra: seq<GroupID>, n: string, id: Id)
    ensures InGroupByName(Record(u.(groups := u.groups + extra)), n)
            <==> InGroupByName(Record(u), n) || exists g :: g in extra && g.name == Some(n)
    ensures InGroupByGid(Record(u.(groups := u.groups + extra)), id)
            <==> InGroupByGid(Record(u), id) || exists g :: g in extra && g.gid == id
    ensures InGroupByName(Record(u), n) ==> InGroupByName(Record(u.(groups := u.groups + extra)), n)
    ensures InGroupByGid(Record(u), id) ==> InGroupByGid(Record(u.(groups := u.groups + extra)), id)
  {
  }

  // ----- root -----

  /** The two user representations decide root differently: the live user by
      uid alone, the canonical record never (see `IntendedRecordIsRoot`). */
  lemma RootAsymmetry()
    ensures IsRoot(LiveUser(OsUser(0, "nobody")))
    ensures !IsRoot(LiveUser(OsUser(1000, "root")))
    ensures !IsRoot(Record(UserRecord(0, Some("root"), [])))
    ensures IsRoot(BareName("root")) && !IsRoot(BareName("rooty"))
  {
  }

  /** The record that the body of `UserRecord::is_root` describes as root is
      not root as the code runs, because `has_name` and `has_uid` fall back to
      the trait defaults for `UserRecord`. */
  lemma RecordRootDiscrepancy()
    ensures var w := UserRecord(RootId, Some(RootName), []);
            IntendedRecordIsRoot(w) && !IsRoot(Record(w))
  {
  }

  /** `has_name` for a `UserRecord` as its `is_root` evidently expects it:
      compare the record's name. */
  function IntendedRecordHasName(u: UserRecord, n: string): (r: bool)
  {
    u.name == Some(n)
  }

  /** `has_uid` for a `UserRecord` as its `is_root` evidently expects it:
      compare the record's numeric id. */
  function IntendedRecordHasUid(u: UserRecord, id: Id): (r: bool)
  {
    u.gid == id
  }

  /** `UserRecord::is_root` with the two checks it relies on in place: a
      record is root exactly when it carries both the root name and id 0, and
      its group list plays no part. */
  function IntendedRecordIsRoot(u: UserRecord): (r: bool)
    ensures r <==> u.(groups := []) == UserRecord(RootId, Some(RootName), [])
  {
    IntendedRecordHasName(u, RootName) && IntendedRecordHasUid(u, RootId)
  }

  /** The corrected check respects record equality, and a missing name or a
      non-zero id each rule out root. */
  lemma IntendedRecordIsRootLaws(a: UserRecord, b: UserRecord)
    ensures UserEq(a, b) ==> IntendedRecordIsRoot(a) == IntendedRecordIsRoot(b)
    ensures a.name.None? ==> !IntendedRecordIsRoot(a)
    ensures a.gid != RootId ==> !IntendedRecordIsRoot(a)
  {
  }

  // ----- a worked example -----

  /** A user in `wheel` (gid 10) is a member by name and by gid, and not of
      `staff`. */
  lemma WheelExample()
    ensures var alice := Record(UserRecord(1000, Some("alice"), [GroupID(10, Some("wheel"))]));
            && InGroupByName(alice, "wheel") && InGroupByGid(alice, 10)
            && !InGroupByName(alice, "staff") && !InGroupByGid(alice, 11)
  {
  }
}

/**
  The identity-matching layer of the sudoers policy (lib/sudoers/src/sysuser.rs).

  The Rust `Identifiable` trait is a set of five boolean questions whose default
  bodies all answer `false`; each implementing type overrides some of them. Here
  the implementing types become the variants of one closed datatype `Identity`,
  and each question is one function defined by `match`, in which a variant that
  does not override the question falls through to the trait default `false`.
  The `UnixGroup` accessor trait is modelled the same way over `GroupEntry`.
 */
module SysUser {
  import opened Optional

  /** `libc::uid_t` and `libc::gid_t`: one unsigned 32-bit id type. */
  newtype Id = x: int | 0 <= x < 0x1_0000_0000

  /** The superuser's login name and numeric id, as the `is_root` bodies spell them. */
  const RootName: string := "root"
  const RootId: Id := 0

  /** `GroupID(gid, name)`: a group's id and, when it could be resolved, its name. */
  datatype GroupID = GroupID(gid: Id, name: Option<string>)

  /** `UserRecord(gid, name, groups)`: the canonical record of a user and its groups. */
  datatype UserRecord = UserRecord(gid: Id, name: Option<string>, groups: seq<GroupID>)

  /** `sudo_system::User`, reduced to the two fields this layer reads. */
  datatype OsUser = OsUser(uid: Id, name: string)

  /** `sudo_system::Group`, reduced to the two fields this layer reads. */
  datatype OsGroup = OsGroup(gid: Id, name: string)

  /** Every type that implements `Identifiable`. `Opaque` stands for an
      implementing type that overrides none of the trait's methods. */
  datatype Identity =
    | BareName(login: string)     // impl Identifiable for &str
    | Group(group: GroupID)       // impl Identifiable for GroupID
    | Record(record: UserRecord)  // impl Identifiable for UserRecord
    | LiveUser(user: OsUser)      // impl Identifiable for sudo_system::User
    | Opaque

  /** Every type that implements `UnixGroup`. */
  datatype GroupEntry =
    | Canonical(canonical: GroupID)  // impl UnixGroup for GroupID
    | System(group: OsGroup)         // impl UnixGroup for sudo_system::Group

  /** The five methods of `Identifiable`. */
  datatype Check = HasNameCheck | HasUidCheck | IsRootCheck | InGroupByNameCheck | InGroupByGidCheck

  /** The methods each `impl Identifiable` block defines itself; every other
      method of that type runs the trait's default body. */
  function Overrides(x: Identity): (r: set<Check>)
    ensures HasNameCheck in r <==> x.BareName? || x.Group? || x.LiveUser?
    ensures HasUidCheck in r <==> x.Group? || x.LiveUser?
    ensures IsRootCheck in r <==> x.BareName? || x.Record? || x.LiveUser?
    ensures InGroupByNameCheck in r <==> x.BareName? || x.Record? || x.LiveUser?
    ensures InGroupByGidCheck in r <==> x.Record? || x.LiveUser?
  {
    match x
    case BareName(_) => {HasNameCheck, InGroupByNameCheck, IsRootCheck}
    case Group(_) => {HasUidCheck, HasNameCheck}
    case Record(_) => {IsRootCheck, InGroupByNameCheck, InGroupByGidCheck}
    case LiveUser(_) => {HasNameCheck, HasUidCheck, IsRootCheck, InGroupByNameCheck, InGroupByGidCheck}
    case Opaque => {}
  }

  // ----- UnixGroup -----

  /** The group's id: rebuilding a `GroupID` from it and the name gives back
      the canonical group itself, or the live group's id and name. */
  function AsGid(g: GroupEntry): (r: Id)
    ensures g.Canonical? ==> GroupID(r, TryAsName(g)) == g.canonical
    ensures g.System? ==> GroupID(r, TryAsName(g)) == GroupID(g.group.gid, Some(g.group.name))
  {
    match g
    case Canonical(c) => c.gid
    case System(og) => og.gid
  }

  /** The group's name; only a canonical group whose name was never resolved has none. */
  function TryAsName(g: GroupEntry): (r: Option<string>)
    ensures r.None? <==> g.Canonical? && g.canonical.name.None?
  {
    match g
    case Canonical(c) => c.name
    case System(og) => Some(og.name)
  }

  // ----- Identifiable -----

  /** `has_name`: whether this identity goes by login or group name `n`. */
  function HasName(x: Identity, n: string): (r: bool)
    ensures HasNameCheck !in Overrides(x) ==> !r
    ensures x.BareName? ==> (r <==> x.login == n)
    ensures x.Group? ==> (r <==> TryAsName(Canonical(x.group)) == Some(n))
    ensures x.LiveUser? ==> (r <==> x.user.name == n)
  {
    match x
    case BareName(s) => s == n
    case Group(g) =>
      // `map_or(false, ..)`: a group without a resolved name matches no name
      (match g.name
       case None => false
       case Some(s) => s == n)
    case LiveUser(u) => u.name == n
    case Record(_) => false  // trait default
    case Opaque => false     // trait default
  }

  /** `has_uid`: whether this identity carries numeric id `id`. */
  function HasUid(x: Identity, id: Id): (r: bool)
    ensures HasUidCheck !in Overrides(x) ==> !r
    ensures x.Group? ==> (r <==> AsGid(Canonical(x.group)) == id)
    ensures x.LiveUser? ==> (r <==> x.user.uid == id)
  {
    match x
    case Group(g) => g.gid == id
    case LiveUser(u) => u.uid == id
    case BareName(_) => false  // trait default
    case Record(_) => false    // trait default
    case Opaque => false       // trait default
  }

  /** `is_root`. A `UserRecord` asks its own `has_name` and `has_uid`, which it
      does not override, so it is never root; a live user is root by uid alone. */
  function IsRoot(x: Identity): (r: bool)
    ensures IsRootCheck !in Overrides(x) ==> !r
    ensures x.BareName? ==> (r <==> x.login == RootName)
    ensures x.Record? ==> !r
    ensures x.LiveUser? ==> (r <==> x.user.uid == RootId)
  {
    match x
    case BareName(_) => HasName(x, RootName)
    case Record(_) => HasName(x, RootName) && HasUid(x, RootId)
    case LiveUser(_) => HasUid(x, RootId)
    case Group(_) => false  // trait default
    case Opaque => false    // trait default
  }

  /** `Iterator::any` over a group list: the first group satisfying `p`
      ends the scan. */
  function AnyGroup(gs: seq<GroupID>, p: GroupID -> bool): (r: bool)
    ensures r <==> exists g :: g in gs && p(g)
    decreases |gs|
  {
    if gs == [] then false
    else p(gs[0]) || AnyGroup(gs[1..], p)
  }

  /** `in_group_by_name`: whether this identity belongs to a group named `n`.
      A bare name counts as its own sole group. */
  function InGroupByName(x: Identity, n: string): (r: bool)
    ensures InGroupByNameCheck !in Overrides(x) ==> !r
    ensures x.BareName? ==> r == HasName(x, n)
    ensures x.Record? ==> (r <==> exists g :: g in x.record.groups && g.name == Some(n))
    ensures x.LiveUser? ==> !r
  {
    match x
    case BareName(_) => HasName(x, n)
    case Record(u) => AnyGroup(u.groups, g => HasName(Group(g), n))
    case LiveUser(_) => false
    case Group(_) => false  // trait default
    case Opaque => false    // trait default
  }

  /** `in_group_by_gid`: whether this identity belongs to the group with id `id`. */
  function InGroupByGid(x: Identity, id: Id): (r: bool)
    ensures InGroupByGidCheck !in Overrides(x) ==> !r
    ensures x.Record? ==> (r <==> exists g :: g in x.record.groups && g.gid == id)
    ensures x.LiveUser? ==> !r
  {
    match x
    case Record(u) => AnyGroup(u.groups, g => HasUid(Group(g), id))
    case LiveUser(_) => false
    case BareName(_) => false  // trait default
    case Group(_) => false     // trait default
    case Opaque => false       // trait default
  }

  // ----- equality -----

  /** `PartialEq for UserRecord`: two records are equal when they agree on
      everything except their group lists. */
  function UserEq(a: UserRecord, b: UserRecord): (r: bool)
    ensures r <==> a.(groups := []) == b.(groups := [])
  {
    a.gid == b.gid && a.name == b.name
  }
}

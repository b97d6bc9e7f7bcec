# Identity matching for the sudoers policy

A Dafny model of `lib/sudoers/src/sysuser.rs` from sudo-rs. That file holds the
identity-matching layer of the sudoers policy. It is a set of boolean questions
that the policy asks of a principal: does it have this name? this uid? is it
root? is it in this group, by name or by gid?

- `Identifiable` is the trait of five questions. Every default body answers
  `false`, so the layer fails closed. Its implementing types (`&str`, `GroupID`,
  `UserRecord`, `sudo_system::User`, and any type that overrides nothing) become
  the variants of one closed datatype, `SysUser.Identity`. Each question is one
  function defined by `match`. A variant that does not override the question
  visibly falls through to `false`.
- `SysUser.Overrides` lists which methods each `impl` block defines. Every
  predicate's contract says that a question not in that list is answered `false`.
- `UnixGroup` is the accessor trait, with `as_gid` and `try_as_name`. It is
  modelled over `SysUser.GroupEntry`, whose variants are `GroupID` and
  `sudo_system::Group`.
- `GroupID(gid, name)` and `UserRecord(gid, name, groups)` are the canonical
  records. `SysUser.UserEq` models the hand-written `PartialEq` of
  `UserRecord`, which ignores the group list.
- `uid_t` and `gid_t` are a single newtype, `SysUser.Id`, for 0 ≤ x < 2^32.
  Ids are only ever compared, so the bound has no other effect.
- `Iterator::any` over the group list is `SysUser.AnyGroup`. Its recursion stops
  at the first match, and its contract says it is an existential over the list.

Module `SysUser` (sysuser.dfy) holds the types and the operations.
Module `SysUserLaws` (sysuser_laws.dfy) holds the laws that relate several calls.
Module `Optional` (optional.dfy) holds Rust's `Option`.

## Notes on the code

Three points about sysuser.rs. In each case the model follows what the code
does.

- **`UserRecord::is_root` is never true.** Its body (sysuser.rs:77) reads as
  "name `root` and id 0". But `impl Identifiable for UserRecord` overrides
  neither `has_name` nor `has_uid`, so both calls run the trait defaults at
  sysuser.rs:5-10 and return `false`. The Findings table below records this.
- **Field 0 of `UserRecord` is a `gid_t`** (sysuser.rs:32). The body of
  `is_root` (line 77) seems meant to test it against the root uid 0 through
  `has_uid(0)`. As written, `is_root` never reads it. It is read only by `eq`
  (line 36), which `UserEq` models. The corrected `IntendedRecordHasUid` is the
  only root check that compares it. The model keeps the code's type and calls
  the field `gid`.
- **`has_uid` takes a `uid_t` in the trait** (sysuser.rs:8) **but a `gid_t` in
  the impls** (sysuser.rs:67 and 93). The model uses one id type for both,
  since the code compares them freely.

## Model

| member | source | states |
|---|---|---|
| SysUser.HasName | lib/sudoers/src/sysuser.rs:5-92 | Fails closed for types that do not override it (`UserRecord` and a type overriding nothing). A bare name matches exactly its own text. A `GroupID` matches exactly the name its `try_as_name` reports, so a group with no name matches nothing. A live user matches its `name` field. |
| SysUser.HasUid | lib/sudoers/src/sysuser.rs:8-95 | Fails closed for a bare name, a `UserRecord` and a type overriding nothing. A `GroupID` matches exactly the id its `as_gid` reports. A live user matches its `uid` field. |
| SysUser.IsRoot | lib/sudoers/src/sysuser.rs:12-99 | Fails closed for `GroupID` and for a type overriding nothing. A bare name is root iff it is exactly `"root"`. A `UserRecord` is never root, whatever its fields. A live user is root iff its uid is 0, whatever its name. |
| SysUser.AnyGroup | lib/sudoers/src/sysuser.rs:81-85 | The short-circuiting scan of a group list holds iff some group in the list satisfies the test. |
| SysUser.InGroupByName | lib/sudoers/src/sysuser.rs:15-102 | Fails closed for `GroupID` and for a type overriding nothing. For a bare name it equals `has_name`. For a `UserRecord` it holds iff some listed group has name `Some(n)`. For a live user it is always false. |
| SysUser.InGroupByGid | lib/sudoers/src/sysuser.rs:18-105 | Fails closed for a bare name, `GroupID` and a type overriding nothing. For a `UserRecord` it holds iff some listed group has that gid. For a live user it is always false. |
| SysUser.Overrides | lib/sudoers/src/sysuser.rs:52-106 | Which types define each method themselves. `has_name`: `&str`, `GroupID` and the live user. `has_uid`: `GroupID` and the live user. `is_root` and `in_group_by_name`: `&str`, `UserRecord` and the live user. `in_group_by_gid`: `UserRecord` and the live user. A type overriding nothing defines none. |
| SysUser.AsGid | lib/sudoers/src/sysuser.rs:43-111 | The id of a `GroupID` is its field 0 and the id of a live group is its gid. Together with `try_as_name` it rebuilds the `GroupID` exactly. |
| SysUser.TryAsName | lib/sudoers/src/sysuser.rs:42-115 | A group name is absent only for a `GroupID` whose name field is `None`. A live group always has a name. |
| SysUser.UserEq | lib/sudoers/src/sysuser.rs:34-38 | Two records are equal iff they are identical once their group lists are cleared. |
| SysUserLaws.FailClosed | lib/sudoers/src/sysuser.rs:4-21 | Any question that an identity's type does not override is answered `false`, for every argument. |
| SysUserLaws.OpaqueDeniesEverything | lib/sudoers/src/sysuser.rs:4-21 | A type that overrides no method answers all five questions `false`. |
| SysUserLaws.CanonicalAccessorsRoundTrip | lib/sudoers/src/sysuser.rs:42-50 | Rebuilding a `GroupID` from its `as_gid` and `try_as_name` gives back the same `GroupID`. |
| SysUserLaws.SystemGroupAccessors | lib/sudoers/src/sysuser.rs:108-115 | For a live group, `try_as_name` is `Some(name)` and `as_gid` is its gid. |
| SysUserLaws.AccessorsAgreeWithMatching | lib/sudoers/src/sysuser.rs:42-72 | Take any group and view it as a `GroupID` through its accessors. It then matches exactly the name and the id that the accessors report. |
| SysUserLaws.UserEqIsEquivalence | lib/sudoers/src/sysuser.rs:34-40 | Record equality is reflexive, symmetric and transitive, as `impl Eq` requires. |
| SysUserLaws.UserEqCoarserThanIdentity | lib/sudoers/src/sysuser.rs:34-38 | Adding a group to a record gives a structurally different record that still compares equal to the original. |
| SysUserLaws.UserEqIgnoresGroups | lib/sudoers/src/sysuser.rs:34-38 | Replacing a record's group list leaves it equal to the original. |
| SysUserLaws.EqualRecordsMayDisagreeOnMembership | lib/sudoers/src/sysuser.rs:34-86 | Two records can be equal yet differ in group membership, both by gid and by name. |
| SysUserLaws.NoGroupsNoMembership | lib/sudoers/src/sysuser.rs:80-86 | A record with an empty group list is in no group, by name or by gid. |
| SysUserLaws.MembershipIgnoresOrder | lib/sudoers/src/sysuser.rs:80-86 | Permuting the group list changes neither membership question. |
| SysUserLaws.MembershipAppend | lib/sudoers/src/sysuser.rs:80-86 | After groups are appended, membership holds iff it held before or an appended group matches. So appending never removes a membership. |
| SysUserLaws.RootAsymmetry | lib/sudoers/src/sysuser.rs:61-99 | A live user with uid 0 named `nobody` is root. A live user named `root` with uid 1000 is not. A record with id 0 named `root` is not. The bare name `"root"` is root. |
| SysUserLaws.RecordRootDiscrepancy | lib/sudoers/src/sysuser.rs:75-78 | The record with id 0 and name `root` satisfies the intended root check, but not `is_root` as written. |
| SysUserLaws.IntendedRecordIsRoot | lib/sudoers/src/sysuser.rs:75-78 | Corrected `is_root`, built from the overrides it evidently expected: `IntendedRecordHasName` (the record's name is `Some(n)`) and `IntendedRecordHasUid` (field 0 equals the id). A record is root iff, ignoring its groups, it is exactly the record with id 0 and name `root`. |
| SysUserLaws.IntendedRecordIsRootLaws | lib/sudoers/src/sysuser.rs:75-78 | The corrected root check gives the same answer for equal records. A missing name rules out root, and so does a non-zero id. |
| SysUserLaws.WheelExample | lib/sudoers/src/sysuser.rs:80-86 | A record listing group `wheel` with gid 10 is in `wheel` by name and by gid. It is not in `staff` and not in gid 11. |

## Findings

| source | as written | input that shows it | evidently intended | confidence | as-written member | corrected member |
|---|---|---|---|---|---|---|
| lib/sudoers/src/sysuser.rs:75-78 | `UserRecord::is_root` relies on `has_name` and `has_uid`, which `UserRecord` does not override, so it is always `false` | `UserRecord(0, Some("root"), [])` | root iff the name is `root` and the id is 0 | high that the body's intent differs from its effect; not executed | SysUserLaws.RecordRootDiscrepancy | SysUserLaws.IntendedRecordIsRoot |

The as-written behaviour is `SysUser.IsRoot` on a `Record`. The model keeps it,
because that is what the code does. The corrected check is defined next to it,
from the two overrides that `is_root` evidently expected. Its intended property
is proved there, together with its agreement with record equality.

## Left out

- Building `sudo_system::User` and `sudo_system::Group`: they are resolved from
  the OS user and group databases, which is I/O in a crate that is not part of
  this model. They appear only as the fields read here: `OsUser(uid, name)` and
  `OsGroup(gid, name)`.
- `#[derive(Debug)]`: formatting has no behaviour that matters here.
- Trait objects, references and lifetimes: the closed datatypes `Identity` and
  `GroupEntry` stand for dynamic dispatch. `Opaque` stands for every other type
  that implements `Identifiable` without overriding anything.
- The separate `uid_t` and `gid_t` types: one id type is used, as explained under "Notes on the code".
- Idempotence of the predicates: every predicate is a pure Dafny function, so
  equal inputs give equal answers by construction. No lemma states this.

/**
 * The assigned-role selection of the AddUserRole widget, as values.
 *
 * The widget keeps two parallel lists, the display names shown as assigned
 * (userRoles) and the ids (roleIds), plus an optional duplication message.
 * This module gives each handler that changes them as a function from the old
 * selection to the new one, and proves what the handlers promise and what
 * their quirks lead to.
 */
module RoleSelection {

  type RoleId = string

  /** A role of the catalogue: an id and the label shown for it. */
  datatype Role = Role(id: RoleId, displayName: string)

  datatype Option<T> = None | Some(value: T)

  /** The state that addRole and handleRemoveRoleItem change. */
  datatype Selection = Selection(userRoles: seq<string>, roleIds: seq<RoleId>, duplicationError: Option<string>)

  /** What the submit callback receives. */
  datatype Payload = Payload(roles: seq<string>, roleIds: seq<RoleId>)

  /** The selection when the widget is mounted. */
  const Initial: Selection := Selection([], [], None)

  /** The message shown when an add is rejected. */
  function DuplicateMessage(displayName: string): (m: string)
    ensures m == "You have already added the role: " + displayName
    ensures m[|m| - |displayName|..] == displayName
  {
    "You have already added the role:" + " " + displayName
  }

  predicate NoDuplicates<T(==)>(s: seq<T>)
  {
    forall i, j :: 0 <= i < j < |s| ==> s[i] != s[j]
  }

  /**
   * The guard of addRole: either key is already taken. On a well-formed
   * selection it rejects exactly the adds that would break the invariant.
   */
  function IsDuplicate(s: Selection, role: Role): (b: bool)
    ensures WellFormed(s) ==>
      (b <==> !WellFormed(Selection(s.userRoles + [role.displayName], s.roleIds + [role.id], s.duplicationError)))
  {
    AppendNoDuplicatesIff(s.userRoles, role.displayName);
    AppendNoDuplicatesIff(s.roleIds, role.id);
    role.id in s.roleIds || role.displayName in s.userRoles
  }

  /** What every reachable selection satisfies: both lists duplicate-free, never more names than ids. */
  predicate WellFormed(s: Selection)
  {
    NoDuplicates(s.userRoles) && NoDuplicates(s.roleIds) && |s.userRoles| <= |s.roleIds|
  }

  /** What adds alone keep: WellFormed with the two lists of equal length. */
  predicate Consistent(s: Selection)
  {
    WellFormed(s) && |s.userRoles| == |s.roleIds|
  }

  // ---------------------------------------------------------------- addRole

  /** addRole: append both keys unless either is already present; otherwise only set the message. */
  function AddRole(s: Selection, role: Role): (r: Selection)
    ensures IsDuplicate(r, role)
    ensures r.duplicationError.None? <==> !IsDuplicate(s, role)
  {
    if !IsDuplicate(s, role) then
      Selection(s.userRoles + [role.displayName], s.roleIds + [role.id], None)
    else
      Selection(s.userRoles, s.roleIds, Some(DuplicateMessage(role.displayName)))
  }

  /** A role new under both keys is appended to both lists, and the message is cleared. */
  lemma AddAccepted(s: Selection, role: Role)
    requires role.id !in s.roleIds && role.displayName !in s.userRoles
    ensures AddRole(s, role) == Selection(s.userRoles + [role.displayName], s.roleIds + [role.id], None)
  {
  }

  /** A role taken under either key leaves both lists alone and names itself in the message. */
  lemma AddRejected(s: Selection, role: Role)
    requires role.id in s.roleIds || role.displayName in s.userRoles
    ensures AddRole(s, role) == Selection(s.userRoles, s.roleIds, Some(DuplicateMessage(role.displayName)))
  {
  }

  /** The name guard alone rejects: a new id under a display name already assigned. */
  lemma AddRejectsNameCollision(s: Selection, role: Role)
    requires role.id !in s.roleIds && role.displayName in s.userRoles
    ensures AddRole(s, role).duplicationError == Some(DuplicateMessage(role.displayName))
    ensures AddRole(s, role).userRoles == s.userRoles && AddRole(s, role).roleIds == s.roleIds
  {
  }

  /** The id guard alone rejects: an id already assigned under a new display name. */
  lemma AddRejectsIdCollision(s: Selection, role: Role)
    requires role.id in s.roleIds && role.displayName !in s.userRoles
    ensures AddRole(s, role).duplicationError == Some(DuplicateMessage(role.displayName))
    ensures AddRole(s, role).userRoles == s.userRoles && AddRole(s, role).roleIds == s.roleIds
  {
  }

  lemma AppendKeepsNoDuplicates<T>(s: seq<T>, x: T)
    requires NoDuplicates(s) && x !in s
    ensures NoDuplicates(s + [x])
  {
    var t := s + [x];
    forall i, j | 0 <= i < j < |t|
      ensures t[i] != t[j]
    {
      if j == |s| {
        assert t[i] == s[i];
      }
    }
  }

  /** Appending to a duplicate-free list keeps it duplicate-free exactly when the element is new. */
  lemma AppendNoDuplicatesIff<T>(s: seq<T>, x: T)
    ensures NoDuplicates(s) ==> (NoDuplicates(s + [x]) <==> x !in s)
  {
    if NoDuplicates(s) {
      if x !in s {
        AppendKeepsNoDuplicates(s, x);
      } else {
        var i :| 0 <= i < |s| && s[i] == x;
        assert (s + [x])[i] == (s + [x])[|s|];
      }
    }
  }

  /** Every add keeps both lists duplicate-free and of equal length. */
  lemma AddPreservesConsistent(s: Selection, role: Role)
    requires Consistent(s)
    ensures Consistent(AddRole(s, role))
  {
    if !IsDuplicate(s, role) {
      AppendKeepsNoDuplicates(s.userRoles, role.displayName);
      AppendKeepsNoDuplicates(s.roleIds, role.id);
    }
  }

  /** Every add keeps the widget's invariant. */
  lemma AddPreservesWellFormed(s: Selection, role: Role)
    requires WellFormed(s)
    ensures WellFormed(AddRole(s, role))
  {
    if !IsDuplicate(s, role) {
      AppendKeepsNoDuplicates(s.userRoles, role.displayName);
      AppendKeepsNoDuplicates(s.roleIds, role.id);
    }
  }

  /** A sequence of clicks on catalogue entries, applied in order. */
  function AddAll(s: Selection, roles: seq<Role>): Selection
    decreases |roles|
  {
    if roles == [] then s else AddAll(AddRole(s, roles[0]), roles[1..])
  }

  /** Any sequence of adds from the mounted state keeps both lists duplicate-free and of equal length. */
  lemma {:induction false} AddAllPreservesConsistent(s: Selection, roles: seq<Role>)
    requires Consistent(s)
    ensures Consistent(AddAll(s, roles))
    decreases |roles|
  {
    if roles != [] {
      AddPreservesConsistent(s, roles[0]);
      AddAllPreservesConsistent(AddRole(s, roles[0]), roles[1..]);
    }
  }

  /** Position i of the names and of the ids belongs to one role, and that role was clicked. */
  predicate Paired(s: Selection, clicked: seq<Role>)
  {
    |s.userRoles| == |s.roleIds| &&
    forall i :: 0 <= i < |s.userRoles| ==> Role(s.roleIds[i], s.userRoles[i]) in clicked
  }

  /** Adds keep the lists paired: each accepted click appends its id and its name at the same position. */
  lemma {:induction false} AddAllPaired(s: Selection, before: seq<Role>, roles: seq<Role>)
    requires Paired(s, before)
    ensures Paired(AddAll(s, roles), before + roles)
    decreases |roles|
  {
    if roles == [] {
      assert before + roles == before;
    } else {
      AddAllPaired(AddRole(s, roles[0]), before + [roles[0]], roles[1..]);
      assert before + [roles[0]] + roles[1..] == before + roles;
    }
  }

  /** Adds never drop anything: what was assigned stays assigned, and every clicked role is blocked afterwards. */
  lemma {:induction false} AddAllKeepsAndRepresents(s: Selection, roles: seq<Role>)
    ensures var r := AddAll(s, roles);
      (forall x :: x in s.userRoles ==> x in r.userRoles) &&
      (forall x :: x in s.roleIds ==> x in r.roleIds) &&
      (forall i :: 0 <= i < |roles| ==> IsDuplicate(r, roles[i]))
    decreases |roles|
  {
    if roles != [] {
      var s1 := AddRole(s, roles[0]);
      AddAllKeepsAndRepresents(s1, roles[1..]);
      forall i | 0 <= i < |roles|
        ensures IsDuplicate(AddAll(s, roles), roles[i])
      {
        if i > 0 {
          assert roles[i] == roles[1..][i - 1];
        }
      }
    }
  }

  lemma {:induction false} NoDuplicatesOccursOnce<T>(s: seq<T>, x: T)
    requires NoDuplicates(s) && x in s
    ensures multiset(s)[x] == 1
    decreases |s|
  {
    assert s == [s[0]] + s[1..];
    if s[0] == x {
      assert x !in s[1..] by {
        forall j | 0 <= j < |s| - 1
          ensures s[1..][j] != x
        {
          assert s[1..][j] == s[j + 1];
        }
      }
    } else {
      NoDuplicatesOccursOnce(s[1..], x);
    }
  }

  /** Adding the same role twice changes nothing the second time but the message; a role new to the selection is then assigned exactly once. */
  lemma AddTwice(s: Selection, role: Role)
    requires WellFormed(s)
    ensures var once := AddRole(s, role); var twice := AddRole(once, role);
      twice.userRoles == once.userRoles && twice.roleIds == once.roleIds &&
      twice.duplicationError == Some(DuplicateMessage(role.displayName)) &&
      (!IsDuplicate(s, role) ==>
         multiset(twice.userRoles)[role.displayName] == 1 && multiset(twice.roleIds)[role.id] == 1)
  {
    var once := AddRole(s, role);
    AddPreservesWellFormed(s, role);
    if !IsDuplicate(s, role) {
      NoDuplicatesOccursOnce(once.userRoles, role.displayName);
      NoDuplicatesOccursOnce(once.roleIds, role.id);
    }
  }

  // ------------------------------------------------------ handleRemoveRoleItem

  /** Array.prototype.indexOf: the first position holding x, or -1. */
  function IndexOf<T(==)>(s: seq<T>, x: T): (k: int)
    ensures -1 <= k < |s|
    ensures k == -1 <==> x !in s
    ensures 0 <= k ==> s[k] == x && x !in s[..k]
    decreases |s|
  {
    if s == [] then -1
    else if s[0] == x then 0
    else
      var k := IndexOf(s[1..], x);
      if k == -1 then -1 else k + 1
  }

  /**
   * Array.prototype.splice(start, 1) on a copy: a negative start counts from
   * the end (clamped at 0), a start past the end is clamped to the length,
   * and one element is deleted when there is one at that position.
   */
  function SpliceOne<T>(s: seq<T>, start: int): (r: seq<T>)
    ensures 0 <= start < |s| ==> r == s[..start] + s[start + 1..]
    ensures -|s| <= start < 0 ==> r == s[..|s| + start] + s[|s| + start + 1..]
    ensures start < -|s| && s != [] ==> r == s[1..]
    ensures start < |s| ==> |r| == (if s == [] then 0 else |s| - 1)
    ensures |s| <= start ==> r == s
  {
    var k := if start < 0 then (if |s| + start < 0 then 0 else |s| + start)
             else (if start > |s| then |s| else start);
    if k < |s| then s[..k] + s[k + 1..] else s
  }

  lemma DeleteAtShrinks<T>(s: seq<T>, k: nat)
    requires k < |s|
    ensures multiset(s[..k] + s[k + 1..]) <= multiset(s)
  {
    assert s == s[..k] + [s[k]] + s[k + 1..];
  }

  /** handleRemoveRoleItem: splice the names at the position indexOf reports; the ids are not touched. */
  function RemoveRoleItem(s: Selection, name: string): (r: Selection)
    ensures r.roleIds == s.roleIds && r.duplicationError == s.duplicationError
    ensures multiset(r.userRoles) <= multiset(s.userRoles)
  {
    var names := SpliceOne(s.userRoles, IndexOf(s.userRoles, name));
    assert multiset(names) <= multiset(s.userRoles) by {
      if s.userRoles != [] {
        var k := IndexOf(s.userRoles, name);
        var k' := if k < 0 then |s.userRoles| - 1 else k;
        assert 0 <= k' < |s.userRoles|;
        assert names == SpliceOne(s.userRoles, k);
        assert names == s.userRoles[..k'] + s.userRoles[k' + 1..];
        DeleteAtShrinks(s.userRoles, k');
      }
    }
    Selection(names, s.roleIds, s.duplicationError)
  }

  /** Removing an assigned name deletes its first occurrence and keeps every other name in order. */
  lemma RemovePresent(s: Selection, name: string)
    requires name in s.userRoles
    ensures var r := RemoveRoleItem(s, name); var k := IndexOf(s.userRoles, name);
      0 <= k && name !in s.userRoles[..k] &&
      r.userRoles == s.userRoles[..k] + s.userRoles[k + 1..] &&
      multiset(r.userRoles) == multiset(s.userRoles) - multiset{name} &&
      r.roleIds == s.roleIds
  {
    var k := IndexOf(s.userRoles, name);
    assert RemoveRoleItem(s, name).userRoles == s.userRoles[..k] + s.userRoles[k + 1..];
    assert s.userRoles == s.userRoles[..k] + [name] + s.userRoles[k + 1..];
    assert multiset(s.userRoles) == multiset(s.userRoles[..k]) + multiset{name} + multiset(s.userRoles[k + 1..]);
  }

  /** Removing a name that is not assigned drops the last name (splice(-1, 1)); on an empty list nothing changes. */
  lemma RemoveAbsent(s: Selection, name: string)
    requires name !in s.userRoles
    ensures var r := RemoveRoleItem(s, name);
      r.userRoles == (if s.userRoles == [] then [] else s.userRoles[..|s.userRoles| - 1]) &&
      r.roleIds == s.roleIds
  {
  }

  /** In a duplicate-free list the removed name is gone entirely. */
  lemma RemoveDropsName(s: Selection, name: string)
    requires NoDuplicates(s.userRoles) && name in s.userRoles
    ensures name !in RemoveRoleItem(s, name).userRoles
    ensures |RemoveRoleItem(s, name).userRoles| == |s.userRoles| - 1
  {
    RemovePresent(s, name);
    NoDuplicatesOccursOnce(s.userRoles, name);
    assert multiset(RemoveRoleItem(s, name).userRoles)[name] == 0;
  }

  lemma SubMultisetKeepsNoDuplicates<T>(a: seq<T>, b: seq<T>)
    requires NoDuplicates(b) && multiset(a) <= multiset(b)
    ensures NoDuplicates(a)
  {
    forall i, j | 0 <= i < j < |a|
      ensures a[i] != a[j]
    {
      if a[i] == a[j] {
        var x := a[i];
        assert a == a[..j] + [a[j]] + a[j + 1..];
        assert a[..j] == a[..i] + [a[i]] + a[i + 1..j];
        assert multiset(b)[x] >= multiset(a)[x] >= 2;
        NoDuplicatesOccursOnce(b, x);
      }
    }
  }

  /** Removing keeps the widget's invariant. */
  lemma RemovePreservesWellFormed(s: Selection, name: string)
    requires WellFormed(s)
    ensures WellFormed(RemoveRoleItem(s, name))
  {
    var r := RemoveRoleItem(s, name);
    SubMultisetKeepsNoDuplicates(r.userRoles, s.userRoles);
    assert |r.userRoles| <= |s.userRoles| by {
      assert |multiset(r.userRoles)| <= |multiset(s.userRoles)|;
    }
  }

  /** Removing an assigned name leaves one more id than names: the ids stop being parallel to the names. */
  lemma RemoveDesynchronises(s: Selection, name: string)
    requires Consistent(s) && name in s.userRoles
    ensures |RemoveRoleItem(s, name).roleIds| == |RemoveRoleItem(s, name).userRoles| + 1
    ensures !Consistent(RemoveRoleItem(s, name))
  {
    RemoveDropsName(s, name);
  }

  /** A role added and then removed by name cannot be added again: its id is still held. */
  lemma RemovedRoleStaysBlocked(s: Selection, role: Role)
    requires !IsDuplicate(s, role)
    ensures var removed := RemoveRoleItem(AddRole(s, role), role.displayName);
      role.id in removed.roleIds &&
      AddRole(removed, role) == Selection(removed.userRoles, removed.roleIds, Some(DuplicateMessage(role.displayName)))
  {
  }

  // ------------------------------------------------------------------ submit

  /** The payload handed to onSubmit: the names and ids exactly as they stand. */
  function Submit(s: Selection): (p: Payload)
    ensures p.roles == s.userRoles && p.roleIds == s.roleIds
  {
    Payload(s.userRoles, s.roleIds)
  }

  /** After any sequence of adds the payload pairs every name with the id at the same position. */
  lemma SubmitAfterAddsIsParallel(roles: seq<Role>)
    ensures var p := Submit(AddAll(Initial, roles));
      |p.roles| == |p.roleIds| && NoDuplicates(p.roles) && NoDuplicates(p.roleIds) &&
      forall i :: 0 <= i < |p.roles| ==> Role(p.roleIds[i], p.roles[i]) in roles
  {
    AddAllPreservesConsistent(Initial, roles);
    AddAllPaired(Initial, [], roles);
    assert [] + roles == roles;
  }
}

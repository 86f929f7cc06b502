/**
 * The AddUserRole component as an object: its four pieces of state are
 * fields, and each event handler is a method that updates them in one step.
 * Each method's new state is tied to the value-level transitions of
 * RoleSelection and RoleSearch, where the handlers' properties are proved.
 */
module AddUserRoleWidget {
  import opened RoleText
  import opened RoleSelection
  import opened RoleSearch

  /** Array.prototype.indexOf over the assigned names: the first position holding x, or -1. */
  method IndexOfName(s: seq<string>, x: string) returns (k: int)
    ensures -1 <= k < |s|
    ensures k == -1 <==> x !in s
    ensures 0 <= k ==> s[k] == x && x !in s[..k]
    ensures k == RoleSelection.IndexOf(s, x)
  {
    var i := 0;
    while i < |s|
      invariant 0 <= i <= |s|
      invariant x !in s[..i]
      invariant RoleSelection.IndexOf(s, x) == -1 || i <= RoleSelection.IndexOf(s, x)
    {
      if s[i] == x {
        return i;
      }
      assert s[..i + 1] == s[..i] + [s[i]];
      i := i + 1;
    }
    assert s[..i] == s;
    k := -1;
  }

  class AddUserRoleState {
    /** The initialValues prop, taken as fixed while the component is mounted. */
    const initialValues: seq<Role>
    /** Display names of the roles assigned so far. */
    var userRoles: seq<string>
    /** Ids of the roles assigned so far. */
    var roleIds: seq<RoleId>
    /** The catalogue entries currently listed. */
    var roleList: seq<Role>
    /** The message shown under the assigned roles, if any. */
    var duplicationError: Option<string>

    /** The assigned-role part of the state as a value. */
    ghost function Snapshot(): Selection
      reads this
    {
      Selection(userRoles, roleIds, duplicationError)
    }

    /** The widget invariant: the selection is well formed and the list shown is drawn from the catalogue. */
    ghost predicate Valid()
      reads this
    {
      WellFormed(Snapshot()) && IsSubsequence(roleList, initialValues)
    }

    /** Mount: nothing assigned, no message, the whole catalogue listed. */
    constructor (initialValues: seq<Role>)
      ensures Valid()
      ensures this.initialValues == initialValues
      ensures Snapshot() == Initial && roleList == initialValues
    {
      this.initialValues := initialValues;
      userRoles := [];
      roleIds := [];
      roleList := initialValues;
      duplicationError := None;
      SubsequenceReflexive(initialValues);
    }

    /** Click on a catalogue entry. */
    method AddRole(role: Role)
      requires Valid()
      modifies this`userRoles, this`roleIds, this`duplicationError
      ensures Valid()
      ensures Snapshot() == RoleSelection.AddRole(old(Snapshot()), role)
    {
      AddPreservesWellFormed(Snapshot(), role);
      if role.id !in roleIds && role.displayName !in userRoles {
        roleIds := roleIds + [role.id];
        userRoles := userRoles + [role.displayName];
        duplicationError := None;
      } else {
        duplicationError := Some(DuplicateMessage(role.displayName));
      }
    }

    /** Click on the delete icon of an assigned name: splice a copy at the name's indexOf. */
    method HandleRemoveRoleItem(role: string)
      requires Valid()
      modifies this`userRoles
      ensures Valid()
      ensures Snapshot() == RemoveRoleItem(old(Snapshot()), role)
    {
      RemovePreservesWellFormed(Snapshot(), role);
      var index := IndexOfName(userRoles, role);
      var userRolesCopy := userRoles;
      userRolesCopy := SpliceOne(userRolesCopy, index);
      userRoles := userRolesCopy;
    }

    /**
     * A change of the search field. The list iterated over is the one shown
     * when the event arrives; each match is pushed to the filtered list and
     * the filtered list is then what is shown.
     */
    method HandleSearchFieldChange(value: string)
      requires Valid()
      modifies this`roleList
      ensures Valid()
      ensures roleList == SearchResult(old(roleList), initialValues, value)
    {
      ghost var before := roleList;
      if |value| != 0 {
        var current := roleList;
        var filteredRoleList: seq<Role> := [];
        var i := 0;
        while i < |current|
          invariant 0 <= i <= |current|
          invariant filteredRoleList == Filter(current[..i], value)
          invariant roleList == if filteredRoleList == [] then current else filteredRoleList
        {
          var role := current[i];
          var isMatch := ContainsCI(role.displayName, value);
          assert current[..i + 1][..i] == current[..i];
          assert Filter(current[..i + 1], value) == filteredRoleList + if isMatch then [role] else [];
          if isMatch {
            filteredRoleList := filteredRoleList + [role];
            roleList := filteredRoleList;
          }
          i := i + 1;
        }
        assert current[..i] == current;
        assert filteredRoleList == Filter(current, value);
      } else {
        roleList := initialValues;
      }
      SearchStaysInCatalogue(before, initialValues, value);
    }

    /** The form's submit: hand over the assigned names and ids as they stand. */
    method Submit() returns (payload: Payload)
      ensures payload.roles == userRoles && payload.roleIds == roleIds
      ensures payload == RoleSelection.Submit(Snapshot())
    {
      payload := Payload(userRoles, roleIds);
    }
  }

  /**
   * Mount with Admin (id "1") and Viewer (id "2"), click Admin, then Viewer,
   * then submit: the payload lists both names and both ids in click order.
   */
  method AssignTwoRoles() returns (payload: Payload)
    ensures payload == Payload(["Admin", "Viewer"], ["1", "2"])
  {
    var admin, viewer := Role("1", "Admin"), Role("2", "Viewer");
    var widget := new AddUserRoleState([admin, viewer]);
    widget.AddRole(admin);
    widget.AddRole(viewer);
    payload := widget.Submit();
  }

  /** Mount with Admin (id "1") alone and click it twice: one Admin is assigned and the message names it. */
  method AddAdminTwice() returns (widget: AddUserRoleState)
    ensures fresh(widget) && widget.Valid()
    ensures widget.Snapshot() == Selection(["Admin"], ["1"], Some(DuplicateMessage("Admin")))
  {
    var admin := Role("1", "Admin");
    widget := new AddUserRoleState([admin]);
    widget.AddRole(admin);
    widget.AddRole(admin);
  }

  /** The value-level steps after two clicks on Admin: the delete empties the names, and the re-add is rejected. */
  lemma RemoveThenReAddAdmin(m: Option<string>)
    ensures RemoveRoleItem(Selection(["Admin"], ["1"], m), "Admin") == Selection([], ["1"], m)
    ensures AddRole(Selection([], ["1"], m), Role("1", "Admin")) ==
      Selection([], ["1"], Some("You have already added the role: Admin"))
  {
    RemovePresent(Selection(["Admin"], ["1"], m), "Admin");
    AddRejected(Selection([], ["1"], m), Role("1", "Admin"));
    assert DuplicateMessage("Admin") == "You have already added the role: Admin";
  }

  /**
   * Click Admin twice, delete it, click it again: the re-add is still
   * rejected, because Admin's id is still held.
   */
  method AddTwiceThenReAdd() returns (names: seq<string>, ids: seq<RoleId>, message: Option<string>)
    ensures names == [] && ids == ["1"]
    ensures message == Some("You have already added the role: Admin")
  {
    var widget := AddAdminTwice();
    RemoveThenReAddAdmin(widget.duplicationError);
    widget.HandleRemoveRoleItem("Admin");
    widget.AddRole(Role("1", "Admin"));
    names, ids, message := widget.userRoles, widget.roleIds, widget.duplicationError;
  }
}

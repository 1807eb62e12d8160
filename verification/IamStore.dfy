/** Users, roles, groups and memberships, and the guard that protects the last active administrator. */
module IamStore {
  import opened Text

  type UserId = nat
  type RoleId = nat
  type GroupId = nat

  const ADMIN_ROLE := "policy-admin"

  /** A user row; the database admits the statuses `active` and `disabled` only. */
  datatype User = User(active: bool, isProtected: bool, tokenVersion: int)

  datatype Iam = Iam(users: map<UserId, User>, roleNames: map<RoleId, string>, userRoles: set<(UserId, RoleId)>,
                     members: set<(GroupId, UserId)>, groupRoles: set<(GroupId, RoleId)>)

  // ---------- the read-only queries ----------

  /** The role ids a user has directly or through a group. */
  function EffectiveRoleIds(s: Iam, user: UserId): set<RoleId> {
    (set pair | pair in s.userRoles && pair.0 == user :: pair.1) +
    (set member, grant | member in s.members && grant in s.groupRoles && member.1 == user && grant.0 == member.0 ::
        grant.1)
  }

  /** The role names of `effective_permissions_for_user`. */
  function EffectiveRoles(s: Iam, user: UserId): set<string> {
    set role | role in s.roleNames && role in EffectiveRoleIds(s, user) :: s.roleNames[role]
  }

  predicate IsAdminRole(s: Iam, role: RoleId) {
    role in s.roleNames && s.roleNames[role] == ADMIN_ROLE
  }

  predicate HasAdminDirectly(s: Iam, user: UserId) {
    exists pair :: pair in s.userRoles && pair.0 == user && IsAdminRole(s, pair.1)
  }

  predicate GivesAdmin(s: Iam, member: (GroupId, UserId), grant: (GroupId, RoleId)) {
    member in s.members && grant in s.groupRoles && grant.0 == member.0 && IsAdminRole(s, grant.1)
  }

  predicate HasAdminByGroup(s: Iam, user: UserId) {
    exists member, grant :: member in s.members && grant in s.groupRoles && member.1 == user
        && GivesAdmin(s, member, grant)
  }

  /** `user_is_active_policy_admin`: the two EXISTS queries. */
  predicate IsActiveAdmin(s: Iam, user: UserId) {
    user in s.users && s.users[user].active && (HasAdminDirectly(s, user) || HasAdminByGroup(s, user))
  }

  /** `active_policy_admin_count` counts these. */
  function ActiveAdmins(s: Iam): set<UserId> {
    set user | user in s.users && IsActiveAdmin(s, user)
  }

  /** The guard's test says what the permission query says: active, with the admin role among the
      effective roles. */
  lemma AdminTestIsEffectiveRole(s: Iam, user: UserId)
    ensures IsActiveAdmin(s, user) <==> user in s.users && s.users[user].active && ADMIN_ROLE in EffectiveRoles(s, user)
  {
    if HasAdminDirectly(s, user) {
      var pair :| pair in s.userRoles && pair.0 == user && IsAdminRole(s, pair.1);
      assert pair.1 in EffectiveRoleIds(s, user);
    }
    if HasAdminByGroup(s, user) {
      var member, grant :| member in s.members && grant in s.groupRoles && member.1 == user
          && GivesAdmin(s, member, grant);
      assert grant.1 in EffectiveRoleIds(s, user);
    }
    if ADMIN_ROLE in EffectiveRoles(s, user) {
      var role :| role in s.roleNames && role in EffectiveRoleIds(s, user) && s.roleNames[role] == ADMIN_ROLE;
      if pair :| pair in s.userRoles && pair.0 == user && pair.1 == role {
        assert IsAdminRole(s, pair.1);
      } else {
        var member, grant :| member in s.members && grant in s.groupRoles && member.1 == user && grant.0 == member.0
            && grant.1 == role;
        assert GivesAdmin(s, member, grant);
      }
    }
  }

  // ---------- the steps ----------

  datatype Error = NotFound | ProtectedUser | LastActiveAdmin | UnknownRole | ConstraintViolation

  /** `ensure_user_mutation_allowed` with the last-admin rule enforced. */
  function Guard(s: Iam, user: UserId): Option<Error> {
    if user !in s.users then Some(NotFound)
    else if s.users[user].isProtected then Some(ProtectedUser)
    else if IsActiveAdmin(s, user) && |ActiveAdmins(s)| <= 1 then Some(LastActiveAdmin)
    else None
  }

  datatype Step =
    | CreateUser(id: UserId, active: bool, isProtected: bool)
    | UpdateUser(id: UserId, renames: bool, status: Option<string>)
    | DisableUser(id: UserId)
    | EnableUser(id: UserId)
    | HardDeleteUser(id: UserId)
    | SetPassword(id: UserId)
    | AssignRole(id: UserId, role: string)
    | RevokeRole(id: UserId, role: string)
    | AddMember(group: GroupId, id: UserId)
    | AssignGroupRole(group: GroupId, role: string)

  /** `role_id_by_name`: names are unique, so any role of that name is the role. */
  function RolesNamed(s: Iam, name: string): set<RoleId> {
    set role | role in s.roleNames && s.roleNames[role] == name
  }

  function WithUser(s: Iam, id: UserId, user: User): Iam {
    s.(users := s.users[id := user])
  }

  function WithoutUser(s: Iam, id: UserId): Iam {
    s.(users := s.users - {id},
       userRoles := (set pair | pair in s.userRoles && pair.0 != id),
       members := (set member | member in s.members && member.1 != id))
  }

  /** A status written by `update_user`: the database refuses anything but its two values. */
  function StatusUpdate(user: User, status: Option<string>): Option<User> {
    match status
    case None => Some(user)
    case Some(value) =>
      if value == "active" then Some(user.(active := true))
      else if value == "disabled" then
        Some(user.(active := false, tokenVersion := if user.active then user.tokenVersion + 1 else user.tokenVersion))
      else None
  }

  /** The state after a step and the error it reports, if any. A refused step changes nothing. */
  function Apply(s: Iam, step: Step): (Iam, Option<Error>) {
    match step
    case CreateUser(id, active, isProtected) =>
      if id in s.users then (s, Some(ConstraintViolation)) else (WithUser(s, id, User(active, isProtected, 1)), None)
    case UpdateUser(id, renames, status) =>
      var disabling := status.Some? && Lower(status.value) == "disabled";
      if disabling && Guard(s, id).Some? then (s, Guard(s, id))
      else if id !in s.users then (s, Some(NotFound))
      else if renames && s.users[id].isProtected then (s, Some(ProtectedUser))
      else
        var user := StatusUpdate(s.users[id], status);
        if user.None? then (s, Some(ConstraintViolation)) else (WithUser(s, id, user.value), None)
    case DisableUser(id) =>
      if Guard(s, id).Some? || id !in s.users then (s, Guard(s, id))
      else (WithUser(s, id, s.users[id].(active := false, tokenVersion := s.users[id].tokenVersion + 1)), None)
    case EnableUser(id) =>
      if id !in s.users then (s, Some(NotFound)) else (WithUser(s, id, s.users[id].(active := true)), None)
    case HardDeleteUser(id) =>
      if Guard(s, id).Some? then (s, Guard(s, id)) else (WithoutUser(s, id), None)
    case SetPassword(id) =>
      if id !in s.users then (s, Some(NotFound))
      else (WithUser(s, id, s.users[id].(tokenVersion := s.users[id].tokenVersion + 1)), None)
    case AssignRole(id, role) =>
      if RolesNamed(s, role) == {} then (s, Some(UnknownRole))
      else if id !in s.users then (s, Some(ConstraintViolation))
      else (s.(userRoles := s.userRoles + (set r | r in RolesNamed(s, role) :: (id, r))), None)
    case RevokeRole(id, role) =>
      if Lower(role) == ADMIN_ROLE && Guard(s, id).Some? then (s, Guard(s, id))
      else if RolesNamed(s, role) == {} then (s, Some(UnknownRole))
      else (s.(userRoles := (set pair | pair in s.userRoles && !(pair.0 == id && pair.1 in RolesNamed(s, role)))), None)
    case AddMember(group, id) =>
      if id !in s.users then (s, Some(ConstraintViolation)) else (s.(members := s.members + {(group, id)}), None)
    case AssignGroupRole(group, role) =>
      if RolesNamed(s, role) == {} then (s, Some(UnknownRole))
      else (s.(groupRoles := s.groupRoles + (set r | r in RolesNamed(s, role) :: (group, r))), None)
  }

  function Run(s: Iam, steps: seq<Step>): Iam
    decreases |steps|
  {
    if steps == [] then s else Run(Apply(s, steps[0]).0, steps[1..])
  }

  class IamService {
    var state: Iam

    constructor (roleNames: map<RoleId, string>)
      ensures state == Iam(map[], roleNames, {}, {}, {})
    {
      state := Iam(map[], roleNames, {}, {}, {});
    }

    method EnsureMutationAllowed(id: UserId) returns (refusal: Option<Error>)
      ensures refusal == Guard(state, id)
    {
      if id !in state.users {
        return Some(NotFound);
      }
      if state.users[id].isProtected {
        return Some(ProtectedUser);
      }
      if IsActiveAdmin(state, id) {
        var activeAdmins := |ActiveAdmins(state)|;
        if activeAdmins <= 1 {
          return Some(LastActiveAdmin);
        }
      }
      return None;
    }

    method DisableUser(id: UserId) returns (error: Option<Error>)
      modifies this
      ensures (state, error) == Apply(old(state), Step.DisableUser(id))
    {
      error := EnsureMutationAllowed(id);
      if error.Some? {
        return;
      }
      var user := state.users[id];
      state := state.(users := state.users[id := user.(active := false, tokenVersion := user.tokenVersion + 1)]);
    }

    method EnableUser(id: UserId) returns (error: Option<Error>)
      modifies this
      ensures (state, error) == Apply(old(state), Step.EnableUser(id))
    {
      if id !in state.users {
        return Some(NotFound);
      }
      state := state.(users := state.users[id := state.users[id].(active := true)]);
      return None;
    }

    method UpdateUser(id: UserId, renames: bool, status: Option<string>) returns (error: Option<Error>)
      modifies this
      ensures (state, error) == Apply(old(state), Step.UpdateUser(id, renames, status))
    {
      if status.Some? && Lower(status.value) == "disabled" {
        error := EnsureMutationAllowed(id);
        if error.Some? {
          return;
        }
      }
      if id !in state.users {
        return Some(NotFound);
      }
      if renames && state.users[id].isProtected {
        return Some(ProtectedUser);
      }
      var user := StatusUpdate(state.users[id], status);
      if user.None? {
        return Some(ConstraintViolation);
      }
      state := state.(users := state.users[id := user.value]);
      return None;
    }

    method HardDeleteUser(id: UserId) returns (error: Option<Error>)
      modifies this
      ensures (state, error) == Apply(old(state), Step.HardDeleteUser(id))
    {
      error := EnsureMutationAllowed(id);
      if error.Some? {
        return;
      }
      state := WithoutUser(state, id);
    }

    method RevokeRole(id: UserId, role: string) returns (error: Option<Error>)
      modifies this
      ensures (state, error) == Apply(old(state), Step.RevokeRole(id, role))
    {
      if Lower(role) == ADMIN_ROLE {
        error := EnsureMutationAllowed(id);
        if error.Some? {
          return;
        }
      }
      var roles := RolesNamed(state, role);
      if roles == {} {
        return Some(UnknownRole);
      }
      state := state.(userRoles := set pair | pair in state.userRoles && !(pair.0 == id && pair.1 in roles));
      return None;
    }
  }

  // ---------- the last administrator stays ----------

  /** A change that leaves users, role assignments and groups of a user in place leaves the admin test. */
  lemma KeepsAdmin(s: Iam, s': Iam, user: UserId)
    requires IsActiveAdmin(s, user) && user in s'.users && s'.users[user].active
    requires s'.roleNames == s.roleNames && s.groupRoles <= s'.groupRoles
    requires forall pair :: pair in s.userRoles && pair.0 == user && IsAdminRole(s, pair.1) ==> pair in s'.userRoles
    requires forall member :: member in s.members && member.1 == user ==> member in s'.members
    ensures IsActiveAdmin(s', user)
  {
    if HasAdminDirectly(s, user) {
      var pair :| pair in s.userRoles && pair.0 == user && IsAdminRole(s, pair.1);
      assert pair in s'.userRoles && IsAdminRole(s', pair.1);
    } else {
      var member, grant :| member in s.members && grant in s.groupRoles && member.1 == user
          && GivesAdmin(s, member, grant);
      assert GivesAdmin(s', member, grant);
    }
  }

  predicate NamesUser(step: Step) {
    step.UpdateUser? || step.DisableUser? || step.HardDeleteUser? || step.RevokeRole?
  }

  /** Any step can take the role or the status from at most the one user it names. */
  lemma StepSparesOthers(s: Iam, step: Step, user: UserId)
    requires IsActiveAdmin(s, user)
    requires NamesUser(step) ==> step.id != user
    ensures IsActiveAdmin(Apply(s, step).0, user)
  {
    KeepsAdmin(s, Apply(s, step).0, user);
  }

  /** A step that the guard does not stop, and that names a user the guard would stop, spares that user. */
  lemma UnguardedStepSparesNamedUser(s: Iam, step: Step)
    requires NamesUser(step) && IsActiveAdmin(s, step.id) && Guard(s, step.id).Some?
    ensures IsActiveAdmin(Apply(s, step).0, step.id)
  {
    var s' := Apply(s, step).0;
    match step
    case UpdateUser(id, _, status) =>
      DisabledStatus(status);
      KeepsAdmin(s, s', id);
    case DisableUser(_) =>
    case HardDeleteUser(_) =>
    case RevokeRole(id, role) =>
      LowerAdmin(role);
      KeepsAdmin(s, s', id);
  }

  lemma DisabledStatus(status: Option<string>)
    ensures status == Some("disabled") ==> Lower(status.value) == "disabled"
  {
    assert Lower("disabled") == "disabled";
  }

  lemma LowerAdmin(role: string)
    ensures role == ADMIN_ROLE ==> Lower(role) == ADMIN_ROLE
  {
    assert Lower("policy-admin") == "policy-admin";
  }

  /** Every step, guarded or additive, leaves an administrator if there was one. */
  lemma StepKeepsAnAdmin(s: Iam, step: Step)
    requires |ActiveAdmins(s)| >= 1
    ensures |ActiveAdmins(Apply(s, step).0)| >= 1
  {
    var s' := Apply(s, step).0;
    var survivor: UserId;
    if NamesUser(step) && step.id in ActiveAdmins(s) && Guard(s, step.id).None? {
      var others := ActiveAdmins(s) - {step.id};
      assert |others| == |ActiveAdmins(s)| - 1;
      assert others != {};
      survivor :| survivor in others;
      StepSparesOthers(s, step, survivor);
    } else if NamesUser(step) && step.id in ActiveAdmins(s) {
      survivor := step.id;
      UnguardedStepSparesNamedUser(s, step);
    } else {
      assert ActiveAdmins(s) != {};
      survivor :| survivor in ActiveAdmins(s);
      StepSparesOthers(s, step, survivor);
    }
    assert survivor in ActiveAdmins(s');
  }

  /** Over every serial run of guarded steps mixed with additive ones, an active administrator count of
      at least one never reaches zero. */
  lemma {:induction false} RunKeepsAnAdmin(s: Iam, steps: seq<Step>)
    requires |ActiveAdmins(s)| >= 1
    ensures |ActiveAdmins(Run(s, steps))| >= 1
    decreases |steps|
  {
    if steps != [] {
      StepKeepsAnAdmin(s, steps[0]);
      RunKeepsAnAdmin(Apply(s, steps[0]).0, steps[1..]);
    }
  }

  // ---------- what each step leaves ----------

  /** The guard lets a user be taken away if and only if the user exists, is not protected, and is not an active
      administrator without another one. */
  lemma GuardExactly(s: Iam, user: UserId)
    ensures Guard(s, user).None? <==>
            && user in s.users && !s.users[user].isProtected
            && (IsActiveAdmin(s, user) ==> exists other :: other != user && other in ActiveAdmins(s))
  {
    var others := ActiveAdmins(s) - {user};
    NonEmpty(others);
    if IsActiveAdmin(s, user) {
      assert |others| == |ActiveAdmins(s)| - 1;
    }
  }

  predicate SetsStatus(step: Step, user: UserId, status: string) {
    step.UpdateUser? && step.id == user && step.status == Some(status)
  }

  predicate Disables(step: Step, user: UserId) {
    step == DisableUser(user) || SetsStatus(step, user, "disabled")
  }

  predicate Enables(step: Step, user: UserId) {
    step == EnableUser(user) || SetsStatus(step, user, "active")
  }

  /** The conditions on which each step is accepted; a refused step changes nothing. */
  lemma AppliedExactly(s: Iam, step: Step)
    ensures Apply(s, step).1.None? <==>
            match step
            case CreateUser(id, _, _) => id !in s.users
            case UpdateUser(id, renames, status) =>
              && id in s.users && !(renames && s.users[id].isProtected)
              && (status.Some? ==> status.value == "active" || (status.value == "disabled" && Guard(s, id).None?))
            case DisableUser(id) => Guard(s, id).None?
            case EnableUser(id) => id in s.users
            case HardDeleteUser(id) => Guard(s, id).None?
            case SetPassword(id) => id in s.users
            case AssignRole(id, role) => id in s.users && role in s.roleNames.Values
            case RevokeRole(id, role) =>
              role in s.roleNames.Values && (Lower(role) == ADMIN_ROLE ==> Guard(s, id).None?)
            case AddMember(_, id) => id in s.users
            case AssignGroupRole(_, role) => role in s.roleNames.Values
    ensures Apply(s, step).1.Some? ==> Apply(s, step).0 == s
  {
    match step
    case UpdateUser(_, _, status) =>
      DisabledStatus(status);
      assert Lower("active") == "active";
    case AssignRole(_, role) => NamedRole(s, role);
    case RevokeRole(_, role) => NamedRole(s, role);
    case AssignGroupRole(_, role) => NamedRole(s, role);
    case _ =>
  }

  lemma NamedRole(s: Iam, name: string)
    ensures RolesNamed(s, name) != {} <==> name in s.roleNames.Values
  {
    if role :| role in RolesNamed(s, name) {
      assert s.roleNames[role] == name;
    }
    if name in s.roleNames.Values {
      var role :| role in s.roleNames && s.roleNames[role] == name;
      assert role in RolesNamed(s, name);
    }
  }

  /** After an accepted step: who exists, who is active, and with which version. A disabled user is inactive, an
      enabled one active, a deleted one gone; versions rise by one where the source raises them; every user that the
      step does not name is as before. */
  lemma UsersAfter(s: Iam, step: Step, user: UserId)
    requires Apply(s, step).1.None?
    ensures var users' := Apply(s, step).0.users;
            && (user in users' <==>
                  (user in s.users && step != HardDeleteUser(user)) || (step.CreateUser? && step.id == user))
            && (step.CreateUser? && step.id == user ==> users'[user] == User(step.active, step.isProtected, 1))
            && (user in s.users && user in users' ==>
                  && users'[user].isProtected == s.users[user].isProtected
                  && users'[user].active ==
                     (if Disables(step, user) then false
                      else if Enables(step, user) then true
                      else s.users[user].active)
                  && users'[user].tokenVersion == s.users[user].tokenVersion +
                     if step == SetPassword(user) || step == DisableUser(user)
                         || (SetsStatus(step, user, "disabled") && s.users[user].active) then 1 else 0)
  {
    assert "active"[0] != "disabled"[0];
  }

  /** The names of the roles given to the user itself. */
  function DirectRoles(s: Iam, user: UserId): set<string> {
    set pair | pair in s.userRoles && pair.0 == user && pair.1 in s.roleNames :: s.roleNames[pair.1]
  }

  function RolesOfGroup(s: Iam, group: GroupId): set<string> {
    set grant | grant in s.groupRoles && grant.0 == group && grant.1 in s.roleNames :: s.roleNames[grant.1]
  }

  /** The names of the roles that the user's groups give. */
  ghost predicate HasByGroup(s: Iam, user: UserId, role: string) {
    exists group :: (group, user) in s.members && role in RolesOfGroup(s, group)
  }

  lemma EffectiveRolesExactly(s: Iam, user: UserId, role: string)
    ensures role in EffectiveRoles(s, user) <==> role in DirectRoles(s, user) || HasByGroup(s, user, role)
  {
    if role in EffectiveRoles(s, user) {
      var id :| id in s.roleNames && id in EffectiveRoleIds(s, user) && s.roleNames[id] == role;
      if (user, id) in s.userRoles {
        assert role in DirectRoles(s, user);
      } else {
        var member, grant :| member in s.members && grant in s.groupRoles && member.1 == user && grant.0 == member.0
            && grant.1 == id;
        assert (member.0, user) in s.members && role in RolesOfGroup(s, member.0);
      }
    }
    if role in DirectRoles(s, user) {
      var pair :| pair in s.userRoles && pair.0 == user && pair.1 in s.roleNames && s.roleNames[pair.1] == role;
      assert pair.1 in EffectiveRoleIds(s, user);
    }
    if HasByGroup(s, user, role) {
      var group :| (group, user) in s.members && role in RolesOfGroup(s, group);
      var grant :| grant in s.groupRoles && grant.0 == group && grant.1 in s.roleNames && s.roleNames[grant.1] == role;
      assert (group, user) in s.members && grant.1 in EffectiveRoleIds(s, user);
    }
  }

  /** After an accepted step: which roles a user holds directly. A revoked role is no longer held, an assigned one is,
      a deleted user holds none, and nothing else changes. */
  lemma DirectRolesAfter(s: Iam, step: Step, user: UserId)
    requires Apply(s, step).1.None?
    ensures DirectRoles(Apply(s, step).0, user) ==
            if step.RevokeRole? && step.id == user then DirectRoles(s, user) - {step.role}
            else if step.AssignRole? && step.id == user then DirectRoles(s, user) + {step.role}
            else if step == HardDeleteUser(user) then {}
            else DirectRoles(s, user)
  {
    var s' := Apply(s, step).0;
    if step.RevokeRole? && step.id == user {
      forall role ensures role in DirectRoles(s', user) <==> role in DirectRoles(s, user) && role != step.role {
        if role in DirectRoles(s, user) && role != step.role {
          var pair :| pair in s.userRoles && pair.0 == user && pair.1 in s.roleNames && s.roleNames[pair.1] == role;
          assert pair in s'.userRoles;
        }
      }
    } else if step.RevokeRole? || step.HardDeleteUser? {
      assert forall pair :: pair in s'.userRoles && pair.0 == user <==>
          pair in s.userRoles && pair.0 == user && step != HardDeleteUser(user);
    } else if step.AssignRole? {
      AssignedRole(s, step.id, step.role, user);
    }
  }

  lemma AssignedRole(s: Iam, id: UserId, role: string, user: UserId)
    requires RolesNamed(s, role) != {}
    ensures DirectRoles(s.(userRoles := s.userRoles + (set r | r in RolesNamed(s, role) :: (id, r))), user) ==
            DirectRoles(s, user) + if id == user then {role} else {}
  {
    var s' := s.(userRoles := s.userRoles + (set r | r in RolesNamed(s, role) :: (id, r)));
    var any :| any in RolesNamed(s, role);
    assert (id, any) in s'.userRoles;
    forall name ensures name in DirectRoles(s', user) <==>
                        name in DirectRoles(s, user) || (id == user && name == role) {
      if name in DirectRoles(s, user) {
        var pair :| pair in s.userRoles && pair.0 == user && pair.1 in s.roleNames && s.roleNames[pair.1] == name;
        assert pair in s'.userRoles;
      }
    }
  }

  /** After an accepted step: groups and their roles. A deleted user is in no group, an added member is in this one,
      a group role is given to this group, and nothing else changes. */
  lemma GroupsAfter(s: Iam, step: Step, group: GroupId, user: UserId)
    requires Apply(s, step).1.None?
    ensures (group, user) in Apply(s, step).0.members <==>
            ((group, user) in s.members && step != HardDeleteUser(user)) || step == AddMember(group, user)
    ensures RolesOfGroup(Apply(s, step).0, group) ==
            RolesOfGroup(s, group) + if step.AssignGroupRole? && step.group == group then {step.role} else {}
  {
    var s' := Apply(s, step).0;
    if step.AssignGroupRole? {
      var any :| any in RolesNamed(s, step.role);
      assert (step.group, any) in s'.groupRoles;
      forall name ensures name in RolesOfGroup(s', group) <==>
                          name in RolesOfGroup(s, group) || (step.group == group && name == step.role) {
        if name in RolesOfGroup(s, group) {
          var grant :| grant in s.groupRoles && grant.0 == group && grant.1 in s.roleNames
              && s.roleNames[grant.1] == name;
          assert grant in s'.groupRoles;
        }
      }
    }
  }

  // ---------- protected users ----------

  /** No step takes a protected user away, disables it or takes the administrator role it was given. */
  lemma StepKeepsProtected(s: Iam, step: Step, user: UserId)
    requires user in s.users && s.users[user].isProtected
    ensures var s' := Apply(s, step).0;
            && user in s'.users && s'.users[user].isProtected
            && (s.users[user].active ==> s'.users[user].active)
            && (ADMIN_ROLE in DirectRoles(s, user) ==> ADMIN_ROLE in DirectRoles(s', user))
  {
    AppliedExactly(s, step);
    if Apply(s, step).1.None? {
      UsersAfter(s, step, user);
      DirectRolesAfter(s, step, user);
      LowerAdmin(if step.RevokeRole? then step.role else "");
    }
  }

  /** So in every run of these steps a protected user stays, stays active, and stays an administrator. */
  lemma {:induction false} RunKeepsProtected(s: Iam, steps: seq<Step>, user: UserId)
    requires user in s.users && s.users[user].isProtected
    ensures var s' := Run(s, steps);
            && user in s'.users && s'.users[user].isProtected
            && (s.users[user].active ==> s'.users[user].active)
            && (ADMIN_ROLE in DirectRoles(s, user) ==> ADMIN_ROLE in DirectRoles(s', user))
    decreases |steps|
  {
    if steps != [] {
      StepKeepsProtected(s, steps[0], user);
      RunKeepsProtected(Apply(s, steps[0]).0, steps[1..], user);
    }
  }

  // ---------- the group removals have no guard ----------

  /** `remove_group_member` */
  function WithoutMember(s: Iam, group: GroupId, user: UserId): Iam {
    s.(members := s.members - {(group, user)})
  }

  /** Administrator by a direct role, or through a group other than this one. */
  predicate AdminElsewhere(s: Iam, group: GroupId, user: UserId) {
    || HasAdminDirectly(s, user)
    || exists member, grant :: member in s.members && grant in s.groupRoles && member.1 == user && member.0 != group
        && GivesAdmin(s, member, grant)
  }

  /** The role through a group, without any grant of this group. */
  lemma GroupElsewhere(s: Iam, s': Iam, group: GroupId, user: UserId)
    requires s'.users == s.users && s'.roleNames == s.roleNames && s'.userRoles == s.userRoles
    requires forall member, grant :: GivesAdmin(s', member, grant) && member.1 == user <==>
               GivesAdmin(s, member, grant) && member.1 == user && member.0 != group
    ensures IsActiveAdmin(s', user) <==> IsActiveAdmin(s, user) && AdminElsewhere(s, group, user)
  {
    assert forall role :: IsAdminRole(s', role) == IsAdminRole(s, role);
    assert HasAdminDirectly(s', user) == HasAdminDirectly(s, user);
    if HasAdminByGroup(s', user) {
      var member, grant :| member in s'.members && grant in s'.groupRoles && member.1 == user
          && GivesAdmin(s', member, grant);
      assert GivesAdmin(s, member, grant);
    }
    if AdminElsewhere(s, group, user) && !HasAdminDirectly(s, user) {
      var member, grant :| member in s.members && grant in s.groupRoles && member.1 == user && member.0 != group
          && GivesAdmin(s, member, grant);
      assert GivesAdmin(s', member, grant);
    }
  }

  lemma MemberRemovalMeaning(s: Iam, group: GroupId, user: UserId, other: UserId)
    ensures IsActiveAdmin(WithoutMember(s, group, user), other) <==>
            IsActiveAdmin(s, other) && (other != user || AdminElsewhere(s, group, user))
  {
    var s' := WithoutMember(s, group, user);
    assert forall member, grant :: GivesAdmin(s', member, grant) <==>
        GivesAdmin(s, member, grant) && member != (group, user);
    if other == user {
      GroupElsewhere(s, s', group, user);
    } else {
      assert forall role :: IsAdminRole(s', role) == IsAdminRole(s, role);
      assert HasAdminDirectly(s', other) == HasAdminDirectly(s, other);
      if HasAdminByGroup(s, other) {
        var member, grant :| member in s.members && grant in s.groupRoles && member.1 == other
            && GivesAdmin(s, member, grant);
        assert GivesAdmin(s', member, grant);
      }
      if HasAdminByGroup(s', other) {
        var member, grant :| member in s'.members && grant in s'.groupRoles && member.1 == other
            && GivesAdmin(s', member, grant);
        assert GivesAdmin(s, member, grant);
      }
    }
  }

  /** Removing a group member leaves an administrator if and only if some administrator is someone else,
      or is this user by another way. */
  lemma MemberRemovalKeepsAnAdminExactly(s: Iam, group: GroupId, user: UserId)
    ensures |ActiveAdmins(WithoutMember(s, group, user))| >= 1 <==>
            exists other :: other in ActiveAdmins(s) && (other != user || AdminElsewhere(s, group, user))
  {
    var s' := WithoutMember(s, group, user);
    if |ActiveAdmins(s')| >= 1 {
      assert ActiveAdmins(s') != {};
      var other :| other in ActiveAdmins(s');
      MemberRemovalMeaning(s, group, user, other);
      assert other in ActiveAdmins(s);
    }
    if other :| other in ActiveAdmins(s) && (other != user || AdminElsewhere(s, group, user)) {
      MemberRemovalMeaning(s, group, user, other);
      assert other in ActiveAdmins(s');
    }
  }

  /** `delete_group`: memberships and grants of the group go with it. */
  function WithoutGroup(s: Iam, group: GroupId): Iam {
    s.(members := (set member | member in s.members && member.0 != group),
       groupRoles := (set grant | grant in s.groupRoles && grant.0 != group))
  }

  /** `revoke_role_from_group` */
  function WithoutGroupRole(s: Iam, group: GroupId, role: string): Iam {
    s.(groupRoles := set grant | grant in s.groupRoles && !(grant.0 == group && grant.1 in RolesNamed(s, role)))
  }

  /** Both take the role from every member of the group at once: an administrator stays one if and only if it has
      the role directly or through another group. Revoking any other role changes nothing here. */
  lemma GroupRemovalMeaning(s: Iam, group: GroupId, role: string, user: UserId)
    ensures IsActiveAdmin(WithoutGroup(s, group), user) <==> IsActiveAdmin(s, user) && AdminElsewhere(s, group, user)
    ensures IsActiveAdmin(WithoutGroupRole(s, group, role), user) <==>
            IsActiveAdmin(s, user) && (role == ADMIN_ROLE ==> AdminElsewhere(s, group, user))
  {
    GroupElsewhere(s, WithoutGroup(s, group), group, user);
    var s' := WithoutGroupRole(s, group, role);
    if role == ADMIN_ROLE {
      GroupElsewhere(s, s', group, user);
    } else {
      assert forall r :: IsAdminRole(s', r) == IsAdminRole(s, r);
      assert HasAdminDirectly(s', user) == HasAdminDirectly(s, user);
      assert forall member, grant :: GivesAdmin(s', member, grant) <==> GivesAdmin(s, member, grant);
      if HasAdminByGroup(s', user) {
        var member, grant :| member in s'.members && grant in s'.groupRoles && member.1 == user
            && GivesAdmin(s', member, grant);
        assert GivesAdmin(s, member, grant);
      }
      if HasAdminByGroup(s, user) {
        var member, grant :| member in s.members && grant in s.groupRoles && member.1 == user
            && GivesAdmin(s, member, grant);
        assert GivesAdmin(s', member, grant);
      }
    }
  }

  /** Deleting a group, or revoking the administrator role from it, leaves an administrator if and only if some
      administrator has the role directly or through another group. */
  lemma GroupRemovalKeepsAnAdminExactly(s: Iam, group: GroupId)
    ensures |ActiveAdmins(WithoutGroup(s, group))| >= 1 <==>
            exists other :: other in ActiveAdmins(s) && AdminElsewhere(s, group, other)
    ensures ActiveAdmins(WithoutGroupRole(s, group, ADMIN_ROLE)) == ActiveAdmins(WithoutGroup(s, group))
    ensures forall role :: role != ADMIN_ROLE ==> ActiveAdmins(WithoutGroupRole(s, group, role)) == ActiveAdmins(s)
  {
    forall user
      ensures user in ActiveAdmins(WithoutGroup(s, group)) <==>
              user in ActiveAdmins(s) && AdminElsewhere(s, group, user)
      ensures user in ActiveAdmins(WithoutGroupRole(s, group, ADMIN_ROLE)) <==>
              user in ActiveAdmins(WithoutGroup(s, group))
    {
      GroupRemovalMeaning(s, group, ADMIN_ROLE, user);
    }
    forall role | role != ADMIN_ROLE ensures ActiveAdmins(WithoutGroupRole(s, group, role)) == ActiveAdmins(s) {
      forall user ensures user in ActiveAdmins(WithoutGroupRole(s, group, role)) <==> user in ActiveAdmins(s) {
        GroupRemovalMeaning(s, group, role, user);
      }
    }
    NonEmpty(ActiveAdmins(WithoutGroup(s, group)));
    if other :| other in ActiveAdmins(s) && AdminElsewhere(s, group, other) {
      assert other in ActiveAdmins(WithoutGroup(s, group));
    }
  }

  lemma NonEmpty(users: set<UserId>)
    ensures |users| >= 1 <==> exists user :: user in users
  {
    if |users| >= 1 {
      assert users != {};
    }
  }

  /** So it can leave none: the only administrator, through a group, is taken out of it. */
  lemma MemberRemovalCanLeaveNone()
    ensures var s := Iam(map[1 := User(true, false, 1)], map[101 := ADMIN_ROLE], {}, {(5, 1)}, {(5, 101)});
            |ActiveAdmins(s)| == 1 && |ActiveAdmins(WithoutMember(s, 5, 1))| == 0
  {
    var s := Iam(map[1 := User(true, false, 1)], map[101 := ADMIN_ROLE], {}, {(5, 1)}, {(5, 101)});
    assert GivesAdmin(s, (5, 1), (5, 101));
    assert ActiveAdmins(s) == {1};
    assert WithoutMember(s, 5, 1).members == {};
    assert ActiveAdmins(WithoutMember(s, 5, 1)) == {};
  }

  /** So can the two group removals, which take the role from several administrators at once. */
  lemma GroupRemovalCanLeaveNone()
    ensures var s := Iam(map[1 := User(true, false, 1), 2 := User(true, false, 1)], map[101 := ADMIN_ROLE], {},
                         {(5, 1), (5, 2)}, {(5, 101)});
            && |ActiveAdmins(s)| == 2
            && |ActiveAdmins(WithoutGroup(s, 5))| == 0 && |ActiveAdmins(WithoutGroupRole(s, 5, ADMIN_ROLE))| == 0
  {
    var s := Iam(map[1 := User(true, false, 1), 2 := User(true, false, 1)], map[101 := ADMIN_ROLE], {},
                 {(5, 1), (5, 2)}, {(5, 101)});
    assert GivesAdmin(s, (5, 1), (5, 101)) && GivesAdmin(s, (5, 2), (5, 101));
    assert ActiveAdmins(s) == {1, 2};
    forall user ensures !AdminElsewhere(s, 5, user) {
    }
    GroupRemovalKeepsAnAdminExactly(s, 5);
  }
}

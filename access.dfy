// The permission policy: the nine permission flags, the two tables a new
// profile starts from (the first user to sign in becomes an administrator),
// the administrator's panel that flips one flag or changes a role, and the
// profile rows those actions write.

module AccessPolicy {
  import opened Base
  import opened Types
  import opened AppShell

  // ---------------------------------------------------------------------
  // The nine flags.

  /** The keys of UserPermissions, which the admin panel lists one check box each. */
  datatype PermissionKey =
    | ViewDashboard | ViewStudents | ViewJournal | ViewGroups | ViewSubscriptions
    | ViewSchedule | ViewFinance | ViewArchive | ManageUsers

  /** The keys in the order of the panel's labels. */
  const AllKeys: seq<PermissionKey> :=
    [ViewDashboard, ViewStudents, ViewJournal, ViewGroups, ViewSubscriptions,
     ViewSchedule, ViewFinance, ViewArchive, ManageUsers]

  /** `permissions[key]` */
  function Flag(p: UserPermissions, key: PermissionKey): bool {
    match key
    case ViewDashboard => p.canViewDashboard
    case ViewStudents => p.canViewStudents
    case ViewJournal => p.canViewJournal
    case ViewGroups => p.canViewGroups
    case ViewSubscriptions => p.canViewSubscriptions
    case ViewSchedule => p.canViewSchedule
    case ViewFinance => p.canViewFinance
    case ViewArchive => p.canViewArchive
    case ManageUsers => p.canManageUsers
  }

  /** `{ ...permissions, [key]: v }` */
  function WithFlag(p: UserPermissions, key: PermissionKey, v: bool): UserPermissions {
    match key
    case ViewDashboard => p.(canViewDashboard := v)
    case ViewStudents => p.(canViewStudents := v)
    case ViewJournal => p.(canViewJournal := v)
    case ViewGroups => p.(canViewGroups := v)
    case ViewSubscriptions => p.(canViewSubscriptions := v)
    case ViewSchedule => p.(canViewSchedule := v)
    case ViewFinance => p.(canViewFinance := v)
    case ViewArchive => p.(canViewArchive := v)
    case ManageUsers => p.(canManageUsers := v)
  }

  /** The nine keys are all different and the panel lists every one. */
  lemma KeysListed(key: PermissionKey)
    ensures |AllKeys| == 9 && forall i, j :: 0 <= i < j < |AllKeys| ==> AllKeys[i] != AllKeys[j]
    ensures key in AllKeys
  {
    match key
    case ViewDashboard => assert AllKeys[0] == key;
    case ViewStudents => assert AllKeys[1] == key;
    case ViewJournal => assert AllKeys[2] == key;
    case ViewGroups => assert AllKeys[3] == key;
    case ViewSubscriptions => assert AllKeys[4] == key;
    case ViewSchedule => assert AllKeys[5] == key;
    case ViewFinance => assert AllKeys[6] == key;
    case ViewArchive => assert AllKeys[7] == key;
    case ManageUsers => assert AllKeys[8] == key;
  }

  /** The keys name every field: two permission records that agree on every key are the same record. */
  lemma FlagsDetermine(p: UserPermissions, q: UserPermissions)
    requires forall k :: Flag(p, k) == Flag(q, k)
    ensures p == q
  {
    assert p.canViewDashboard == q.canViewDashboard by { assert Flag(p, ViewDashboard) == Flag(q, ViewDashboard); }
    assert p.canViewStudents == q.canViewStudents by { assert Flag(p, ViewStudents) == Flag(q, ViewStudents); }
    assert p.canViewJournal == q.canViewJournal by { assert Flag(p, ViewJournal) == Flag(q, ViewJournal); }
    assert p.canViewGroups == q.canViewGroups by { assert Flag(p, ViewGroups) == Flag(q, ViewGroups); }
    assert p.canViewSubscriptions == q.canViewSubscriptions by { assert Flag(p, ViewSubscriptions) == Flag(q, ViewSubscriptions); }
    assert p.canViewSchedule == q.canViewSchedule by { assert Flag(p, ViewSchedule) == Flag(q, ViewSchedule); }
    assert p.canViewFinance == q.canViewFinance by { assert Flag(p, ViewFinance) == Flag(q, ViewFinance); }
    assert p.canViewArchive == q.canViewArchive by { assert Flag(p, ViewArchive) == Flag(q, ViewArchive); }
    assert p.canManageUsers == q.canManageUsers by { assert Flag(p, ManageUsers) == Flag(q, ManageUsers); }
  }

  /** Writing a key sets that key and leaves every other key as it was. */
  lemma WithFlagRules(p: UserPermissions, key: PermissionKey, v: bool, k: PermissionKey)
    ensures Flag(WithFlag(p, key, v), k) == if k == key then v else Flag(p, k)
  {
  }

  /** The key renderView checks for a view; the dashboard, a student's finance page and an unknown view have none. */
  function KeyOfView(v: View): Option<PermissionKey> {
    match v
    case StudentsView => Some(ViewStudents)
    case JournalView => Some(ViewJournal)
    case GroupsView => Some(ViewGroups)
    case SubscriptionsView => Some(ViewSubscriptions)
    case ScheduleView => Some(ViewSchedule)
    case FinanceView => Some(ViewFinance)
    case ArchiveView => Some(ViewArchive)
    case AdminView => Some(ManageUsers)
    case DashboardView => None
    case StudentFinanceView => None
    case UnknownView => None
  }

  /** A view is let through exactly when it checks no key or its key is on; canViewDashboard gates nothing. */
  lemma GateByKey(p: UserPermissions, v: View)
    ensures Allowed(p, v) <==> KeyOfView(v).None? || Flag(p, KeyOfView(v).value)
    ensures forall w :: KeyOfView(w) != Some(ViewDashboard)
  {
  }

  // ---------------------------------------------------------------------
  // The two tables and the first user.

  /** defaultPermissions: every screen but finance and the archive, and no user management. */
  const DefaultPermissions: UserPermissions :=
    UserPermissions(true, true, true, true, true, true, false, false, false)

  /** adminPermissions: everything. */
  const AdminPermissions: UserPermissions :=
    UserPermissions(true, true, true, true, true, true, true, true, true)

  /**
   * The administrator table has every flag on; the default table has off
   * exactly finance, the archive and user management, so a default profile
   * is denied exactly the finance, archive and admin screens and an
   * administrator none.
   */
  lemma TablesRules(v: View, activeStudentId: Option<string>)
    ensures forall k :: Flag(AdminPermissions, k)
    ensures forall k :: !Flag(DefaultPermissions, k) <==> k == ViewFinance || k == ViewArchive || k == ManageUsers
    ensures RenderView(Some(AdminPermissions), v, activeStudentId) != NoAccess
    ensures RenderView(Some(DefaultPermissions), v, activeStudentId) == NoAccess <==>
      v == FinanceView || v == ArchiveView || v == AdminView
  {
    RenderRules(Some(AdminPermissions), v, activeStudentId);
    RenderRules(Some(DefaultPermissions), v, activeStudentId);
  }

  /** The signed-in user as the session reports it. */
  datatype SessionUser = SessionUser(id: string, email: Option<string>)

  /**
   * The profile a user without one is given: `count` is the exact number of
   * rows in the profiles table, None when the count is not returned; only a
   * count of exactly 0 makes the user the first, who becomes an administrator.
   */
  function NewProfile(user: SessionUser, count: Option<int>): UserProfile {
    var isFirstUser := count == Some(0);
    UserProfile(user.id, OrElse(user.email, ""),
                if isFirstUser then AdminRole else TeacherRole,
                if isFirstUser then AdminPermissions else DefaultPermissions)
  }

  /**
   * fetchUserProfile: nothing without a session; the stored profile when
   * there is one; otherwise the new profile, unless its insert fails, which
   * leaves the user without a profile.
   */
  function FetchProfile(session: Option<SessionUser>, stored: Option<UserProfile>, count: Option<int>,
                        insertFails: bool): Option<UserProfile>
  {
    if session.None? then None
    else if stored.Some? then stored
    else if insertFails then None
    else Some(NewProfile(session.value, count))
  }

  /**
   * A stored profile is kept as it is; a new one carries the session's id and
   * e-mail (empty when missing); it is an administrator with every flag
   * exactly when the profiles table was empty, and otherwise a teacher with
   * the default table; role and table always go together.
   */
  lemma FetchProfileRules(session: Option<SessionUser>, stored: Option<UserProfile>, count: Option<int>,
                          insertFails: bool)
    ensures session.None? ==> FetchProfile(session, stored, count, insertFails).None?
    ensures session.Some? && stored.Some? ==> FetchProfile(session, stored, count, insertFails) == stored
    ensures session.Some? && stored.None? ==>
      (FetchProfile(session, stored, count, insertFails).Some? <==> !insertFails)
    ensures session.Some? && stored.None? && !insertFails ==>
      var p := FetchProfile(session, stored, count, insertFails).value;
      p.id == session.value.id
      && (p.email == "" <==> !Truthy(session.value.email))
      && (p.role == AdminRole <==> count == Some(0))
      && (p.role == AdminRole ==> forall k :: Flag(p.permissions, k))
      && (p.role == TeacherRole ==> p.permissions == DefaultPermissions)
  {
    TablesRules(DashboardView, None);
  }

  // ---------------------------------------------------------------------
  // The admin panel.

  /** The partial profile updateUserProfile is given: exactly one field. */
  datatype ProfileChange = SetPermissions(permissions: UserPermissions) | SetRole(role: Role)

  /** togglePermission: the profile's flags with `key` negated, for that profile's row. */
  function TogglePermission(profile: UserProfile, key: PermissionKey): (string, ProfileChange) {
    (profile.id, SetPermissions(WithFlag(profile.permissions, key, !Flag(profile.permissions, key))))
  }

  /** A role change asks for confirmation when the profile is the signed-in user's own. */
  predicate NeedsConfirmation(profile: UserProfile, currentUser: Option<UserProfile>) {
    currentUser.Some? && profile.id == currentUser.value.id
  }

  /** changeRole: the update it sends, None when the user declines the confirmation. */
  function ChangeRole(profile: UserProfile, newRole: Role, currentUser: Option<UserProfile>,
                      confirmed: bool): Option<(string, ProfileChange)>
  {
    if NeedsConfirmation(profile, currentUser) && !confirmed then None
    else Some((profile.id, SetRole(newRole)))
  }

  /** A row after a successful update of its one field. */
  function ApplyChange(p: UserProfile, change: ProfileChange): UserProfile {
    match change
    case SetPermissions(q) => p.(permissions := q)
    case SetRole(r) => p.(role := r)
  }

  /** updateUserProfile on the profiles table: `update(change).eq('id', id)`, or nothing when it fails. */
  function UpdateProfiles(profiles: seq<UserProfile>, id: string, change: ProfileChange, fails: bool): (r: seq<UserProfile>)
    ensures |r| == |profiles|
    ensures forall i :: 0 <= i < |profiles| ==>
      r[i] == if !fails && profiles[i].id == id then ApplyChange(profiles[i], change) else profiles[i]
  {
    if fails then profiles
    else
      seq(|profiles|, i requires 0 <= i < |profiles| =>
        if profiles[i].id == id then ApplyChange(profiles[i], change) else profiles[i])
  }

  /**
   * Toggling writes the toggled profile's row with the key negated and every
   * other key as it was, and toggling the same key again gives back the old
   * flags.
   */
  lemma ToggleRules(profile: UserProfile, key: PermissionKey)
    ensures TogglePermission(profile, key).0 == profile.id
    ensures TogglePermission(profile, key).1.SetPermissions?
    ensures var q := TogglePermission(profile, key).1.permissions;
      Flag(q, key) == !Flag(profile.permissions, key)
      && (forall k :: k != key ==> Flag(q, k) == Flag(profile.permissions, k))
      && TogglePermission(profile.(permissions := q), key).1.permissions == profile.permissions
  {
    var p := profile.permissions;
    var q := TogglePermission(profile, key).1.permissions;
    forall k ensures Flag(q, k) == if k == key then !Flag(p, key) else Flag(p, k) {
      WithFlagRules(p, key, !Flag(p, key), k);
    }
    var back := WithFlag(q, key, !Flag(q, key));
    forall k ensures Flag(back, k) == Flag(p, k) {
      WithFlagRules(q, key, !Flag(q, key), k);
    }
    FlagsDetermine(back, p);
  }

  /**
   * Changing another user's role never asks; changing one's own goes ahead
   * only when confirmed; what is sent is always the new role for that
   * profile's row.
   */
  lemma ChangeRoleRules(profile: UserProfile, newRole: Role, currentUser: Option<UserProfile>, confirmed: bool)
    ensures ChangeRole(profile, newRole, currentUser, confirmed).None? <==>
      currentUser.Some? && profile.id == currentUser.value.id && !confirmed
    ensures ChangeRole(profile, newRole, currentUser, confirmed).Some? ==>
      ChangeRole(profile, newRole, currentUser, confirmed).value == (profile.id, SetRole(newRole))
  {
  }

  /**
   * An accepted update writes only its own field, and only on the row of its
   * id: ids and e-mails never change, a permissions update keeps every role
   * and a role update every permission table; a failed one changes nothing.
   */
  lemma OnlyFieldWritten(profiles: seq<UserProfile>, id: string, change: ProfileChange, fails: bool)
    ensures var r := UpdateProfiles(profiles, id, change, fails);
      forall i :: 0 <= i < |profiles| ==>
        r[i].id == profiles[i].id && r[i].email == profiles[i].email
        && (change.SetPermissions? ==> r[i].role == profiles[i].role)
        && (change.SetRole? ==> r[i].permissions == profiles[i].permissions)
        && (profiles[i].id != id || fails ==> r[i] == profiles[i])
        && (profiles[i].id == id && !fails && change.SetPermissions? ==> r[i].permissions == change.permissions)
        && (profiles[i].id == id && !fails && change.SetRole? ==> r[i].role == change.role)
  {
  }
}

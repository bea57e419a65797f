/** Who may do what with a project: memberships and shares of server/internal/store/workspaces.go
    under the constraints of server/internal/db/migrations/0001_workspaces_users.sql, and the two
    edit tests of server/projects.go and server/web.go. Each call is one atomic step. */
module Roles {
  import opened Wrappers

  type Role = string

  const OWNER: Role := "owner"
  const ADMIN: Role := "admin"
  const MEMBER: Role := "member"
  const EDITOR: Role := "editor"
  const VIEWER: Role := "viewer"
  const NO_ACCESS: Role := ""

  datatype Project = Project(id: int, workspace: int)

  datatype Membership = Membership(workspace: int, user: int, role: Role)

  datatype Share = Share(project: int, user: int, role: Role)

  datatype Tables = Tables(
    users: set<int>,
    workspaces: set<int>,
    projects: set<Project>,
    members: set<Membership>,
    shares: set<Share>,
    nextId: int)

  const Empty := Tables({}, {}, {}, {}, {}, 1)

  // ------------------------------------------------------------------ constraints

  predicate ValidWorkspaceRole(r: Role) {
    r == OWNER || r == ADMIN || r == MEMBER
  }

  predicate ValidShareRole(r: Role) {
    r == OWNER || r == EDITOR || r == VIEWER
  }

  ghost predicate KeysAreUnique(db: Tables) {
    && (forall p, q :: p in db.projects && q in db.projects && p.id == q.id ==> p == q)
    && (forall m, n :: m in db.members && n in db.members && m.workspace == n.workspace && m.user == n.user ==> m == n)
    && (forall s, t :: s in db.shares && t in db.shares && s.project == t.project && s.user == t.user ==> s == t)
  }

  ghost predicate ReferencesHold(db: Tables) {
    && (forall p <- db.projects :: p.workspace in db.workspaces)
    && (forall m <- db.members :: m.workspace in db.workspaces && m.user in db.users)
    && (forall s <- db.shares :: s.user in db.users && HasProject(db.projects, s.project))
  }

  ghost predicate HasProject(projects: set<Project>, id: int) {
    exists p :: p in projects && p.id == id
  }

  ghost predicate Valid(db: Tables) {
    && KeysAreUnique(db)
    && ReferencesHold(db)
    && (forall m <- db.members :: ValidWorkspaceRole(m.role))
    && (forall s <- db.shares :: ValidShareRole(s.role))
    && (forall p <- db.projects :: p.id < db.nextId)
    && (forall w <- db.workspaces :: w < db.nextId)
  }

  // ------------------------------------------------------------------ queries

  function WorkspaceOf(db: Tables, project: int): (w: Option<int>)
    requires KeysAreUnique(db)
    ensures forall p <- db.projects :: p.id == project ==> w == Some(p.workspace)
    ensures w.Some? ==> Project(project, w.value) in db.projects
  {
    if exists p :: p in db.projects && p.id == project then
      var p :| p in db.projects && p.id == project;
      Some(p.workspace)
    else None
  }

  function WorkspaceRole(db: Tables, workspace: int, user: int): (r: Option<Role>)
    requires KeysAreUnique(db)
    ensures forall m <- db.members :: m.workspace == workspace && m.user == user ==> r == Some(m.role)
    ensures r.Some? ==> Membership(workspace, user, r.value) in db.members
  {
    if exists m :: m in db.members && m.workspace == workspace && m.user == user then
      var m :| m in db.members && m.workspace == workspace && m.user == user;
      Some(m.role)
    else None
  }

  function ShareRole(db: Tables, project: int, user: int): (r: Option<Role>)
    requires KeysAreUnique(db)
    ensures forall s <- db.shares :: s.project == project && s.user == user ==> r == Some(s.role)
    ensures r.Some? ==> Share(project, user, r.value) in db.shares
  {
    if exists s :: s in db.shares && s.project == project && s.user == user then
      var s :| s in db.shares && s.project == project && s.user == user;
      Some(s.role)
    else None
  }

  // None is the missing project; NO_ACCESS is a stranger to its workspace.
  function EffectiveProjectRole(db: Tables, project: int, user: int): Option<Role>
    requires KeysAreUnique(db)
  {
    match WorkspaceOf(db, project)
    case None => None
    case Some(w) =>
      match WorkspaceRole(db, w, user)
      case None => Some(NO_ACCESS)
      case Some(workspaceRole) =>
        match ShareRole(db, project, user)
        case Some(shareRole) => Some(shareRole)
        case None => if workspaceRole == OWNER || workspaceRole == ADMIN then Some(OWNER) else Some(EDITOR)
  }

  // One row of the join: a project, the caller's membership, and the share if there is one.
  datatype Row = Row(project: Project, member: Membership, share: Option<Share>) {
    function Role(): Role {
      if share.Some? then share.value.role
      else if member.role == OWNER then OWNER
      else if member.role == ADMIN then OWNER
      else EDITOR
    }
  }

  predicate Joins(db: Tables, user: int, row: Row) {
    && row.project in db.projects
    && row.project.workspace in db.workspaces
    && row.member in db.members
    && row.member.workspace == row.project.workspace
    && row.member.user == user
    && match row.share
       case Some(s) => s in db.shares && s.project == row.project.id && s.user == user
       case None => forall s <- db.shares :: !(s.project == row.project.id && s.user == user)
  }

  datatype Access = Access(project: int, role: Role)

  ghost predicate ListProjectsForUser(db: Tables, user: int, a: Access) {
    exists row :: Joins(db, user, row) && a == Access(row.project.id, row.Role())
  }

  // requireRole: a role without a rank ranks 0.
  function Rank(role: Role): int {
    if role == VIEWER then 1 else if role == EDITOR then 2 else if role == OWNER then 3 else 0
  }

  predicate RequireRole(role: Role, need: Role) {
    Rank(role) >= Rank(need)
  }

  predicate PageMayEdit(role: Role) {
    role == EDITOR || role == OWNER || role == ADMIN
  }

  // ------------------------------------------------------------------ commands

  function MemberAdded(db: Tables, workspace: int, user: int, role: Role): Tables {
    if ValidWorkspaceRole(role) && workspace in db.workspaces && user in db.users then
      MemberRemoved(db, workspace, user).(members := MemberRemoved(db, workspace, user).members + {Membership(workspace, user, role)})
    else db
  }

  function MemberRemoved(db: Tables, workspace: int, user: int): Tables {
    db.(members := (set m | m in db.members && !(m.workspace == workspace && m.user == user)))
  }

  ghost function ShareUpserted(db: Tables, project: int, user: int, role: Role): Tables {
    if ValidShareRole(role) && HasProject(db.projects, project) && user in db.users then
      ShareDeleted(db, project, user).(shares := ShareDeleted(db, project, user).shares + {Share(project, user, role)})
    else db
  }

  function ShareDeleted(db: Tables, project: int, user: int): Tables {
    db.(shares := (set s | s in db.shares && !(s.project == project && s.user == user)))
  }

  class Store {
    var db: Tables

    constructor ()
      ensures db == Empty
    {
      db := Empty;
    }

    // INSERT ... ON CONFLICT DO UPDATE; a missing workspace or user is refused by its reference.
    method AddWorkspaceMember(workspace: int, user: int, role: Role) returns (ok: bool)
      requires KeysAreUnique(db)
      modifies this
      ensures db == MemberAdded(old(db), workspace, user, role)
      ensures ok <==> ValidWorkspaceRole(role) && workspace in db.workspaces && user in db.users
    {
      if !ValidWorkspaceRole(role) {
        return false;
      }
      if workspace !in db.workspaces || user !in db.users {
        return false;
      }
      var existing := WorkspaceRole(db, workspace, user);
      if existing.Some? {
        var row := Membership(workspace, user, existing.value);
        assert MemberRemoved(db, workspace, user).members == db.members - {row};
        db := db.(members := db.members - {row} + {row.(role := role)});
      } else {
        assert MemberRemoved(db, workspace, user).members == db.members;
        db := db.(members := db.members + {Membership(workspace, user, role)});
      }
      return true;
    }

    method UpsertProjectShare(project: int, user: int, role: Role) returns (ok: bool)
      requires KeysAreUnique(db)
      modifies this
      ensures db == ShareUpserted(old(db), project, user, role)
      ensures ok <==> ValidShareRole(role) && HasProject(db.projects, project) && user in db.users
    {
      if role != OWNER && role != EDITOR && role != VIEWER {
        return false;
      }
      if WorkspaceOf(db, project).None? || user !in db.users {
        return false;
      }
      var existing := ShareRole(db, project, user);
      if existing.Some? {
        var row := Share(project, user, existing.value);
        assert ShareDeleted(db, project, user).shares == db.shares - {row};
        db := db.(shares := db.shares - {row} + {row.(role := role)});
      } else {
        assert ShareDeleted(db, project, user).shares == db.shares;
        db := db.(shares := db.shares + {Share(project, user, role)});
      }
      return true;
    }
  }

  // ------------------------------------------------------------------ histories

  datatype Call =
    | AddUser(user: int)
    | CreateWorkspace
    | CreateProject(workspace: int)
    | AddMember(workspace: int, user: int, role: Role)
    | RemoveMember(workspace: int, user: int)
    | UpsertShare(project: int, user: int, role: Role)
    | DeleteShare(project: int, user: int)
    | DeleteUser(user: int)
    | DeleteProject(project: int)
    | DeleteWorkspace(workspace: int)

  ghost function Step(db: Tables, c: Call): Tables {
    match c
    case AddUser(u) => db.(users := db.users + {u})
    case CreateWorkspace => db.(workspaces := db.workspaces + {db.nextId}, nextId := db.nextId + 1)
    case CreateProject(w) =>
      if w in db.workspaces then db.(projects := db.projects + {Project(db.nextId, w)}, nextId := db.nextId + 1) else db
    case AddMember(w, u, role) => MemberAdded(db, w, u, role)
    case RemoveMember(w, u) => MemberRemoved(db, w, u)
    case UpsertShare(p, u, role) => ShareUpserted(db, p, u, role)
    case DeleteShare(p, u) => ShareDeleted(db, p, u)
    // ON DELETE CASCADE
    case DeleteUser(u) =>
      db.(users := db.users - {u},
          members := (set m | m in db.members && m.user != u),
          shares := (set s | s in db.shares && s.user != u))
    case DeleteProject(p) => WithProjects(db, set q | q in db.projects && q.id != p)
    case DeleteWorkspace(w) =>
      WithProjects(db, set q | q in db.projects && q.workspace != w)
        .(workspaces := db.workspaces - {w}, members := (set m | m in db.members && m.workspace != w))
  }

  ghost function WithProjects(db: Tables, projects: set<Project>): Tables {
    db.(projects := projects, shares := (set s | s in db.shares && HasProject(projects, s.project)))
  }

  lemma StepKeepsKeys(db: Tables, c: Call)
    requires KeysAreUnique(db) && forall p <- db.projects :: p.id < db.nextId
    ensures KeysAreUnique(Step(db, c))
  {
    hide ValidWorkspaceRole, ValidShareRole, HasProject;
  }

  lemma ProjectsStayReferenced(db: Tables, c: Call)
    requires ReferencesHold(db)
    ensures forall s <- Step(db, c).shares :: HasProject(Step(db, c).projects, s.project)
  {
    hide ValidWorkspaceRole, ValidShareRole;
    if c.CreateProject? {
      forall s | s in Step(db, c).shares
        ensures HasProject(Step(db, c).projects, s.project)
      {
        var p :| p in db.projects && p.id == s.project;
        assert p in Step(db, c).projects;
      }
    }
  }

  lemma StepKeepsReferences(db: Tables, c: Call)
    requires ReferencesHold(db)
    ensures ReferencesHold(Step(db, c))
  {
    hide ValidWorkspaceRole, ValidShareRole, HasProject;
    ProjectsStayReferenced(db, c);
  }

  lemma StepKeepsRoles(db: Tables, c: Call)
    requires forall m <- db.members :: ValidWorkspaceRole(m.role)
    requires forall s <- db.shares :: ValidShareRole(s.role)
    ensures forall m <- Step(db, c).members :: ValidWorkspaceRole(m.role)
    ensures forall s <- Step(db, c).shares :: ValidShareRole(s.role)
  {
    hide ValidWorkspaceRole, ValidShareRole, HasProject;
  }

  lemma StepKeepsIdsOld(db: Tables, c: Call)
    requires (forall p <- db.projects :: p.id < db.nextId) && (forall w <- db.workspaces :: w < db.nextId)
    ensures (forall p <- Step(db, c).projects :: p.id < Step(db, c).nextId) && (forall w <- Step(db, c).workspaces :: w < Step(db, c).nextId)
  {
    hide ValidWorkspaceRole, ValidShareRole, HasProject;
  }

  lemma StepKeepsValid(db: Tables, c: Call)
    requires Valid(db)
    ensures Valid(Step(db, c))
  {
    hide Step, KeysAreUnique, ReferencesHold, ValidWorkspaceRole, ValidShareRole;
    StepKeepsKeys(db, c);
    StepKeepsReferences(db, c);
    StepKeepsRoles(db, c);
    StepKeepsIdsOld(db, c);
  }

  ghost function After(db: Tables, run: seq<Call>): Tables
    decreases |run|
  {
    if run == [] then db else Step(After(db, run[..|run| - 1]), run[|run| - 1])
  }

  lemma {:induction false} RunKeepsValid(db: Tables, run: seq<Call>)
    requires Valid(db)
    ensures Valid(After(db, run))
    decreases |run|
  {
    if run != [] {
      RunKeepsValid(db, run[..|run| - 1]);
      StepKeepsValid(After(db, run[..|run| - 1]), run[|run| - 1]);
    }
  }

  // ------------------------------------------------------------------ the dashboard and the decision

  lemma TheRow(db: Tables, user: int, project: int) returns (row: Row)
    requires Valid(db) && WorkspaceOf(db, project).Some?
    requires WorkspaceRole(db, WorkspaceOf(db, project).value, user).Some?
    ensures Joins(db, user, row) && row.project.id == project
  {
    var w := WorkspaceOf(db, project).value;
    var share := ShareRole(db, project, user);
    row := Row(Project(project, w),
               Membership(w, user, WorkspaceRole(db, w, user).value),
               match share case Some(r) => Some(Share(project, user, r)) case None => None);
  }

  lemma RowDecides(db: Tables, user: int, row: Row)
    requires Valid(db) && Joins(db, user, row)
    ensures EffectiveProjectRole(db, row.project.id, user) == Some(row.Role()) && row.Role() in {OWNER, EDITOR, VIEWER}
  {
    assert WorkspaceOf(db, row.project.id) == Some(row.project.workspace);
    assert WorkspaceRole(db, row.project.workspace, user) == Some(row.member.role);
    assert ShareRole(db, row.project.id, user) == match row.share case Some(s) => Some(s.role) case None => None;
  }

  /** In every reachable store the dashboard lists a project under a role exactly when that is the
      non-empty role access decisions use. */
  lemma DashboardAgreesWithDecisions(run: seq<Call>, user: int, project: int, role: Role)
    ensures var db := After(Empty, run);
            && Valid(db)
            && (ListProjectsForUser(db, user, Access(project, role))
                <==> EffectiveProjectRole(db, project, user) == Some(role) && role != NO_ACCESS)
  {
    RunKeepsValid(Empty, run);
    var db := After(Empty, run);
    if ListProjectsForUser(db, user, Access(project, role)) {
      var row :| Joins(db, user, row) && Access(project, role) == Access(row.project.id, row.Role());
      RowDecides(db, user, row);
    }
    if EffectiveProjectRole(db, project, user) == Some(role) && role != NO_ACCESS {
      var row := TheRow(db, user, project);
      RowDecides(db, user, row);
      assert Access(project, role) == Access(row.project.id, row.Role());
    }
  }

  /** The join returns one row per project, so no project is listed twice. */
  lemma OneRowPerProject(run: seq<Call>, user: int, a: Row, b: Row)
    requires var db := After(Empty, run); Joins(db, user, a) && Joins(db, user, b)
    ensures a.project.id == b.project.id ==> a == b
  {
    hide After, ReferencesHold;
    RunKeepsValid(Empty, run);
  }

  /** The API's rank test and the pages' test agree on a role exactly when it is not admin. */
  lemma EditTestsAgree(role: Role)
    ensures (RequireRole(role, EDITOR) <==> PageMayEdit(role)) <==> role != ADMIN
  {
    assert ADMIN != VIEWER && ADMIN != EDITOR && ADMIN != OWNER by {
      assert ADMIN[0] == 'a' && VIEWER[0] == 'v' && EDITOR[0] == 'e' && OWNER[0] == 'o';
    }
  }

  /** No reachable store answers admin, so the API and the pages always agree on who may edit. */
  lemma EveryoneAgreesOnEditing(run: seq<Call>, user: int, project: int)
    ensures var db := After(Empty, run);
            && Valid(db)
            && match EffectiveProjectRole(db, project, user)
               case None => true
               case Some(role) =>
                 && role in {OWNER, EDITOR, VIEWER, NO_ACCESS}
                 && (RequireRole(role, EDITOR) <==> PageMayEdit(role))
  {
    RunKeepsValid(Empty, run);
    var db := After(Empty, run);
    match EffectiveProjectRole(db, project, user) {
      case None =>
      case Some(role) =>
        if role != NO_ACCESS {
          var row := TheRow(db, user, project);
          RowDecides(db, user, row);
        }
        EditTestsAgree(role);
        assert OWNER[0] == 'o' && EDITOR[0] == 'e' && VIEWER[0] == 'v' && ADMIN[0] == 'a' && NO_ACCESS == "";
    }
  }

  lemma SharesAfterUpsert(db: Tables, project: int, user: int, role: Role, q: int, v: int)
    requires Valid(db) && ValidShareRole(role) && HasProject(db.projects, project) && user in db.users
    ensures var db' := ShareUpserted(db, project, user, role);
            && Valid(db')
            && ShareRole(db', q, v) == (if q == project && v == user then Some(role) else ShareRole(db, q, v))
            && WorkspaceOf(db', q) == WorkspaceOf(db, q)
            && forall w :: WorkspaceRole(db', w, v) == WorkspaceRole(db, w, v)
  {
    hide ValidWorkspaceRole, ValidShareRole, KeysAreUnique, ReferencesHold, HasProject;
    StepKeepsValid(db, UpsertShare(project, user, role));
    var db' := ShareUpserted(db, project, user, role);
    if q == project && v == user {
      assert Share(project, user, role) in db'.shares;
    } else {
      SameShare(db, db', q, v);
    }
  }

  lemma SameShare(a: Tables, b: Tables, project: int, user: int)
    requires KeysAreUnique(a) && KeysAreUnique(b)
    requires forall r :: Share(project, user, r) in a.shares <==> Share(project, user, r) in b.shares
    ensures ShareRole(a, project, user) == ShareRole(b, project, user)
  {
    hide KeysAreUnique;
    var x, y := ShareRole(a, project, user), ShareRole(b, project, user);
    assert x.Some? ==> Share(project, user, x.value) in b.shares;
    assert y.Some? ==> Share(project, user, y.value) in a.shares;
  }

  /** The ranks: everybody listed may view, editors and owners may edit, owners alone may do what
      needs an owner. */
  lemma RanksAreExact(run: seq<Call>, user: int, project: int)
    ensures var db := After(Empty, run);
            && Valid(db)
            && match EffectiveProjectRole(db, project, user)
               case None => true
               case Some(role) =>
                 && (RequireRole(role, "owner") <==> role == "owner")
                 && (RequireRole(role, "editor") <==> role == "editor" || role == "owner")
                 && (RequireRole(role, "viewer") <==> role == "viewer" || role == "editor" || role == "owner")
                 && (RequireRole(role, "viewer") <==> role != "")
  {
    hide After, ReferencesHold, KeysAreUnique;
    EveryoneAgreesOnEditing(run, user, project);
    RankOrder();
  }

  lemma RankOrder()
    ensures Rank("owner") > Rank("editor") > Rank("viewer") > Rank("")
  {
    assert "owner"[0] == 'o' && "editor"[0] == 'e' && "viewer"[0] == 'v';
  }

  /** In every reachable store a membership is an owner's, an admin's or a member's, and a share an
      owner's, an editor's or a viewer's. */
  lemma RolesAreKnown(run: seq<Call>)
    ensures var db := After(Empty, run);
            && (forall m <- db.members :: m.role == "owner" || m.role == "admin" || m.role == "member")
            && (forall s <- db.shares :: s.role == "owner" || s.role == "editor" || s.role == "viewer")
  {
    hide After;
    RunKeepsValid(Empty, run);
  }

  /** Each of those roles is taken, for users and workspaces that exist, in place of any earlier one. */
  lemma KnownRolesAreTaken(db: Tables, workspace: int, user: int, role: Role)
    requires Valid(db) && workspace in db.workspaces && user in db.users
    requires role == "owner" || role == "admin" || role == "member"
    ensures var after := MemberAdded(db, workspace, user, role);
            && Valid(after) && WorkspaceRole(after, workspace, user) == Some(role)
  {
    hide KeysAreUnique, ReferencesHold, WorkspaceRole;
    StepKeepsValid(db, AddMember(workspace, user, role));
    RoleLookup(MemberAdded(db, workspace, user, role), workspace, user, role);
  }

  lemma KnownShareRolesAreTaken(db: Tables, p: Project, user: int, role: Role)
    requires Valid(db) && p in db.projects && user in db.users
    requires role == "owner" || role == "editor" || role == "viewer"
    ensures var after := ShareUpserted(db, p.id, user, role);
            && Valid(after) && ShareRole(after, p.id, user) == Some(role)
  {
    SharesAfterUpsert(db, p.id, user, role, p.id, user);
  }

  /** Taking a share back leaves a member with what their workspace role gives, and changes no
      other answer. */
  lemma UnsharingFallsBack(db: Tables, p: Project, user: int, q: int, v: int)
    requires Valid(db) && p in db.projects
    ensures var after := ShareDeleted(db, p.id, user);
            && Valid(after)
            && EffectiveProjectRole(after, q, v)
               == if q == p.id && v == user && IsMember(db, p.workspace, user) then
                    (match WorkspaceRole(db, p.workspace, user)
                     case Some(r) => Some(if r == "owner" || r == "admin" then "owner" else "editor")
                     case None => None)
                  else EffectiveProjectRole(db, q, v)
  {
    hide KeysAreUnique, ReferencesHold, WorkspaceRole, ShareRole, WorkspaceOf;
    var after := ShareDeleted(db, p.id, user);
    StepKeepsValid(db, DeleteShare(p.id, user));
    LookupsWithoutShares(db, after, q, v);
    MembersHaveRoles(db, p.workspace, user);
    if q == p.id && v == user {
      assert WorkspaceOf(db, q) == Some(p.workspace);
      assert forall s <- after.shares :: !(s.project == q && s.user == v);
    } else {
      SameShare(db, after, q, v);
    }
  }

  lemma LookupsWithoutShares(a: Tables, b: Tables, project: int, user: int)
    requires Valid(a) && Valid(b) && a.projects == b.projects && a.members == b.members
    ensures WorkspaceOf(a, project) == WorkspaceOf(b, project)
    ensures forall w :: WorkspaceRole(a, w, user) == WorkspaceRole(b, w, user)
  {}

  // ------------------------------------------------------------------ leaving a workspace

  ghost predicate IsMember(db: Tables, workspace: int, user: int) {
    exists m :: m in db.members && m.workspace == workspace && m.user == user
  }

  // Calls that could make the user a member.
  predicate Readmits(c: Call, workspace: int, user: int) {
    c.AddMember? && c.workspace == workspace && c.user == user
  }

  /** In every reachable store a user has access to a project exactly when they are a member of its
      workspace; shares decide the role, never the access. */
  lemma AccessIsMembership(run: seq<Call>, user: int, p: Project)
    requires p in After(Empty, run).projects
    ensures var db := After(Empty, run);
            && Valid(db)
            && (EffectiveProjectRole(db, p.id, user) != Some(NO_ACCESS) <==> IsMember(db, p.workspace, user))
  {
    RunKeepsValid(Empty, run);
    AccessNeedsMembership(After(Empty, run), user, p);
  }

  lemma AccessNeedsMembership(db: Tables, user: int, p: Project)
    requires Valid(db) && p in db.projects
    ensures EffectiveProjectRole(db, p.id, user) != Some(NO_ACCESS) <==> IsMember(db, p.workspace, user)
  {
    assert WorkspaceOf(db, p.id) == Some(p.workspace);
    if IsMember(db, p.workspace, user) {
      var row := TheRow(db, user, p.id);
      RowDecides(db, user, row);
    }
  }

  /** Granting a share makes it the member's answer on that project and changes no other answer. */
  lemma ShareDecides(db: Tables, p: Project, user: int, role: Role, q: int, v: int)
    requires Valid(db) && ValidShareRole(role) && p in db.projects && user in db.users
    ensures var db' := ShareUpserted(db, p.id, user, role);
            && Valid(db')
            && EffectiveProjectRole(db', q, v)
               == if q == p.id && v == user && IsMember(db, p.workspace, user) then Some(role)
                  else EffectiveProjectRole(db, q, v)
  {
    hide ShareUpserted, KeysAreUnique, ReferencesHold, WorkspaceRole, ShareRole;
    SharesAfterUpsert(db, p.id, user, role, q, v);
    AccessNeedsMembership(db, user, p);
    assert OWNER[0] == 'o' && EDITOR[0] == 'e' && VIEWER[0] == 'v' && NO_ACCESS == "";
  }

  // A share granted to a member who is then removed.
  function OrphanedShare(user: int, role: Role): seq<Call> {
    [AddUser(user), CreateWorkspace, CreateProject(1), AddMember(1, user, MEMBER), UpsertShare(2, user, role), RemoveMember(1, user)]
  }

  /** A share without a membership is reachable, and gives nothing. */
  lemma ShareWithoutAccess(user: int, role: Role)
    requires ValidShareRole(role)
    ensures var db := After(Empty, OrphanedShare(user, role));
            && Valid(db)
            && Share(2, user, role) in db.shares
            && EffectiveProjectRole(db, 2, user) == Some(NO_ACCESS)
  {
    hide KeysAreUnique, ReferencesHold, After, EffectiveProjectRole;
    var run := OrphanedShare(user, role);
    RunKeepsValid(Empty, run);
    var d1 := Step(Empty, run[0]);
    var d2 := Step(d1, run[1]);
    var d3 := Step(d2, run[2]);
    var d4 := Step(d3, run[3]);
    var d5 := Step(d4, run[4]);
    var d6 := Step(d5, run[5]);
    OneByOne(run);
    assert Project(2, 1) in d3.projects;
    assert Share(2, user, role) in d5.shares;
    AccessNeedsMembership(d6, user, Project(2, 1));
  }

  lemma OneByOne(run: seq<Call>)
    requires |run| == 6
    ensures After(Empty, run)
         == Step(Step(Step(Step(Step(Step(Empty, run[0]), run[1]), run[2]), run[3]), run[4]), run[5])
  {
    hide Step;
    assert run[..5][..4] == run[..4] && run[..4][..3] == run[..3] && run[..3][..2] == run[..2] && run[..2][..1] == run[..1];
    assert run[..1][..0] == [];
    assert After(Empty, run[..1]) == Step(Empty, run[0]);
    assert After(Empty, run[..2]) == Step(After(Empty, run[..1]), run[1]);
    assert After(Empty, run[..3]) == Step(After(Empty, run[..2]), run[2]);
    assert After(Empty, run[..4]) == Step(After(Empty, run[..3]), run[3]);
    assert After(Empty, run[..5]) == Step(After(Empty, run[..4]), run[4]);
  }

  /** Someone outside a workspace has no access to any of its projects, whatever shares they hold
      or are given, until they are added again. */
  lemma StrangersStayOut(db: Tables, run: seq<Call>, workspace: int, user: int, project: int)
    requires Valid(db) && !IsMember(db, workspace, user)
    requires forall i :: 0 <= i < |run| ==> !Readmits(run[i], workspace, user)
    requires Project(project, workspace) in After(db, run).projects
    ensures Valid(After(db, run)) && EffectiveProjectRole(After(db, run), project, user) == Some(NO_ACCESS)
  {
    RunKeepsValid(db, run);
    StaysOutside(db, run, workspace, user);
  }

  lemma {:induction false} StaysOutside(db: Tables, run: seq<Call>, workspace: int, user: int)
    requires !IsMember(db, workspace, user)
    requires forall i :: 0 <= i < |run| ==> !Readmits(run[i], workspace, user)
    ensures !IsMember(After(db, run), workspace, user)
    decreases |run|
  {
    if run != [] {
      StaysOutside(db, run[..|run| - 1], workspace, user);
      assert !Readmits(run[|run| - 1], workspace, user);
    }
  }

  ghost predicate Same(a: Tables, b: Tables) {
    a.users == b.users && a.workspaces == b.workspaces && a.projects == b.projects && a.shares == b.shares
  }

  lemma LookupsDependOnTheirTables(a: Tables, b: Tables, project: int, user: int)
    requires Valid(a) && Valid(b) && Same(a, b)
    ensures WorkspaceOf(a, project) == WorkspaceOf(b, project) && ShareRole(a, project, user) == ShareRole(b, project, user)
  {}

  lemma RoleLookup(db: Tables, w: int, user: int, role: Role)
    requires KeysAreUnique(db) && Membership(w, user, role) in db.members
    ensures WorkspaceRole(db, w, user) == Some(role)
  {}

  // A lookup depends on the rows of its key alone.
  lemma SameRole(a: Tables, b: Tables, w: int, user: int)
    requires KeysAreUnique(a) && KeysAreUnique(b)
    requires forall r :: Membership(w, user, r) in a.members <==> Membership(w, user, r) in b.members
    ensures WorkspaceRole(a, w, user) == WorkspaceRole(b, w, user)
  {
    hide KeysAreUnique;
    match WorkspaceRole(a, w, user) {
      case Some(r) =>
        RoleLookup(b, w, user, r);
      case None =>
        if WorkspaceRole(b, w, user).Some? {
          RoleLookup(a, w, user, WorkspaceRole(b, w, user).value);
        }
    }
  }

  lemma RejoinedRole(db: Tables, workspace: int, user: int, role: Role, w: int, other: int)
    requires Valid(db) && ValidWorkspaceRole(role) && IsMember(db, workspace, user)
    ensures var back := MemberAdded(MemberRemoved(db, workspace, user), workspace, user, role);
            && Valid(back) && Same(db, back)
            && WorkspaceRole(back, w, other) == if other == user && w == workspace then Some(role) else WorkspaceRole(db, w, other)
  {
    hide KeysAreUnique, WorkspaceRole;
    var out := MemberRemoved(db, workspace, user);
    var back := MemberAdded(out, workspace, user, role);
    StepKeepsValid(db, RemoveMember(workspace, user));
    StepKeepsValid(out, AddMember(workspace, user, role));
    if other == user && w == workspace {
      RoleLookup(back, w, other, role);
    } else {
      SameRole(db, back, w, other);
    }
  }

  /** Removing a member and adding them back brings every share back to life; only unshared
      projects take the role of the new membership. Nobody else is affected. */
  lemma SharesOutliveMembership(db: Tables, workspace: int, user: int, role: Role, project: int, other: int)
    requires Valid(db) && ValidWorkspaceRole(role) && IsMember(db, workspace, user)
    ensures var out := MemberRemoved(db, workspace, user);
            var back := MemberAdded(out, workspace, user, role);
            && Valid(out) && Valid(back)
            && EffectiveProjectRole(back, project, other)
               == if other == user && WorkspaceOf(db, project) == Some(workspace) && ShareRole(db, project, user).None?
                  then Some(if role == MEMBER then EDITOR else OWNER)
                  else EffectiveProjectRole(db, project, other)
  {
    hide MemberRemoved, MemberAdded, KeysAreUnique, ReferencesHold, WorkspaceOf, WorkspaceRole, ShareRole, IsMember, Same;
    assert OWNER[0] == 'o' && ADMIN[0] == 'a' && MEMBER[0] == 'm';
    var out := MemberRemoved(db, workspace, user);
    var back := MemberAdded(out, workspace, user, role);
    StepKeepsValid(db, RemoveMember(workspace, user));
    RejoinedRole(db, workspace, user, role, 0, other);
    LookupsDependOnTheirTables(db, back, project, other);
    LookupsDependOnTheirTables(db, back, project, user);
    if WorkspaceOf(db, project).Some? {
      var w := WorkspaceOf(db, project).value;
      RejoinedRole(db, workspace, user, role, w, other);
      assert w == workspace ==> WorkspaceRole(db, w, user).Some? by { MembersHaveRoles(db, workspace, user); }
    }
  }

  lemma MembersHaveRoles(db: Tables, workspace: int, user: int)
    requires KeysAreUnique(db)
    ensures WorkspaceRole(db, workspace, user).Some? <==> IsMember(db, workspace, user)
  {
    hide KeysAreUnique;
    if WorkspaceRole(db, workspace, user).Some? {
      assert Membership(workspace, user, WorkspaceRole(db, workspace, user).value) in db.members;
    }
  }
}

/** Organization administration: users, open mode, workspaces and their members, the guards on
    every change, and the safety they give over whole runs. */
module Organization {
  import opened Common

  datatype Role = Admin | WorkspaceManager | Member | OtherRole(name: string)

  datatype Status = Active | Pending | Disabled | OtherStatus(name: string)

  datatype User = User(role: Role, status: Status)

  /** The authenticated caller, as loaded when the request came in. */
  datatype Actor = Actor(id: string, role: Role)

  /** What the store holds. `overwrites` is which kind of store it is: whether adding a member that
      is there already overwrites the row or fails. */
  datatype Org = Org(users: map<string, User>, openMode: bool, workspaces: map<string, map<string, Role>>,
                     overwrites: bool)

  datatype Request =
    | SignUp(id: string, initial: Status)
    | PatchUser(id: string, role: Option<Role>, status: Option<Status>)
    | OwnRecord(id: string, login: bool)  // PATCH /me, and the refresh or relinking by a login
    | UpdateSettings(wellFormed: bool, openMode: Option<bool>)
    | CreateWorkspace(ws: string, name: string)
    | DeleteWorkspace(ws: string, functions: nat)
    | SetMember(ws: string, user: string, granted: Role)
    | RemoveMember(ws: string, user: string)

  datatype Response = Ok | Forbidden | NotFound | BadRequest | Conflict | Failed

  // ---- What the guards count ----

  predicate ActiveAdmin(u: User) { u.role.Admin? && u.status.Active? }

  function OtherActiveAdmins(users: map<string, User>, exclude: string): set<string> {
    set u | u in users && u != exclude && ActiveAdmin(users[u])
  }

  function OtherAdmins(members: map<string, Role>, exclude: string): set<string> {
    set m | m in members && m != exclude && members[m].Admin?
  }

  predicate Demoting(u: User, role: Role, status: Status) {
    u.role.Admin? && (!role.Admin? || (!status.Active? && u.status.Active?))
  }

  predicate MayManage(act: Actor, members: map<string, Role>) {
    act.role.Admin? || (act.id in members && members[act.id].Admin?)
  }

  // ---- One request ----

  function Patched(u: User, role: Option<Role>, status: Option<Status>): User {
    User(if role.Some? then role.value else u.role, if status.Some? then status.value else u.status)
  }

  /** The checks each handler makes before its write, in its order: what it loads first it reads
      from `seen`, what its guard counts or looks up after that from `now`. */
  function Verdict(seen: Org, now: Org, act: Actor, r: Request): Response {
    match r
    case SignUp(id, status) => Ok
    case PatchUser(id, role, status) =>
      if !act.role.Admin? then Forbidden
      else if id !in seen.users then NotFound
      else if role.Some? && role.value.OtherRole? then BadRequest
      else if status.Some? && status.value.OtherStatus? then BadRequest
      else
        var p := Patched(seen.users[id], role, status);
        if Demoting(seen.users[id], p.role, p.status) && |OtherActiveAdmins(now.users, id)| == 0 then Conflict else Ok
    case OwnRecord(id, login) =>
      if id !in seen.users then NotFound
      else if login && seen.users[id].status.Disabled? then Forbidden
      else Ok
    case UpdateSettings(wellFormed, openMode) =>
      if !act.role.Admin? then Forbidden
      else if !wellFormed then BadRequest
      else if openMode == Some(true) && !seen.openMode && |now.workspaces| > 0 then Conflict
      else Ok
    case CreateWorkspace(ws, name) =>
      if seen.openMode then NotFound
      else if name == "" then BadRequest
      else if !act.role.Admin? && !act.role.WorkspaceManager? then Forbidden
      else Ok
    case DeleteWorkspace(ws, functions) =>
      if ws !in seen.workspaces then NotFound
      else if !MayManage(act, seen.workspaces[ws]) then Forbidden
      else if functions > 0 then Conflict
      else Ok
    case SetMember(ws, user, role) =>
      if ws !in seen.workspaces then NotFound
      else if !MayManage(act, seen.workspaces[ws]) then Forbidden
      else if !role.Admin? && !role.Member? then BadRequest
      else if user !in seen.users then NotFound
      else if LastAdmin(MembersOf(now, ws), user) && !role.Admin? then Conflict
      else Ok
    case RemoveMember(ws, user) =>
      if ws !in seen.workspaces then NotFound
      else if !MayManage(act, seen.workspaces[ws]) then Forbidden
      else if LastAdmin(MembersOf(now, ws), user) then Conflict
      else Ok
  }

  /** The members the store lists: none for a workspace that is not there. */
  function MembersOf(o: Org, ws: string): map<string, Role> {
    if ws in o.workspaces then o.workspaces[ws] else map[]
  }

  predicate LastAdmin(members: map<string, Role>, user: string) {
    user in members && members[user].Admin? && |OtherAdmins(members, user)| == 0
  }

  /** What a handler carries from its checks to its store write: for a user and for the settings
      that is the whole record it loaded, with the patch applied. */
  datatype Pending =
    | NewUser(id: string, user: User)
    | SaveUser(id: string, record: User)
    | SaveOpenMode(on: bool)
    | AddWorkspace(ws: string, creator: string)
    | DropWorkspace(ws: string)
    | AddMember(ws: string, member: string, granted: Role)
    | ChangeMember(ws: string, member: string, granted: Role)
    | DropMember(ws: string, member: string)

  function Prepared(seen: Org, now: Org, act: Actor, r: Request): Pending {
    match r
    case SignUp(id, status) => NewUser(id, User(Member, status))
    case PatchUser(id, role, status) => SaveUser(id, Patched(RecordOf(seen, id), role, status))
    case OwnRecord(id, login) => SaveUser(id, RecordOf(seen, id))
    case UpdateSettings(wellFormed, openMode) => SaveOpenMode(if openMode.Some? then openMode.value else seen.openMode)
    case CreateWorkspace(ws, name) => AddWorkspace(ws, act.id)
    case DeleteWorkspace(ws, functions) => DropWorkspace(ws)
    case SetMember(ws, user, role) =>
      if user in MembersOf(now, ws) then ChangeMember(ws, user, role) else Pending.AddMember(ws, user, role)
    case RemoveMember(ws, user) => DropMember(ws, user)
  }

  /** The record loaded; no request gets past its checks without one. */
  function RecordOf(seen: Org, id: string): User {
    if id in seen.users then seen.users[id] else User(Member, Active)
  }

  /** What the store says to the write. A row that is gone is not updated, and a row that is there
      already is not inserted again, unless the store overwrites members. */
  function Outcome(o: Org, p: Pending): Response {
    match p
    case NewUser(id, user) => if id in o.users then Conflict else Ok
    case SaveUser(id, record) => if id in o.users then Ok else Failed
    case SaveOpenMode(on) => Ok
    case AddWorkspace(ws, creator) => if ws in o.workspaces then Failed else Ok
    case DropWorkspace(ws) => Ok
    case AddMember(ws, member, granted) =>
      if ws in o.workspaces && (o.overwrites || member !in o.workspaces[ws]) then Ok else Failed
    case ChangeMember(ws, member, granted) => if member in MembersOf(o, ws) then Ok else Failed
    case DropMember(ws, member) => if member in MembersOf(o, ws) then Ok else NotFound
  }

  /** The store after the write: unchanged if it failed. */
  function Save(o: Org, p: Pending): Org {
    if !Outcome(o, p).Ok? then o
    else
      match p
      case NewUser(id, user) => o.(users := o.users[id := user])
      case SaveUser(id, record) => o.(users := o.users[id := record])
      case SaveOpenMode(on) => o.(openMode := on)
      case AddWorkspace(ws, creator) => o.(workspaces := o.workspaces[ws := map[creator := Admin]])
      case DropWorkspace(ws) => o.(workspaces := o.workspaces - {ws})
      case AddMember(ws, member, granted) =>
        o.(workspaces := o.workspaces[ws := MembersOf(o, ws)[member := granted]])
      case ChangeMember(ws, member, granted) =>
        o.(workspaces := o.workspaces[ws := MembersOf(o, ws)[member := granted]])
      case DropMember(ws, member) => o.(workspaces := o.workspaces[ws := MembersOf(o, ws) - {member}])
  }

  /** The answer to a request that nothing comes between. */
  function Answer(o: Org, act: Actor, r: Request): Response {
    var verdict := Verdict(o, o, act, r);
    if verdict.Ok? then Outcome(o, Prepared(o, o, act, r)) else verdict
  }

  function Apply(o: Org, act: Actor, r: Request): Org {
    if Verdict(o, o, act, r).Ok? then Save(o, Prepared(o, o, act, r)) else o
  }

  // ---- Safety ----

  ghost predicate HasActiveAdmin(users: map<string, User>) {
    exists u :: u in users && ActiveAdmin(users[u])
  }

  ghost predicate HasAdmin(members: map<string, Role>) {
    exists m :: m in members && members[m].Admin?
  }

  /** At least one active organization admin; an admin in every workspace; none in open mode. */
  ghost predicate Safe(o: Org) {
    && HasActiveAdmin(o.users)
    && (forall ws :: ws in o.workspaces ==> HasAdmin(o.workspaces[ws]))
    && (o.openMode ==> o.workspaces == map[])
  }

  /** After the first login: one active admin, no workspaces, open mode as configured. */
  ghost predicate Bootstrapped(o: Org) {
    && o.workspaces == map[]
    && exists first :: o.users == map[first := User(Admin, Active)]
  }

  lemma {:induction false} BootstrappedIsSafe(o: Org)
    requires Bootstrapped(o)
    ensures Safe(o)
  {
    var first :| o.users == map[first := User(Admin, Active)];
    assert first in o.users && ActiveAdmin(o.users[first]);
  }

  // ---- A write whose checks were made earlier ----

  /** What the store has to look like, at the time of the write, for the write to be safe. */
  ghost predicate StillSafe(o: Org, p: Pending) {
    match p
    case SaveUser(id, record) =>
      id in o.users ==> OtherActiveAdmins(o.users, id) != {} || ActiveAdmin(record)
    case SaveOpenMode(on) => on ==> o.workspaces == map[]
    case AddWorkspace(ws, creator) => ws in o.workspaces || !o.openMode
    case AddMember(ws, member, granted) =>
      o.overwrites && member in MembersOf(o, ws) ==> OtherAdmins(o.workspaces[ws], member) != {} || granted.Admin?
    case ChangeMember(ws, member, granted) =>
      member in MembersOf(o, ws) ==> OtherAdmins(o.workspaces[ws], member) != {} || granted.Admin?
    case DropMember(ws, member) =>
      member in MembersOf(o, ws) ==> OtherAdmins(o.workspaces[ws], member) != {}
    case _ => true
  }

  lemma {:induction false} SavedUserIff(o: Org, id: string, record: User)
    requires id in o.users
    ensures HasActiveAdmin(o.users[id := record]) <==> OtherActiveAdmins(o.users, id) != {} || ActiveAdmin(record)
  {
    var t := o.users[id := record];
    if v :| v in OtherActiveAdmins(o.users, id) {
      assert v in t && ActiveAdmin(t[v]);
    }
    if u :| u in t && ActiveAdmin(t[u]) {
      assert u != id ==> u in OtherActiveAdmins(o.users, id);
    }
    assert id in t && t[id] == record;
  }

  lemma {:induction false} ChangedMemberIff(members: map<string, Role>, member: string, granted: Role)
    ensures HasAdmin(members[member := granted]) <==> OtherAdmins(members, member) != {} || granted.Admin?
  {
    var t := members[member := granted];
    if v :| v in OtherAdmins(members, member) {
      assert v in t && t[v].Admin?;
    }
    if m :| m in t && t[m].Admin? {
      assert m != member ==> m in OtherAdmins(members, member);
    }
    assert member in t && t[member] == granted;
  }

  lemma {:induction false} DroppedMemberIff(members: map<string, Role>, member: string)
    ensures HasAdmin(members - {member}) <==> OtherAdmins(members, member) != {}
  {
    var t := members - {member};
    if v :| v in OtherAdmins(members, member) {
      assert v in t && t[v].Admin?;
    }
    if m :| m in t && t[m].Admin? {
      assert m in OtherAdmins(members, member);
    }
  }

  lemma {:induction false} MembersSaved(o: Org, ws: string, members: map<string, Role>)
    requires Safe(o) && ws in o.workspaces
    ensures Safe(o.(workspaces := o.workspaces[ws := members])) <==> HasAdmin(members)
  {
    var t := o.(workspaces := o.workspaces[ws := members]);
    assert t.workspaces[ws] == members;
  }

  lemma {:induction false} MoreMembers(members: map<string, Role>, member: string, granted: Role)
    requires HasAdmin(members) && member !in members
    ensures HasAdmin(members[member := granted])
  {
    var m :| m in members && members[m].Admin?;
    assert m in members[member := granted] && members[member := granted][m].Admin?;
  }

  lemma {:induction false} MemberWriteSafeIff(o: Org, p: Pending)
    requires Safe(o) && (p.AddMember? || p.ChangeMember? || p.DropMember?)
    ensures Safe(Save(o, p)) <==> StillSafe(o, p)
  {
    if Outcome(o, p).Ok? {
      var members := o.workspaces[p.ws];
      match p
      case AddMember(ws, member, granted) =>
        ChangedMemberIff(members, member, granted);
        MembersSaved(o, ws, members[member := granted]);
        if member !in members { MoreMembers(members, member, granted); }
      case ChangeMember(ws, member, granted) =>
        ChangedMemberIff(members, member, granted);
        MembersSaved(o, ws, members[member := granted]);
      case DropMember(ws, member) =>
        DroppedMemberIff(members, member);
        MembersSaved(o, ws, members - {member});
    }
  }

  /** For every kind of request: a write whose checks were made at any earlier time is safe now
      exactly when the store still meets this condition on it and on the record carried along. */
  lemma {:induction false} DelayedWriteSafeIff(o: Org, p: Pending)
    requires Safe(o)
    ensures Safe(Save(o, p)) <==> StillSafe(o, p)
  {
    var t := Save(o, p);
    match p
    case NewUser(id, user) =>
      var u :| u in o.users && ActiveAdmin(o.users[u]);
      assert u in t.users && ActiveAdmin(t.users[u]);
    case SaveUser(id, record) =>
      if id in o.users { SavedUserIff(o, id, record); }
    case AddWorkspace(ws, creator) =>
      if ws !in o.workspaces {
        assert ws in t.workspaces && t.workspaces[ws][creator].Admin?;
      }
    case SaveOpenMode(on) =>
    case DropWorkspace(ws) =>
    case _ => MemberWriteSafeIff(o, p);
  }

  // ---- Requests that nothing comes between ----

  /** Who may make which request, and of what: the guards that protect safety left aside. */
  ghost predicate Permitted(o: Org, act: Actor, r: Request) {
    match r
    case SignUp(id, status) => id !in o.users
    case PatchUser(id, role, status) =>
      && act.role == Admin && id in o.users
      && role in {None, Some(Admin), Some(WorkspaceManager), Some(Member)}
      && status in {None, Some(Active), Some(Status.Pending), Some(Disabled)}
    case OwnRecord(id, login) => id in o.users && (login ==> o.users[id].status != Disabled)
    case UpdateSettings(wellFormed, openMode) => act.role == Admin && wellFormed
    case CreateWorkspace(ws, name) => act.role in {Admin, WorkspaceManager} && name != "" && ws !in o.workspaces
    case DeleteWorkspace(ws, functions) => Manages(o, act, ws) && functions == 0
    case SetMember(ws, user, role) => Manages(o, act, ws) && user in o.users && role in {Admin, Member}
    case RemoveMember(ws, user) => Manages(o, act, ws) && user in o.workspaces[ws]
  }

  ghost predicate Manages(o: Org, act: Actor, ws: string) {
    ws in o.workspaces && (act.role == Admin || (act.id, Admin) in o.workspaces[ws].Items)
  }

  lemma {:induction false} NoneElse(o: Org, id: string)
    requires HasActiveAdmin(o.users) && OtherActiveAdmins(o.users, id) == {}
    ensures id in o.users && ActiveAdmin(o.users[id])
  {
    var u :| u in o.users && ActiveAdmin(o.users[u]);
    assert u != id ==> u in OtherActiveAdmins(o.users, id);
  }

  lemma {:induction false} NoOtherAdmin(members: map<string, Role>, member: string)
    requires HasAdmin(members) && OtherAdmins(members, member) == {}
    ensures member in members && members[member].Admin?
  {
    var m :| m in members && members[m].Admin?;
    assert m != member ==> m in OtherAdmins(members, member);
  }

  /** The guards are exact: a request is granted if and only if it is permitted and its write keeps
      safety. */
  lemma {:induction false} GuardsAreExact(o: Org, act: Actor, r: Request)
    requires Safe(o)
    ensures Answer(o, act, r).Ok? <==> Permitted(o, act, r) && Safe(Save(o, Prepared(o, o, act, r)))
  {
    DelayedWriteSafeIff(o, Prepared(o, o, act, r));
    match r
    case PatchUser(id, role, status) =>
      if OtherActiveAdmins(o.users, id) == {} { NoneElse(o, id); }
    case OwnRecord(id, login) =>
      if OtherActiveAdmins(o.users, id) == {} { NoneElse(o, id); }
    case SetMember(ws, user, role) => MemberGuardIsExact(o, act, r);
    case RemoveMember(ws, user) => MemberGuardIsExact(o, act, r);
    case _ =>
  }

  lemma {:induction false} MemberGuardIsExact(o: Org, act: Actor, r: Request)
    requires Safe(o) && (r.SetMember? || r.RemoveMember?)
    ensures Answer(o, act, r).Ok? <==> Permitted(o, act, r) && StillSafe(o, Prepared(o, o, act, r))
  {
    if r.ws in o.workspaces && OtherAdmins(o.workspaces[r.ws], r.user) == {} {
      NoOtherAdmin(o.workspaces[r.ws], r.user);
    }
  }

  // ---- What a refusal says ----

  ghost predicate Authorized(o: Org, act: Actor, r: Request) {
    match r
    case SignUp(id, status) => true
    case PatchUser(id, role, status) => act.role == Admin
    case OwnRecord(id, login) => login ==> id in o.users && o.users[id].status != Disabled
    case UpdateSettings(_, _) => act.role == Admin
    case CreateWorkspace(ws, name) => act.role in {Admin, WorkspaceManager}
    case _ => Manages(o, act, r.ws)
  }

  /** What the request is about is there; workspaces are not there to be had in open mode. */
  ghost predicate Exists(o: Org, r: Request) {
    match r
    case PatchUser(id, role, status) => id in o.users
    case OwnRecord(id, login) => id in o.users
    case CreateWorkspace(ws, name) => !o.openMode
    case DeleteWorkspace(ws, functions) => ws in o.workspaces
    case SetMember(ws, user, role) => ws in o.workspaces && user in o.users
    case RemoveMember(ws, user) => ws in o.workspaces && user in o.workspaces[ws]
    case _ => true
  }

  ghost predicate WellFormed(r: Request) {
    match r
    case PatchUser(id, role, status) =>
      && role in {None, Some(Admin), Some(WorkspaceManager), Some(Member)}
      && status in {None, Some(Active), Some(Status.Pending), Some(Disabled)}
    case UpdateSettings(wellFormed, openMode) => wellFormed
    case CreateWorkspace(ws, name) => name != ""
    case SetMember(ws, user, role) => role in {Admin, Member}
    case _ => true
  }

  /** A conflict: a user or functions that are there already, or a write that would break safety. */
  ghost predicate Clashes(o: Org, act: Actor, r: Request) {
    || (r.SignUp? && r.id in o.users)
    || (r.DeleteWorkspace? && r.functions > 0)
    || !Safe(Save(o, Prepared(o, o, act, r)))
  }

  ghost predicate Reasoned(o: Org, act: Actor, r: Request) {
    match Answer(o, act, r)
    case Ok => Authorized(o, act, r) && Exists(o, r) && WellFormed(r)
    case Forbidden => !Authorized(o, act, r)
    case NotFound => !Exists(o, r)
    case BadRequest => !WellFormed(r)
    case Conflict => Clashes(o, act, r)
    case Failed => r.CreateWorkspace? && r.ws in o.workspaces
  }

  lemma {:induction false} WhyRefusedMember(o: Org, act: Actor, r: Request)
    requires Safe(o) && (r.SetMember? || r.RemoveMember?)
    ensures Reasoned(o, act, r)
  {
    if Answer(o, act, r).Conflict? {
      DelayedWriteSafeIff(o, Prepared(o, o, act, r));
    }
  }

  lemma {:induction false} WhyRefusedOther(o: Org, act: Actor, r: Request)
    requires Safe(o) && !r.SetMember? && !r.RemoveMember?
    ensures Reasoned(o, act, r)
  {
    if Answer(o, act, r).Conflict? {
      DelayedWriteSafeIff(o, Prepared(o, o, act, r));
    }
  }

  /** Each answer has its reason. */
  lemma {:induction false} WhyRefused(o: Org, act: Actor, r: Request)
    requires Safe(o)
    ensures Reasoned(o, act, r)
  {
    if r.SetMember? || r.RemoveMember? { WhyRefusedMember(o, act, r); } else { WhyRefusedOther(o, act, r); }
  }

  // ---- Who can change what ----

  /** Only an organization admin changes a user's role or status, or open mode. */
  lemma {:induction false} OnlyAdminsChangeUsers(o: Org, act: Actor, r: Request, id: string)
    requires id in o.users
    ensures var t := Apply(o, act, r);
      && id in t.users
      && (t.users[id] != o.users[id] ==> act.role == Admin)
      && (t.openMode != o.openMode ==> act.role == Admin)
  {
  }

  /** Only an organization admin or one of its own admins changes a workspace or deletes it; only
      organization admins and workspace managers create one, and become its only member. */
  lemma {:induction false} OnlyManagersChangeWorkspaces(o: Org, act: Actor, r: Request, ws: string)
    ensures var t := Apply(o, act, r);
      && (ws in o.workspaces && (ws !in t.workspaces || t.workspaces[ws] != o.workspaces[ws]) ==>
            act.role == Admin || (act.id, Admin) in o.workspaces[ws].Items)
      && (ws !in o.workspaces && ws in t.workspaces ==>
            act.role in {Admin, WorkspaceManager} && t.workspaces[ws] == map[act.id := Admin] && !o.openMode)
  {
  }

  /** A patch that is granted leaves exactly the given role and status, and nothing else changes. */
  lemma {:induction false} PatchIsExact(o: Org, act: Actor, id: string, role: Option<Role>, status: Option<Status>)
    requires Answer(o, act, PatchUser(id, role, status)).Ok?
    ensures var t := Apply(o, act, PatchUser(id, role, status));
      && t.workspaces == o.workspaces && t.openMode == o.openMode && t.users.Keys == o.users.Keys && id in o.users
      && (forall u :: u in o.users && u != id ==> t.users[u] == o.users[u])
      && (role.Some? ==> t.users[id].role == role.value) && (role.None? ==> t.users[id].role == o.users[id].role)
      && (status.Some? ==> t.users[id].status == status.value)
      && (status.None? ==> t.users[id].status == o.users[id].status)
  {
  }

  /** A request on memberships that is granted changes that one membership only; the others, and all
      users, stay. */
  lemma {:induction false} MembershipIsExact(o: Org, act: Actor, r: Request)
    requires (r.SetMember? || r.RemoveMember?) && Answer(o, act, r).Ok?
    ensures var t := Apply(o, act, r);
      && t.users == o.users && t.openMode == o.openMode && t.workspaces.Keys == o.workspaces.Keys
      && r.ws in o.workspaces
      && (forall ws :: ws in o.workspaces && ws != r.ws ==> t.workspaces[ws] == o.workspaces[ws])
      && (forall m :: m != r.user ==> (m in t.workspaces[r.ws] <==> m in o.workspaces[r.ws]))
      && (forall m :: m != r.user && m in o.workspaces[r.ws] ==> t.workspaces[r.ws][m] == o.workspaces[r.ws][m])
      && (r.SetMember? ==> r.user in t.workspaces[r.ws] && t.workspaces[r.ws][r.user] == r.granted)
      && (r.RemoveMember? ==> r.user in o.workspaces[r.ws] && r.user !in t.workspaces[r.ws])
  {
  }

  /** What the other requests change when they are granted. */
  lemma {:induction false} OtherEffects(o: Org, act: Actor, r: Request)
    requires Answer(o, act, r).Ok?
    ensures var t := Apply(o, act, r);
      match r
      case SignUp(id, status) =>
        id !in o.users && t == o.(users := o.users[id := User(Member, status)])
      case OwnRecord(id, login) => t == o
      case UpdateSettings(_, openMode) =>
        && t == o.(openMode := t.openMode)
        && (openMode.Some? ==> t.openMode == openMode.value) && (openMode.None? ==> t.openMode == o.openMode)
      case CreateWorkspace(ws, name) =>
        ws !in o.workspaces && t == o.(workspaces := o.workspaces[ws := map[act.id := Admin]])
      case DeleteWorkspace(ws, functions) => functions == 0 && t == o.(workspaces := o.workspaces - {ws})
      case _ => true
  {
  }

  /** A request that is not granted changes nothing. */
  lemma {:induction false} RefusedChangesNothing(o: Org, act: Actor, r: Request)
    requires !Answer(o, act, r).Ok?
    ensures Apply(o, act, r) == o
  {
  }

  lemma {:induction false} StepIsSafe(o: Org, act: Actor, r: Request)
    requires Safe(o)
    ensures Safe(Apply(o, act, r))
  {
    if Answer(o, act, r).Ok? { GuardsAreExact(o, act, r); }
  }

  function Applied(o: Org, log: seq<(Actor, Request)>): Org
    decreases |log|
  {
    if log == [] then o
    else Apply(Applied(o, log[..|log| - 1]), log[|log| - 1].0, log[|log| - 1].1)
  }

  /** Whatever requests whoever makes, in whatever order. */
  lemma {:induction false} AlwaysSafe(o: Org, log: seq<(Actor, Request)>)
    requires Bootstrapped(o)
    ensures Safe(Applied(o, log))
    decreases |log|
  {
    if log == [] {
      BootstrappedIsSafe(o);
    } else {
      AlwaysSafe(o, log[..|log| - 1]);
      StepIsSafe(Applied(o, log[..|log| - 1]), log[|log| - 1].0, log[|log| - 1].1);
    }
  }

  /** The next request finds the organization as the ones before it left it. */
  lemma {:induction false} AppliedNext(o: Org, log: seq<(Actor, Request)>, act: Actor, r: Request)
    ensures Applied(o, log + [(act, r)]) == Apply(Applied(o, log), act, r) && Applied(o, []) == o
  {
    assert (log + [(act, r)])[..|log|] == log;
  }

  // ---- Requests that interleave ----

  /** A request that has loaded what it goes by, or has passed its guard and is about to write. */
  datatype Stage = Loaded(act: Actor, r: Request, seen: Org) | Ready(p: Pending)

  /** The store, what it was before each write so far, and the requests under way. */
  datatype Server = Server(org: Org, past: seq<Org>, stages: map<nat, Stage>)

  /** A request loads, or runs its guard, or writes. A read may lag behind by some writes, as the
      reads of DynamoDB do; with the SQL stores the lag is 0. */
  datatype Move = Load(t: nat, act: Actor, r: Request, lag: nat) | Guard(t: nat, lag: nat) | Commit(t: nat)

  function ViewOf(s: Server, lag: nat): Org {
    if 0 < lag <= |s.past| then s.past[|s.past| - lag] else s.org
  }

  /** After the first login's transaction. If the server was started in open mode, that login has
      a write of its own still to make, behind no guard. */
  function Start(o: Org, startOpen: bool): Server {
    Server(o, [], if startOpen then map[0 := Ready(SaveOpenMode(true))] else map[])
  }

  function AfterMove(s: Server, m: Move): Server {
    match m
    case Load(t, act, r, lag) =>
      if t in s.stages then s else s.(stages := s.stages[t := Loaded(act, r, ViewOf(s, lag))])
    case Guard(t, lag) =>
      if t in s.stages && s.stages[t].Loaded? then
        var l, now := s.stages[t], ViewOf(s, lag);
        if Verdict(l.seen, now, l.act, l.r).Ok?
        then s.(stages := s.stages[t := Ready(Prepared(l.seen, now, l.act, l.r))])
        else s.(stages := s.stages - {t})
      else s
    case Commit(t) =>
      if t in s.stages && s.stages[t].Ready?
      then Server(Save(s.org, s.stages[t].p), s.past + [s.org], s.stages - {t}) else s
  }

  function AfterMoves(s: Server, moves: seq<Move>): Server {
    if moves == [] then s else AfterMove(AfterMoves(s, moves[..|moves| - 1]), moves[|moves| - 1])
  }

  // ---- What the moves do ----

  /** A read without lag sees the store; one that lags by a write more sees what one that lagged by
      one less saw before the last write. */
  lemma {:induction false} LagMeaning(s: Server, t: nat, lag: nat)
    requires t in s.stages && s.stages[t].Ready? && lag <= |s.past|
    ensures ViewOf(s, 0) == s.org
    ensures var after := AfterMove(s, Commit(t));
      after.org == Save(s.org, s.stages[t].p) && ViewOf(after, lag + 1) == ViewOf(s, lag)
  {
  }

  lemma {:induction false} OtherMoves(s: Server, m: Move, t: nat)
    requires m.t != t
    ensures t in s.stages <==> t in AfterMove(s, m).stages
    ensures t in s.stages ==> AfterMove(s, m).stages[t] == s.stages[t]
    ensures !m.Commit? ==> AfterMove(s, m).org == s.org
  {
  }

  lemma {:induction false} OthersMove(s: Server, moves: seq<Move>, t: nat)
    requires forall i :: 0 <= i < |moves| ==> moves[i].t != t
    ensures t in s.stages <==> t in AfterMoves(s, moves).stages
    ensures t in s.stages ==> AfterMoves(s, moves).stages[t] == s.stages[t]
    decreases |moves|
  {
    if moves != [] {
      OthersMove(s, moves[..|moves| - 1], t);
      OtherMoves(AfterMoves(s, moves[..|moves| - 1]), moves[|moves| - 1], t);
    }
  }

  /** The store after request t has made its checks. */
  function Checked(s: Server, t: nat, act: Actor, r: Request): Server {
    AfterMove(AfterMove(s, Load(t, act, r, 0)), Guard(t, 0))
  }

  /** A request that has passed its checks writes what they prepared, whatever others do before it
      writes; one that has not passed them never writes. */
  lemma {:induction false} DelayedRequest(s: Server, t: nat, act: Actor, r: Request, between: seq<Move>)
    requires t !in s.stages && forall i :: 0 <= i < |between| ==> between[i].t != t
    ensures var later := AfterMoves(Checked(s, t, act, r), between);
      AfterMove(later, Commit(t)).org
      == if Verdict(s.org, s.org, act, r).Ok? then Save(later.org, WriteOf(s.org, act, r)) else later.org
  {
    OthersMove(Checked(s, t, act, r), between, t);
  }

  /** A request nothing comes between does what it does in one step. */
  lemma {:induction false} UndisturbedRequest(s: Server, t: nat, act: Actor, r: Request)
    requires t !in s.stages
    ensures AfterMove(Checked(s, t, act, r), Commit(t)).org == Apply(s.org, act, r)
    ensures AfterMove(Checked(s, t, act, r), Commit(t)).stages == s.stages
  {
    var loaded := s.(stages := s.stages[t := Loaded(act, r, s.org)]);
    assert loaded.stages - {t} == s.stages;
    if Verdict(s.org, s.org, act, r).Ok? {
      assert loaded.stages[t := Ready(WriteOf(s.org, act, r))] - {t} == s.stages;
    }
  }

  /** The bootstrap's own write, if the server was started in open mode, is the only one pending at
      the start. */
  lemma {:induction false} BootstrapWrites(o: Org, startOpen: bool)
    ensures Start(o, startOpen).org == o
    ensures Start(o, startOpen).stages.Keys == if startOpen then {0} else {}
    ensures startOpen ==> AfterMove(Start(o, true), Commit(0)).org == o.(openMode := true)
  {
  }

  /** Safe at the start and after every move. */
  ghost predicate SafeThroughout(s: Server, moves: seq<Move>) {
    forall n :: 0 <= n <= |moves| ==> Safe(AfterMoves(s, moves[..n]).org)
  }

  predicate Writes(s: Server, m: Move) {
    m.Commit? && m.t in s.stages && s.stages[m.t].Ready?
  }

  /** If move n writes, the condition of its write still holds. */
  ghost predicate TimelyAt(s: Server, moves: seq<Move>, n: nat)
    requires n < |moves|
  {
    var now := AfterMoves(s, moves[..n]);
    Writes(now, moves[n]) ==> StillSafe(now.org, now.stages[moves[n].t].p)
  }

  /** Every write is made while its condition still holds. */
  ghost predicate TimelyCommits(s: Server, moves: seq<Move>) {
    forall n :: 0 <= n < |moves| ==> TimelyAt(s, moves, n)
  }

  lemma {:induction false} MoveSafeIff(s: Server, m: Move)
    requires Safe(s.org)
    ensures Safe(AfterMove(s, m).org) <==>
              (Writes(s, m) ==> StillSafe(s.org, s.stages[m.t].p))
  {
    if Writes(s, m) {
      DelayedWriteSafeIff(s.org, s.stages[m.t].p);
    }
  }

  lemma {:induction false} OneMoreMove(s: Server, moves: seq<Move>, n: nat)
    requires n < |moves|
    ensures AfterMoves(s, moves[..n + 1]) == AfterMove(AfterMoves(s, moves[..n]), moves[n])
  {
    assert moves[..n + 1][..n] == moves[..n];
  }

  /** One move of a run: safety is kept if and only if the move, if it writes, is timely. */
  lemma {:induction false} OneMoreIsSafeIff(s: Server, moves: seq<Move>, n: nat)
    requires n < |moves| && Safe(AfterMoves(s, moves[..n]).org)
    ensures Safe(AfterMoves(s, moves[..n + 1]).org) <==> TimelyAt(s, moves, n)
  {
    OneMoreMove(s, moves, n);
    MoveSafeIff(AfterMoves(s, moves[..n]), moves[n]);
  }

  lemma {:induction false} TimelyIsSafe(s: Server, moves: seq<Move>, n: nat)
    requires Safe(s.org) && TimelyCommits(s, moves) && n <= |moves|
    ensures Safe(AfterMoves(s, moves[..n]).org)
  {
    if n > 0 {
      TimelyIsSafe(s, moves, n - 1);
      OneMoreIsSafeIff(s, moves, n - 1);
    }
  }

  lemma {:induction false} SafeIsTimely(s: Server, moves: seq<Move>)
    requires SafeThroughout(s, moves)
    ensures TimelyCommits(s, moves)
  {
    forall n | 0 <= n < |moves| ensures TimelyAt(s, moves, n) {
      assert Safe(AfterMoves(s, moves[..n]).org) && Safe(AfterMoves(s, moves[..n + 1]).org);
      OneMoreIsSafeIff(s, moves, n);
    }
  }

  /** The exact condition for interleaved requests: from a bootstrapped organization the three
      rules hold after every move if and only if each write is made while its condition holds. */
  lemma {:induction false} InterleavedSafeIff(o: Org, startOpen: bool, moves: seq<Move>)
    requires Bootstrapped(o)
    ensures SafeThroughout(Start(o, startOpen), moves) <==> TimelyCommits(Start(o, startOpen), moves)
  {
    var s := Start(o, startOpen);
    BootstrappedIsSafe(o);
    if TimelyCommits(s, moves) {
      forall n | 0 <= n <= |moves| ensures Safe(AfterMoves(s, moves[..n]).org) {
        TimelyIsSafe(s, moves, n);
      }
    }
    if SafeThroughout(s, moves) {
      SafeIsTimely(s, moves);
    }
  }

  // ---- Runs in which it fails ----

  /** What request r of a caller writes when its checks are made on the store as it is now. */
  function WriteOf(o: Org, act: Actor, r: Request): Pending { Prepared(o, o, act, r) }

  /** Two admins who demote each other at the same time: both checks pass, both writes land, and
      no active admin is left. */
  lemma {:induction false} CrossedDemotionsLeaveNoAdmin(o: Org, a: string, b: string)
    requires a != b && a in o.users && b in o.users && ActiveAdmin(o.users[a]) && ActiveAdmin(o.users[b])
    requires forall u :: u in o.users && ActiveAdmin(o.users[u]) ==> u == a || u == b
    ensures var ra := PatchUser(b, Some(Member), None);
      var rb := PatchUser(a, Some(Member), None);
      && Verdict(o, o, Actor(a, Admin), ra).Ok? && Verdict(o, o, Actor(b, Admin), rb).Ok?
      && !HasActiveAdmin(Save(Save(o, WriteOf(o, Actor(a, Admin), ra)), WriteOf(o, Actor(b, Admin), rb)).users)
  {
    assert a in OtherActiveAdmins(o.users, b) && b in OtherActiveAdmins(o.users, a);
  }

  /** The run of the next two lemmas: a promotes x and is then demoted by x, in whose favour the
      guard decides. */
  lemma {:induction false} HandOver(o: Org, a: string, x: string) returns (demoted: Org)
    requires a != x && o.users.Keys == {a, x} && o.users[a] == User(Admin, Active)
    ensures var promoted := Apply(o, Actor(a, Admin), PatchUser(x, Some(Admin), Some(Active)));
      && Answer(promoted, Actor(x, Admin), PatchUser(a, Some(Member), None)).Ok?
      && demoted == Apply(promoted, Actor(x, Admin), PatchUser(a, Some(Member), None))
    ensures demoted == o.(users := map[a := User(Member, Active), x := User(Admin, Active)])
  {
    var promoted := Apply(o, Actor(a, Admin), PatchUser(x, Some(Admin), Some(Active)));
    assert x in OtherActiveAdmins(promoted.users, a);
    demoted := Apply(promoted, Actor(x, Admin), PatchUser(a, Some(Member), None));
    assert demoted.users == map[a := User(Member, Active), x := User(Admin, Active)];
  }

  /** A status patch needs no guard, but it writes back the whole record it loaded: it undoes a
      promotion made meanwhile, even when the promoted user has become the only admin. */
  lemma {:induction false} StaleRecordUndoesPromotion(o: Org, a: string, x: string) returns (demoted: Org)
    requires a != x && o.users == map[a := User(Admin, Active), x := User(Member, Pending)]
    ensures var stale := PatchUser(x, None, Some(Active));
      && Verdict(o, o, Actor(a, Admin), stale).Ok?
      && demoted == Apply(Apply(o, Actor(a, Admin), PatchUser(x, Some(Admin), Some(Active))),
                          Actor(x, Admin), PatchUser(a, Some(Member), None))
      && HasActiveAdmin(demoted.users) && !HasActiveAdmin(Save(demoted, WriteOf(o, Actor(a, Admin), stale)).users)
  {
    demoted := HandOver(o, a, x);
    assert ActiveAdmin(demoted.users[x]);
  }

  /** The same by a user's own doing: a language patch, or a login that refreshes the address, writes
      back the role it loaded. */
  lemma {:induction false} OwnRecordUndoesPromotion(o: Org, a: string, x: string, login: bool) returns (demoted: Org)
    requires a != x && o.users == map[a := User(Admin, Active), x := User(Member, Active)]
    ensures var own := OwnRecord(x, login);
      && Verdict(o, o, Actor(x, Member), own).Ok?
      && demoted == Apply(Apply(o, Actor(a, Admin), PatchUser(x, Some(Admin), Some(Active))),
                          Actor(x, Admin), PatchUser(a, Some(Member), None))
      && HasActiveAdmin(demoted.users) && !HasActiveAdmin(Save(demoted, WriteOf(o, Actor(x, Member), own)).users)
  {
    demoted := HandOver(o, a, x);
    assert ActiveAdmin(demoted.users[x]);
  }

  /** The members of a workspace after a has granted x the admin role and left. */
  lemma {:induction false} HandOverWorkspace(o: Org, ws: string, a: string, x: string) returns (left: Org)
    requires a != x && ws in o.workspaces && o.workspaces[ws] == map[a := Admin] && x in o.users
    ensures var act := Actor(a, Admin);
      var granted := Apply(o, act, SetMember(ws, x, Admin));
      && Answer(granted, act, RemoveMember(ws, a)).Ok? && left == Apply(granted, act, RemoveMember(ws, a))
    ensures left == o.(workspaces := o.workspaces[ws := map[x := Admin]])
  {
    var act := Actor(a, Admin);
    var granted := Apply(o, act, SetMember(ws, x, Admin));
    assert granted.workspaces[ws] == map[a := Admin, x := Admin];
    assert x in OtherAdmins(granted.workspaces[ws], a);
    left := Apply(granted, act, RemoveMember(ws, a));
    assert map[a := Admin, x := Admin] - {a} == map[x := Admin];
    assert left.workspaces == o.workspaces[ws := map[x := Admin]];
  }

  /** A request that adds x as a plain member, checked while x was none: where the store overwrites,
      it demotes the admin that x has become meanwhile. */
  lemma {:induction false} StaleAddDemotesLastAdmin(o: Org, ws: string, a: string, x: string) returns (left: Org)
    requires a != x && ws in o.workspaces && o.workspaces[ws] == map[a := Admin] && x in o.users
    ensures var act, stale := Actor(a, Admin), SetMember(ws, x, Member);
      && Verdict(o, o, act, stale).Ok?
      && left == Apply(Apply(o, act, SetMember(ws, x, Admin)), act, RemoveMember(ws, a))
      && HasAdmin(MembersOf(left, ws))
      && (HasAdmin(MembersOf(Save(left, WriteOf(o, act, stale)), ws)) <==> !o.overwrites)
  {
    left := HandOverWorkspace(o, ws, a, x);
    assert MembersOf(left, ws)[x].Admin?;
  }

  /** A removal of x, checked while x was no member, removes the admin that x has become. */
  lemma {:induction false} StaleRemovalDropsLastAdmin(o: Org, ws: string, a: string, x: string) returns (left: Org)
    requires a != x && ws in o.workspaces && o.workspaces[ws] == map[a := Admin] && x in o.users
    ensures var act, stale := Actor(a, Admin), RemoveMember(ws, x);
      && Verdict(o, o, act, stale).Ok?
      && left == Apply(Apply(o, act, SetMember(ws, x, Admin)), act, RemoveMember(ws, a))
      && HasAdmin(MembersOf(left, ws)) && !HasAdmin(MembersOf(Save(left, WriteOf(o, act, stale)), ws))
  {
    left := HandOverWorkspace(o, ws, a, x);
    assert MembersOf(left, ws)[x].Admin?;
  }

  /** Enabling open mode and creating a workspace at the same time: both checks pass, and in
      either order the writes leave a workspace in open mode. */
  lemma {:induction false} CrossedCreationBreaksOpenMode(o: Org, admin: string, ws: string, name: string)
    requires o.workspaces == map[] && !o.openMode && name != ""
    ensures var act := Actor(admin, Admin);
      var on := WriteOf(o, act, UpdateSettings(true, Some(true)));
      var create := WriteOf(o, act, CreateWorkspace(ws, name));
      && Verdict(o, o, act, UpdateSettings(true, Some(true))).Ok?
      && Verdict(o, o, act, CreateWorkspace(ws, name)).Ok?
      && !Safe(Save(Save(o, on), create)) && !Safe(Save(Save(o, create), on))
  {
    var w: map<string, map<string, Role>> := map[ws := map[admin := Admin]];
    assert ws in w;
  }

  /** A settings patch that leaves open mode alone writes back the value it loaded: it restores
      open mode after it was switched off and a workspace was created. */
  lemma {:induction false} StaleSettingsRestoreOpenMode(o: Org, admin: string, ws: string, name: string)
    requires o.workspaces == map[] && o.openMode && name != ""
    ensures var act := Actor(admin, Admin);
      var stale := UpdateSettings(true, None);
      var off := Apply(o, act, UpdateSettings(true, Some(false)));
      var created := Apply(off, act, CreateWorkspace(ws, name));
      && Verdict(o, o, act, stale).Ok? && !created.openMode && ws in created.workspaces
      && !Safe(Save(created, WriteOf(o, act, stale)))
  {
  }
}

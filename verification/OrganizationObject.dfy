/** The organization handlers as they change the store: each method is one request, with the
    counting loops its guard runs over the listed users or members. */
module OrganizationObject {
  import opened Common
  import opened Organization

  /** The store lists rows in some order, each once. */
  ghost predicate Lists<V>(listing: seq<(string, V)>, m: map<string, V>) {
    && (forall i :: 0 <= i < |listing| ==> listing[i].0 in m && m[listing[i].0] == listing[i].1)
    && (forall i, j :: 0 <= i < j < |listing| ==> listing[i].0 != listing[j].0)
    && (forall k :: k in m ==> exists i :: 0 <= i < |listing| && listing[i].0 == k)
  }

  /** The names in the first n rows. */
  ghost function Named<V>(listing: seq<(string, V)>, n: nat): set<string>
    requires n <= |listing|
  {
    set i | 0 <= i < n :: listing[i].0
  }

  lemma {:induction false} NamedNext<V>(listing: seq<(string, V)>, m: map<string, V>, n: nat, some: set<string>)
    requires Lists(listing, m) && n < |listing|
    ensures |Named(listing, n + 1) * some| == |Named(listing, n) * some| + if listing[n].0 in some then 1 else 0
  {
    var name := listing[n].0;
    assert name !in Named(listing, n);
    assert Named(listing, n + 1) == Named(listing, n) + {name};
    if name in some {
      assert Named(listing, n + 1) * some == Named(listing, n) * some + {name};
    } else {
      assert Named(listing, n + 1) * some == Named(listing, n) * some;
    }
  }

  lemma {:induction false} AllNamed<V>(listing: seq<(string, V)>, m: map<string, V>, some: set<string>)
    requires Lists(listing, m) && some <= m.Keys
    ensures Named(listing, |listing|) * some == some
  {
    forall k | k in some ensures k in Named(listing, |listing|) {
      var i :| 0 <= i < |listing| && listing[i].0 == k;
    }
  }

  method CountOtherActiveAdmins(listing: seq<(string, User)>, ghost users: map<string, User>, exclude: string)
    returns (n: nat)
    requires Lists(listing, users)
    ensures n == |OtherActiveAdmins(users, exclude)|
  {
    n := 0;
    ghost var all := OtherActiveAdmins(users, exclude);
    for i := 0 to |listing|
      invariant n == |Named(listing, i) * all|
    {
      NamedNext(listing, users, i, all);
      if listing[i].0 != exclude && ActiveAdmin(listing[i].1) {
        n := n + 1;
      }
    }
    AllNamed(listing, users, all);
  }

  method CountOtherWSAdmins(listing: seq<(string, Role)>, ghost members: map<string, Role>, exclude: string)
    returns (n: nat)
    requires Lists(listing, members)
    ensures n == |OtherAdmins(members, exclude)|
  {
    n := 0;
    ghost var all := OtherAdmins(members, exclude);
    for i := 0 to |listing|
      invariant n == |Named(listing, i) * all|
    {
      NamedNext(listing, members, i, all);
      if listing[i].0 != exclude && listing[i].1.Admin? {
        n := n + 1;
      }
    }
    AllNamed(listing, members, all);
  }

  /** The workspace role of a user: the first listed row that names them. */
  method FindMember(listing: seq<(string, Role)>, ghost members: map<string, Role>, user: string)
    returns (role: Option<Role>)
    requires Lists(listing, members)
    ensures role == if user in members then Some(members[user]) else None
  {
    for i := 0 to |listing|
      invariant forall k :: 0 <= k < i ==> listing[k].0 != user
    {
      if listing[i].0 == user {
        return Some(listing[i].1);
      }
    }
    role := None;
  }

  /** Added or changed, the membership is the one granted. */
  lemma {:induction false} MemberIsSet(o: Org, act: Actor, ws: string, user: string, role: Role)
    requires Verdict(o, o, act, SetMember(ws, user, role)).Ok?
    ensures Answer(o, act, SetMember(ws, user, role)).Ok? && ws in o.workspaces
    ensures Apply(o, act, SetMember(ws, user, role))
            == o.(workspaces := o.workspaces[ws := o.workspaces[ws][user := role]])
  {
  }

  /** The record stored is the one loaded, patched. */
  lemma {:induction false} RecordIsSaved(o: Org, act: Actor, id: string, role: Option<Role>, status: Option<Status>)
    requires Verdict(o, o, act, PatchUser(id, role, status)).Ok?
    ensures Answer(o, act, PatchUser(id, role, status)).Ok? && id in o.users
    ensures Apply(o, act, PatchUser(id, role, status))
            == o.(users := o.users[id := Patched(o.users[id], role, status)])
  {
  }

  class Handler {
    var users: map<string, User>
    var openMode: bool
    var workspaces: map<string, map<string, Role>>
    const overwrites: bool

    ghost function State(): Org
      reads this
    {
      Org(users, openMode, workspaces, overwrites)
    }

    constructor (first: string, openMode: bool, overwrites: bool)
      ensures Bootstrapped(State()) && this.openMode == openMode && this.overwrites == overwrites
    {
      this.overwrites := overwrites;
      users := map[first := User(Admin, Active)];
      this.openMode := openMode;
      workspaces := map[];
    }

    method PatchUser(act: Actor, id: string, role: Option<Role>, status: Option<Status>,
                     listing: seq<(string, User)>)
      returns (r: Response)
      requires Lists(listing, users)
      modifies this
      ensures r == Answer(old(State()), act, Request.PatchUser(id, role, status))
      ensures State() == Apply(old(State()), act, Request.PatchUser(id, role, status))
      ensures old(Safe(State())) ==> Safe(State())
    {
      ghost var before := State();
      if !act.role.Admin? { return Forbidden; }
      if id !in users { return NotFound; }
      var target := users[id];
      var newRole := target.role;
      if role.Some? {
        newRole := role.value;
        if newRole.OtherRole? { return BadRequest; }
      }
      var newStatus := target.status;
      if status.Some? {
        newStatus := status.value;
        if newStatus.OtherStatus? { return BadRequest; }
      }
      if Demoting(target, newRole, newStatus) {
        var remaining := CountOtherActiveAdmins(listing, users, id);
        if remaining == 0 { return Conflict; }
      }
      users := users[id := User(newRole, newStatus)];
      r := Ok;
      RecordIsSaved(before, act, id, role, status);
      if Safe(before) { StepIsSafe(before, act, Request.PatchUser(id, role, status)); }
    }

    method UpdateOrgSettings(act: Actor, wellFormed: bool, patch: Option<bool>) returns (r: Response)
      modifies this
      ensures r == Answer(old(State()), act, UpdateSettings(wellFormed, patch))
      ensures State() == Apply(old(State()), act, UpdateSettings(wellFormed, patch))
      ensures old(Safe(State())) ==> Safe(State())
    {
      ghost var before := State();
      if !act.role.Admin? { return Forbidden; }
      var wasOpenMode := openMode;
      if !wellFormed { return BadRequest; }
      var cur := if patch.Some? then patch.value else wasOpenMode;
      if cur && !wasOpenMode {
        if |workspaces| > 0 { return Conflict; }
      }
      openMode := cur;
      r := Ok;
      if Safe(before) { StepIsSafe(before, act, UpdateSettings(wellFormed, patch)); }
    }

    /** `ws` is the id the store generates: never used before. */
    method CreateWorkspace(act: Actor, ws: string, name: string) returns (r: Response)
      requires ws !in workspaces
      modifies this
      ensures r == Answer(old(State()), act, Request.CreateWorkspace(ws, name))
      ensures State() == Apply(old(State()), act, Request.CreateWorkspace(ws, name))
      ensures old(Safe(State())) ==> Safe(State())
    {
      ghost var before := State();
      if openMode { return NotFound; }
      if name == "" { return BadRequest; }
      if !act.role.Admin? && !act.role.WorkspaceManager? { return Forbidden; }
      workspaces := workspaces[ws := map[act.id := Admin]];
      r := Ok;
      if Safe(before) { StepIsSafe(before, act, Request.CreateWorkspace(ws, name)); }
    }

    method SetWorkspaceMember(act: Actor, ws: string, user: string, role: Role, listing: seq<(string, Role)>)
      returns (r: Response)
      requires ws in workspaces ==> Lists(listing, workspaces[ws])
      modifies this
      ensures r == Answer(old(State()), act, SetMember(ws, user, role))
      ensures State() == Apply(old(State()), act, SetMember(ws, user, role))
      ensures old(Safe(State())) ==> Safe(State())
    {
      ghost var before := State();
      if ws !in workspaces { return NotFound; }
      var actRole := FindMember(listing, workspaces[ws], act.id);
      if !act.role.Admin? && actRole != Some(Admin) { return Forbidden; }
      if !role.Admin? && !role.Member? { return BadRequest; }
      if user !in users { return NotFound; }
      var existing := FindMember(listing, workspaces[ws], user);
      if existing == Some(Admin) && !role.Admin? {
        var others := CountOtherWSAdmins(listing, workspaces[ws], user);
        if others == 0 { return Conflict; }
      }
      workspaces := workspaces[ws := workspaces[ws][user := role]];
      r := Ok;
      MemberIsSet(before, act, ws, user, role);
      if Safe(before) { StepIsSafe(before, act, SetMember(ws, user, role)); }
    }

    method RemoveWorkspaceMember(act: Actor, ws: string, user: string, listing: seq<(string, Role)>)
      returns (r: Response)
      requires ws in workspaces ==> Lists(listing, workspaces[ws])
      modifies this
      ensures r == Answer(old(State()), act, RemoveMember(ws, user))
      ensures State() == Apply(old(State()), act, RemoveMember(ws, user))
      ensures old(Safe(State())) ==> Safe(State())
    {
      ghost var before := State();
      if ws !in workspaces { return NotFound; }
      var actRole := FindMember(listing, workspaces[ws], act.id);
      if !act.role.Admin? && actRole != Some(Admin) { return Forbidden; }
      var members := workspaces[ws];
      for i := 0 to |listing|
        invariant State() == before
        invariant forall k :: 0 <= k < i && listing[k].0 == user && listing[k].1.Admin? ==>
          |OtherAdmins(members, user)| > 0
      {
        if listing[i].0 == user && listing[i].1.Admin? {
          var others := CountOtherWSAdmins(listing, members, user);
          if others == 0 { return Conflict; }
        }
      }
      if user !in members { return NotFound; }
      workspaces := workspaces[ws := members - {user}];
      r := Ok;
      if Safe(before) { StepIsSafe(before, act, RemoveMember(ws, user)); }
    }

    method DeleteWorkspace(act: Actor, ws: string, functions: nat, listing: seq<(string, Role)>)
      returns (r: Response)
      requires ws in workspaces ==> Lists(listing, workspaces[ws])
      modifies this
      ensures r == Answer(old(State()), act, Request.DeleteWorkspace(ws, functions))
      ensures State() == Apply(old(State()), act, Request.DeleteWorkspace(ws, functions))
      ensures old(Safe(State())) ==> Safe(State())
    {
      ghost var before := State();
      if ws !in workspaces { return NotFound; }
      var actRole := FindMember(listing, workspaces[ws], act.id);
      if !act.role.Admin? && actRole != Some(Admin) { return Forbidden; }
      if functions > 0 { return Conflict; }
      workspaces := workspaces - {ws};
      r := Ok;
      if Safe(before) { StepIsSafe(before, act, Request.DeleteWorkspace(ws, functions)); }
    }
  }
}

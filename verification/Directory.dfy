/** Groups-only access administration, as what each use case answers and leaves behind. Rules live twice:
    on disk, which transactions write, and in the enforcer's cache, which decisions read. */
module Directory {
  import opened Outcome
  import opened Policy

  datatype GroupRecord = GroupRecord(system: bool, membersVersion: nat, permissionsVersion: nat)

  datatype Account = Account(system: bool, email: string, membershipVersion: nat)

  datatype Dir = Dir(groups: map<string, GroupRecord>, users: map<string, Account>, disk: Rules, cache: Rules)

  datatype Error = Invalid | NotFound | SystemImmutable | VersionConflict | Forbidden | Escalation | AlreadyExists

  datatype Action =
    | UpdateMembers(actor: string, name: string, add: seq<string>, remove: seq<string>, expected: Option<nat>)
    | UpdatePermissions(actor: string, name: string, grant: seq<Permission>, revoke: seq<Permission>,
                        expected: Option<nat>)
    | UpdateGroups(actor: string, id: string, add: seq<string>, remove: seq<string>, expected: Option<nat>)
    | CreateUser(actor: string, id: string, email: Option<string>, names: seq<string>)
    | DeleteUser(actor: string, id: string)
    | CreateGroup(actor: string, name: string, members: seq<string>, perms: seq<Permission>, managers: seq<string>)
    | DeleteGroup(actor: string, name: string)

  const SUPERADMIN := "superadmin"

  // ---------------------------------------------------------------- requests

  /** Whoever logs in is known by a UUID, and no UUID holds an '@'. */
  predicate Principal(id: string) {
    '@' !in id
  }

  predicate Emails(ids: seq<string>) {
    forall x :: x in ids ==> !Principal(x)
  }

  /** What the API lets a client ask: it takes members of a group by email, and users by id. */
  predicate Sendable(a: Action) {
    && Principal(a.actor)
    && match a
       case UpdateMembers(_, _, add, remove, _) => Emails(add) && Emails(remove)
       case CreateGroup(_, _, members, _, _) => Emails(members)
       case UpdateGroups(_, id, _, _, _) => Principal(id)
       case CreateUser(_, id, _, _) => Principal(id)
       case DeleteUser(_, id) => Principal(id)
       case _ => true
  }

  /** The gate a request handler keeps before its use case; those on users keep none. */
  predicate Gated(r: Rules, a: Action) {
    match a
    case CreateGroup(actor, _, _, _, _) => CanGlobally(r, User(actor), OBJECT_GROUP, CREATE)
    case UpdateMembers(actor, name, _, _, _) => CanOnGroup(r, User(actor), name, WRITE)
    case UpdatePermissions(actor, name, _, _, _) => CanOnGroup(r, User(actor), name, WRITE)
    case DeleteGroup(actor, name) => CanOnGroup(r, User(actor), name, WRITE)
    case _ => true
  }

  // ---------------------------------------------------------------- reading rules

  function PermissionsOf(r: Rules, name: string): (ps: set<Permission>) {
    set g | g in r.grants && g.0 == Group(name) :: g.1
  }

  function MembersOf(r: Rules, name: string): (us: set<string>) {
    set m | m in r.members && m.1 == name :: m.0
  }

  function GroupsOf(r: Rules, id: string): (names: set<string>) {
    set m | m in r.members && m.0 == id :: m.1
  }

  /** The rules that reach a principal: what ListPermissions reports. */
  function Implicit(r: Rules, who: Subject): (ps: set<Permission>) {
    set g | g in r.grants && Reaches(r, g.0, who) :: g.1
  }

  /** RequireMembershipGrant and its siblings: the actor holds every one of these. */
  predicate Dominates(r: Rules, who: Subject, ps: set<Permission>) {
    forall p :: p in ps ==> Can(r, who, p)
  }

  // ---------------------------------------------------------------- writing rules

  /** What a transaction does to the rules: drop, then add. */
  datatype Delta = Delta(revoked: set<(Subject, Permission)>, granted: set<(Subject, Permission)>,
                         left: set<(string, string)>, joined: set<(string, string)>)

  function Amend(r: Rules, t: Delta): (r': Rules) {
    Rules((r.grants - t.revoked) + t.granted, (r.members - t.left) + t.joined)
  }

  function Grants(name: string, ps: set<Permission>): (gs: set<(Subject, Permission)>) {
    set p | p in ps :: (Group(name), p)
  }

  function Joins(users: set<string>, names: set<string>): (ms: set<(string, string)>) {
    set u, n | u in users && n in names :: (u, n)
  }

  function Elements<T(==)>(s: seq<T>): (e: set<T>) {
    set x | x in s
  }

  // ---------------------------------------------------------------- shared checks

  /** CheckVersion: no expectation always passes. */
  predicate Conflicts(expected: Option<nat>, current: nat) {
    expected.Some? && expected.value != current
  }

  /** loadMutableGroup. */
  function MutableFault(groups: map<string, GroupRecord>, name: string): (e: Option<Error>) {
    if name !in groups then Some(NotFound)
    else if groups[name].system then Some(SystemImmutable)
    else None
  }

  /** loadGroupsByNames: the first group that is missing or immutable. */
  function LoadFault(groups: map<string, GroupRecord>, names: seq<string>): (e: Option<Error>) {
    if names == [] then None
    else var first := LoadFault(groups, names[..|names| - 1]);
      if first.Some? then first else MutableFault(groups, names[|names| - 1])
  }

  /** authorizeGroupDeltas and authorizeInitialGroups. */
  predicate WritesAll(r: Rules, actor: string, names: seq<string>) {
    forall n :: n in names ==> CanOnGroup(r, User(actor), n, WRITE)
  }

  function NotIn<T(==)>(s: seq<T>, out: set<T>): (kept: seq<T>) {
    if s == [] then []
    else if s[|s| - 1] in out then NotIn(s[..|s| - 1], out)
    else NotIn(s[..|s| - 1], out) + [s[|s| - 1]]
  }

  function KeptIn<T(==)>(s: seq<T>, within: set<T>): (kept: seq<T>) {
    if s == [] then []
    else if s[|s| - 1] in within then KeptIn(s[..|s| - 1], within) + [s[|s| - 1]]
    else KeptIn(s[..|s| - 1], within)
  }

  predicate Overlap<T(==)>(a: seq<T>, b: seq<T>) {
    exists x :: x in a && x in b
  }

  /** A DNS-1123 label, as group names must be. */
  predicate CanonicalName(name: string) {
    && 1 <= |name| <= 63
    && (forall c :: c in name ==> LowerAlnum(c) || c == '-')
    && LowerAlnum(name[0])
    && LowerAlnum(name[|name| - 1])
  }

  predicate LowerAlnum(c: char) {
    'a' <= c <= 'z' || '0' <= c <= '9'
  }

  /** validatePermissionAssignment, against the permission catalog. */
  predicate Assignable(p: Permission) {
    || (p.obj == OBJECT_NAMESPACE && p.action in {READ, WRITE, CREATE, DELETE, ALL} &&
        (p.domain == ALL || NAMESPACE_PREFIX <= p.domain))
    || (p.obj == OBJECT_GROUP && p.action in {READ, WRITE, CREATE, DELETE, ALL} &&
        (p.domain == ALL || GROUP_PREFIX <= p.domain))
    || (p.obj == OBJECT_USER && p.action in {READ, WRITE, CREATE, ALL} && p.domain == ALL)
    || (p.obj in {"token", "webhook"} && p.action in {READ, WRITE, CREATE, DELETE, ALL} && p.domain == ALL)
    || (p.obj == "client" && p.action == READ && p.domain == ALL)
  }

  // ---------------------------------------------------------------- the use cases

  function Commit(d: Dir, groups: map<string, GroupRecord>, users: map<string, Account>, t: Delta): (d': Dir) {
    Dir(groups, users, Amend(d.disk, t), Amend(d.cache, t))
  }

  function ManagerGrant(name: string): (p: Permission) {
    Permission(GroupResource(name), OBJECT_GROUP, WRITE)
  }

  function CreationDelta(a: Action): (t: Delta)
    requires a.CreateGroup?
  {
    Delta({}, Grants(a.name, Elements(a.perms)) + (set m | m in a.managers :: (Group(m), ManagerGrant(a.name))),
          {}, Joins(Elements(a.members), {a.name}))
  }

  /** What a use case other than a deletion does to the rules, decided on what it reads. */
  function DeltaOf(d: Dir, a: Action): (t: Delta)
    requires !a.DeleteUser? && !a.DeleteGroup?
  {
    match a
    case UpdateMembers(_, name, add, remove, _) =>
      var current := MembersOf(d.cache, name);
      Delta({}, {}, Joins(Elements(remove) * current, {name}), Joins(Elements(add) - current, {name}))
    case UpdatePermissions(_, name, grant, revoke, _) =>
      var current := PermissionsOf(d.disk, name);
      Delta(Grants(name, Elements(revoke) * current), Grants(name, Elements(grant) - current), {}, {})
    case UpdateGroups(_, id, add, remove, _) =>
      var current := GroupsOf(d.cache, id);
      Delta({}, {}, Joins({id}, Elements(KeptIn(remove, current))), Joins({id}, Elements(NotIn(add, current))))
    case CreateUser(_, id, _, names) => Delta({}, {}, {}, Joins({id}, Elements(names)))
    case CreateGroup(_, _, _, _, _) => CreationDelta(a)
  }

  function MembersUpdated(d: Dir, a: Action): (r: Result<Dir, Error>)
    requires a.UpdateMembers?
  {
    var fault := MutableFault(d.groups, a.name);
    if Overlap(a.add, a.remove) then Err(Invalid)
    else if fault.Some? then Err(fault.value)
    else if Conflicts(a.expected, d.groups[a.name].membersVersion) then Err(VersionConflict)
    else
      var current := MembersOf(d.cache, a.name);
      var added := Elements(a.add) - current;
      var removed := Elements(a.remove) * current;
      if added != {} && !Dominates(d.cache, User(a.actor), PermissionsOf(d.cache, a.name)) then Err(Escalation)
      else if added == {} && removed == {} then Ok(d)
      else
        var g := d.groups[a.name];
        Ok(Commit(d, d.groups[a.name := g.(membersVersion := g.membersVersion + 1)], d.users, DeltaOf(d, a)))
  }

  function PermissionsUpdated(d: Dir, a: Action): (r: Result<Dir, Error>)
    requires a.UpdatePermissions?
  {
    var fault := MutableFault(d.groups, a.name);
    if Overlap(a.grant, a.revoke) || !(forall p :: p in a.grant ==> Assignable(p)) then Err(Invalid)
    else if fault.Some? then Err(fault.value)
    else if Conflicts(a.expected, d.groups[a.name].permissionsVersion) then Err(VersionConflict)
    else
      var current := PermissionsOf(d.disk, a.name);
      var added := Elements(a.grant) - current;
      var removed := Elements(a.revoke) * current;
      if !Dominates(d.cache, User(a.actor), added) then Err(Escalation)
      else if added == {} && removed == {} then Ok(d)
      else if MembersOf(d.cache, a.name) != {} && !Dominates(d.cache, User(a.actor), (current - removed) + added) then
        Err(Escalation)
      else
        var g := d.groups[a.name];
        Ok(Commit(d, d.groups[a.name := g.(permissionsVersion := g.permissionsVersion + 1)], d.users, DeltaOf(d, a)))
  }

  /** Every group on the list passes RequireMembershipGrant. */
  predicate MayGrantAll(r: Rules, actor: string, names: set<string>) {
    forall n :: n in names ==> Dominates(r, User(actor), PermissionsOf(r, n))
  }

  /** Why computeGroupDelta refuses, if it does. */
  function DeltaFault(d: Dir, actor: string, id: string, add: seq<string>, remove: seq<string>): (e: Option<Error>) {
    var current := GroupsOf(d.cache, id);
    if !(current <= d.groups.Keys) then Some(NotFound)
    else if !WritesAll(d.cache, actor, add + remove) then Some(Forbidden)
    else
      var addFault := LoadFault(d.groups, NotIn(add, current));
      var removeFault := LoadFault(d.groups, KeptIn(remove, current));
      if addFault.Some? then addFault
      else if removeFault.Some? then removeFault
      else if !MayGrantAll(d.cache, actor, Elements(NotIn(add, current))) then Some(Escalation)
      else None
  }

  function GroupsUpdated(d: Dir, a: Action): (r: Result<Dir, Error>)
    requires a.UpdateGroups?
  {
    if Overlap(a.add, a.remove) then Err(Invalid)
    else if a.id !in d.users then Err(NotFound)
    else if d.users[a.id].system then Err(SystemImmutable)
    else if Conflicts(a.expected, d.users[a.id].membershipVersion) then Err(VersionConflict)
    else
      var fault := DeltaFault(d, a.actor, a.id, a.add, a.remove);
      if fault.Some? then Err(fault.value)
      else
        var added := NotIn(a.add, GroupsOf(d.cache, a.id));
        var removed := KeptIn(a.remove, GroupsOf(d.cache, a.id));
        if added == [] && removed == [] then Ok(d)
        else
          var u := d.users[a.id];
          Ok(Commit(d, d.groups, d.users[a.id := u.(membershipVersion := u.membershipVersion + 1)], DeltaOf(d, a)))
  }

  /** Why applyInitialGroups refuses, if it does. */
  function InitialFault(groups: map<string, GroupRecord>, r: Rules, actor: string, names: seq<string>)
    : (e: Option<Error>)
  {
    var fault := LoadFault(groups, names);
    if !WritesAll(r, actor, names) then Some(Forbidden)
    else if fault.Some? then fault
    else if !MayGrantAll(r, actor, Elements(names)) then Some(Escalation)
    else None
  }

  /** preauthorize. */
  predicate MayCreateUser(r: Rules, actor: string, names: seq<string>) {
    CanGlobally(r, User(actor), OBJECT_USER, CREATE) || (names != [] && WritesAll(r, actor, names))
  }

  function UserCreated(d: Dir, a: Action): (r: Result<Dir, Error>)
    requires a.CreateUser?
  {
    if a.email.None? then Err(Invalid)
    else if !MayCreateUser(d.cache, a.actor, a.names) then Err(Forbidden)
    else if a.id in d.users || (exists u :: u in d.users && d.users[u].email == a.email.value) then Err(AlreadyExists)
    else
      var fault := InitialFault(d.groups, d.cache, a.actor, a.names);
      if fault.Some? then Err(fault.value)
      else Ok(Commit(d, d.groups, d.users[a.id := Account(false, a.email.value, 1)], DeltaOf(d, a)))
  }

  /** RequireWriteUser. */
  function WriteUserFault(d: Dir, actor: string, id: string): (e: Option<Error>) {
    if CanGlobally(d.cache, User(actor), OBJECT_USER, WRITE) then None
    else if !(GroupsOf(d.cache, id) <= d.groups.Keys) then Some(NotFound)
    else if exists n :: n in GroupsOf(d.cache, id) && CanOnGroup(d.cache, User(actor), n, WRITE) then None
    else Some(Forbidden)
  }

  function UserDeleted(d: Dir, a: Action): (r: Result<Dir, Error>)
    requires a.DeleteUser?
  {
    if a.id !in d.users then Err(NotFound)
    else if a.actor == a.id then Err(Invalid)
    else
      var fault := WriteUserFault(d, a.actor, a.id);
      if fault.Some? then Err(fault.value)
      else if !Dominates(d.cache, User(a.actor), Implicit(d.cache, User(a.id))) then Err(Escalation)
      else if MembersOf(d.cache, SUPERADMIN) == {a.id} then Err(Invalid)
      else Ok(Dir(d.groups, d.users - {a.id}, WithoutUser(d.disk, a.id), EvictUser(d.cache, a.id)))
  }

  /** On disk, deleting a subject drops membership rules and no permission rule. */
  function WithoutUser(r: Rules, id: string): (r': Rules) {
    r.(members := set m | m in r.members && m.0 != id)
  }

  /** In the cache, Casbin's DeleteUser also drops the permission rules naming the subject. */
  function EvictUser(r: Rules, id: string): (r': Rules) {
    Rules(set g | g in r.grants && g.0 != User(id), set m | m in r.members && m.0 != id)
  }

  function WithoutGroup(r: Rules, name: string): (r': Rules) {
    r.(members := set m | m in r.members && m.1 != name)
  }

  function EvictGroup(r: Rules, name: string): (r': Rules) {
    Rules(set g | g in r.grants && g.0 != Group(name), set m | m in r.members && m.1 != name)
  }

  /** The manager half of authorizeCreate: the first manager group that may not be one. */
  function ManagerFault(d: Dir, actor: string, managers: seq<string>, perms: set<Permission>): (e: Option<Error>) {
    if managers == [] then None
    else
      var m := managers[|managers| - 1];
      var first := ManagerFault(d, actor, managers[..|managers| - 1], perms);
      if first.Some? then first
      else if !CanOnGroup(d.cache, User(actor), m, WRITE) then Some(Forbidden)
      else if m !in d.groups then Some(NotFound)
      else if !Dominates(d.cache, Group(m), perms) then Some(Escalation)
      else None
  }

  /** Why a group may not be created, in the order the reasons are looked for. */
  function CreationFault(d: Dir, a: Action): (e: Option<Error>)
    requires a.CreateGroup?
  {
    var fault := ManagerFault(d, a.actor, a.managers, Elements(a.perms));
    if !Dominates(d.cache, User(a.actor), Elements(a.perms)) then Some(Escalation)
    else if fault.Some? then fault
    else if a.name in d.groups then Some(AlreadyExists)
    else if !CanonicalName(a.name) then Some(Invalid)
    else None
  }

  function GroupCreated(d: Dir, a: Action): (r: Result<Dir, Error>)
    requires a.CreateGroup?
  {
    var fault := CreationFault(d, a);
    if fault.Some? then Err(fault.value)
    else
      var g := GroupRecord(false, if a.members == [] then 0 else 1, if a.perms == [] then 0 else 1);
      Ok(Commit(d, d.groups[a.name := g], d.users, DeltaOf(d, a)))
  }

  function GroupDeleted(d: Dir, a: Action): (r: Result<Dir, Error>)
    requires a.DeleteGroup?
  {
    var fault := MutableFault(d.groups, a.name);
    if fault.Some? then Err(fault.value)
    else Ok(Dir(d.groups - {a.name}, d.users, WithoutGroup(d.disk, a.name), EvictGroup(d.cache, a.name)))
  }

  /** One use case, its rule changes already replayed onto the cache. */
  function Perform(d: Dir, a: Action): (r: Result<Dir, Error>) {
    match a
    case UpdateMembers(_, _, _, _, _) => MembersUpdated(d, a)
    case UpdatePermissions(_, _, _, _, _) => PermissionsUpdated(d, a)
    case UpdateGroups(_, _, _, _, _) => GroupsUpdated(d, a)
    case CreateUser(_, _, _, _) => UserCreated(d, a)
    case DeleteUser(_, _) => UserDeleted(d, a)
    case CreateGroup(_, _, _, _, _) => GroupCreated(d, a)
    case DeleteGroup(_, _) => GroupDeleted(d, a)
  }

  /** A refused request changes nothing. */
  function After(d: Dir, a: Action): (d': Dir) {
    match Perform(d, a)
    case Ok(d') => d'
    case Err(_) => d
  }

  // ---------------------------------------------------------------- recorded operations

  datatype Op =
    | AddRule(rule: (Subject, Permission))
    | RemoveRule(rule: (Subject, Permission))
    | AddMember(member: (string, string))
    | RemoveMember(member: (string, string))
    | DropUser(id: string)
    | DropGroup(name: string)

  /** applyOpsToCache, one operation. */
  function ReplayOne(r: Rules, op: Op): (r': Rules) {
    match op
    case AddRule(g) => r.(grants := r.grants + {g})
    case RemoveRule(g) => r.(grants := r.grants - {g})
    case AddMember(m) => r.(members := r.members + {m})
    case RemoveMember(m) => r.(members := r.members - {m})
    case DropUser(id) => EvictUser(r, id)
    case DropGroup(name) => EvictGroup(r, name)
  }

  function Replay(r: Rules, ops: seq<Op>): (r': Rules) {
    if ops == [] then r else ReplayOne(Replay(r, ops[..|ops| - 1]), ops[|ops| - 1])
  }

  function Each<T>(s: seq<T>, op: T -> Op): (ops: seq<Op>)
    ensures |ops| == |s| && forall i :: 0 <= i < |s| ==> ops[i] == op(s[i])
  {
    seq(|s|, i requires 0 <= i < |s| => op(s[i]))
  }

  function RuleAdds(s: seq<(Subject, Permission)>): (ops: seq<Op>) {
    Each(s, g => AddRule(g))
  }

  function RuleRemovals(s: seq<(Subject, Permission)>): (ops: seq<Op>) {
    Each(s, g => RemoveRule(g))
  }

  function MemberAdds(s: seq<(string, string)>): (ops: seq<Op>) {
    Each(s, m => AddMember(m))
  }

  function MemberRemovals(s: seq<(string, string)>): (ops: seq<Op>) {
    Each(s, m => RemoveMember(m))
  }

  function OnGroupRules(name: string, ps: seq<Permission>): (rules: seq<(Subject, Permission)>)
    ensures |rules| == |ps| && forall i :: 0 <= i < |ps| ==> rules[i] == (Group(name), ps[i])
  {
    seq(|ps|, i requires 0 <= i < |ps| => (Group(name), ps[i]))
  }

  function IntoGroup(ids: seq<string>, name: string): (pairs: seq<(string, string)>)
    ensures |pairs| == |ids| && forall i :: 0 <= i < |ids| ==> pairs[i] == (ids[i], name)
  {
    seq(|ids|, i requires 0 <= i < |ids| => (ids[i], name))
  }

  function IntoGroups(id: string, names: seq<string>): (pairs: seq<(string, string)>)
    ensures |pairs| == |names| && forall i :: 0 <= i < |names| ==> pairs[i] == (id, names[i])
  {
    seq(|names|, i requires 0 <= i < |names| => (id, names[i]))
  }

  function ManagerRules(name: string, managers: seq<string>): (rules: seq<(Subject, Permission)>)
    ensures |rules| == |managers|
    ensures forall i :: 0 <= i < |managers| ==> rules[i] == (Group(managers[i]), ManagerGrant(name))
  {
    seq(|managers|, i requires 0 <= i < |managers| => (Group(managers[i]), ManagerGrant(name)))
  }

  /** The operations an accepted use case records, in the order it writes them. */
  function OpsOf(d: Dir, a: Action): (ops: seq<Op>) {
    match a
    case UpdateMembers(_, name, add, remove, _) =>
      var current := MembersOf(d.cache, name);
      MemberRemovals(IntoGroup(KeptIn(remove, current), name)) + MemberAdds(IntoGroup(NotIn(add, current), name))
    case UpdatePermissions(_, name, grant, revoke, _) =>
      var current := PermissionsOf(d.disk, name);
      RuleRemovals(OnGroupRules(name, KeptIn(revoke, current))) + RuleAdds(OnGroupRules(name, NotIn(grant, current)))
    case UpdateGroups(_, id, add, remove, _) =>
      var current := GroupsOf(d.cache, id);
      MemberRemovals(IntoGroups(id, KeptIn(remove, current))) + MemberAdds(IntoGroups(id, NotIn(add, current)))
    case CreateUser(_, id, _, names) => MemberAdds(IntoGroups(id, names))
    case DeleteUser(_, id) => [DropUser(id)]
    case CreateGroup(_, name, members, perms, managers) =>
      RuleAdds(OnGroupRules(name, perms)) + MemberAdds(IntoGroup(members, name)) +
      RuleAdds(ManagerRules(name, managers))
    case DeleteGroup(_, name) => [DropGroup(name)]
  }
}

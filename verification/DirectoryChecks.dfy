/** What each use case of the administration asks and leaves, said on the rules themselves: it is accepted exactly
    then, is refused for exactly these reasons, and changes exactly this. */
module DirectoryChecks {
  import opened Outcome
  import opened Policy
  import opened Directory
  import opened DirectorySafety

  // ---------------------------------------------------------------- on the rules themselves

  predicate Clash<T(==)>(a: seq<T>, b: seq<T>) {
    exists i, j :: 0 <= i < |a| && 0 <= j < |b| && a[i] == b[j]
  }

  lemma ClashIsOverlap<T>(a: seq<T>, b: seq<T>)
    ensures Clash(a, b) <==> Overlap(a, b)
  {
    if Overlap(a, b) {
      var x :| x in a && x in b;
      var i :| 0 <= i < |a| && a[i] == x;
      var j :| 0 <= j < |b| && b[j] == x;
      assert a[i] == b[j];
    }
    if i, j :| 0 <= i < |a| && 0 <= j < |b| && a[i] == b[j] {
      assert a[i] in a && a[i] in b;
    }
  }

  /** A client that names the version it has seen is turned away when that is no longer the one. */
  predicate Stale(expected: Option<nat>, current: nat) {
    match expected
    case None => false
    case Some(v) => v < current || current < v
  }

  predicate Mutable(d: Dir, name: string) {
    name in d.groups && !d.groups[name].system
  }

  predicate MayWrite(d: Dir, actor: string, name: string) {
    Can(d.cache, User(actor), Permission(GroupResource(name), OBJECT_GROUP, WRITE))
  }

  /** The actor holds every rule that the cache has of a group. */
  ghost predicate HoldsGroup(d: Dir, actor: string, name: string) {
    forall p :: (Group(name), p) in d.cache.grants ==> Can(d.cache, User(actor), p)
  }

  lemma HoldsIsDominates(d: Dir, actor: string, name: string)
    ensures HoldsGroup(d, actor, name) <==> Dominates(d.cache, User(actor), PermissionsOf(d.cache, name))
  {
    assert forall p :: p in PermissionsOf(d.cache, name) <==> (Group(name), p) in d.cache.grants;
  }

  // ---------------------------------------------------------------- UpdateMembers

  ghost predicate AddsSomeone(d: Dir, a: Action)
    requires a.UpdateMembers?
  {
    exists u :: u in a.add && (u, a.name) !in d.cache.members
  }

  lemma UpdateMembersExact(d: Dir, a: Action)
    requires a.UpdateMembers?
    ensures var r, known := Perform(d, a), !Clash(a.add, a.remove) && a.name in d.groups;
            && (r == Err(Invalid) <==> Clash(a.add, a.remove))
            && (r == Err(NotFound) <==> !Clash(a.add, a.remove) && a.name !in d.groups)
            && (r == Err(SystemImmutable) <==> known && d.groups[a.name].system)
            && (r == Err(VersionConflict) <==>
                known && Mutable(d, a.name) && Stale(a.expected, d.groups[a.name].membersVersion))
            && (r == Err(Escalation) <==>
                known && Mutable(d, a.name) && !Stale(a.expected, d.groups[a.name].membersVersion) &&
                AddsSomeone(d, a) && !HoldsGroup(d, a.actor, a.name))
            && (r.Ok? <==>
                known && Mutable(d, a.name) && !Stale(a.expected, d.groups[a.name].membersVersion) &&
                (AddsSomeone(d, a) ==> HoldsGroup(d, a.actor, a.name)))
  {
    ClashIsOverlap(a.add, a.remove);
    HoldsIsDominates(d, a.actor, a.name);
    var current := MembersOf(d.cache, a.name);
    assert forall u :: u in current <==> (u, a.name) in d.cache.members;
    assert Elements(a.add) - current != {} <==> AddsSomeone(d, a) by {
      if AddsSomeone(d, a) {
        var u :| u in a.add && (u, a.name) !in d.cache.members;
        assert u in Elements(a.add) - current;
      }
    }
  }

  // ---------------------------------------------------------------- UpdatePermissions

  /** What the catalog lists: objects and the actions there are on them. */
  const CATALOG: set<(string, string)> := {
    ("namespace", "read"), ("namespace", "write"), ("namespace", "create"), ("namespace", "delete"), ("namespace", "*"),
    ("group", "read"), ("group", "write"), ("group", "create"), ("group", "delete"), ("group", "*"),
    ("user", "read"), ("user", "write"), ("user", "create"), ("user", "*"),
    ("token", "read"), ("token", "write"), ("token", "create"), ("token", "delete"), ("token", "*"),
    ("webhook", "read"), ("webhook", "write"), ("webhook", "create"), ("webhook", "delete"), ("webhook", "*"),
    ("client", "read")
  }

  /** A permission can be assigned exactly when the catalog has it, everywhere or, of namespaces and groups, on one
      that is named. */
  lemma AssignableExact(p: Permission)
    ensures Assignable(p) <==>
            && (p.obj, p.action) in CATALOG
            && (p.domain == "*" || (p.obj in {"namespace", "group"} && p.obj + ":" <= p.domain))
  {
    assert "namespace" + ":" == NAMESPACE_PREFIX && "group" + ":" == GROUP_PREFIX;
  }

  ghost predicate GrantsNew(d: Dir, a: Action, p: Permission)
    requires a.UpdatePermissions?
  {
    p in a.grant && (Group(a.name), p) !in d.disk.grants
  }

  ghost predicate RevokesOld(d: Dir, a: Action, p: Permission)
    requires a.UpdatePermissions?
  {
    p in a.revoke && (Group(a.name), p) in d.disk.grants
  }

  /** What the group will hold. */
  ghost predicate WillHold(d: Dir, a: Action, p: Permission)
    requires a.UpdatePermissions?
  {
    p in a.grant || ((Group(a.name), p) in d.disk.grants && p !in a.revoke)
  }

  /** Within the actor's own authority: what is granted anew and, if the group has members who would notice, all it
      will hold. */
  ghost predicate WithinOwn(d: Dir, a: Action)
    requires a.UpdatePermissions?
  {
    && (forall p :: GrantsNew(d, a, p) ==> Can(d.cache, User(a.actor), p))
    && ((exists u :: (u, a.name) in d.cache.members) && (exists p :: GrantsNew(d, a, p) || RevokesOld(d, a, p)) ==>
          forall p :: WillHold(d, a, p) ==> Can(d.cache, User(a.actor), p))
  }

  lemma UpdatePermissionsExact(d: Dir, a: Action)
    requires a.UpdatePermissions?
    ensures var r := Perform(d, a);
            var valid := !Clash(a.grant, a.revoke) && forall p :: p in a.grant ==> Assignable(p);
            && (r == Err(Invalid) <==> !valid)
            && (r == Err(NotFound) <==> valid && a.name !in d.groups)
            && (r == Err(SystemImmutable) <==> valid && a.name in d.groups && d.groups[a.name].system)
            && (r == Err(VersionConflict) <==>
                valid && Mutable(d, a.name) && Stale(a.expected, d.groups[a.name].permissionsVersion))
            && (r == Err(Escalation) <==>
                valid && Mutable(d, a.name) && !Stale(a.expected, d.groups[a.name].permissionsVersion) &&
                !WithinOwn(d, a))
            && (r.Ok? <==>
                valid && Mutable(d, a.name) && !Stale(a.expected, d.groups[a.name].permissionsVersion) &&
                WithinOwn(d, a))
  {
    ClashIsOverlap(a.grant, a.revoke);
    if !Overlap(a.grant, a.revoke) {
      WithinOwnExact(d, a);
    }
  }

  lemma WithinOwnExact(d: Dir, a: Action)
    requires a.UpdatePermissions? && !Overlap(a.grant, a.revoke)
    ensures var current := PermissionsOf(d.disk, a.name);
            var added, removed := Elements(a.grant) - current, Elements(a.revoke) * current;
            WithinOwn(d, a) <==>
            && Dominates(d.cache, User(a.actor), added)
            && ((added == {} && removed == {}) || MembersOf(d.cache, a.name) == {} ||
                Dominates(d.cache, User(a.actor), (current - removed) + added))
  {
    var current := PermissionsOf(d.disk, a.name);
    var added, removed := Elements(a.grant) - current, Elements(a.revoke) * current;
    assert forall p :: p in current <==> (Group(a.name), p) in d.disk.grants;
    assert forall p :: p in added <==> GrantsNew(d, a, p);
    assert forall p :: p in removed <==> RevokesOld(d, a, p);
    assert forall p :: p in (current - removed) + added <==> WillHold(d, a, p) by {
      forall p ensures p in (current - removed) + added <==> WillHold(d, a, p) {
        assert p in a.grant ==> p !in a.revoke;
      }
    }
    assert MembersOf(d.cache, a.name) != {} <==> exists u :: (u, a.name) in d.cache.members by {
      if u :| (u, a.name) in d.cache.members {
        assert u in MembersOf(d.cache, a.name);
      }
    }
    assert (added != {} || removed != {}) <==> exists p :: GrantsNew(d, a, p) || RevokesOld(d, a, p);
  }

  // ---------------------------------------------------------------- UpdateGroups

  /** The request is about a user who may be changed, and the version it names is the current one. */
  predicate Addressed(d: Dir, a: Action)
    requires a.UpdateGroups?
  {
    && !Clash(a.add, a.remove) && a.id in d.users && !d.users[a.id].system
    && !Stale(a.expected, d.users[a.id].membershipVersion)
  }

  /** Every group the user is in exists. */
  ghost predicate GroupsExist(d: Dir, id: string) {
    forall n :: (id, n) in d.cache.members ==> n in d.groups
  }

  /** Whatever would change can be changed. */
  ghost predicate Changeable(d: Dir, a: Action)
    requires a.UpdateGroups?
  {
    && (forall n :: n in a.add && (a.id, n) !in d.cache.members ==> Mutable(d, n))
    && (forall n :: n in a.remove && (a.id, n) in d.cache.members ==> Mutable(d, n))
  }

  /** The actor may write every group the request names, whether or not anything about it would change. */
  ghost predicate WritesNamed(d: Dir, a: Action)
    requires a.UpdateGroups?
  {
    forall n :: n in a.add || n in a.remove ==> MayWrite(d, a.actor, n)
  }

  /** And holds all that the groups to be joined grant. */
  ghost predicate HoldsJoined(d: Dir, a: Action)
    requires a.UpdateGroups?
  {
    forall n :: n in a.add && (a.id, n) !in d.cache.members ==> HoldsGroup(d, a.actor, n)
  }

  lemma UpdateGroupsExact(d: Dir, a: Action)
    requires a.UpdateGroups?
    ensures var r := Perform(d, a);
            && (r == Err(Invalid) <==> Clash(a.add, a.remove))
            && (r == Err(VersionConflict) <==>
                !Clash(a.add, a.remove) && a.id in d.users && !d.users[a.id].system &&
                Stale(a.expected, d.users[a.id].membershipVersion))
            && (r == Err(Forbidden) <==> Addressed(d, a) && GroupsExist(d, a.id) && !WritesNamed(d, a))
            && (r == Err(Escalation) <==>
                Addressed(d, a) && GroupsExist(d, a.id) && WritesNamed(d, a) && Changeable(d, a) && !HoldsJoined(d, a))
            && (r.Ok? <==>
                Addressed(d, a) && GroupsExist(d, a.id) && WritesNamed(d, a) && Changeable(d, a) && HoldsJoined(d, a))
  {
    ClashIsOverlap(a.add, a.remove);
    DeltaFaultExact(d, a);
  }

  /** What is missing is not found, what is the system's cannot be changed. */
  lemma UpdateGroupsNotFound(d: Dir, a: Action)
    requires a.UpdateGroups? && !Clash(a.add, a.remove)
    ensures a.id !in d.users ==> Perform(d, a) == Err(NotFound)
    ensures a.id in d.users && d.users[a.id].system ==> Perform(d, a) == Err(SystemImmutable)
    ensures Addressed(d, a) && !GroupsExist(d, a.id) ==> Perform(d, a) == Err(NotFound)
    ensures Addressed(d, a) && GroupsExist(d, a.id) && WritesNamed(d, a) && !Changeable(d, a) ==>
      Perform(d, a) in {Err(NotFound), Err(SystemImmutable)}
  {
    ClashIsOverlap(a.add, a.remove);
    DeltaFaultExact(d, a);
  }

  ghost predicate Blocked(d: Dir, a: Action, n: string)
    requires a.UpdateGroups?
  {
    n in a.add && (a.id, n) !in d.cache.members && !Mutable(d, n)
  }

  /** Groups to be joined that cannot be are the reason before any that cannot be left. */
  lemma AdditionsDecideFirst(d: Dir, a: Action)
    requires a.UpdateGroups? && Addressed(d, a) && GroupsExist(d, a.id) && WritesNamed(d, a)
    requires exists n :: Blocked(d, a, n)
    ensures (forall n :: Blocked(d, a, n) ==> n !in d.groups) ==> Perform(d, a) == Err(NotFound)
    ensures (forall n :: Blocked(d, a, n) ==> n in d.groups) ==> Perform(d, a) == Err(SystemImmutable)
  {
    ClashIsOverlap(a.add, a.remove);
    DeltaFaultExact(d, a);
    var current := GroupsOf(d.cache, a.id);
    assert forall n :: n in current <==> (a.id, n) in d.cache.members;
    NotInElements(a.add, current);
    var added := NotIn(a.add, current);
    LoadExact(d, added);
    assert forall n :: n in added && !Mutable(d, n) <==> Blocked(d, a, n);
  }

  lemma DeltaFaultExact(d: Dir, a: Action)
    requires a.UpdateGroups?
    ensures var e := DeltaFault(d, a.actor, a.id, a.add, a.remove);
            && (GroupsOf(d.cache, a.id) <= d.groups.Keys <==> GroupsExist(d, a.id))
            && (e == Some(Forbidden) <==> GroupsExist(d, a.id) && !WritesNamed(d, a))
            && (e == Some(Escalation) <==>
                GroupsExist(d, a.id) && WritesNamed(d, a) && Changeable(d, a) && !HoldsJoined(d, a))
            && (e.None? <==> GroupsExist(d, a.id) && WritesNamed(d, a) && Changeable(d, a) && HoldsJoined(d, a))
            && (!GroupsExist(d, a.id) ==> e == Some(NotFound))
            && (e.Some? ==> e.value in {NotFound, SystemImmutable, Forbidden, Escalation})
  {
    var current := GroupsOf(d.cache, a.id);
    var added, removed := NotIn(a.add, current), KeptIn(a.remove, current);
    assert forall n :: n in current <==> (a.id, n) in d.cache.members;
    NotInElements(a.add, current);
    KeptInElements(a.remove, current);
    LoadExact(d, added);
    LoadExact(d, removed);
    JoinedExact(d, a.actor, added);
    assert forall n :: n in a.add + a.remove <==> n in a.add || n in a.remove;
    assert forall n :: CanOnGroup(d.cache, User(a.actor), n, WRITE) <==> MayWrite(d, a.actor, n);
    assert WritesAll(d.cache, a.actor, a.add + a.remove) <==> WritesNamed(d, a);
  }

  lemma {:induction false} LoadExact(d: Dir, names: seq<string>)
    ensures LoadFault(d.groups, names).None? <==> forall n :: n in names ==> Mutable(d, n)
    ensures LoadFault(d.groups, names).Some? ==> LoadFault(d.groups, names).value in {NotFound, SystemImmutable}
    ensures LoadFault(d.groups, names) == Some(NotFound) ==> exists n :: n in names && n !in d.groups
    ensures LoadFault(d.groups, names) == Some(SystemImmutable) ==>
      exists n :: n in names && n in d.groups && d.groups[n].system
  {
    if names != [] {
      var before, last := names[..|names| - 1], names[|names| - 1];
      LoadExact(d, before);
      LastOrBefore(names);
      assert last in names && forall n :: n in before ==> n in names;
      if LoadFault(d.groups, names).None? {
        forall n | n in names ensures Mutable(d, n) {
          assert n in before || n == last;
        }
      }
    }
  }

  /** The first group in the list that is missing or the system's decides the reason. */
  lemma {:induction false} FirstBlockedDecides(d: Dir, names: seq<string>, i: nat)
    requires i < |names| && !Mutable(d, names[i])
    requires forall j :: 0 <= j < i ==> Mutable(d, names[j])
    ensures LoadFault(d.groups, names) == Some(if names[i] in d.groups then SystemImmutable else NotFound)
  {
    var n := |names| - 1;
    if i < n {
      FirstBlockedDecides(d, names[..n], i);
    } else {
      LoadExact(d, names[..n]);
      forall m | m in names[..n] ensures Mutable(d, m) {
        var j :| 0 <= j < n && names[j] == m;
      }
    }
  }

  lemma JoinedExact(d: Dir, actor: string, names: seq<string>)
    ensures MayGrantAll(d.cache, actor, Elements(names)) <==> forall n :: n in names ==> HoldsGroup(d, actor, n)
  {
    forall n ensures HoldsGroup(d, actor, n) <==> Dominates(d.cache, User(actor), PermissionsOf(d.cache, n)) {
      HoldsIsDominates(d, actor, n);
    }
    assert forall n :: n in Elements(names) <==> n in names;
  }

  // ---------------------------------------------------------------- users

  /** Whoever may create users at all, or may write every group the new user is to be in. */
  predicate MayMakeUser(d: Dir, a: Action)
    requires a.CreateUser?
  {
    || Can(d.cache, User(a.actor), Permission("*", "user", "create"))
    || (a.names != [] && forall n :: n in a.names ==> MayWrite(d, a.actor, n))
  }

  predicate Unused(d: Dir, a: Action)
    requires a.CreateUser? && a.email.Some?
  {
    a.id !in d.users && forall u :: u in d.users ==> d.users[u].email != a.email.value
  }

  lemma CreateUserExact(d: Dir, a: Action)
    requires a.CreateUser?
    ensures var r := Perform(d, a);
            var writes := forall n :: n in a.names ==> MayWrite(d, a.actor, n);
            var exist := forall n :: n in a.names ==> Mutable(d, n);
            && (r == Err(Invalid) <==> a.email.None?)
            && (r == Err(AlreadyExists) <==> a.email.Some? && MayMakeUser(d, a) && !Unused(d, a))
            && (r == Err(Forbidden) <==> a.email.Some? && (!MayMakeUser(d, a) || (Unused(d, a) && !writes)))
            && (r == Err(Escalation) <==>
                a.email.Some? && MayMakeUser(d, a) && Unused(d, a) && writes && exist &&
                !(forall n :: n in a.names ==> HoldsGroup(d, a.actor, n)))
            && (r.Ok? <==>
                a.email.Some? && MayMakeUser(d, a) && Unused(d, a) && writes && exist &&
                forall n :: n in a.names ==> HoldsGroup(d, a.actor, n))
  {
    LoadExact(d, a.names);
    JoinedExact(d, a.actor, a.names);
  }

  /** The new account, and its memberships, in both stores; no rule and no other membership changes. */
  lemma CreateUserLeaves(d: Dir, a: Action)
    requires a.CreateUser? && Perform(d, a).Ok?
    ensures var d' := After(d, a);
            && d'.groups == d.groups && d'.users == d.users[a.id := Account(false, a.email.value, 1)]
            && d'.disk.grants == d.disk.grants && d'.cache.grants == d.cache.grants
            && (forall u, n :: (u, n) in d'.disk.members <==> (u, n) in d.disk.members || (u == a.id && n in a.names))
            && (forall u, n :: (u, n) in d'.cache.members <==> (u, n) in d.cache.members || (u == a.id && n in a.names))
  {
    assert forall n :: n in Elements(a.names) <==> n in a.names;
  }

  /** The actor may write users at all, or some group the user is in. */
  ghost predicate MayWriteUser(d: Dir, actor: string, id: string) {
    || Can(d.cache, User(actor), Permission("*", "user", "write"))
    || (GroupsExist(d, id) && exists n :: (id, n) in d.cache.members && MayWrite(d, actor, n))
  }

  /** The actor holds every rule of the user and of the user's groups. */
  ghost predicate HoldsUser(d: Dir, actor: string, id: string) {
    && (forall p :: (User(id), p) in d.cache.grants ==> Can(d.cache, User(actor), p))
    && (forall n :: (id, n) in d.cache.members ==> HoldsGroup(d, actor, n))
  }

  /** The only superadmin there is. */
  ghost predicate OnlyAdmin(d: Dir, id: string) {
    (id, "superadmin") in d.cache.members && forall u :: (u, "superadmin") in d.cache.members ==> u == id
  }

  lemma DeleteUserExact(d: Dir, a: Action)
    requires a.DeleteUser?
    ensures var r, other := Perform(d, a), a.id in d.users && a.actor != a.id;
            && (r == Err(Forbidden) <==> other && !MayWriteUser(d, a.actor, a.id) && GroupsExist(d, a.id))
            && (r == Err(Escalation) <==> other && MayWriteUser(d, a.actor, a.id) && !HoldsUser(d, a.actor, a.id))
            && (r == Err(NotFound) <==>
                a.id !in d.users || (other && !MayWriteUser(d, a.actor, a.id) && !GroupsExist(d, a.id)))
            && (r == Err(Invalid) <==>
                (a.id in d.users && a.actor == a.id) ||
                (other && MayWriteUser(d, a.actor, a.id) && HoldsUser(d, a.actor, a.id) && OnlyAdmin(d, a.id)))
            && (r.Ok? <==>
                other && MayWriteUser(d, a.actor, a.id) && HoldsUser(d, a.actor, a.id) && !OnlyAdmin(d, a.id))
  {
    var current := GroupsOf(d.cache, a.id);
    assert forall n :: n in current <==> (a.id, n) in d.cache.members;
    WriteUserExact(d, a.actor, a.id);
    HoldsUserExact(d, a.actor, a.id);
    OnlyAdminExact(d, a.id);
  }

  lemma WriteUserExact(d: Dir, actor: string, id: string)
    ensures var e := WriteUserFault(d, actor, id);
            && (e.None? <==> MayWriteUser(d, actor, id))
            && (e == Some(NotFound) <==> !MayWriteUser(d, actor, id) && !GroupsExist(d, id))
            && (e.Some? ==> e.value in {NotFound, Forbidden})
  {
    assert forall n :: n in GroupsOf(d.cache, id) <==> (id, n) in d.cache.members;
  }

  lemma HoldsUserExact(d: Dir, actor: string, id: string)
    ensures Dominates(d.cache, User(actor), Implicit(d.cache, User(id))) <==> HoldsUser(d, actor, id)
  {
    var all := Implicit(d.cache, User(id));
    if HoldsUser(d, actor, id) {
      forall p | p in all ensures Can(d.cache, User(actor), p) {
        var g :| g in d.cache.grants && Reaches(d.cache, g.0, User(id)) && g.1 == p;
        assert g == (g.0, p);
        if g.0.Group? {
          assert (id, g.0.name) in d.cache.members && HoldsGroup(d, actor, g.0.name);
        }
      }
    }
    if Dominates(d.cache, User(actor), all) {
      forall p | (User(id), p) in d.cache.grants ensures Can(d.cache, User(actor), p) {
        assert Reaches(d.cache, User(id), User(id)) && p in all;
      }
      forall n, p | (id, n) in d.cache.members && (Group(n), p) in d.cache.grants ensures Can(d.cache, User(actor), p) {
        assert Reaches(d.cache, Group(n), User(id)) && p in all;
      }
    }
  }

  lemma OnlyAdminExact(d: Dir, id: string)
    ensures MembersOf(d.cache, SUPERADMIN) == {id} <==> OnlyAdmin(d, id)
  {
    var us := MembersOf(d.cache, SUPERADMIN);
    assert forall u :: u in us <==> (u, "superadmin") in d.cache.members;
    if OnlyAdmin(d, id) {
      assert forall u :: u in us <==> u == id;
    }
  }

  /** The account and its memberships go, in both stores; on disk no rule does, in the cache the user's own. */
  lemma DeleteUserLeaves(d: Dir, a: Action)
    requires a.DeleteUser? && Perform(d, a).Ok?
    ensures var d' := After(d, a);
            && d'.groups == d.groups && d'.users == d.users - {a.id} && d'.disk.grants == d.disk.grants
            && (forall g :: g in d'.cache.grants <==> g in d.cache.grants && g.0 != User(a.id))
            && (forall u, n :: (u, n) in d'.disk.members <==> (u, n) in d.disk.members && u != a.id)
            && (forall u, n :: (u, n) in d'.cache.members <==> (u, n) in d.cache.members && u != a.id)
  {
  }

  // ---------------------------------------------------------------- groups

  /** A group that may be made a manager: the actor writes it, it exists, and it holds what the new one will. */
  ghost predicate FitToManage(d: Dir, a: Action, m: string)
    requires a.CreateGroup?
  {
    && MayWrite(d, a.actor, m) && m in d.groups
    && forall p :: p in a.perms ==> exists q :: (Group(m), q) in d.cache.grants && Covers(q, p)
  }

  lemma CreateGroupExact(d: Dir, a: Action)
    requires a.CreateGroup?
    ensures var r, own := Perform(d, a), forall p :: p in a.perms ==> Can(d.cache, User(a.actor), p);
            var managers := forall m :: m in a.managers ==> FitToManage(d, a, m);
            && (!own ==> r == Err(Escalation))
            && (own && !managers ==> r in {Err(Forbidden), Err(NotFound), Err(Escalation)})
            && (r == Err(AlreadyExists) <==> own && managers && a.name in d.groups)
            && (r == Err(Invalid) <==> own && managers && a.name !in d.groups && !CanonicalName(a.name))
            && (r.Ok? <==> own && managers && a.name !in d.groups && CanonicalName(a.name))
  {
    ManagersExact(d, a, a.managers);
    assert forall p :: p in Elements(a.perms) <==> p in a.perms;
  }

  lemma LastOrBefore<T>(s: seq<T>)
    requires s != []
    ensures forall x :: x in s <==> x in s[..|s| - 1] || x == s[|s| - 1]
  {
    assert s == s[..|s| - 1] + [s[|s| - 1]];
  }

  lemma {:induction false} ManagersExact(d: Dir, a: Action, managers: seq<string>)
    requires a.CreateGroup?
    ensures var e := ManagerFault(d, a.actor, managers, Elements(a.perms));
            && (e.None? <==> forall m :: m in managers ==> FitToManage(d, a, m))
            && (e.Some? ==> e.value in {Forbidden, NotFound, Escalation})
  {
    if managers != [] {
      var before, last := managers[..|managers| - 1], managers[|managers| - 1];
      ManagersExact(d, a, before);
      ManagerExact(d, a, last);
      LastOrBefore(managers);
      assert last in managers && forall m :: m in before ==> m in managers;
      if ManagerFault(d, a.actor, managers, Elements(a.perms)).None? {
        forall m | m in managers ensures FitToManage(d, a, m) {
          assert m in before || m == last;
        }
      }
    }
  }

  /** The first manager in the list that is unfit decides the reason. */
  lemma {:induction false} FirstUnfitDecides(d: Dir, a: Action, managers: seq<string>, i: nat)
    requires a.CreateGroup? && i < |managers| && !FitToManage(d, a, managers[i])
    requires forall j :: 0 <= j < i ==> FitToManage(d, a, managers[j])
    ensures ManagerFault(d, a.actor, managers, Elements(a.perms)) == Unfit(d, a, managers[i])
  {
    var n := |managers| - 1;
    if i < n {
      FirstUnfitDecides(d, a, managers[..n], i);
    } else {
      ManagersExact(d, a, managers[..n]);
      forall m | m in managers[..n] ensures FitToManage(d, a, m) {
        var j :| 0 <= j < n && managers[j] == m;
      }
    }
    ManagerExact(d, a, managers[i]);
  }

  ghost function Unfit(d: Dir, a: Action, m: string): (e: Option<Error>)
    requires a.CreateGroup?
  {
    if FitToManage(d, a, m) then None
    else if !MayWrite(d, a.actor, m) then Some(Forbidden)
    else if m !in d.groups then Some(NotFound)
    else Some(Escalation)
  }

  lemma ManagerExact(d: Dir, a: Action, m: string)
    requires a.CreateGroup?
    ensures Dominates(d.cache, Group(m), Elements(a.perms)) <==>
            forall p :: p in a.perms ==> exists q :: (Group(m), q) in d.cache.grants && Covers(q, p)
  {
    forall p ensures Can(d.cache, Group(m), p) <==> exists q :: (Group(m), q) in d.cache.grants && Covers(q, p) {
      GroupCanExact(d.cache, m, p);
    }
    assert forall p :: p in Elements(a.perms) <==> p in a.perms;
  }

  /** The new group with its counters, its rules, its members, and write on it for each manager; nothing else. */
  lemma CreateGroupLeaves(d: Dir, a: Action, r: Rules, r': Rules)
    requires a.CreateGroup? && Perform(d, a).Ok?
    requires (r == d.disk && r' == After(d, a).disk) || (r == d.cache && r' == After(d, a).cache)
    ensures var d', write := After(d, a), Permission("group:" + a.name, "group", "write");
            && d'.users == d.users
            && d'.groups == d.groups[a.name :=
                 GroupRecord(false, if a.members == [] then 0 else 1, if a.perms == [] then 0 else 1)]
            && (forall s, p :: (s, p) in r'.grants <==>
                  (s, p) in r.grants || (s == Group(a.name) && p in a.perms) ||
                  (s.Group? && s.name in a.managers && p == write))
            && (forall u, n :: (u, n) in r'.members <==> (u, n) in r.members || (n == a.name && u in a.members))
  {
    assert a.name != ALL by { assert ALL[0] == '*'; }
    assert ManagerGrant(a.name) == Permission("group:" + a.name, "group", "write");
    var t := CreationDelta(a);
    forall s, p ensures (s, p) in t.granted <==>
      (s == Group(a.name) && p in a.perms) || (s.Group? && s.name in a.managers && p == ManagerGrant(a.name))
    {
    }
  }

  lemma DeleteGroupExact(d: Dir, a: Action)
    requires a.DeleteGroup?
    ensures var r, d' := Perform(d, a), After(d, a);
            && (r == Err(NotFound) <==> a.name !in d.groups)
            && (r == Err(SystemImmutable) <==> a.name in d.groups && d.groups[a.name].system)
            && (r.Ok? <==> Mutable(d, a.name))
            && (r.Ok? ==> d'.groups == d.groups - {a.name} && d'.users == d.users && d'.disk.grants == d.disk.grants)
            && (r.Ok? ==> forall g :: g in d'.cache.grants <==> g in d.cache.grants && g.0 != Group(a.name))
            && (r.Ok? ==> forall u, n :: (u, n) in d'.disk.members <==> (u, n) in d.disk.members && n != a.name)
            && (r.Ok? ==> forall u, n :: (u, n) in d'.cache.members <==> (u, n) in d.cache.members && n != a.name)
  {
  }

  lemma CanonicalExact(name: string)
    ensures CanonicalName(name) <==>
            && 0 < |name| < 64 && name[0] != '-' && name[|name| - 1] != '-'
            && forall i :: 0 <= i < |name| ==> name[i] == '-' || '0' <= name[i] <= '9' || 'a' <= name[i] <= 'z'
  {
    assert forall i :: 0 <= i < |name| ==> name[i] in name;
    assert forall c :: c in name ==> exists i :: 0 <= i < |name| && name[i] == c;
  }
}

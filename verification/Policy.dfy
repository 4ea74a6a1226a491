/** Access decisions: rules, what they cover, and the three ways the service asks about them (Enforce,
    the domain scan, and the in-memory namespace filter). */
module Policy {

  datatype Permission = Permission(domain: string, obj: string, action: string)

  /** Rules hang on users and on groups; users belong to groups, groups to nothing. */
  datatype Subject = User(id: string) | Group(name: string)

  datatype Rules = Rules(grants: set<(Subject, Permission)>, members: set<(string, string)>)

  const ALL := "*"
  const READ := "read"
  const WRITE := "write"
  const CREATE := "create"
  const DELETE := "delete"
  const OBJECT_GROUP := "group"
  const OBJECT_NAMESPACE := "namespace"
  const OBJECT_USER := "user"
  const GROUP_PREFIX := "group:"
  const NAMESPACE_PREFIX := "namespace:"

  predicate ObjectGrants(granted: string, required: string) {
    granted == ALL || granted == required
  }

  /** A wildcard covers any action, and write implies read. */
  predicate ActionGrants(granted: string, required: string) {
    granted == ALL || granted == required || (granted == WRITE && required == READ)
  }

  predicate Covers(g: Permission, r: Permission) {
    && ObjectGrants(g.obj, r.obj)
    && ActionGrants(g.action, r.action)
    && (g.domain == ALL || g.domain == r.domain)
  }

  function GroupResource(name: string): (d: string) {
    if name == ALL then ALL else GROUP_PREFIX + name
  }

  function NamespaceResource(name: string): (d: string) {
    if name == ALL then ALL else NAMESPACE_PREFIX + name
  }

  /** A rule reaches its own subject and, from a group, the group's members. */
  predicate Reaches(r: Rules, holder: Subject, who: Subject) {
    holder == who || (holder.Group? && who.User? && (who.id, holder.name) in r.members)
  }

  /** Casbin's Enforce under the model's matcher. */
  predicate Can(r: Rules, who: Subject, p: Permission) {
    exists g :: g in r.grants && Reaches(r, g.0, who) && Covers(g.1, p)
  }

  predicate CanOnGroup(r: Rules, who: Subject, name: string, action: string) {
    Can(r, who, Permission(GroupResource(name), OBJECT_GROUP, action))
  }

  predicate CanGlobally(r: Rules, who: Subject, obj: string, action: string) {
    Can(r, who, Permission(ALL, obj, action))
  }

  /** Holding a permission is holding everything it covers. This is why a check against the rules of a
      group bounds every request those rules could pass. */
  lemma HoldingIsClosed(r: Rules, who: Subject, p: Permission, q: Permission)
    requires Can(r, who, p) && Covers(p, q)
    ensures Can(r, who, q)
  {
    var g :| g in r.grants && Reaches(r, g.0, who) && Covers(g.1, p);
    assert Covers(g.1, q);
  }

  // ---------------------------------------------------------------- what covers what

  /** The four ways one permission is more than another. */
  predicate Step(p: Permission, q: Permission) {
    || p == q.(domain := ALL)
    || p == q.(obj := ALL)
    || p == q.(action := ALL)
    || (q.action == READ && p == q.(action := WRITE))
  }

  /** Covering is an order that takes all four steps. */
  lemma CoversIsOrder(p: Permission, q: Permission, r: Permission)
    ensures Covers(p, p) && (Step(p, q) ==> Covers(p, q)) && (Covers(p, q) && Covers(q, r) ==> Covers(p, r))
    ensures Covers(p, q) && Covers(q, p) ==> p == q
  {
  }

  /** And it takes no others: it is within every order that takes them. */
  lemma CoversIsLeast(order: (Permission, Permission) -> bool, p: Permission, q: Permission)
    requires forall a :: order(a, a)
    requires forall a, b, c :: order(a, b) && order(b, c) ==> order(a, c)
    requires forall a, b :: Step(a, b) ==> order(a, b)
    requires Covers(p, q)
    ensures order(p, q)
  {
    var a := q.(domain := p.domain);
    var b := a.(obj := p.obj);
    assert order(a, q) by {
      assert a == q || Step(a, q);
    }
    assert order(b, a) by {
      assert b == a || Step(b, a);
    }
    assert order(p, b) by {
      assert p == b || Step(p, b);
    }
    assert order(b, q);
  }

  /** A principal passes a request exactly when a rule of its own, or of a group it is a member of, covers it. */
  lemma CanExact(r: Rules, u: string, q: Permission)
    ensures Can(r, User(u), q) <==>
            || (exists p :: (User(u), p) in r.grants && Covers(p, q))
            || (exists n, p :: (u, n) in r.members && (Group(n), p) in r.grants && Covers(p, q))
  {
    if Can(r, User(u), q) {
      var g :| g in r.grants && Reaches(r, g.0, User(u)) && Covers(g.1, q);
      assert g == (g.0, g.1);
      if g.0.Group? {
        assert (u, g.0.name) in r.members && (Group(g.0.name), g.1) in r.grants;
      } else {
        assert (User(u), g.1) in r.grants;
      }
    }
    if p :| (User(u), p) in r.grants && Covers(p, q) {
      assert Reaches(r, User(u), User(u));
    }
    if n, p :| (u, n) in r.members && (Group(n), p) in r.grants && Covers(p, q) {
      assert Reaches(r, Group(n), User(u));
    }
  }

  /** A group passes exactly what its own rules cover. */
  lemma GroupCanExact(r: Rules, n: string, q: Permission)
    ensures Can(r, Group(n), q) <==> exists p :: (Group(n), p) in r.grants && Covers(p, q)
  {
    if Can(r, Group(n), q) {
      var g :| g in r.grants && Reaches(r, g.0, Group(n)) && Covers(g.1, q);
      assert g == (Group(n), g.1);
    }
    if p :| (Group(n), p) in r.grants && Covers(p, q) {
      assert Reaches(r, Group(n), Group(n));
    }
  }

  // ---------------------------------------------------------------- the scan agrees with Enforce

  datatype DomainSet = DomainSet(wildcard: bool, explicit: set<string>) {
    predicate Contains(d: string) { wildcard || d in explicit }
  }

  /** GetImplicitPermissionsForUser: every rule that reaches the principal, in some order. */
  method ImplicitPermissions(r: Rules, who: Subject) returns (perms: seq<Permission>)
    ensures forall p :: p in perms <==> exists g :: g in r.grants && Reaches(r, g.0, who) && g.1 == p
  {
    perms := [];
    var todo := r.grants;
    while todo != {}
      invariant todo <= r.grants
      invariant forall p :: p in perms <==> exists g :: g in r.grants - todo && Reaches(r, g.0, who) && g.1 == p
      decreases todo
    {
      var g :| g in todo;
      if Reaches(r, g.0, who) {
        perms := perms + [g.1];
      }
      todo := todo - {g};
    }
  }

  /** NewDomainSet: "*" sets the wildcard, everything else is listed. */
  method NewDomainSet(domains: seq<string>) returns (ds: DomainSet)
    ensures ds.wildcard <==> ALL in domains
    ensures forall d :: d in ds.explicit <==> d in domains && d != ALL
  {
    ds := DomainSet(false, {});
    var i := 0;
    while i < |domains|
      invariant i <= |domains|
      invariant ds.wildcard <==> ALL in domains[..i]
      invariant forall d :: d in ds.explicit <==> d in domains[..i] && d != ALL
    {
      assert domains[..i + 1] == domains[..i] + [domains[i]];
      if domains[i] == ALL {
        ds := ds.(wildcard := true);
      } else {
        ds := ds.(explicit := ds.explicit + {domains[i]});
      }
      i := i + 1;
    }
    assert domains[..i] == domains;
  }

  /** EffectiveDomains: the set contains a domain exactly when Enforce passes there; nothing, if the enforcer
      fails to answer. */
  method EffectiveDomains(r: Rules, skip: bool, fails: bool, who: Subject, obj: string, action: string)
    returns (ds: DomainSet)
    ensures forall d :: ds.Contains(d) <==> skip || (!fails && Can(r, who, Permission(d, obj, action)))
    ensures ALL !in ds.explicit
  {
    if skip { return DomainSet(true, {}); }
    if fails {
      ds := NewDomainSet([]);
      return;
    }
    var perms := ImplicitPermissions(r, who);
    var domains := [];
    var i := 0;
    while i < |perms|
      invariant i <= |perms|
      invariant forall d :: d in domains <==>
        exists j :: 0 <= j < i && perms[j].domain == d && ObjectGrants(perms[j].obj, obj) &&
                    ActionGrants(perms[j].action, action)
    {
      if ObjectGrants(perms[i].obj, obj) && ActionGrants(perms[i].action, action) {
        domains := domains + [perms[i].domain];
      }
      i := i + 1;
    }
    ds := NewDomainSet(domains);
    forall d
      ensures ds.Contains(d) <==> Can(r, who, Permission(d, obj, action))
    {
      ScanFinds(r, who, perms, domains, obj, action, d);
    }
  }

  lemma ScanFinds(r: Rules, who: Subject, perms: seq<Permission>, domains: seq<string>, obj: string, action: string,
                  d: string)
    requires forall p :: p in perms <==> exists g :: g in r.grants && Reaches(r, g.0, who) && g.1 == p
    requires forall x :: x in domains <==>
      exists j :: 0 <= j < |perms| && perms[j].domain == x && ObjectGrants(perms[j].obj, obj) &&
                  ActionGrants(perms[j].action, action)
    ensures (ALL in domains || d in domains) <==> Can(r, who, Permission(d, obj, action))
  {
    var q := Permission(d, obj, action);
    if Can(r, who, q) {
      var g :| g in r.grants && Reaches(r, g.0, who) && Covers(g.1, q);
      assert g.1 in perms;
      var j :| 0 <= j < |perms| && perms[j] == g.1;
      assert perms[j].domain in domains;
    }
    forall x | x in domains && (x == ALL || x == d)
      ensures Can(r, who, q)
    {
      var j :| 0 <= j < |perms| && perms[j].domain == x && ObjectGrants(perms[j].obj, obj) &&
               ActionGrants(perms[j].action, action);
      assert perms[j] in perms;
      var g :| g in r.grants && Reaches(r, g.0, who) && g.1 == perms[j];
      assert Covers(g.1, q);
    }
  }

  // ---------------------------------------------------------------- the namespace filter agrees too

  predicate Scoped(p: Permission, obj: string, d: string, a: string) {
    ObjectGrants(p.obj, obj) && p.domain == d && p.action == a
  }

  /** Some rule on the list gives action a, for the object, in domain d. */
  predicate Listed(perms: seq<Permission>, obj: string, d: string, a: string) {
    exists p :: p in perms && Scoped(p, obj, d, a)
  }

  lemma ListedAppend(perms: seq<Permission>, p: Permission, obj: string, d: string, a: string)
    ensures Listed(perms + [p], obj, d, a) <==> Listed(perms, obj, d, a) || Scoped(p, obj, d, a)
  {
    if Listed(perms, obj, d, a) {
      var x :| x in perms && Scoped(x, obj, d, a);
      assert x in perms + [p];
    }
    if Scoped(p, obj, d, a) {
      assert p in perms + [p];
    }
  }

  predicate Indexed(explicit: map<string, set<string>>, d: string, a: string) {
    d in explicit && a in explicit[d]
  }

  /** What scopedActions built is what the rules list: wildcard actions apart, the rest by domain. */
  ghost predicate Tabulates(wildcard: set<string>, explicit: map<string, set<string>>, perms: seq<Permission>,
                            obj: string) {
    && (forall a :: a in wildcard <==> Listed(perms, obj, ALL, a))
    && (forall d, a :: Indexed(explicit, d, a) <==> d != ALL && Listed(perms, obj, d, a))
  }

  /** The actions held on every resource of an object, and per domain. */
  method ScopedActions(perms: seq<Permission>, obj: string)
    returns (wildcard: set<string>, explicit: map<string, set<string>>)
    ensures Tabulates(wildcard, explicit, perms, obj)
    ensures ALL !in explicit
  {
    wildcard, explicit := {}, map[];
    var i := 0;
    while i < |perms|
      invariant i <= |perms|
      invariant Tabulates(wildcard, explicit, perms[..i], obj)
      invariant ALL !in explicit
    {
      var p := perms[i];
      assert perms[..i + 1] == perms[..i] + [p];
      forall d, a { ListedAppend(perms[..i], p, obj, d, a); }
      if ObjectGrants(p.obj, obj) {
        if p.domain == ALL {
          wildcard := wildcard + {p.action};
        } else {
          var held := if p.domain in explicit then explicit[p.domain] else {};
          ghost var before := explicit;
          explicit := explicit[p.domain := held + {p.action}];
          assert forall d, a :: Indexed(explicit, d, a) <==> Indexed(before, d, a) || Scoped(p, obj, d, a);
        }
      }
      i := i + 1;
    }
    assert perms[..i] == perms;
  }

  /** Some held action satisfies some requested one; asking for nothing means "anything I can touch". */
  predicate Satisfies(have: set<string>, requested: seq<string>) {
    have != {} && (requested == [] || exists r, h :: r in requested && h in have && ActionGrants(h, r))
  }

  /** strings.TrimPrefix on a namespace domain. */
  function BareName(d: string): (name: string) {
    if NAMESPACE_PREFIX <= d then d[|NAMESPACE_PREFIX|..] else d
  }

  lemma BareNameUndoes(ns: string)
    requires ns != ALL
    ensures BareName(NamespaceResource(ns)) == ns
  {
    assert NamespaceResource(ns)[|NAMESPACE_PREFIX|..] == ns;
  }

  /** What the web client is told of a namespace. */
  datatype Item = Item(key: string, actions: seq<string>)

  const KNOWN_ACTIONS := [READ, WRITE, CREATE, DELETE]

  /** The held actions among those on the list, in its order. */
  function Ordered(have: set<string>, order: seq<string>): (actions: seq<string>) {
    if order == [] then []
    else
      var a := order[|order| - 1];
      Ordered(have, order[..|order| - 1]) + (if a in have then [a] else [])
  }

  /** resolve: "*" alone stands for everything. */
  function Resolved(have: set<string>): (actions: seq<string>) {
    if ALL in have then [ALL] else Ordered(have, KNOWN_ACTIONS)
  }

  method Resolve(have: set<string>) returns (actions: seq<string>)
    ensures actions == Resolved(have)
  {
    if ALL in have { return [ALL]; }
    actions := [];
    var i := 0;
    while i < |KNOWN_ACTIONS|
      invariant i <= |KNOWN_ACTIONS| && actions == Ordered(have, KNOWN_ACTIONS[..i])
    {
      assert KNOWN_ACTIONS[..i + 1][..i] == KNOWN_ACTIONS[..i];
      if KNOWN_ACTIONS[i] in have { actions := actions + [KNOWN_ACTIONS[i]]; }
      i := i + 1;
    }
    assert KNOWN_ACTIONS[..i] == KNOWN_ACTIONS;
  }

  lemma {:induction false} OrderedHas(have: set<string>, order: seq<string>, a: string)
    ensures a in Ordered(have, order) <==> a in order && a in have
  {
    if order != [] {
      OrderedHas(have, order[..|order| - 1], a);
      assert order == order[..|order| - 1] + [order[|order| - 1]];
    }
  }

  function OneIf(held: bool, action: string): (actions: seq<string>) {
    if held then [action] else []
  }

  /** Either the wildcard alone or each action held, once, in the order of the catalog. */
  lemma ResolvedExact(have: set<string>)
    ensures Resolved(have) ==
            if "*" in have then ["*"]
            else OneIf("read" in have, "read") + OneIf("write" in have, "write") +
                 OneIf("create" in have, "create") + OneIf("delete" in have, "delete")
  {
    var one, two, three := [READ], [READ, WRITE], [READ, WRITE, CREATE];
    assert KNOWN_ACTIONS[..3] == three && three[..2] == two && two[..1] == one && one[..0] == [];
    assert Ordered(have, one) == OneIf(READ in have, READ);
    assert Ordered(have, two) == Ordered(have, one) + OneIf(WRITE in have, WRITE);
    assert Ordered(have, three) == Ordered(have, two) + OneIf(CREATE in have, CREATE);
  }

  /** The actions shown for a namespace grant exactly what Enforce passes on it. */
  lemma ShownIsEnforced(r: Rules, who: Subject, ns: string, action: string)
    requires action in {"read", "write", "create", "delete", "*"}
    ensures (exists h :: h in Resolved(Held(r, who, NamespaceResource(ns))) && ActionGrants(h, action)) <==>
            Can(r, who, Permission(NamespaceResource(ns), OBJECT_NAMESPACE, action))
  {
    var have := Held(r, who, NamespaceResource(ns));
    FilterAgreesWithEnforce(r, who, ns, action);
    forall h ensures h in Ordered(have, KNOWN_ACTIONS) <==> h in KNOWN_ACTIONS && h in have {
      OrderedHas(have, KNOWN_ACTIONS, h);
    }
    assert READ == KNOWN_ACTIONS[0] && WRITE == KNOWN_ACTIONS[1];
    assert CREATE == KNOWN_ACTIONS[2] && DELETE == KNOWN_ACTIONS[3];
    if Satisfies(have, [action]) {
      var q, h :| q in [action] && h in have && ActionGrants(h, q);
      assert h in Resolved(have) || ALL in Resolved(have);
    }
    if h :| h in Resolved(have) && ActionGrants(h, action) {
      assert h in have && action in [action];
    }
  }

  /** The existing namespaces the caller can act on, in their order, by rule, each with the actions held. */
  ghost function Visible(r: Rules, who: Subject, existing: seq<string>, requested: seq<string>): (items: seq<Item>) {
    if existing == [] then [] else
    var rest, ns := Visible(r, who, existing[..|existing| - 1], requested), existing[|existing| - 1];
    rest + Shown(r, who, ns, requested)
  }

  ghost function Shown(r: Rules, who: Subject, ns: string, requested: seq<string>): (items: seq<Item>) {
    var have := Held(r, who, NamespaceResource(ns));
    if Satisfies(have, requested) then [Item(ns, Resolved(have))] else []
  }

  /** Namespaces, without a search term. The repository is first asked for the names the rules mention,
      then each row's own actions decide. */
  method Namespaces(r: Rules, who: Subject, existing: seq<string>, requested: seq<string>) returns (items: seq<Item>)
    ensures items == Visible(r, who, existing, requested)
  {
    var perms := ImplicitPermissions(r, who);
    var wildcard, explicit := ScopedActions(perms, OBJECT_NAMESPACE);
    HeldIsScoped(r, who, perms, wildcard, explicit);
    items := [];
    if wildcard == {} && explicit == map[] {
      NothingVisible(r, who, existing, requested);
      return;
    }
    items := ListVisible(r, who, wildcard, explicit, existing, requested);
  }

  /** What the table built from the rules says of a domain is what the rules say. */
  ghost predicate Tabled(r: Rules, who: Subject, wildcard: set<string>, explicit: map<string, set<string>>) {
    forall d :: Held(r, who, d) == if d in explicit then wildcard + explicit[d] else wildcard
  }

  method ListVisible(ghost r: Rules, ghost who: Subject, wildcard: set<string>, explicit: map<string, set<string>>,
                     existing: seq<string>, requested: seq<string>) returns (items: seq<Item>)
    requires Tabled(r, who, wildcard, explicit) && ALL !in explicit
    ensures items == Visible(r, who, existing, requested)
  {
    items := [];
    var names := set d | d in explicit :: BareName(d);
    var i := 0;
    while i < |existing|
      invariant i <= |existing|
      invariant items == Visible(r, who, existing[..i], requested)
    {
      var ns := existing[i];
      var d := NamespaceResource(ns);
      MentionedByRule(explicit, names, ns);
      VisibleStep(r, who, existing, i, requested);
      assert Held(r, who, d) == if d in explicit then wildcard + explicit[d] else wildcard;
      if wildcard != {} || ns in names {
        var have := if d in explicit then wildcard + explicit[d] else wildcard;
        if Satisfies(have, requested) {
          var actions := Resolve(have);
          items := items + [Item(ns, actions)];
        }
      }
      i := i + 1;
    }
    assert existing[..i] == existing;
  }

  lemma VisibleStep(r: Rules, who: Subject, existing: seq<string>, i: nat, requested: seq<string>)
    requires i < |existing|
    ensures Visible(r, who, existing[..i + 1], requested) ==
            Visible(r, who, existing[..i], requested) + Shown(r, who, existing[i], requested)
  {
    assert existing[..i + 1][..i] == existing[..i];
  }

  lemma {:induction false} NothingVisible(r: Rules, who: Subject, existing: seq<string>, requested: seq<string>)
    requires Tabled(r, who, {}, map[])
    ensures Visible(r, who, existing, requested) == []
  {
    if existing != [] {
      NothingVisible(r, who, existing[..|existing| - 1], requested);
    }
  }

  lemma MentionedByRule(explicit: map<string, set<string>>, names: set<string>, ns: string)
    requires names == set d | d in explicit :: BareName(d)
    requires ALL !in explicit
    ensures NamespaceResource(ns) in explicit ==> ns in names
  {
    if NamespaceResource(ns) in explicit {
      BareNameUndoes(ns);
    }
  }

  /** The namespace actions a principal holds in a domain, by rule. */
  ghost function Held(r: Rules, who: Subject, d: string): (actions: set<string>) {
    set g | g in r.grants && Reaches(r, g.0, who) && ObjectGrants(g.1.obj, OBJECT_NAMESPACE) &&
            (g.1.domain == ALL || g.1.domain == d) :: g.1.action
  }

  lemma HeldIsScoped(r: Rules, who: Subject, perms: seq<Permission>, wildcard: set<string>,
                     explicit: map<string, set<string>>)
    requires forall p :: p in perms <==> exists g :: g in r.grants && Reaches(r, g.0, who) && g.1 == p
    requires Tabulates(wildcard, explicit, perms, OBJECT_NAMESPACE)
    ensures Tabled(r, who, wildcard, explicit)
  {
    forall d, a
      ensures a in Held(r, who, d) <==> a in wildcard || Indexed(explicit, d, a)
    {
      HeldIsListed(r, who, perms, d, a);
      assert d == ALL ==> !Indexed(explicit, d, a);
    }
    forall d
      ensures Held(r, who, d) == if d in explicit then wildcard + explicit[d] else wildcard
    {
      var listed := if d in explicit then wildcard + explicit[d] else wildcard;
      forall a
        ensures a in Held(r, who, d) <==> a in listed
      {
        assert Indexed(explicit, d, a) <==> a in (if d in explicit then explicit[d] else {});
      }
    }
  }

  lemma HeldIsListed(r: Rules, who: Subject, perms: seq<Permission>, d: string, a: string)
    requires forall p :: p in perms <==> exists g :: g in r.grants && Reaches(r, g.0, who) && g.1 == p
    ensures a in Held(r, who, d) <==> Listed(perms, OBJECT_NAMESPACE, ALL, a) || Listed(perms, OBJECT_NAMESPACE, d, a)
  {
    if a in Held(r, who, d) {
      var g :| g in r.grants && Reaches(r, g.0, who) && ObjectGrants(g.1.obj, OBJECT_NAMESPACE) &&
               (g.1.domain == ALL || g.1.domain == d) && g.1.action == a;
      assert g.1 in perms && Scoped(g.1, OBJECT_NAMESPACE, g.1.domain, a);
    }
    forall x | (x == ALL || x == d) && Listed(perms, OBJECT_NAMESPACE, x, a)
      ensures a in Held(r, who, d)
    {
      var p :| p in perms && Scoped(p, OBJECT_NAMESPACE, x, a);
      var g :| g in r.grants && Reaches(r, g.0, who) && g.1 == p;
      assert g.1.action in Held(r, who, d);
    }
  }

  /** For one requested action, being listed and passing Enforce on the namespace are the same thing. */
  lemma FilterAgreesWithEnforce(r: Rules, who: Subject, ns: string, action: string)
    ensures Satisfies(Held(r, who, NamespaceResource(ns)), [action]) <==>
            Can(r, who, Permission(NamespaceResource(ns), OBJECT_NAMESPACE, action))
  {
    var d := NamespaceResource(ns);
    var q := Permission(d, OBJECT_NAMESPACE, action);
    if Satisfies(Held(r, who, d), [action]) {
      var h :| h in Held(r, who, d) && ActionGrants(h, action);
      var g :| g in r.grants && Reaches(r, g.0, who) && ObjectGrants(g.1.obj, OBJECT_NAMESPACE) &&
               (g.1.domain == ALL || g.1.domain == d) && g.1.action == h;
      assert Covers(g.1, q);
    }
    if Can(r, who, q) {
      var g :| g in r.grants && Reaches(r, g.0, who) && Covers(g.1, q);
      assert g.1.action in Held(r, who, d) && action in [action];
    }
  }

  /** So the filter lists exactly the existing namespaces on which Enforce passes. */
  lemma {:induction false} VisibleIsEnforced(r: Rules, who: Subject, existing: seq<string>, action: string, ns: string)
    ensures (exists item :: item in Visible(r, who, existing, [action]) && item.key == ns) <==>
            ns in existing && Can(r, who, Permission(NamespaceResource(ns), OBJECT_NAMESPACE, action))
  {
    if existing != [] {
      var head, last := existing[..|existing| - 1], existing[|existing| - 1];
      VisibleIsEnforced(r, who, head, action, ns);
      assert existing == head + [last];
      FilterAgreesWithEnforce(r, who, ns, action);
      var before, now := Visible(r, who, head, [action]), Visible(r, who, existing, [action]);
      assert now == before + Shown(r, who, last, [action]);
      if item :| item in before && item.key == ns {
        assert item in now;
      }
      if last == ns && Satisfies(Held(r, who, NamespaceResource(ns)), [action]) {
        assert Shown(r, who, last, [action])[0] in now;
      }
    }
  }

  /** Asked for several actions, or for none in particular, a namespace is shown when one of them passes, or any
      action does. */
  lemma VisibleForAny(r: Rules, who: Subject, ns: string, requested: seq<string>)
    ensures Shown(r, who, ns, requested) != [] <==>
            if requested == [] then exists a :: Can(r, who, Permission(NamespaceResource(ns), OBJECT_NAMESPACE, a))
            else exists a :: a in requested && Can(r, who, Permission(NamespaceResource(ns), OBJECT_NAMESPACE, a))
  {
    var have := Held(r, who, NamespaceResource(ns));
    forall a ensures Satisfies(have, [a]) <==> Can(r, who, Permission(NamespaceResource(ns), OBJECT_NAMESPACE, a)) {
      FilterAgreesWithEnforce(r, who, ns, a);
    }
    if h :| h in have {
      assert ActionGrants(h, h) && h in [h];
      assert Satisfies(have, [h]);
    }
    forall a | a in requested && Satisfies(have, [a]) ensures Satisfies(have, requested) {
      var q, h :| q in [a] && h in have && ActionGrants(h, q);
      assert q == a;
    }
    if requested != [] && Satisfies(have, requested) {
      var q, h :| q in requested && h in have && ActionGrants(h, q);
      assert q in [q];
      assert Satisfies(have, [q]);
    }
  }

  // ---------------------------------------------------------------- the scan with prefixes stripped

  /** A reaching rule for the namespace action whose domain is the given one. */
  ghost predicate GrantedAt(r: Rules, who: Subject, d: string, action: string) {
    exists g :: g in r.grants && Reaches(r, g.0, who) && ObjectGrants(g.1.obj, OBJECT_NAMESPACE) &&
                ActionGrants(g.1.action, action) && g.1.domain == d
  }

  lemma CanIsGrantedAt(r: Rules, who: Subject, d: string, action: string)
    ensures Can(r, who, Permission(d, OBJECT_NAMESPACE, action)) <==>
            GrantedAt(r, who, ALL, action) || GrantedAt(r, who, d, action)
  {
    var q := Permission(d, OBJECT_NAMESPACE, action);
    if Can(r, who, q) {
      var g :| g in r.grants && Reaches(r, g.0, who) && Covers(g.1, q);
      assert GrantedAt(r, who, g.1.domain, action);
    }
    forall x | (x == ALL || x == d) && GrantedAt(r, who, x, action)
      ensures Can(r, who, q)
    {
      var g :| g in r.grants && Reaches(r, g.0, who) && ObjectGrants(g.1.obj, OBJECT_NAMESPACE) &&
               ActionGrants(g.1.action, action) && g.1.domain == x;
      assert Covers(g.1, q);
    }
  }

  /** EffectiveNamespaces: the domain scan with "namespace:" trimmed off every listed domain. */
  method EffectiveNamespaces(r: Rules, skip: bool, fails: bool, who: Subject, action: string) returns (ds: DomainSet)
    ensures forall ns :: ds.Contains(ns) <==> skip || (!fails && InTrimmedScan(r, who, ns, action))
  {
    var raw := EffectiveDomains(r, skip, fails, who, OBJECT_NAMESPACE, action);
    forall d
      ensures raw.Contains(d) <==>
              skip || (!fails && (GrantedAt(r, who, ALL, action) || GrantedAt(r, who, d, action)))
    {
      CanIsGrantedAt(r, who, d, action);
    }
    if raw.wildcard {
      assert raw.Contains(ALL);
      return DomainSet(true, {});
    }
    assert !skip && !(!fails && GrantedAt(r, who, ALL, action)) by { assert !raw.Contains(ALL); }
    ds := DomainSet(false, set d | d in raw.explicit :: BareName(d));
    forall ns
      ensures ds.Contains(ns) <==> !fails && InTrimmedScan(r, who, ns, action)
    {
      if !fails && InTrimmedScan(r, who, ns, action) {
        var d :| GrantedAt(r, who, d, action) && BareName(d) == ns;
        assert raw.Contains(d);
      }
      if ds.Contains(ns) {
        var d :| d in raw.explicit && BareName(d) == ns;
        assert raw.Contains(d);
      }
    }
  }

  ghost predicate InTrimmedScan(r: Rules, who: Subject, ns: string, action: string) {
    GrantedAt(r, who, ALL, action) || exists d :: GrantedAt(r, who, d, action) && BareName(d) == ns
  }

  /** No rule misleads the stripped scan about this namespace: what it needs is granted anyway, or nothing is
      granted on another domain that the stripping turns into its name. */
  ghost predicate Unmistaken(r: Rules, who: Subject, ns: string, action: string) {
    || GrantedAt(r, who, ALL, action)
    || (if ns == ALL then !GrantedAt(r, who, NAMESPACE_PREFIX + ALL, action)
        else NAMESPACE_PREFIX <= ns || GrantedAt(r, who, NAMESPACE_PREFIX + ns, action) ||
             !GrantedAt(r, who, ns, action))
  }

  /** Stripping the prefix only goes wrong on a rule whose domain is a bare name: the stripped scan then
      shows a namespace on which Enforce fails. That is the one way the two part. */
  lemma TrimmedScanExact(r: Rules, who: Subject, ns: string, action: string)
    ensures (InTrimmedScan(r, who, ns, action) <==>
             Can(r, who, Permission(NamespaceResource(ns), OBJECT_NAMESPACE, action))) <==>
            Unmistaken(r, who, ns, action)
  {
    var full := NAMESPACE_PREFIX + ns;
    CanIsGrantedAt(r, who, NamespaceResource(ns), action);
    assert BareName(full) == ns;
    if GrantedAt(r, who, full, action) {
      assert InTrimmedScan(r, who, ns, action);
    }
    if GrantedAt(r, who, ns, action) && !(NAMESPACE_PREFIX <= ns) {
      assert BareName(ns) == ns;
      assert InTrimmedScan(r, who, ns, action);
    }
    forall d | GrantedAt(r, who, d, action) && BareName(d) == ns
      ensures d == full || (d == ns && !(NAMESPACE_PREFIX <= ns))
    {
      if NAMESPACE_PREFIX <= d {
        assert d == NAMESPACE_PREFIX + d[|NAMESPACE_PREFIX|..];
      }
    }
  }

  /** As with a rule on the bare domain "prod". */
  lemma BareDomainMisleads(user: string)
    ensures var r := Rules({(Group("readers"), Permission("prod", OBJECT_NAMESPACE, READ))}, {(user, "readers")});
            && InTrimmedScan(r, User(user), "prod", READ)
            && !Can(r, User(user), Permission(NamespaceResource("prod"), OBJECT_NAMESPACE, READ))
  {
    var g := (Group("readers"), Permission("prod", OBJECT_NAMESPACE, READ));
    var r := Rules({g}, {(user, "readers")});
    assert g in r.grants && Reaches(r, g.0, User(user));
    assert GrantedAt(r, User(user), "prod", READ) && BareName("prod") == "prod";
    assert |NamespaceResource("prod")| != |"prod"|;
  }
}

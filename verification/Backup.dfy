/** Export and import of the configuration (internal/services/backup/backup.go). A bundle's maps are walked in
    an arbitrary order, as the language leaves it open. */
module Backup {
  import opened Wrappers
  import opened Text
  import opened Tables
  import Credentials

  datatype Entry = Entry(name: string, group: Group)

  datatype Bundle = Bundle(
    version: int,
    settings: Settings,
    restValid: bool,                     // the verdict of the settings validation on all but the token
    templates: map<string, Body>,
    groups: seq<Entry>,
    assignments: map<string, string>)

  datatype Report = Report(
    dryRun: bool,
    templatesCreate: seq<string>, templatesUpdate: seq<string>,
    groupsCreate: seq<string>, groupsUpdate: seq<string>, groupsDelete: seq<string>,
    assignmentsCreate: nat, assignmentsUpdate: nat, assignmentsDelete: nat)

  // ----- What a bundle means -----

  function Sanitized(g: Group): Group {
    Group(Trim(g.password), Trim(g.ha1), Clean(g.tags, {}))
  }

  /** The entries as they are stored: trimmed names, cleaned groups. */
  function Normal(groups: seq<Entry>): seq<Entry> {
    seq(|groups|, i requires 0 <= i < |groups| => Entry(Trim(groups[i].name), Sanitized(groups[i].group)))
  }

  /** The first `i` entries as a map. */
  function ByName(entries: seq<Entry>, i: nat): map<string, Group>
    requires i <= |entries|
  {
    if i == 0 then map[] else ByName(entries, i - 1)[entries[i - 1].name := entries[i - 1].group]
  }

  /** The groups a bundle carries, by trimmed name. */
  function Incoming(b: Bundle): map<string, Group> {
    ByName(Normal(b.groups), |b.groups|)
  }

  predicate EntryOk(e: Entry) {
    Trim(e.name) != "" && HasSecret(e.group.password, e.group.ha1)
  }

  /** The first `n` entries have different names. */
  ghost predicate DistinctNames(entries: seq<Entry>, n: nat)
    requires n <= |entries|
  {
    forall i, j :: 0 <= i < j < n ==> entries[i].name != entries[j].name
  }

  ghost predicate GroupsOk(groups: seq<Entry>) {
    (forall i :: 0 <= i < |groups| ==> EntryOk(groups[i])) && DistinctNames(Normal(groups), |groups|)
  }

  ghost predicate TemplatesOk(templates: map<string, Body>) {
    forall n :: n in templates ==> Trim(n) != "" && templates[n].valid
  }

  /** The assignments that count: blank ones are skipped. */
  function Kept(assignments: map<string, string>): map<string, string> {
    map mac | mac in assignments && Trim(mac) != "" && Trim(assignments[mac]) != "" :: Trim(assignments[mac])
  }

  function Wanted(b: Bundle): map<string, string> {
    if b.version >= 2 then Kept(b.assignments) else map[]
  }

  ghost predicate AssignmentsOk(b: Bundle) {
    forall mac :: mac in Wanted(b) ==> Wanted(b)[mac] in Incoming(b)
  }

  predicate UrlSafe(c: char) {
    'A' <= c <= 'Z' || 'a' <= c <= 'z' || '0' <= c <= '9' || c == '_' || c == '-'
  }

  /** What the settings validation asks of the token: it is blank, or the placeholder, or 16 to 128 harmless
      characters; and not short when the interface is on. */
  predicate TokenAccepted(s: Settings) {
    var token := Trim(s.mcpToken);
    && (s.mcpEnabled ==> |token| >= 16)
    && (token == "" || token == "<set>"
        || (16 <= |token| <= 128 && forall i :: 0 <= i < |token| ==> UrlSafe(token[i])))
  }

  predicate SettingsValid(b: Bundle) {
    b.restValid && TokenAccepted(b.settings)
  }

  /** When an import accepts a bundle. */
  ghost predicate Valid(b: Bundle) {
    b.version != 0 && SettingsValid(b) && TemplatesOk(b.templates) && GroupsOk(b.groups) && AssignmentsOk(b)
  }

  /** `r` is `m` with its keys trimmed; where keys collide, any of their values may have won. */
  ghost predicate Resolves<V(!new)>(m: map<string, V>, r: map<string, V>) {
    && (forall k :: k in m ==> Trim(k) in r)
    && (forall k :: k in r ==> exists j :: j in m && Trim(j) == k && m[j] == r[k])
  }

  lemma ResolvesTrimmed<V(!new)>(m: map<string, V>, r: map<string, V>)
    requires Resolves(m, r) && forall k :: k in m ==> Trimmed(k)
    ensures r == m
  {
    assert forall k :: k in m ==> Trim(k) == k;
    assert r.Keys == m.Keys;
    assert forall k :: k in r ==> r[k] == m[k];
  }

  function Mirrors(groups: map<string, Group>): map<string, Credential> {
    map n | n in groups :: Mirror(groups[n])
  }

  /** Imported templates lose their reference to a credential. */
  function Unlinked(templates: map<string, Body>): map<string, Template> {
    map n | n in templates :: Template(templates[n].text, "")
  }

  /** The tables after an applied import; `macs` and `bodies` are the assignments and templates under their
      trimmed keys. */
  function Applied(s: State, b: Bundle, macs: map<string, string>, bodies: map<string, Body>): State {
    State(
      if b.version < 2 then s.credentials else s.credentials + Mirrors(Incoming(b)),
      if b.version < 2 then s.groups else Incoming(b),
      if b.version < 2 then s.assignments else macs,
      s.templates + Unlinked(bodies),
      b.settings)
  }

  // ----- What a report says -----

  /** The comparison that decides about an update: tags are compared joined. */
  predicate Changed(old_: Group, new_: Group) {
    old_.password != new_.password || old_.ha1 != new_.ha1 || Join(old_.tags) != Join(new_.tags)
  }

  function ChangedGroups(old_: map<string, Group>, new_: map<string, Group>): set<string> {
    set n | n in new_ && n in old_ && Changed(old_[n], new_[n])
  }

  function MovedDevices(old_: map<string, string>, new_: map<string, string>): set<string> {
    set m | m in new_ && m in old_ && old_[m] != new_[m]
  }

  /** `s` lists the members of `all`, each once. */
  ghost predicate Lists(s: seq<string>, all: set<string>) {
    Distinct(s) && forall x :: x in s <==> x in all
  }

  ghost predicate GroupsReported(r: Report, s: State, b: Bundle) {
    var now := Incoming(b);
    && Lists(r.groupsCreate, now.Keys - s.groups.Keys)
    && Lists(r.groupsUpdate, ChangedGroups(s.groups, now))
    && Lists(r.groupsDelete, if b.version >= 2 then s.groups.Keys - now.Keys else {})
  }

  ghost predicate AssignmentsReported(r: Report, s: State, b: Bundle, macs: map<string, string>) {
    && r.assignmentsCreate == |macs.Keys - s.assignments.Keys|
    && r.assignmentsUpdate == |MovedDevices(s.assignments, macs)|
    && r.assignmentsDelete == if b.version >= 2 then |s.assignments.Keys - macs.Keys| else 0
  }

  ghost predicate TemplatesReported(r: Report, s: State, b: Bundle) {
    Divided(b.templates.Keys, {}, s.templates.Keys, r.templatesCreate, r.templatesUpdate)
  }

  ghost predicate Reported(r: Report, s: State, b: Bundle, macs: map<string, string>) {
    TemplatesReported(r, s, b) && GroupsReported(r, s, b) && AssignmentsReported(r, s, b, macs)
  }

  // ----- Planning -----

  method PlanTemplates(templates: map<string, Body>, existing: set<string>)
    returns (ok: bool, create: seq<string>, update: seq<string>)
    ensures ok <==> TemplatesOk(templates)
    ensures ok ==> Divided(templates.Keys, {}, existing, create, update)
  {
    create, update := [], [];
    var todo := templates.Keys;
    while todo != {}
      invariant todo <= templates.Keys
      invariant forall n :: n in templates && n !in todo ==> Trim(n) != "" && templates[n].valid
      invariant Divided(templates.Keys, todo, existing, create, update)
      decreases |todo|
    {
      var name :| name in todo;
      if Trim(name) == "" || !templates[name].valid {
        return false, create, update;
      }
      DividedMore(templates.Keys, todo, existing, create, update, name);
      if Trim(name) in existing {
        update := update + [Trim(name)];
      } else {
        create := create + [Trim(name)];
      }
      todo := todo - {name};
    }
    return true, create, update;
  }

  /** The trimmed `names`, but for those in `todo`, divided into new and known ones. */
  ghost predicate Divided(names: set<string>, todo: set<string>, existing: set<string>,
                          create: seq<string>, update: seq<string>) {
    && (forall t :: t in create <==> t !in existing && Trims(names, todo, t))
    && (forall t :: t in update <==> t in existing && Trims(names, todo, t))
    && |create| + |update| + |todo| == |names|
  }

  predicate Trims(names: set<string>, todo: set<string>, t: string) {
    exists n :: n in names && n !in todo && Trim(n) == t
  }

  lemma DividedMore(names: set<string>, todo: set<string>, existing: set<string>,
                    create: seq<string>, update: seq<string>, name: string)
    requires Divided(names, todo, existing, create, update) && name in todo && name in names
    ensures if Trim(name) in existing
            then Divided(names, todo - {name}, existing, create, update + [Trim(name)])
            else Divided(names, todo - {name}, existing, create + [Trim(name)], update)
  {
    forall t
      ensures Trims(names, todo - {name}, t) <==> Trims(names, todo, t) || t == Trim(name)
    {
    }
  }

  predicate Named(entries: seq<Entry>, i: nat, name: string)
    requires i <= |entries|
  {
    exists j :: 0 <= j < i && entries[j].name == name
  }

  lemma {:induction false} NamedInMap(entries: seq<Entry>, i: nat, name: string)
    requires i <= |entries|
    ensures name in ByName(entries, i) <==> Named(entries, i, name)
  {
    if i > 0 {
      NamedInMap(entries, i - 1, name);
      assert Named(entries, i, name) <==> Named(entries, i - 1, name) || entries[i - 1].name == name;
    }
  }

  lemma NewName(entries: seq<Entry>, i: nat)
    requires i < |entries|
    ensures DistinctNames(entries, i + 1) <==> DistinctNames(entries, i) && !Named(entries, i, entries[i].name)
  {
  }

  /** The plan for the first `i` entries. */
  ghost predicate Planned(entries: seq<Entry>, i: nat, existing: map<string, Group>,
                          incoming: map<string, Group>, create: seq<string>, update: seq<string>)
    requires i <= |entries|
  {
    && DistinctNames(entries, i) && incoming == ByName(entries, i)
    && Lists(create, incoming.Keys - existing.Keys)
    && Lists(update, ChangedGroups(existing, incoming))
  }

  lemma PlannedMore(entries: seq<Entry>, i: nat, existing: map<string, Group>,
                    incoming: map<string, Group>, create: seq<string>, update: seq<string>)
    requires i < |entries| && Planned(entries, i, existing, incoming, create, update)
    requires entries[i].name !in incoming
    ensures var name, g := entries[i].name, entries[i].group;
            Planned(entries, i + 1, existing, incoming[name := g],
                    if name in existing then create else create + [name],
                    if name in existing && Changed(existing[name], g) then update + [name] else update)
  {
    var name, g := entries[i].name, entries[i].group;
    NamedInMap(entries, i, name);
    NewName(entries, i);
    ListsMore(create, incoming.Keys - existing.Keys, name);
    ListsMore(update, ChangedGroups(existing, incoming), name);
  }

  lemma ListsMore(s: seq<string>, all: set<string>, x: string)
    requires Lists(s, all) && x !in all
    ensures Lists(s + [x], all + {x})
  {
  }

  lemma Repeated(entries: seq<Entry>, i: nat)
    requires i < |entries| && entries[i].name in ByName(entries, i)
    ensures !DistinctNames(entries, |entries|)
  {
    NamedInMap(entries, i, entries[i].name);
    var j :| 0 <= j < i && entries[j].name == entries[i].name;
  }

  method PlanGroups(groups: seq<Entry>, existing: map<string, Group>)
    returns (ok: bool, entries: seq<Entry>, incoming: map<string, Group>, create: seq<string>, update: seq<string>)
    ensures ok <==> GroupsOk(groups)
    ensures ok ==> entries == Normal(groups) && Planned(entries, |groups|, existing, incoming, create, update)
  {
    entries := Normal(groups);
    if exists i :: 0 <= i < |groups| && !EntryOk(groups[i]) {
      return false, entries, map[], [], [];
    }
    ok, incoming, create, update := PlanEntries(entries, existing);
  }

  method PlanEntries(entries: seq<Entry>, existing: map<string, Group>)
    returns (ok: bool, incoming: map<string, Group>, create: seq<string>, update: seq<string>)
    ensures ok <==> DistinctNames(entries, |entries|)
    ensures ok ==> Planned(entries, |entries|, existing, incoming, create, update)
  {
    ok, incoming, create, update := true, map[], [], [];
    for i := 0 to |entries|
      invariant ok && Planned(entries, i, existing, incoming, create, update)
    {
      var e := entries[i];
      if e.name in incoming {
        Repeated(entries, i);
        return false, incoming, create, update;
      }
      PlannedMore(entries, i, existing, incoming, create, update);
      create, update :=
        if e.name in existing then create else create + [e.name],
        if e.name in existing && Changed(existing[e.name], e.group) then update + [e.name] else update;
      incoming := incoming[e.name := e.group];
    }
  }

  /** Existing names that the bundle does not carry. */
  method PlanDeletes(existing: map<string, Group>, incoming: map<string, Group>) returns (gone: seq<string>)
    ensures Lists(gone, existing.Keys - incoming.Keys)
  {
    gone := [];
    var todo := existing.Keys;
    while todo != {}
      invariant todo <= existing.Keys
      invariant Distinct(gone) && forall n :: n in gone <==> n in existing && n !in todo && n !in incoming
      decreases |todo|
    {
      var name :| name in todo;
      if name !in incoming {
        gone := gone + [name];
      }
      todo := todo - {name};
    }
  }

  /** `r` holds what the keys outside `todo` resolve to. */
  ghost predicate ResolvesSome<V(!new)>(m: map<string, V>, todo: set<string>, r: map<string, V>) {
    && (forall k :: k in m && k !in todo ==> Trim(k) in r)
    && (forall k :: k in r ==> exists j :: j in m && j !in todo && Trim(j) == k && m[j] == r[k])
  }

  lemma ResolvesMore<V(!new)>(m: map<string, V>, todo: set<string>, r: map<string, V>, j: string)
    requires ResolvesSome(m, todo, r) && j in m && j in todo
    ensures ResolvesSome(m, todo - {j}, r[Trim(j) := m[j]])
  {
    var r' := r[Trim(j) := m[j]];
    forall k | k in r'
      ensures exists i :: i in m && i !in todo - {j} && Trim(i) == k && m[i] == r'[k]
    {
      if k == Trim(j) {
        assert j !in todo - {j};
      } else {
        var i :| i in m && i !in todo && Trim(i) == k && m[i] == r[k];
        assert i !in todo - {j};
      }
    }
  }

  lemma ResolvesLess<V(!new)>(m: map<string, V>, todo: set<string>, r: map<string, V>, j: string)
    requires ResolvesSome(m, todo, r) && j !in m
    ensures ResolvesSome(m, todo - {j}, r)
  {
    forall k | k in r
      ensures exists i :: i in m && i !in todo - {j} && Trim(i) == k && m[i] == r[k]
    {
      var i :| i in m && i !in todo && Trim(i) == k && m[i] == r[k];
      assert i !in todo - {j};
    }
  }

  method PlanAssignments(b: Bundle, incoming: map<string, Group>) returns (ok: bool, macs: map<string, string>)
    requires b.version >= 2 && incoming == Incoming(b)
    ensures ok <==> AssignmentsOk(b)
    ensures ok ==> Resolves(Kept(b.assignments), macs)
  {
    macs := map[];
    var todo := b.assignments.Keys;
    ghost var kept := Kept(b.assignments);
    while todo != {}
      invariant todo <= b.assignments.Keys
      invariant ResolvesSome(kept, todo, macs)
      invariant forall mac :: mac in kept && mac !in todo ==> kept[mac] in incoming
      decreases |todo|
    {
      var mac :| mac in todo;
      var trimmedMac, trimmedGroup := Trim(mac), Trim(b.assignments[mac]);
      if trimmedMac != "" && trimmedGroup != "" {
        if trimmedGroup !in incoming {
          assert mac in Wanted(b);
          return false, macs;
        }
        ResolvesMore(kept, todo, macs, mac);
        macs := macs[trimmedMac := trimmedGroup];
      } else {
        ResolvesLess(kept, todo, macs, mac);
      }
      todo := todo - {mac};
    }
    return true, macs;
  }

  method CountCreates(existing: map<string, string>, macs: map<string, string>) returns (create: nat, update: nat)
    ensures create == |macs.Keys - existing.Keys|
    ensures update == |MovedDevices(existing, macs)|
  {
    create, update := 0, 0;
    var todo := macs.Keys;
    ghost var created: set<string>, moved: set<string> := {}, {};
    while todo != {}
      invariant todo <= macs.Keys && create == |created| && update == |moved|
      invariant forall m :: m in created <==> m in macs && m !in todo && m !in existing
      invariant forall m :: m in moved <==> m in macs && m !in todo && m in existing && existing[m] != macs[m]
      decreases |todo|
    {
      var mac :| mac in todo;
      if mac !in existing {
        create, created := create + 1, created + {mac};
      } else if existing[mac] != macs[mac] {
        update, moved := update + 1, moved + {mac};
      }
      todo := todo - {mac};
    }
    SameMembers(created, macs.Keys - existing.Keys);
    SameMembers(moved, MovedDevices(existing, macs));
  }

  lemma SameMembers(a: set<string>, b: set<string>)
    requires forall x :: x in a <==> x in b
    ensures a == b
  {
  }

  method CountMissing(existing: map<string, string>, macs: map<string, string>) returns (n: nat)
    ensures n == |existing.Keys - macs.Keys|
  {
    n := 0;
    var todo := existing.Keys;
    ghost var missing: set<string> := {};
    while todo != {}
      invariant todo <= existing.Keys && n == |missing|
      invariant forall m :: m in missing <==> m in existing && m !in todo && m !in macs
      decreases |todo|
    {
      var mac :| mac in todo;
      if mac !in macs {
        n, missing := n + 1, missing + {mac};
      }
      todo := todo - {mac};
    }
    SameMembers(missing, existing.Keys - macs.Keys);
  }

  // ----- Applying -----

  method ApplyTemplates(store: Credentials.Store, templates: map<string, Body>) returns (ghost bodies: map<string, Body>)
    modifies store`templates
    ensures Resolves(templates, bodies)
    ensures store.templates == old(store.templates) + Unlinked(bodies)
  {
    bodies := map[];
    ghost var before := store.templates;
    var todo := templates.Keys;
    while todo != {}
      invariant todo <= templates.Keys
      invariant ResolvesSome(templates, todo, bodies)
      invariant store.templates == before + Unlinked(bodies)
      decreases |todo|
    {
      var name :| name in todo;
      ResolvesMore(templates, todo, bodies, name);
      UnlinkedMore(before, bodies, Trim(name), templates[name]);
      store.templates := store.templates[Trim(name) := Template(templates[name].text, "")];
      bodies := bodies[Trim(name) := templates[name]];
      todo := todo - {name};
    }
  }

  lemma UnlinkedMore(before: map<string, Template>, bodies: map<string, Body>, name: string, body: Body)
    ensures before + Unlinked(bodies[name := body]) == (before + Unlinked(bodies))[name := Template(body.text, "")]
  {
  }

  lemma {:induction false} ByNameAt(entries: seq<Entry>, i: nat, n: nat)
    requires i < n <= |entries| && DistinctNames(entries, n)
    ensures entries[i].name in ByName(entries, n) && ByName(entries, n)[entries[i].name] == entries[i].group
  {
    if i < n - 1 {
      ByNameAt(entries, i, n - 1);
    }
  }

  /** An entry in the form in which the service stores it. */
  predicate Stored(e: Entry) {
    Trim(e.name) == e.name != "" && CleanGroup(e.group) == e.group && GroupTidy(e.group)
  }

  lemma NormalIsStored(e: Entry)
    requires EntryOk(e)
    ensures Stored(Entry(Trim(e.name), Sanitized(e.group)))
  {
    TrimTwice(e.name);
    TrimTwice(e.group.password);
    TrimTwice(e.group.ha1);
    CleanKeeps(e.group.tags, {});
    CleanTwice(e.group.tags);
  }

  function GroupsSaved(s: State, m: map<string, Group>): State {
    s.(groups := s.groups + m, credentials := s.credentials + Mirrors(m))
  }

  method ApplyGroups(store: Credentials.Store, entries: seq<Entry>, incoming: map<string, Group>)
    requires DistinctNames(entries, |entries|) && incoming == ByName(entries, |entries|)
    requires forall i :: 0 <= i < |entries| ==> Stored(entries[i])
    modifies store
    ensures store.View() == GroupsSaved(old(store.View()), incoming)
  {
    ghost var s := store.View();
    for i := 0 to |entries|
      invariant store.View() == GroupsSaved(s, ByName(entries, i))
    {
      var name := entries[i].name;
      ByNameAt(entries, i, |entries|);
      SaveStored(store.View(), entries[i]);
      GroupsMore(s, ByName(entries, i), name, entries[i].group);
      var ok := store.SaveGroup(name, incoming[name]);
    }
  }

  lemma SaveStored(s: State, e: Entry)
    requires Stored(e)
    ensures SaveGroup(s, e.name, e.group) ==
            Some(s.(groups := s.groups[e.name := e.group], credentials := s.credentials[e.name := Mirror(e.group)]))
  {
  }

  lemma GroupsMore(s: State, m: map<string, Group>, name: string, g: Group)
    ensures var t := GroupsSaved(s, m);
            GroupsSaved(s, m[name := g]) ==
            t.(groups := t.groups[name := g], credentials := t.credentials[name := Mirror(g)])
  {
    assert s.groups + m[name := g] == (s.groups + m)[name := g];
    assert s.credentials + Mirrors(m[name := g]) == (s.credentials + Mirrors(m))[name := Mirror(g)];
  }

  function Without(m: map<string, Group>, gone: seq<string>): map<string, Group> {
    map n | n in m && n !in gone :: m[n]
  }

  method DropGroups(store: Credentials.Store, gone: seq<string>)
    modifies store
    ensures store.groups == Without(old(store.groups), gone)
    ensures store.credentials == old(store.credentials) && store.templates == old(store.templates)
    ensures store.settings == old(store.settings)
  {
    ghost var before := store.groups;
    for i := 0 to |gone|
      invariant store.groups == Without(before, gone[..i])
      invariant store.credentials == old(store.credentials) && store.templates == old(store.templates)
      invariant store.settings == old(store.settings)
    {
      assert gone[..i + 1] == gone[..i] + [gone[i]];
      store.DropGroup(gone[i]);
    }
    assert gone[..|gone|] == gone;
  }

  method ReplaceAssignments(store: Credentials.Store, macs: map<string, string>)
    requires forall mac :: mac in macs ==> Trim(mac) == mac != "" && Trim(macs[mac]) == macs[mac] != ""
    modifies store`assignments
    ensures store.assignments == macs
  {
    store.assignments := map[];
    var todo := macs.Keys;
    while todo != {}
      invariant todo <= macs.Keys
      invariant store.assignments == map mac | mac in macs && mac !in todo :: macs[mac]
      decreases |todo|
    {
      var mac :| mac in todo;
      if Trim(mac) != "" && Trim(macs[mac]) != "" {
        store.assignments := store.assignments[mac := macs[mac]];
      }
      todo := todo - {mac};
    }
  }

  lemma GroupsLeft(old_: map<string, Group>, incoming: map<string, Group>, gone: seq<string>)
    requires Lists(gone, old_.Keys - incoming.Keys)
    ensures Without(old_ + incoming, gone) == incoming
  {
  }

  method ReplaceGroups(store: Credentials.Store, entries: seq<Entry>, incoming: map<string, Group>, gone: seq<string>)
    requires DistinctNames(entries, |entries|) && incoming == ByName(entries, |entries|)
    requires forall i :: 0 <= i < |entries| ==> Stored(entries[i])
    requires Lists(gone, store.groups.Keys - incoming.Keys)
    modifies store
    ensures store.groups == incoming
    ensures store.credentials == old(store.credentials) + Mirrors(incoming)
    ensures store.templates == old(store.templates) && store.settings == old(store.settings)
  {
    GroupsLeft(store.groups, incoming, gone);
    ApplyGroups(store, entries, incoming);
    DropGroups(store, gone);
  }

  lemma AllStored(groups: seq<Entry>)
    requires GroupsOk(groups)
    ensures forall i :: 0 <= i < |groups| ==> Stored(Normal(groups)[i])
  {
    forall i | 0 <= i < |groups|
      ensures Stored(Normal(groups)[i])
    {
      assert EntryOk(groups[i]);
      NormalIsStored(groups[i]);
    }
  }

  method Apply(store: Credentials.Store, b: Bundle, entries: seq<Entry>, incoming: map<string, Group>,
               gone: seq<string>, macs: map<string, string>) returns (ghost bodies: map<string, Body>)
    requires GroupsOk(b.groups) && entries == Normal(b.groups) && incoming == Incoming(b)
    requires b.version >= 2 ==> Lists(gone, store.groups.Keys - incoming.Keys)
    requires forall mac :: mac in macs ==> Trim(mac) == mac != "" && Trim(macs[mac]) == macs[mac] != ""
    modifies store
    ensures Resolves(b.templates, bodies)
    ensures store.View() == Applied(old(store.View()), b, macs, bodies)
  {
    ghost var s := store.View();
    store.settings := b.settings;
    bodies := ApplyTemplates(store, b.templates);
    if b.version >= 2 {
      AllStored(b.groups);
      ReplaceGroups(store, entries, incoming, gone);
      ReplaceAssignments(store, macs);
    }
  }

  lemma ResolvedNotBlank(b: Bundle, macs: map<string, string>)
    requires Resolves(Wanted(b), macs)
    ensures forall mac :: mac in macs ==> Trim(mac) == mac != "" && Trim(macs[mac]) == macs[mac] != ""
  {
    forall mac | mac in macs
      ensures Trim(mac) == mac != "" && Trim(macs[mac]) == macs[mac] != ""
    {
      var j :| j in Wanted(b) && Trim(j) == mac && Wanted(b)[j] == macs[mac];
      TrimTwice(j);
      TrimTwice(b.assignments[j]);
    }
  }

  method Plan(store: Credentials.Store, b: Bundle, apply: bool)
    returns (r: Result<Report>, entries: seq<Entry>, incoming: map<string, Group>, macs: map<string, string>)
    ensures r.Ok? <==> Valid(b)
    ensures r.Ok? ==> entries == Normal(b.groups) && incoming == Incoming(b)
    ensures r.Ok? ==> Resolves(Wanted(b), macs)
    ensures r.Ok? ==> r.value.dryRun == !apply && Reported(r.value, store.View(), b, macs)
  {
    r, entries, incoming, macs := Err, [], map[], map[];
    if b.version == 0 || !SettingsValid(b) {
      return;
    }
    var templatesOk, templatesCreate, templatesUpdate := PlanTemplates(b.templates, store.templates.Keys);
    if !templatesOk {
      return;
    }
    var groupsOk, groupsCreate, groupsUpdate;
    groupsOk, entries, incoming, groupsCreate, groupsUpdate := PlanGroups(b.groups, store.groups);
    if !groupsOk {
      return;
    }
    var groupsDelete: seq<string> := [];
    if b.version >= 2 {
      groupsDelete := PlanDeletes(store.groups, incoming);
      var assignmentsOk;
      assignmentsOk, macs := PlanAssignments(b, incoming);
      if !assignmentsOk {
        return;
      }
    }
    var create, update := CountCreates(store.assignments, macs);
    var delete := 0;
    if b.version >= 2 {
      delete := CountMissing(store.assignments, macs);
    }
    r := Ok(Report(!apply, templatesCreate, templatesUpdate, groupsCreate, groupsUpdate, groupsDelete,
                   create, update, delete));
  }

  /** An import accepts exactly the valid bundles. It reports the difference between the bundle and the store,
      and changes the store only when told to apply. */
  method Import(store: Credentials.Store, b: Bundle, apply: bool)
    returns (r: Result<Report>, ghost macs: map<string, string>, ghost bodies: map<string, Body>)
    modifies store
    ensures r.Ok? <==> Valid(b)
    ensures r.Ok? ==> Resolves(Wanted(b), macs) && (apply ==> Resolves(b.templates, bodies))
    ensures r.Ok? ==> r.value.dryRun == !apply && Reported(r.value, old(store.View()), b, macs)
    ensures store.View() == if r.Ok? && apply then Applied(old(store.View()), b, macs, bodies) else old(store.View())
  {
    bodies := map[];
    var entries, incoming, assignments;
    r, entries, incoming, assignments := Plan(store, b, apply);
    macs := assignments;
    if r.Ok? && apply {
      ResolvedNotBlank(b, macs);
      bodies := Apply(store, b, entries, incoming, r.value.groupsDelete, assignments);
    }
  }
}

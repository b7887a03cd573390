/** What imports promise: reports that add up, a second import with nothing left to do, references that stay
    intact over whole runs, and what comes back from an export (internal/services/backup/backup.go). */
module Restore {
  import opened Text
  import opened Tables
  import opened Backup
  import Credentials
  import SecretBox

  // ----- What an import accepts of groups -----

  /** The entries need names, different ones once trimmed, and each of them one of the two secrets. */
  lemma GroupsAccepted(groups: seq<Entry>)
    ensures GroupsOk(groups) <==>
            && (forall i :: 0 <= i < |groups| ==>
                  Trim(groups[i].name) != "" && (Trim(groups[i].group.password) != "" || Trim(groups[i].group.ha1) != ""))
            && (forall i, j :: 0 <= i < j < |groups| ==> Trim(groups[i].name) != Trim(groups[j].name))
  {
    var entries := Normal(groups);
    assert forall i :: 0 <= i < |groups| ==> entries[i].name == Trim(groups[i].name);
    if GroupsOk(groups) {
      forall i | 0 <= i < |groups|
        ensures Trim(groups[i].name) != "" && (Trim(groups[i].group.password) != "" || Trim(groups[i].group.ha1) != "")
      {
        assert EntryOk(groups[i]);
      }
    }
  }

  /** A token is accepted when it is missing or the placeholder, if the interface is off; and else when it has 16 to 128
      letters, digits, underlines and hyphens. */
  lemma TokenExactly(s: Settings)
    ensures var token := Trim(s.mcpToken);
            TokenAccepted(s) <==>
            || (!s.mcpEnabled && (token == "" || token == "<set>"))
            || (16 <= |token| <= 128 && forall i :: 0 <= i < |token| ==>
                  'a' <= token[i] <= 'z' || 'A' <= token[i] <= 'Z' || '0' <= token[i] <= '9' || token[i] in "_-")
  {
  }

  /** An assignment of a bundle that counts: from version 2 on, with a device and a group. */
  ghost predicate Carries(b: Bundle, key: string, mac: string, group: string) {
    && b.version >= 2 && key in b.assignments
    && Trim(key) == mac && mac != "" && Trim(b.assignments[key]) == group && group != ""
  }

  /** What an import accepts, said of the bundle as it comes. */
  lemma AcceptsExactly(b: Bundle)
    ensures Valid(b) <==>
            && b.version != 0 && b.restValid && TokenAccepted(b.settings) && GroupsOk(b.groups)
            && (forall n :: n in b.templates ==> Trim(n) != "" && b.templates[n].valid)
            && (forall key, mac, group :: Carries(b, key, mac, group) ==> NamesGroup(b, group))
  {
    forall group
      ensures group in Incoming(b) <==> NamesGroup(b, group)
    {
      IncomingNames(b, group);
    }
    forall key
      ensures key in Wanted(b) <==> key in b.assignments && Carries(b, key, Trim(key), Trim(b.assignments[key]))
    {
    }
    if Valid(b) {
      forall key, mac, group | Carries(b, key, mac, group)
        ensures NamesGroup(b, group)
      {
        assert key in Wanted(b);
      }
    }
  }

  predicate NamesGroup(b: Bundle, group: string) {
    exists i :: 0 <= i < |b.groups| && Trim(b.groups[i].name) == group
  }

  lemma IncomingNames(b: Bundle, group: string)
    ensures group in Incoming(b) <==> NamesGroup(b, group)
  {
    var entries := Normal(b.groups);
    NamedInMap(entries, |entries|, group);
    assert forall i :: 0 <= i < |entries| ==> entries[i].name == Trim(b.groups[i].name);
    if NamesGroup(b, group) {
      var i :| 0 <= i < |b.groups| && Trim(b.groups[i].name) == group;
      assert entries[i].name == group;
    }
  }

  // ----- What an import leaves -----

  /** From version 2 on the groups are those of the bundle, names and secrets trimmed and tags cleaned, each with its
      mirror; before that groups, mirrors and assignments stay as they were. */
  lemma ImportedGroups(s: State, b: Bundle, macs: map<string, string>, bodies: map<string, Body>, name: string)
    requires Valid(b)
    ensures var t := Applied(s, b, macs, bodies);
            if b.version < 2 then t.groups == s.groups && t.credentials == s.credentials && t.assignments == s.assignments
            else name in t.groups <==> NamesGroup(b, name)
    ensures b.version >= 2 ==>
              forall i :: 0 <= i < |b.groups| ==>
                ShowsGroup(Applied(s, b, macs, bodies), Trim(b.groups[i].name), b.groups[i].group)
    ensures b.version >= 2 && !NamesGroup(b, name) ==>
              var t := Applied(s, b, macs, bodies);
              (name in t.credentials <==> name in s.credentials) && (name in s.credentials ==> t.credentials[name] == s.credentials[name])
  {
    IncomingNames(b, name);
    if b.version >= 2 {
      forall i | 0 <= i < |b.groups|
        ensures ShowsGroup(Applied(s, b, macs, bodies), Trim(b.groups[i].name), b.groups[i].group)
      {
        ByNameAt(Normal(b.groups), i, |b.groups|);
      }
    }
  }

  predicate ShowsGroup(t: State, name: string, g: Group) {
    && name in t.groups && name in t.credentials
    && t.groups[name].password == Trim(g.password) && t.groups[name].ha1 == Trim(g.ha1) && t.groups[name].tags == Clean(g.tags, {})
    && t.credentials[name] == Credential("admin", Trim(g.password), Trim(g.ha1), Clean(g.tags, {}))
  }

  /** From version 2 on the assignments are those that the bundle carries; and the settings and the templates come with
      every bundle, the templates without a credential. */
  lemma ImportedRest(s: State, b: Bundle, macs: map<string, string>, bodies: map<string, Body>, name: string)
    requires Resolves(Wanted(b), macs) && Resolves(b.templates, bodies)
    ensures b.version >= 2 ==>
              var after := Applied(s, b, macs, bodies).assignments;
              && (name in after <==> exists key, group :: Carries(b, key, name, group))
              && (name in after ==> exists key :: Carries(b, key, name, after[name]))
    ensures Applied(s, b, macs, bodies).settings == b.settings
    ensures var after := Applied(s, b, macs, bodies).templates;
            if exists key :: key in b.templates && Trim(key) == name
            then name in after && after[name].credentialRef == ""
                 && exists key :: key in b.templates && Trim(key) == name && after[name].content == b.templates[key].text
            else (name in after <==> name in s.templates) && (name in after ==> after[name] == s.templates[name])
  {
    if b.version >= 2 {
      if key, group :| Carries(b, key, name, group) {
        assert key in Wanted(b);
      }
      if name in macs {
        var key :| key in Wanted(b) && Trim(key) == name && Wanted(b)[key] == macs[name];
        assert Carries(b, key, name, macs[name]);
      }
    }
  }

  // ----- Reports add up -----

  lemma {:induction false} ListSize(s: seq<string>, all: set<string>)
    requires Lists(s, all)
    ensures |s| == |all|
  {
    if s == [] {
      assert all == {};
    } else {
      var n := |s| - 1;
      var rest := all - {s[n]};
      forall x
        ensures x in s[..n] <==> x in rest
      {
        assert s == s[..n] + [s[n]];
      }
      ListSize(s[..n], rest);
    }
  }

  lemma Balance(a: set<string>, b: set<string>)
    ensures |a| + |b - a| - |a - b| == |b|
  {
    assert a == (a - b) + a * b;
    assert b == (b - a) + a * b;
  }

  /** Existing plus created minus deleted is incoming, for groups and for assignments. */
  lemma ReportBalances(r: Report, s: State, b: Bundle, macs: map<string, string>)
    requires b.version >= 2 && Reported(r, s, b, macs)
    ensures |s.groups.Keys| + |r.groupsCreate| - |r.groupsDelete| == |Incoming(b).Keys|
    ensures |s.assignments.Keys| + r.assignmentsCreate - r.assignmentsDelete == |macs.Keys|
  {
    var now := Incoming(b);
    ListSize(r.groupsCreate, now.Keys - s.groups.Keys);
    ListSize(r.groupsDelete, s.groups.Keys - now.Keys);
    Balance(s.groups.Keys, now.Keys);
    Balance(s.assignments.Keys, macs.Keys);
  }

  /** A name is in the report's update list exactly when a secret differs or the pieces of the tags do. So a change
      goes unreported exactly when it is one of the tags alone that moves nothing but where tags end at a
      separator. */
  lemma UpdateListExact(r: Report, s: State, b: Bundle, name: string)
    requires Tidy(s) && GroupsOk(b.groups) && GroupsReported(r, s, b) && name in s.groups && name in Incoming(b)
    ensures var was, now := s.groups[name], Incoming(b)[name];
            && (name in r.groupsUpdate <==>
                  was.password != now.password || was.ha1 != now.ha1 || Pieces(was.tags) != Pieces(now.tags))
            && (was != now && name !in r.groupsUpdate <==>
                  was.password == now.password && was.ha1 == now.ha1
                  && was.tags != now.tags && Pieces(was.tags) == Pieces(now.tags))
  {
    var was, now := s.groups[name], Incoming(b)[name];
    IncomingTidy(b);
    assert GroupTidy(was) && GroupTidy(now);
    JoinExactly(was.tags, now.tags);
  }

  /** Without separators in the tags no change goes unreported. */
  lemma PlainTagsReported(r: Report, s: State, b: Bundle, name: string)
    requires Tidy(s) && GroupsOk(b.groups) && GroupsReported(r, s, b) && name in s.groups && name in Incoming(b)
    requires forall t :: t in s.groups[name].tags + Incoming(b)[name].tags ==> SEPARATOR !in t
    ensures name in r.groupsUpdate <==> s.groups[name] != Incoming(b)[name]
  {
    UpdateListExact(r, s, b, name);
    WholePieces(s.groups[name].tags);
    WholePieces(Incoming(b)[name].tags);
  }

  /** With them it happens to any tag that contains one: cut there, it goes unreported. */
  lemma CutUnreported(password: string, before: string, after: string)
    ensures var whole, cut := Group(password, "", [before + [SEPARATOR] + after]), Group(password, "", [before, after]);
            whole != cut && !Changed(whole, cut)
  {
    var cut := [before, after];
    assert cut[1..] == [after];
    assert Join(cut) == before + [SEPARATOR] + after;
    assert |cut| != |[before + [SEPARATOR] + after]|;
  }

  // ----- Importing twice -----

  lemma NothingListed(s: seq<string>)
    requires Lists(s, {})
    ensures s == []
  {
    ListSize(s, {});
  }

  lemma NothingNew(now: map<string, Group>, create: seq<string>, update: seq<string>, delete: seq<string>)
    requires Lists(create, now.Keys - now.Keys) && Lists(delete, now.Keys - now.Keys)
    requires Lists(update, ChangedGroups(now, now))
    ensures create == [] && update == [] && delete == []
  {
    assert ChangedGroups(now, now) == {} && now.Keys - now.Keys == {};
    NothingListed(create);
    NothingListed(update);
    NothingListed(delete);
  }

  lemma NobodyMoves(a: map<string, string>, b: map<string, string>)
    requires a.Keys == b.Keys
    ensures MovedDevices(a, b) == {} <==> b == a
    ensures b.Keys - a.Keys == {} && a.Keys - b.Keys == {}
  {
    if MovedDevices(a, b) == {} {
      assert forall m :: m in a ==> m !in MovedDevices(a, b);
      assert a == b;
    }
  }

  /** A report on the state that the import itself has made. */
  lemma AgainNothing(s: State, b: Bundle, macs: map<string, string>, bodies: map<string, Body>,
                     again: Report, macs': map<string, string>)
    requires Valid(b) && b.version >= 2
    requires Resolves(Wanted(b), macs) && Resolves(Wanted(b), macs')
    requires Reported(again, Applied(s, b, macs, bodies), b, macs')
    ensures again.groupsCreate == [] && again.groupsUpdate == [] && again.groupsDelete == []
    ensures again.assignmentsCreate == 0 && again.assignmentsDelete == 0
    ensures again.assignmentsUpdate == 0 <==> macs' == macs
  {
    var t := Applied(s, b, macs, bodies);
    assert GroupsReported(again, t, b) && t.groups == Incoming(b);
    NothingNew(Incoming(b), again.groupsCreate, again.groupsUpdate, again.groupsDelete);
    assert AssignmentsReported(again, t, b, macs') && t.assignments == macs;
    SameKeys(Wanted(b), macs, macs');
    NobodyMoves(macs, macs');
  }

  lemma SameKeys(m: map<string, string>, a: map<string, string>, b: map<string, string>)
    requires Resolves(m, a) && Resolves(m, b)
    ensures a.Keys == b.Keys
  {
  }

  ghost predicate KeysTrimmed(b: Bundle) {
    (forall n :: n in b.templates ==> Trimmed(n)) && (forall mac :: mac in b.assignments ==> Trimmed(mac))
  }

  /** For a bundle with trimmed keys the order of the walk does not matter, and the second import of it finds
      nothing to do but to write the templates again. */
  lemma ImportTwice(s: State, b: Bundle, macs: map<string, string>, bodies: map<string, Body>,
                    again: Report, macs': map<string, string>, bodies': map<string, Body>)
    requires Valid(b) && b.version >= 2 && KeysTrimmed(b)
    requires Resolves(Wanted(b), macs) && Resolves(Wanted(b), macs')
    requires Resolves(b.templates, bodies) && Resolves(b.templates, bodies')
    requires Reported(again, Applied(s, b, macs, bodies), b, macs')
    ensures Applied(s, b, macs, bodies).groups == Incoming(b) && Applied(s, b, macs, bodies).assignments == Wanted(b)
    ensures again.groupsCreate == [] && again.groupsUpdate == [] && again.groupsDelete == []
    ensures again.assignmentsCreate == again.assignmentsUpdate == again.assignmentsDelete == 0
    ensures Applied(Applied(s, b, macs, bodies), b, macs', bodies') == Applied(s, b, macs, bodies)
  {
    TrimmedMacs(b, macs);
    TrimmedMacs(b, macs');
    TrimmedBodies(b, bodies);
    TrimmedBodies(b, bodies');
    AgainNothing(s, b, macs, bodies, again, macs');
    AppliedTwice(s, b, macs, bodies);
  }

  lemma TrimmedMacs(b: Bundle, macs: map<string, string>)
    requires KeysTrimmed(b) && Resolves(Wanted(b), macs)
    ensures macs == Wanted(b)
  {
    WantedTrimmed(b);
    ResolvesTrimmed(Wanted(b), macs);
  }

  lemma TrimmedBodies(b: Bundle, bodies: map<string, Body>)
    requires KeysTrimmed(b) && Resolves(b.templates, bodies)
    ensures bodies == b.templates
  {
    ResolvesTrimmed(b.templates, bodies);
  }

  lemma WantedTrimmed(b: Bundle)
    requires KeysTrimmed(b)
    ensures forall k :: k in Wanted(b) ==> Trimmed(k)
  {
  }

  lemma AppliedTwice(s: State, b: Bundle, macs: map<string, string>, bodies: map<string, Body>)
    requires b.version >= 2
    ensures Applied(Applied(s, b, macs, bodies), b, macs, bodies) == Applied(s, b, macs, bodies)
  {
    TwiceTheSame(s.templates, Unlinked(bodies));
    TwiceTheSame(s.credentials, Mirrors(Incoming(b)));
  }

  lemma TwiceTheSame<V>(m: map<string, V>, more: map<string, V>)
    ensures m + more + more == m + more
  {
  }

  /** The report of an applied import is true of the groups only from version 2 on: a version 1 bundle
      announces its groups and leaves them out. A second report is free of creations and updates exactly when
      the version was applied or there were none in the first place. */
  lemma AnnouncedButNotApplied(s: State, b: Bundle, macs: map<string, string>, bodies: map<string, Body>,
                               first: Report, again: Report)
    requires Valid(b)
    requires GroupsReported(first, s, b) && GroupsReported(again, Applied(s, b, macs, bodies), b)
    ensures again.groupsCreate == [] && again.groupsUpdate == [] <==>
            b.version >= 2 || (first.groupsCreate == [] && first.groupsUpdate == [])
  {
    var now := Incoming(b);
    if b.version >= 2 {
      assert ChangedGroups(now, now) == {} && now.Keys - now.Keys == {};
      NothingListed(again.groupsCreate);
      NothingListed(again.groupsUpdate);
    } else {
      SameList(first.groupsCreate, again.groupsCreate, now.Keys - s.groups.Keys);
      SameList(first.groupsUpdate, again.groupsUpdate, ChangedGroups(s.groups, now));
    }
  }

  lemma SameList(a: seq<string>, b: seq<string>, all: set<string>)
    requires Lists(a, all) && Lists(b, all)
    ensures a == [] <==> b == []
  {
    ListSize(a, all);
    ListSize(b, all);
  }

  // ----- References over whole runs -----

  lemma IncomingTidy(b: Bundle)
    requires GroupsOk(b.groups)
    ensures forall n :: n in Incoming(b) ==> n != "" && Trimmed(n) && GroupTidy(Incoming(b)[n])
  {
    var entries := Normal(b.groups);
    forall n | n in Incoming(b)
      ensures n != "" && Trimmed(n) && GroupTidy(Incoming(b)[n])
    {
      NamedInMap(entries, |entries|, n);
      var j :| 0 <= j < |entries| && entries[j].name == n;
      ByNameAt(entries, j, |entries|);
      AllStored(b.groups);
      TrimTrims(b.groups[j].name);
    }
  }

  lemma ImportedMacs(b: Bundle, macs: map<string, string>)
    requires AssignmentsOk(b) && Resolves(Wanted(b), macs)
    ensures forall mac :: mac in macs ==> mac != "" && Trimmed(mac) && macs[mac] in Incoming(b)
  {
    ResolvedNotBlank(b, macs);
    forall mac | mac in macs
      ensures macs[mac] in Incoming(b) && Trimmed(mac)
    {
      var j :| j in Wanted(b) && Trim(j) == mac && Wanted(b)[j] == macs[mac];
      TrimTrims(j);
    }
  }

  lemma ImportKeepsIntact(s: State, b: Bundle, macs: map<string, string>, bodies: map<string, Body>)
    requires Intact(s) && Tidy(s) && Valid(b)
    requires Resolves(Wanted(b), macs) && Resolves(b.templates, bodies)
    ensures Intact(Applied(s, b, macs, bodies)) && Tidy(Applied(s, b, macs, bodies))
  {
    IncomingTidy(b);
    ImportedMacs(b, macs);
  }

  datatype Event =
    | Do(op: Op)
    | Load(bundle: Bundle, apply: bool, macs: map<string, string>, bodies: map<string, Body>)

  /** A refused operation changes nothing; neither does a dry run. */
  ghost function Step(s: State, e: Event): State {
    match e
    case Do(op) => if Perform(s, op).Some? then Perform(s, op).value else s
    case Load(b, apply, macs, bodies) =>
      if apply && Valid(b) && Resolves(Wanted(b), macs) && Resolves(b.templates, bodies)
      then Applied(s, b, macs, bodies) else s
  }

  ghost function Run(s: State, events: seq<Event>): State {
    if events == [] then s else Step(Run(s, events[..|events| - 1]), events[|events| - 1])
  }

  /** From an empty store, whatever is saved, deleted and imported in whatever order, each of it done before the next
      begins, every assignment names a group that is there, and every template's reference a credential that is
      there. Overlap.IntactExactly says when that holds of requests that overlap. */
  lemma {:induction false} NoDanglingReferences(events: seq<Event>)
    ensures Intact(Run(EMPTY, events)) && Tidy(Run(EMPTY, events))
  {
    if events != [] {
      var n := |events| - 1;
      NoDanglingReferences(events[..n]);
      StepKeepsIntact(Run(EMPTY, events[..n]), events[n]);
    }
  }

  lemma StepKeepsIntact(s: State, e: Event)
    requires Intact(s) && Tidy(s)
    ensures Intact(Step(s, e)) && Tidy(Step(s, e))
  {
    match e
    case Do(op) =>
      if Perform(s, op).Some? {
        OperationKeepsIntact(s, op);
      }
    case Load(b, apply, macs, bodies) =>
      if apply && Valid(b) && Resolves(Wanted(b), macs) && Resolves(b.templates, bodies) {
        ImportKeepsIntact(s, b, macs, bodies);
      }
  }

  // ----- Export -----

  /** `groups` holds every row of `table` once, under its name. */
  ghost predicate ListsTable(groups: seq<Entry>, table: map<string, Group>) {
    && DistinctNames(groups, |groups|)
    && (forall i :: 0 <= i < |groups| ==> groups[i].name in table && groups[i].group == table[groups[i].name])
    && (forall n :: n in table ==> Named(groups, |groups|, n))
  }

  /** A bundle exported with its secrets; `valid` is the verdict on template contents. */
  ghost predicate Exported(b: Bundle, s: State, valid: string -> bool) {
    && b.version == 3 && b.settings == s.settings && b.assignments == s.assignments
    && b.templates.Keys == s.templates.Keys
    && (forall n :: n in s.templates ==> b.templates[n] == Body(s.templates[n].content, valid(s.templates[n].content)))
    && ListsTable(b.groups, s.groups)
  }

  method Export(store: Credentials.Store, valid: string -> bool, restValid: bool) returns (b: Bundle)
    ensures Exported(b, store.View(), valid) && b.restValid == restValid
  {
    var groups := ListGroups(store.groups);
    var templates := map n | n in store.templates :: Body(store.templates[n].content, valid(store.templates[n].content));
    return Bundle(3, store.settings, restValid, templates, groups, store.assignments);
  }

  method ListGroups(table: map<string, Group>) returns (groups: seq<Entry>)
    ensures ListsTable(groups, table)
  {
    groups := [];
    var todo := table.Keys;
    while todo != {}
      invariant todo <= table.Keys && DistinctNames(groups, |groups|)
      invariant forall i :: 0 <= i < |groups| ==>
                  groups[i].name in table && groups[i].name !in todo && groups[i].group == table[groups[i].name]
      invariant forall n :: n in table && n !in todo ==> Named(groups, |groups|, n)
      decreases |todo|
    {
      var name :| name in todo;
      ghost var before := groups;
      groups := groups + [Entry(name, table[name])];
      forall n | n in table && n !in todo - {name}
        ensures Named(groups, |groups|, n)
      {
        if n == name {
          assert groups[|before|].name == n;
        } else {
          var j :| 0 <= j < |before| && before[j].name == n;
          assert groups[j].name == n;
        }
      }
      todo := todo - {name};
    }
  }

  function TrimSecrets(g: Group): Group {
    g.(password := Trim(g.password), ha1 := Trim(g.ha1))
  }

  /** The groups of an export, read back: the same but for blanks around secrets. */
  lemma ExportedGroups(b: Bundle, s: State, valid: string -> bool)
    requires Tidy(s) && Exported(b, s, valid)
    ensures GroupsOk(b.groups)
    ensures Incoming(b).Keys == s.groups.Keys
    ensures forall n :: n in s.groups ==> Incoming(b)[n] == TrimSecrets(s.groups[n])
  {
    var entries := Normal(b.groups);
    forall i | 0 <= i < |entries|
      ensures entries[i].name == b.groups[i].name && EntryOk(b.groups[i])
      ensures entries[i].group == TrimSecrets(s.groups[entries[i].name])
    {
      assert b.groups[i].name in s.groups;
      CleanIsFixed(b.groups[i].group.tags, {});
    }
    assert DistinctNames(entries, |entries|);
    forall n
      ensures n in Incoming(b) <==> n in s.groups
      ensures n in s.groups ==> Incoming(b)[n] == TrimSecrets(s.groups[n])
    {
      NamedInMap(entries, |entries|, n);
      if Named(b.groups, |b.groups|, n) {
        var j :| 0 <= j < |b.groups| && b.groups[j].name == n;
        assert entries[j].name == n;
        ByNameAt(entries, j, |entries|);
      }
    }
  }

  /** The assignments of an export all count. */
  lemma ExportedAssignments(b: Bundle, s: State, valid: string -> bool)
    requires Tidy(s) && Intact(s) && Exported(b, s, valid)
    ensures Wanted(b) == s.assignments
  {
    forall mac | mac in s.assignments
      ensures Trim(mac) == mac != "" && Trim(s.assignments[mac]) == s.assignments[mac] != ""
    {
      assert s.assignments[mac] in s.groups;
    }
  }

  /** An export can be imported again exactly when the settings and template contents still pass their
      validation and no template has a blank name; saving a template does not refuse such a name. */
  lemma ExportImportable(b: Bundle, s: State, valid: string -> bool)
    requires Tidy(s) && Intact(s) && Exported(b, s, valid)
    ensures Valid(b) <==>
            b.restValid && TokenAccepted(s.settings)
            && forall n :: n in s.templates ==> Trim(n) != "" && valid(s.templates[n].content)
  {
    ExportedGroups(b, s, valid);
    ExportedAssignments(b, s, valid);
  }

  /** The export holds the settings row as stored, the token sealed, and a sealed token is not accepted: while a
      token is stored no export can be imported. */
  lemma SealedTokenRefused(b: Bundle, s: State, valid: string -> bool)
    requires Exported(b, s, valid) && SecretBox.IsBlob(s.settings.mcpToken)
    ensures !Valid(b)
  {
    var token := s.settings.mcpToken;
    TrimKeepsStart("v1$", token);
    assert Trim(token)[2] == '$';
  }

  lemma {:induction false} TrimKeepsStart(start: string, s: string)
    requires start <= s && start != "" && !IsSpace(start[0]) && !IsSpace(start[|start| - 1])
    ensures start <= Trim(s)
    decreases |s|
  {
    if IsSpace(s[|s| - 1]) {
      assert |s| > |start|;
      TrimKeepsStart(start, s[..|s| - 1]);
    }
  }

  /** The report on one's own export: no group comes or goes, no assignment changes, and the groups to update
      are those with blanks around a secret. Of the templates all that are there under their trimmed name count as
      updates, and a padded name as a creation if its trimmed form is not there. */
  lemma ExportThenDryRun(b: Bundle, s: State, valid: string -> bool, r: Report, macs: map<string, string>)
    requires Tidy(s) && Intact(s) && Exported(b, s, valid)
    requires Resolves(Wanted(b), macs) && Reported(r, s, b, macs)
    ensures r.groupsCreate == [] && r.groupsDelete == []
    ensures forall n :: n in r.groupsUpdate <==> n in s.groups && TrimSecrets(s.groups[n]) != s.groups[n]
    ensures r.assignmentsCreate == r.assignmentsUpdate == r.assignmentsDelete == 0
    ensures forall t :: t in r.templatesUpdate <==> t in s.templates && Trims(s.templates.Keys, {}, t)
    ensures forall t :: t in r.templatesCreate <==> t !in s.templates && Trims(s.templates.Keys, {}, t)
    ensures forall n :: n in s.templates && Trim(n) == n ==> n in r.templatesUpdate
    ensures |r.templatesCreate| + |r.templatesUpdate| == |s.templates|
  {
    ExportedGroups(b, s, valid);
    ExportedAssignments(b, s, valid);
    ResolvesTrimmed(Wanted(b), macs);
    NothingListed(r.groupsCreate);
    NothingListed(r.groupsDelete);
    assert MovedDevices(s.assignments, macs) == {};
    assert s.assignments.Keys - macs.Keys == {} == macs.Keys - s.assignments.Keys;
    assert b.templates.Keys == s.templates.Keys && |b.templates| == |s.templates.Keys|;
  }

  /** If it is accepted (ExportImportable), restoring one's own export brings the settings, assignments and groups back as they were, but for blanks
      around secrets; and each group's mirror is written anew. */
  lemma RestoreOwnExport(b: Bundle, s: State, valid: string -> bool, macs: map<string, string>, bodies: map<string, Body>)
    requires Tidy(s) && Intact(s) && Exported(b, s, valid) && Resolves(Wanted(b), macs)
    ensures var t := Applied(s, b, macs, bodies);
            && t.settings == s.settings && t.assignments == s.assignments
            && t.groups.Keys == s.groups.Keys
            && (forall n :: n in s.groups ==> t.groups[n] == TrimSecrets(s.groups[n]))
            && t.credentials == s.credentials + Mirrors(t.groups)
  {
    ExportedGroups(b, s, valid);
    ExportedAssignments(b, s, valid);
    ResolvesTrimmed(Wanted(b), macs);
  }

  predicate NoReferences(templates: map<string, Template>) {
    forall n :: n in templates ==> templates[n].credentialRef == ""
  }

  /** The same contents without references; nothing is lost exactly when there were none. */
  predicate Severed(before: map<string, Template>, after: map<string, Template>) {
    && after.Keys == before.Keys
    && (forall n :: n in before ==> after[n] == Template(before[n].content, ""))
    && (after == before <==> NoReferences(before))
  }

  /** Templates with trimmed names come back with their contents, and all of them without their reference to a
      credential. */
  lemma RestoreOwnTemplates(b: Bundle, s: State, valid: string -> bool, macs: map<string, string>, bodies: map<string, Body>)
    requires Exported(b, s, valid) && Resolves(b.templates, bodies)
    requires forall n :: n in b.templates ==> Trimmed(n)
    ensures Severed(s.templates, Applied(s, b, macs, bodies).templates)
  {
    ResolvesTrimmed(b.templates, bodies);
    OwnTemplates(b, s, valid, macs, bodies);
  }

  lemma OwnTemplates(b: Bundle, s: State, valid: string -> bool, macs: map<string, string>, bodies: map<string, Body>)
    requires Exported(b, s, valid) && bodies == b.templates
    ensures Severed(s.templates, Applied(s, b, macs, bodies).templates)
  {
    RelinkedTemplates(s.templates, bodies);
  }

  /** A template whose name has blanks around it, which saving permits, stays as it is, and the import writes a
      second one beside it under the trimmed name. */
  lemma PaddedNameDoubles(b: Bundle, s: State, valid: string -> bool, macs: map<string, string>,
                          bodies: map<string, Body>, name: string)
    requires Exported(b, s, valid) && Resolves(b.templates, bodies)
    requires name in s.templates && Trim(name) != name
    ensures var after := Applied(s, b, macs, bodies).templates;
            && name in after && after[name] == s.templates[name]
            && Trim(name) in after && after[Trim(name)].credentialRef == ""
  {
    if name in bodies {
      var j :| j in b.templates && Trim(j) == name && b.templates[j] == bodies[name];
      TrimTwice(j);
    }
    assert Trim(name) in bodies;
  }

  lemma RelinkedTemplates(templates: map<string, Template>, bodies: map<string, Body>)
    requires bodies.Keys == templates.Keys
    requires forall n :: n in templates ==> bodies[n].text == templates[n].content
    ensures Severed(templates, templates + Unlinked(bodies))
  {
    var after := templates + Unlinked(bodies);
    assert forall n :: n in templates ==> after[n] == Template(templates[n].content, "");
    assert after == templates <==> forall n :: n in templates ==> after[n] == templates[n];
  }
}

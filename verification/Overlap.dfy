/** Requests on credentials, groups, assignments and templates that overlap: each first checks and then writes,
    in separate calls to the store, and the writes of an import are many (internal/services/credentials,
    internal/services/templates/templates.go, internal/services/backup/backup.go). */
module Overlap {
  import opened Wrappers
  import opened Text
  import opened Tables
  import opened Backup

  // ----- The calls that write -----

  datatype Write =
    | PutCredential(name: string, credential: Credential)
    | DropCredential(name: string)
    | PutGroup(name: string, group: Group)
    | DropGroupRows(name: string)                        // the group and the assignments to it, in one transaction
    | Assign(macs: seq<string>, groupName: string)
    | ReplaceAssigned(assignments: map<string, string>)
    | PutTemplate(name: string, template: Template)
    | DropTemplate(name: string)
    | PutSettings(settings: Settings)

  function Written(s: State, w: Write): State {
    match w
    case PutCredential(name, c) => s.(credentials := s.credentials[name := c])
    case DropCredential(name) => s.(credentials := s.credentials - {name})
    case PutGroup(name, g) => s.(groups := s.groups[name := g])
    case DropGroupRows(name) => DropGroup(s, name)
    case Assign(macs, g) => s.(assignments := Assigned(s.assignments, macs, g))
    case ReplaceAssigned(m) => s.(assignments := m)
    case PutTemplate(name, t) => s.(templates := s.templates[name := t])
    case DropTemplate(name) => s.(templates := s.templates - {name})
    case PutSettings(settings) => s.(settings := settings)
  }

  /** What a write needs at the moment it happens: a template or an assignment, that what it names is there; the
      deletion of a credential, that no template names it. */
  ghost predicate SafeWrite(s: State, w: Write) {
    match w
    case DropCredential(name) => name == "" || !Referenced(s, name)
    case Assign(macs, g) => macs == [] || g == "" || g in s.groups
    case ReplaceAssigned(m) => forall mac :: mac in m ==> m[mac] in s.groups
    case PutTemplate(_, t) => t.credentialRef == "" || t.credentialRef in s.credentials
    case PutCredential(_, _) => true
    case PutGroup(_, _) => true
    case DropGroupRows(_) => true
    case DropTemplate(_) => true
    case PutSettings(_) => true
  }

  /** A write leaves no dangling reference exactly when it is safe. */
  lemma WriteExactly(s: State, w: Write)
    requires Intact(s)
    ensures Intact(Written(s, w)) <==> SafeWrite(s, w)
  {
    var t := Written(s, w);
    match w
    case DropCredential(name) =>
      if name != "" && Referenced(s, name) {
        var n :| n in s.templates && s.templates[n].credentialRef == name;
        assert n in t.templates && t.templates[n].credentialRef !in t.credentials;
      }
    case Assign(macs, g) =>
      if macs != [] && g != "" {
        assert macs[0] in t.assignments && t.assignments[macs[0]] == g;
      }
    case PutTemplate(name, template) => assert name in t.templates && t.templates[name] == template;
    case ReplaceAssigned(_) =>
    case PutCredential(_, _) =>
    case PutGroup(_, _) =>
    case DropGroupRows(_) =>
    case DropTemplate(_) =>
    case PutSettings(_) =>
  }

  // ----- Requests as their writes -----

  /** The check of an operation on the tables as it finds them, and the writes it then goes on to. */
  function Planned(s: State, op: Op): Option<seq<Write>> {
    if Perform(s, op).None? then None
    else
      match op
      case OpSaveCredential(name, c) =>
        Some([PutCredential(Trim(name), c.(username := Trim(c.username), tags := Clean(c.tags, {})))])
      case OpDeleteCredential(name) => Some([DropCredential(Trim(name))])
      case OpSaveGroup(name, g) =>
        Some([PutGroup(Trim(name), CleanGroup(g)), PutCredential(Trim(name), Mirror(CleanGroup(g)))])
      case OpDeleteGroup(name) => Some([DropCredential(Trim(name)), DropGroupRows(Trim(name))])
      case OpSaveAssignments(macs, g) => Some([Assign(Clean(macs, {}), Trim(g))])
      case OpSaveTemplate(name, body, c) => Some([PutTemplate(name, Template(body.text, Trim(c)))])
      case OpDeleteTemplate(name) => Some([DropTemplate(name)])
  }

  function WriteAll(s: State, ws: seq<Write>): State {
    if ws == [] then s else Written(WriteAll(s, ws[..|ws| - 1]), ws[|ws| - 1])
  }

  lemma WriteOneTwo(s: State, v: Write, w: Write)
    ensures WriteAll(s, [v]) == Written(s, v) && WriteAll(s, [v, w]) == Written(Written(s, v), w)
  {
    assert [v][..0] == [] && [v, w][..1] == [v];
  }

  /** Check and writes without anything in between are the operation. */
  lemma PlannedIsPerform(s: State, op: Op)
    ensures Planned(s, op).Some? <==> Perform(s, op).Some?
    ensures Planned(s, op).Some? ==> Perform(s, op) == Some(WriteAll(s, Planned(s, op).value))
  {
    if Planned(s, op).Some? {
      var ws := Planned(s, op).value;
      WriteOneTwo(s, ws[0], ws[|ws| - 1]);
      assert |ws| == 1 ==> ws == [ws[0]];
      assert |ws| == 2 ==> ws == [ws[0], ws[1]];
    }
  }

  /** And what a check has found still holds for the writes that follow at once. */
  lemma PlannedIsSafe(s: State, op: Op)
    requires Planned(s, op).Some?
    ensures var ws := Planned(s, op).value;
            |ws| >= 1 && SafeWrite(s, ws[0]) && (|ws| > 1 ==> |ws| == 2 && SafeWrite(Written(s, ws[0]), ws[1]))
  {
  }

  lemma {:induction false} WriteAllAppend(s: State, a: seq<Write>, b: seq<Write>)
    ensures WriteAll(s, a + b) == WriteAll(WriteAll(s, a), b)
  {
    if b == [] {
      assert a + b == a;
    } else {
      var n := |b| - 1;
      WriteAllAppend(s, a, b[..n]);
      assert (a + b)[..|a + b| - 1] == a + b[..n] && (a + b)[|a + b| - 1] == b[n];
    }
  }

  // ----- An import as its writes -----

  function TemplateWrites(names: seq<string>, bodies: map<string, Body>, i: nat): seq<Write>
    requires i <= |names| && forall n :: n in names ==> n in bodies
  {
    if i == 0 then []
    else TemplateWrites(names, bodies, i - 1) + [PutTemplate(names[i - 1], Template(bodies[names[i - 1]].text, ""))]
  }

  function GroupWrites(entries: seq<Entry>, i: nat): seq<Write>
    requires i <= |entries|
  {
    if i == 0 then []
    else
      var e := entries[i - 1];
      GroupWrites(entries, i - 1) + [PutGroup(e.name, e.group)] + [PutCredential(e.name, Mirror(e.group))]
  }

  function DropWrites(gone: seq<string>, i: nat): seq<Write>
    requires i <= |gone|
  {
    if i == 0 then [] else DropWrites(gone, i - 1) + [DropGroupRows(gone[i - 1])]
  }

  /** `names` lists the templates in the order of the walk, `gone` the groups to delete. */
  function ImportWrites(b: Bundle, macs: map<string, string>, bodies: map<string, Body>,
                        names: seq<string>, gone: seq<string>): seq<Write>
    requires forall n :: n in names ==> n in bodies
  {
    [PutSettings(b.settings)] + TemplateWrites(names, bodies, |names|)
    + if b.version < 2 then []
      else GroupWrites(Normal(b.groups), |b.groups|) + DropWrites(gone, |gone|) + [ReplaceAssigned(macs)]
  }

  lemma WriteMore(s: State, ws: seq<Write>, w: Write)
    ensures WriteAll(s, ws + [w]) == Written(WriteAll(s, ws), w)
  {
    assert (ws + [w])[..|ws|] == ws;
  }

  function FirstBodies(names: seq<string>, bodies: map<string, Body>, i: nat): map<string, Body>
    requires i <= |names| && forall n :: n in names ==> n in bodies
  {
    if i == 0 then map[] else FirstBodies(names, bodies, i - 1)[names[i - 1] := bodies[names[i - 1]]]
  }

  lemma {:induction false} FirstBodiesAre(names: seq<string>, bodies: map<string, Body>, i: nat)
    requires i <= |names| && forall n :: n in names ==> n in bodies
    ensures forall n :: n in FirstBodies(names, bodies, i) <==> n in names[..i]
    ensures forall n :: n in FirstBodies(names, bodies, i) ==> FirstBodies(names, bodies, i)[n] == bodies[n]
  {
    if i > 0 {
      FirstBodiesAre(names, bodies, i - 1);
      assert names[..i] == names[..i - 1] + [names[i - 1]];
    }
  }

  lemma {:induction false} TemplatesWritten(s: State, names: seq<string>, bodies: map<string, Body>, i: nat)
    requires i <= |names| && forall n :: n in names ==> n in bodies
    ensures WriteAll(s, TemplateWrites(names, bodies, i)) ==
            s.(templates := s.templates + Unlinked(FirstBodies(names, bodies, i)))
  {
    if i == 0 {
      assert s.templates + Unlinked(map[]) == s.templates;
    } else {
      var n := names[i - 1];
      TemplatesWritten(s, names, bodies, i - 1);
      WriteMore(s, TemplateWrites(names, bodies, i - 1), PutTemplate(n, Template(bodies[n].text, "")));
      UnlinkedMore(s.templates, FirstBodies(names, bodies, i - 1), n, bodies[n]);
    }
  }

  lemma GroupWritten(s: State, entries: seq<Entry>, i: nat, t: State)
    requires 0 < i <= |entries| && t == GroupsSaved(s, ByName(entries, i - 1))
    ensures var e := entries[i - 1];
            Written(Written(t, PutGroup(e.name, e.group)), PutCredential(e.name, Mirror(e.group)))
            == GroupsSaved(s, ByName(entries, i))
  {
    GroupsMore(s, ByName(entries, i - 1), entries[i - 1].name, entries[i - 1].group);
  }

  lemma {:induction false} GroupsWritten(s: State, entries: seq<Entry>, i: nat)
    requires i <= |entries|
    ensures WriteAll(s, GroupWrites(entries, i)) == GroupsSaved(s, ByName(entries, i))
  {
    if i == 0 {
      NoGroupsSaved(s);
    } else {
      var e, ws := entries[i - 1], GroupWrites(entries, i - 1);
      GroupsWritten(s, entries, i - 1);
      WriteTwoMore(s, ws, PutGroup(e.name, e.group), PutCredential(e.name, Mirror(e.group)));
      GroupWritten(s, entries, i, WriteAll(s, ws));
    }
  }

  lemma NoGroupsSaved(s: State)
    ensures GroupsSaved(s, map[]) == s
  {
    assert s.groups + map[] == s.groups && s.credentials + Mirrors(map[]) == s.credentials;
  }

  lemma WriteTwoMore(s: State, ws: seq<Write>, v: Write, w: Write)
    ensures WriteAll(s, ws + [v] + [w]) == Written(Written(WriteAll(s, ws), v), w)
  {
    WriteMore(s, ws, v);
    WriteMore(s, ws + [v], w);
  }

  /** `t` is `s` without the groups in `gone`; the assignments may differ. */
  ghost predicate Dropped(s: State, t: State, gone: seq<string>) {
    && t.groups == Without(s.groups, gone) && t.credentials == s.credentials
    && t.templates == s.templates && t.settings == s.settings
  }

  lemma DroppedOne(s: State, t: State, gone: seq<string>, i: nat)
    requires i < |gone|
    ensures Dropped(s, t, gone[..i]) ==> Dropped(s, Written(t, DropGroupRows(gone[i])), gone[..i + 1])
  {
    WithoutMore(s.groups, gone, i);
  }

  lemma NoneDropped(s: State, gone: seq<string>)
    ensures Dropped(s, s, gone[..0])
  {
    assert Without(s.groups, gone[..0]) == s.groups;
  }

  lemma {:induction false} DropsWritten(s: State, gone: seq<string>, i: nat)
    requires i <= |gone|
    ensures Dropped(s, WriteAll(s, DropWrites(gone, i)), gone[..i])
  {
    if i == 0 {
      NoneDropped(s, gone);
    } else {
      var ws := DropWrites(gone, i - 1);
      DropsWritten(s, gone, i - 1);
      WriteMore(s, ws, DropGroupRows(gone[i - 1]));
      DroppedOne(s, WriteAll(s, ws), gone, i - 1);
    }
  }

  lemma WithoutMore(m: map<string, Group>, gone: seq<string>, i: nat)
    requires i < |gone|
    ensures Without(m, gone[..i + 1]) == Without(m, gone[..i]) - {gone[i]}
  {
    assert gone[..i + 1] == gone[..i] + [gone[i]];
  }

  /** The writes of an import without anything in between are the import. */
  lemma ImportIsApplied(s: State, b: Bundle, macs: map<string, string>, bodies: map<string, Body>,
                        names: seq<string>, gone: seq<string>)
    requires Lists(names, bodies.Keys)
    requires b.version >= 2 ==> Lists(gone, s.groups.Keys - Incoming(b).Keys)
    ensures WriteAll(s, ImportWrites(b, macs, bodies, names, gone)) == Applied(s, b, macs, bodies)
  {
    var first, second := [PutSettings(b.settings)], TemplateWrites(names, bodies, |names|);
    var t := s.(settings := b.settings);
    WriteOneTwo(s, first[0], first[0]);
    WriteAllAppend(s, first, second);
    TemplatesWritten(t, names, bodies, |names|);
    AllBodies(names, bodies);
    var u := WriteAll(s, first + second);
    assert u == t.(templates := s.templates + Unlinked(bodies));
    if b.version < 2 {
      assert first + second + [] == first + second;
    } else {
      GroupsReplaced(u, b, macs, gone);
      WriteAllAppend(s, first + second,
        GroupWrites(Normal(b.groups), |b.groups|) + DropWrites(gone, |gone|) + [ReplaceAssigned(macs)]);
    }
  }

  lemma AllBodies(names: seq<string>, bodies: map<string, Body>)
    requires Lists(names, bodies.Keys)
    ensures FirstBodies(names, bodies, |names|) == bodies
  {
    FirstBodiesAre(names, bodies, |names|);
    assert names[..|names|] == names;
  }

  lemma GroupsReplaced(u: State, b: Bundle, macs: map<string, string>, gone: seq<string>)
    requires Lists(gone, u.groups.Keys - Incoming(b).Keys)
    ensures WriteAll(u, GroupWrites(Normal(b.groups), |b.groups|) + DropWrites(gone, |gone|) + [ReplaceAssigned(macs)]) ==
            u.(groups := Incoming(b), credentials := u.credentials + Mirrors(Incoming(b)), assignments := macs)
  {
    var third, fourth := GroupWrites(Normal(b.groups), |b.groups|), DropWrites(gone, |gone|);
    var v := GroupsSaved(u, Incoming(b));
    GroupsWritten(u, Normal(b.groups), |b.groups|);
    AllDropped(v, gone);
    LastWrite(u, Incoming(b), WriteAll(v, fourth), gone, macs);
    WriteAllAppend(u, third, fourth);
    WriteMore(u, third + fourth, ReplaceAssigned(macs));
  }

  lemma AllDropped(v: State, gone: seq<string>)
    ensures Dropped(v, WriteAll(v, DropWrites(gone, |gone|)), gone)
  {
    DropsWritten(v, gone, |gone|);
    assert gone[..|gone|] == gone;
  }

  lemma LastWrite(u: State, now: map<string, Group>, w: State, gone: seq<string>, macs: map<string, string>)
    requires Lists(gone, u.groups.Keys - now.Keys) && Dropped(GroupsSaved(u, now), w, gone)
    ensures Written(w, ReplaceAssigned(macs)) ==
            u.(groups := now, credentials := u.credentials + Mirrors(now), assignments := macs)
  {
    GroupsLeft(u.groups, now, gone);
  }

  // ----- Requests that overlap -----

  datatype System = System(tables: State, pending: map<nat, seq<Write>>)

  datatype Event =
    | Begin(id: nat, op: Op)         // a request passes its check
    | BeginImport(id: nat, bundle: Bundle, macs: map<string, string>, bodies: map<string, Body>,
                  names: seq<string>, gone: seq<string>)
    | Continue(id: nat)              // a request does its next write

  const START := System(EMPTY, map[])

  predicate Writing(s: System, e: Event) {
    e.Continue? && e.id in s.pending && s.pending[e.id] != []
  }

  ghost predicate CanImport(s: State, e: Event)
    requires e.BeginImport?
  {
    && Valid(e.bundle) && Resolves(Wanted(e.bundle), e.macs) && Resolves(e.bundle.templates, e.bodies)
    && Lists(e.names, e.bodies.Keys)
    && (e.bundle.version >= 2 ==> Lists(e.gone, s.groups.Keys - Incoming(e.bundle).Keys))
  }

  ghost function Step(s: System, e: Event): System {
    match e
    case Begin(id, op) =>
      if id in s.pending || Planned(s.tables, op).None? then s
      else s.(pending := s.pending[id := Planned(s.tables, op).value])
    case BeginImport(id, b, macs, bodies, names, gone) =>
      if id in s.pending || !CanImport(s.tables, e) then s
      else s.(pending := s.pending[id := ImportWrites(b, macs, bodies, names, gone)])
    case Continue(id) =>
      if Writing(s, e)
      then System(Written(s.tables, s.pending[id][0]), s.pending[id := s.pending[id][1..]])
      else s
  }

  ghost function Run(events: seq<Event>): System {
    if events == [] then START else Step(Run(events[..|events| - 1]), events[|events| - 1])
  }

  ghost predicate IntactAt(events: seq<Event>, k: nat)
    requires k <= |events|
  {
    Intact(Run(events[..k]).tables)
  }

  ghost predicate SafeAt(events: seq<Event>, k: nat)
    requires k < |events|
  {
    var s := Run(events[..k]);
    Writing(s, events[k]) ==> SafeWrite(s.tables, s.pending[events[k].id][0])
  }

  ghost predicate IntactUpTo(events: seq<Event>, n: nat)
    requires n <= |events|
  {
    forall k :: 0 <= k <= n ==> IntactAt(events, k)
  }

  ghost predicate SafeUpTo(events: seq<Event>, n: nat)
    requires n <= |events|
  {
    forall k :: 0 <= k < n ==> SafeAt(events, k)
  }

  lemma OneMore(events: seq<Event>, n: nat)
    requires 0 < n <= |events|
    ensures IntactUpTo(events, n) <==> IntactUpTo(events, n - 1) && IntactAt(events, n)
    ensures SafeUpTo(events, n) <==> SafeUpTo(events, n - 1) && SafeAt(events, n - 1)
  {
  }

  lemma {:induction false} ExactlyUpTo(events: seq<Event>, n: nat)
    requires n <= |events|
    ensures IntactUpTo(events, n) <==> SafeUpTo(events, n)
  {
    if n == 0 {
      assert events[..0] == [];
    } else {
      ExactlyUpTo(events, n - 1);
      OneMore(events, n);
      NextExactly(events, n - 1);
    }
  }

  lemma NextExactly(events: seq<Event>, k: nat)
    requires k < |events|
    ensures IntactAt(events, k) ==> (IntactAt(events, k + 1) <==> SafeAt(events, k))
  {
    var s := Run(events[..k]);
    assert Run(events[..k + 1]) == Step(s, events[k]) by {
      assert events[..k + 1][..k] == events[..k];
    }
    if IntactAt(events, k) && Writing(s, events[k]) {
      WriteExactly(s.tables, s.pending[events[k].id][0]);
    }
  }

  /** Over all runs of overlapping requests, imports included: no reference ever dangles if and only if every write
      is safe at the moment it happens. */
  lemma IntactExactly(events: seq<Event>)
    ensures IntactUpTo(events, |events|) <==> SafeUpTo(events, |events|)
  {
    ExactlyUpTo(events, |events|);
  }

  /** It need not be: a template is checked, the credential it names is deleted, and then the template is written. */
  lemma OverlapDangles(s: System, name: string, body: Body, credential: string)
    requires Intact(s.tables) && 1 !in s.pending && 2 !in s.pending && body.valid
    requires credential == Trim(credential) != "" && credential in s.tables.credentials
    requires !Referenced(s.tables, credential)
    ensures var checked := Step(Step(s, Begin(1, OpSaveTemplate(name, body, credential))), Begin(2, OpDeleteCredential(credential)));
            var t := Step(Step(checked, Continue(2)), Continue(1));
            !Intact(t.tables)
  {
    var put, drop := PutTemplate(name, Template(body.text, credential)), DropCredential(credential);
    ChecksPass(s.tables, name, body, credential);
    var s1 := Step(s, Begin(1, OpSaveTemplate(name, body, credential)));
    assert s1 == s.(pending := s.pending[1 := [put]]);
    var s2 := Step(s1, Begin(2, OpDeleteCredential(credential)));
    assert s2 == s.(pending := s.pending[1 := [put]][2 := [drop]]);
    var s3 := Step(s2, Continue(2));
    assert s3.tables == Written(s.tables, drop) && s3.pending[1] == [put];
    assert Step(s3, Continue(1)).tables == Written(Written(s.tables, drop), put);
    DanglesAfter(s.tables, name, body.text, credential);
  }

  lemma ChecksPass(s: State, name: string, body: Body, credential: string)
    requires body.valid && credential == Trim(credential) != "" && credential in s.credentials && !Referenced(s, credential)
    ensures Planned(s, OpSaveTemplate(name, body, credential)) == Some([PutTemplate(name, Template(body.text, credential))])
    ensures Planned(s, OpDeleteCredential(credential)) == Some([DropCredential(credential)])
  {
  }

  lemma DanglesAfter(s: State, name: string, text: string, credential: string)
    requires credential != ""
    ensures !Intact(Written(Written(s, DropCredential(credential)), PutTemplate(name, Template(text, credential))))
  {
    var t := Written(Written(s, DropCredential(credential)), PutTemplate(name, Template(text, credential)));
    assert name in t.templates && t.templates[name].credentialRef == credential && credential !in t.credentials;
  }

  // ----- Requests that do not overlap -----

  /** A request does `k` writes with no other in between. */
  ghost function Continued(s: System, id: nat, k: nat): System {
    if k == 0 then s else Step(Continued(s, id, k - 1), Continue(id))
  }

  lemma {:induction false} ContinuedIs(s: System, id: nat, k: nat)
    requires id in s.pending && k <= |s.pending[id]|
    ensures var t := Continued(s, id, k);
            && id in t.pending && t.pending[id] == s.pending[id][k..]
            && t.tables == WriteAll(s.tables, s.pending[id][..k])
  {
    var ws := s.pending[id];
    if k == 0 {
      assert ws[..0] == [] && ws[0..] == ws;
    } else {
      ContinuedIs(s, id, k - 1);
      assert ws[..k] == ws[..k - 1] + [ws[k - 1]];
      WriteMore(s.tables, ws[..k - 1], ws[k - 1]);
    }
  }

  ghost function Finished(s: System, id: nat): State
    requires id in s.pending
  {
    Continued(s, id, |s.pending[id]|).tables
  }

  lemma FinishedIs(s: System, id: nat)
    requires id in s.pending
    ensures Finished(s, id) == WriteAll(s.tables, s.pending[id])
  {
    ContinuedIs(s, id, |s.pending[id]|);
    assert s.pending[id][..|s.pending[id]|] == s.pending[id];
  }

  /** A request with no other between its check and its last write does what the serial operation does, and it is let
      in exactly when that is. */
  lemma SerialIsARun(s: System, id: nat, op: Op)
    requires id !in s.pending
    ensures var t := Step(s, Begin(id, op));
            if Perform(s.tables, op).None? then t == s
            else t.tables == s.tables && id in t.pending && Finished(t, id) == Perform(s.tables, op).value
  {
    PlannedIsPerform(s.tables, op);
    var t := Step(s, Begin(id, op));
    if id in t.pending {
      FinishedIs(t, id);
    }
  }

  /** And so does an import. */
  lemma SerialImport(s: System, id: nat, b: Bundle, macs: map<string, string>, bodies: map<string, Body>,
                     names: seq<string>, gone: seq<string>)
    requires id !in s.pending && Valid(b) && Resolves(Wanted(b), macs) && Resolves(b.templates, bodies)
    requires Lists(names, bodies.Keys) && (b.version >= 2 ==> Lists(gone, s.tables.groups.Keys - Incoming(b).Keys))
    ensures var t := Step(s, BeginImport(id, b, macs, bodies, names, gone));
            t.tables == s.tables && id in t.pending && Finished(t, id) == Applied(s.tables, b, macs, bodies)
  {
    ImportIsApplied(s.tables, b, macs, bodies, names, gone);
    FinishedIs(Step(s, BeginImport(id, b, macs, bodies, names, gone)), id);
  }
}

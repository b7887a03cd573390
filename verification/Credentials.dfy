/** Credentials, credential groups, the assignment of devices to groups, and the templates that refer to
    credentials (internal/services/credentials/credentials.go, internal/services/templates/templates.go,
    internal/db/credentials.go, internal/db/templates.go). Tables are maps from their primary keys; secrets
    are plain values. */
module Tables {
  import opened Wrappers
  import opened Text

  datatype Credential = Credential(username: string, password: string, ha1: string, tags: seq<string>)

  datatype Group = Group(password: string, ha1: string, tags: seq<string>)

  datatype Template = Template(content: string, credentialRef: string)

  /** A template body with the verdict on it: size, JSON shape and template rules. */
  datatype Body = Body(text: string, valid: bool)

  /** The settings row as it is stored: the token of the remote interface is sealed in it. */
  datatype Settings = Settings(rest: string, mcpEnabled: bool, mcpToken: string)

  const NO_SETTINGS := Settings("", false, "")

  datatype State = State(
    credentials: map<string, Credential>,
    groups: map<string, Group>,
    assignments: map<string, string>,     // device address to group
    templates: map<string, Template>,
    settings: Settings)

  const EMPTY := State(map[], map[], map[], map[], NO_SETTINGS)

  // ----- The operations as functions: what each makes of the tables, None when it refuses -----

  predicate HasSecret(password: string, ha1: string) {
    Trim(password) != "" || Trim(ha1) != ""
  }

  function SaveCredential(s: State, name: string, c: Credential): Option<State> {
    if Trim(name) == "" || Trim(c.username) == "" || !HasSecret(c.password, c.ha1) then None
    else
      var row := c.(username := Trim(c.username), tags := Clean(c.tags, {}));
      Some(s.(credentials := s.credentials[Trim(name) := row]))
  }

  predicate Referenced(s: State, name: string) {
    exists t :: t in s.templates && s.templates[t].credentialRef == name
  }

  function DeleteCredential(s: State, name: string): Option<State> {
    if Trim(name) == "" || Referenced(s, Trim(name)) then None
    else Some(s.(credentials := s.credentials - {Trim(name)}))
  }

  function CleanGroup(g: Group): Group {
    g.(tags := Clean(g.tags, {}))
  }

  /** The group's row among the credentials. */
  function Mirror(g: Group): Credential {
    Credential("admin", g.password, g.ha1, g.tags)
  }

  function SaveGroup(s: State, name: string, g: Group): Option<State> {
    if Trim(name) == "" || !HasSecret(g.password, g.ha1) then None
    else
      Some(s.(groups := s.groups[Trim(name) := CleanGroup(g)],
              credentials := s.credentials[Trim(name) := Mirror(CleanGroup(g))]))
  }

  /** The rows of the group and of everything assigned to it go together. */
  function DropGroup(s: State, name: string): State {
    s.(groups := s.groups - {name},
       assignments := map mac | mac in s.assignments && s.assignments[mac] != name :: s.assignments[mac])
  }

  function DeleteGroup(s: State, name: string): Option<State> {
    if DeleteCredential(s, name).None? then None else Some(DropGroup(DeleteCredential(s, name).value, Trim(name)))
  }

  /** The assignments after the devices in `macs` are given to `group`, or to none when it is blank. */
  function Assigned(m: map<string, string>, macs: seq<string>, group: string): map<string, string> {
    if group == "" then map mac | mac in m && mac !in macs :: m[mac]
    else m + map mac | mac in macs :: group
  }

  lemma AssignedOne(m: map<string, string>, macs: seq<string>, i: nat, group: string)
    requires i < |macs|
    ensures var before := Assigned(m, macs[..i], group);
            Assigned(m, macs[..i + 1], group) ==
            if group == "" then before - {macs[i]} else before[macs[i] := group]
  {
    assert macs[..i + 1] == macs[..i] + [macs[i]];
  }

  function SaveAssignments(s: State, macs: seq<string>, group: string): Option<State> {
    var cleaned, name := Clean(macs, {}), Trim(group);
    if cleaned == [] || (name != "" && name !in s.groups) then None
    else Some(s.(assignments := Assigned(s.assignments, cleaned, name)))
  }

  function SaveTemplate(s: State, name: string, body: Body, credentialRef: string): Option<State> {
    var wanted := Trim(credentialRef);
    if !body.valid || (wanted != "" && wanted !in s.credentials) then None
    else Some(s.(templates := s.templates[name := Template(body.text, wanted)]))
  }

  function DeleteTemplate(s: State, name: string): Option<State> {
    Some(s.(templates := s.templates - {name}))
  }

  // ----- What every operation keeps -----

  /** No dangling references: an assignment names a group, a template names a credential or nothing. */
  ghost predicate Intact(s: State) {
    && (forall mac :: mac in s.assignments ==> s.assignments[mac] in s.groups)
    && (forall t :: t in s.templates ==>
          s.templates[t].credentialRef == "" || s.templates[t].credentialRef in s.credentials)
  }

  predicate GroupTidy(g: Group) {
    IsClean(g.tags) && HasSecret(g.password, g.ha1)
  }

  /** Names and tags are trimmed and not empty, and every group has a secret. */
  ghost predicate Tidy(s: State) {
    && (forall g :: g in s.groups ==> g != "" && Trimmed(g) && GroupTidy(s.groups[g]))
    && (forall mac :: mac in s.assignments ==> mac != "" && Trimmed(mac))
  }

  datatype Op =
    | OpSaveCredential(name: string, credential: Credential)
    | OpDeleteCredential(name: string)
    | OpSaveGroup(name: string, group: Group)
    | OpDeleteGroup(name: string)
    | OpSaveAssignments(macs: seq<string>, groupName: string)
    | OpSaveTemplate(name: string, body: Body, credentialRef: string)
    | OpDeleteTemplate(name: string)

  function Perform(s: State, op: Op): Option<State> {
    match op
    case OpSaveCredential(name, c) => SaveCredential(s, name, c)
    case OpDeleteCredential(name) => DeleteCredential(s, name)
    case OpSaveGroup(name, g) => SaveGroup(s, name, g)
    case OpDeleteGroup(name) => DeleteGroup(s, name)
    case OpSaveAssignments(macs, g) => SaveAssignments(s, macs, g)
    case OpSaveTemplate(name, body, c) => SaveTemplate(s, name, body, c)
    case OpDeleteTemplate(name) => DeleteTemplate(s, name)
  }

  /** A credential needs a name, a user and one of the two secrets; its name and user are stored trimmed, its
      secrets as they come, and no other row changes. */
  lemma SavesExactly(s: State, name: string, c: Credential)
    ensures var after := SaveCredential(s, name, c);
            && (after.Some? <==> Trim(name) != "" && Trim(c.username) != "" && (Trim(c.password) != "" || Trim(c.ha1) != ""))
            && (after.Some? ==>
                  && after.value == s.(credentials := after.value.credentials)
                  && after.value.credentials[Trim(name)] == Credential(Trim(c.username), c.password, c.ha1, Clean(c.tags, {}))
                  && (forall n :: n != Trim(name) ==> (n in after.value.credentials <==> n in s.credentials))
                  && (forall n :: n != Trim(name) && n in s.credentials ==> after.value.credentials[n] == s.credentials[n]))
  {
  }

  /** A group needs a name and one of the two secrets; it is stored beside a credential of the user "admin" with the
      same name, secrets and tags. */
  lemma SavesGroupExactly(s: State, name: string, g: Group)
    ensures var after := SaveGroup(s, name, g);
            && (after.Some? <==> Trim(name) != "" && (Trim(g.password) != "" || Trim(g.ha1) != ""))
            && (after.Some? ==>
                  && after.value == s.(groups := after.value.groups, credentials := after.value.credentials)
                  && after.value.groups[Trim(name)] == Group(g.password, g.ha1, Clean(g.tags, {}))
                  && after.value.credentials[Trim(name)] == Credential("admin", g.password, g.ha1, Clean(g.tags, {}))
                  && (forall n :: n != Trim(name) && n in s.groups ==> n in after.value.groups && after.value.groups[n] == s.groups[n]))
  {
  }

  /** Deleting a group is refused exactly when it has no name or a template refers to it, and assigning exactly when no
      device is named or the group is not there. Deleting takes the assignments to the group along and leaves every
      other; assigning moves exactly the listed devices, to the group, or out of any when none is named. */
  lemma AssignmentsMove(s: State, name: string, macs: seq<string>, mac: string)
    ensures DeleteGroup(s, name).Some? <==>
              Trim(name) != "" && forall t :: t in s.templates ==> s.templates[t].credentialRef != Trim(name)
    ensures SaveAssignments(s, macs, name).Some? <==>
              (exists k :: 0 <= k < |macs| && Trim(macs[k]) != "") && (Trim(name) == "" || Trim(name) in s.groups)
    ensures DeleteGroup(s, name).Some? ==>
              var after := DeleteGroup(s, name).value;
              && Trim(name) !in after.groups
              && (mac in after.assignments <==> mac in s.assignments && s.assignments[mac] != Trim(name))
              && (mac in after.assignments ==> after.assignments[mac] == s.assignments[mac])
    ensures SaveAssignments(s, macs, name).Some? ==>
              var after := SaveAssignments(s, macs, name).value.assignments;
              if mac in Clean(macs, {}) then
                if Trim(name) == "" then mac !in after else mac in after && after[mac] == Trim(name)
              else
                (mac in after <==> mac in s.assignments) && (mac in after ==> after[mac] == s.assignments[mac])
  {
    var cleaned := Clean(macs, {});
    CleanKeeps(macs, {});
    if k :| 0 <= k < |macs| && Trim(macs[k]) != "" {
      assert Mentions(macs, Trim(macs[k]));
      assert Trim(macs[k]) in cleaned;
    }
    if cleaned != [] {
      assert cleaned[0] in cleaned;
    }
  }

  lemma SaveGroupKeepsIntact(s: State, name: string, g: Group)
    requires Intact(s) && Tidy(s) && SaveGroup(s, name, g).Some?
    ensures Intact(SaveGroup(s, name, g).value) && Tidy(SaveGroup(s, name, g).value)
  {
    TrimTrims(name);
    CleanKeeps(g.tags, {});
  }

  lemma SaveAssignmentsKeepsIntact(s: State, macs: seq<string>, group: string)
    requires Intact(s) && Tidy(s) && SaveAssignments(s, macs, group).Some?
    ensures Intact(SaveAssignments(s, macs, group).value) && Tidy(SaveAssignments(s, macs, group).value)
  {
    CleanKeeps(macs, {});
  }

  lemma DeleteGroupKeepsIntact(s: State, name: string)
    requires Intact(s) && Tidy(s) && DeleteGroup(s, name).Some?
    ensures Intact(DeleteGroup(s, name).value) && Tidy(DeleteGroup(s, name).value)
  {
  }

  /** An operation whose check and writes have nothing in between keeps the tables in order. */
  lemma OperationKeepsIntact(s: State, op: Op)
    requires Intact(s) && Tidy(s) && Perform(s, op).Some?
    ensures Intact(Perform(s, op).value) && Tidy(Perform(s, op).value)
  {
    match op
    case OpSaveCredential(name, c) =>
    case OpDeleteCredential(name) =>
    case OpSaveGroup(name, g) => SaveGroupKeepsIntact(s, name, g);
    case OpDeleteGroup(name) => DeleteGroupKeepsIntact(s, name);
    case OpSaveAssignments(macs, g) => SaveAssignmentsKeepsIntact(s, macs, g);
    case OpSaveTemplate(name, body, c) =>
    case OpDeleteTemplate(name) =>
  }

  /** A group can be without its mirror: deleting the credential of that name is allowed. */
  lemma MirrorCanGo(s: State, name: string, g: Group)
    requires Trim(name) != "" && HasSecret(g.password, g.ha1)
    ensures var saved := SaveGroup(s, name, g);
            && saved.Some? && saved.value.credentials[Trim(name)] == Mirror(saved.value.groups[Trim(name)])
            && (DeleteCredential(saved.value, name).Some? <==> !Referenced(s, Trim(name)))
            && (!Referenced(s, Trim(name)) ==>
                  var after := DeleteCredential(saved.value, name).value;
                  Trim(name) in after.groups && Trim(name) !in after.credentials)
  {
    var saved := SaveGroup(s, name, g).value;
    assert Referenced(saved, Trim(name)) <==> Referenced(s, Trim(name)) by {
      assert saved.templates == s.templates;
    }
  }
}

/** The services over the tables. */
module Credentials {
  import opened Wrappers
  import opened Text
  import opened Tables

  class Store {
    var credentials: map<string, Credential>
    var groups: map<string, Group>
    var assignments: map<string, string>
    var templates: map<string, Template>
    var settings: Settings

    function View(): State
      reads this
    {
      State(credentials, groups, assignments, templates, settings)
    }

    constructor ()
      ensures View() == EMPTY
    {
      credentials, groups, assignments, templates, settings := map[], map[], map[], map[], NO_SETTINGS;
    }

    method Save(name: string, c: Credential) returns (ok: bool)
      modifies this
      ensures ok == Tables.SaveCredential(old(View()), name, c).Some?
      ensures View() == if ok then Tables.SaveCredential(old(View()), name, c).value else old(View())
    {
      if Trim(name) == "" || Trim(c.username) == "" {
        return false;
      }
      if Trim(c.password) == "" && Trim(c.ha1) == "" {
        return false;
      }
      var tags := CleanList(c.tags);
      credentials := credentials[Trim(name) := Credential(Trim(c.username), c.password, c.ha1, tags)];
      return true;
    }

    method Delete(name: string) returns (ok: bool)
      modifies this
      ensures ok == Tables.DeleteCredential(old(View()), name).Some?
      ensures View() == if ok then Tables.DeleteCredential(old(View()), name).value else old(View())
    {
      var trimmed := Trim(name);
      if trimmed == "" {
        return false;
      }
      var names := templates.Keys;
      while names != {}
        invariant View() == old(View()) && names <= templates.Keys
        invariant forall t :: t in templates && templates[t].credentialRef == trimmed ==> t in names
        decreases |names|
      {
        var t :| t in names;
        if templates[t].credentialRef == trimmed {
          return false;
        }
        names := names - {t};
      }
      credentials := credentials - {trimmed};
      return true;
    }

    method SaveGroup(name: string, g: Group) returns (ok: bool)
      modifies this
      ensures ok == Tables.SaveGroup(old(View()), name, g).Some?
      ensures View() == if ok then Tables.SaveGroup(old(View()), name, g).value else old(View())
    {
      if Trim(name) == "" {
        return false;
      }
      if Trim(g.password) == "" && Trim(g.ha1) == "" {
        return false;
      }
      var tags := CleanList(g.tags);
      groups := groups[Trim(name) := Group(g.password, g.ha1, tags)];
      credentials := credentials[Trim(name) := Credential("admin", g.password, g.ha1, tags)];
      return true;
    }

    /** The transaction of the database layer: assignments first, then the group. */
    method DropGroup(name: string)
      modifies this
      ensures View() == Tables.DropGroup(old(View()), name)
    {
      assignments := map mac | mac in assignments && assignments[mac] != name :: assignments[mac];
      groups := groups - {name};
    }

    method DeleteGroup(name: string) returns (ok: bool)
      modifies this
      ensures ok == Tables.DeleteGroup(old(View()), name).Some?
      ensures View() == if ok then Tables.DeleteGroup(old(View()), name).value else old(View())
    {
      if Trim(name) == "" {
        return false;
      }
      ok := Delete(name);
      if ok {
        DropGroup(Trim(name));
      }
    }

    method SaveGroupAssignments(macs: seq<string>, group: string) returns (ok: bool)
      modifies this
      ensures ok == Tables.SaveAssignments(old(View()), macs, group).Some?
      ensures View() == if ok then Tables.SaveAssignments(old(View()), macs, group).value else old(View())
    {
      var cleaned := CleanList(macs);
      if |cleaned| == 0 {
        return false;
      }
      if Trim(group) != "" && Trim(group) !in groups {
        return false;
      }
      TrimTwice(group);
      AssignAll(cleaned, Trim(group));
      return true;
    }

    method AssignAll(macs: seq<string>, group: string)
      requires Trim(group) == group
      modifies this`assignments
      ensures assignments == Assigned(old(assignments), macs, group)
    {
      ghost var before := assignments;
      for i := 0 to |macs|
        invariant assignments == Assigned(before, macs[..i], group)
      {
        AssignedOne(before, macs, i, group);
        if Trim(group) == "" {
          assignments := assignments - {macs[i]};
        } else {
          assignments := assignments[macs[i] := group];
        }
      }
      assert macs[..|macs|] == macs;
    }

    method SaveTemplate(name: string, body: Body, credentialRef: string) returns (ok: bool)
      modifies this
      ensures ok == Tables.SaveTemplate(old(View()), name, body, credentialRef).Some?
      ensures View() == if ok then Tables.SaveTemplate(old(View()), name, body, credentialRef).value else old(View())
    {
      if !body.valid {
        return false;
      }
      if Trim(credentialRef) != "" && Trim(credentialRef) !in credentials {
        return false;
      }
      templates := templates[name := Template(body.text, Trim(credentialRef))];
      return true;
    }

    method DeleteTemplate(name: string)
      modifies this
      ensures Tables.DeleteTemplate(old(View()), name) == Some(View())
    {
      templates := templates - {name};
    }
  }
}

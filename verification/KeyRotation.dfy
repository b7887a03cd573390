/** Re-sealing every secret column under a new key in one transaction (internal/db/rotate.go).

    `open` is decryption under the old key. `seal` is encryption under the new one; its first argument
    counts the calls, which is how the random nonce enters. */
module KeyRotation {
  import opened Wrappers
  import SecretBox

  /** A row with two secret columns; `rest` stands for every other column. */
  datatype SealedRow = SealedRow(name: string, first: string, second: string, rest: string)

  datatype Json = Str(text: string) | Other(code: int)

  /** The row settings['app']. */
  datatype Settings = NoRow | Malformed | Object(fields: map<string, Json>)

  datatype Snapshot = Snapshot(credentials: seq<SealedRow>, groups: seq<SealedRow>, totp: seq<SealedRow>, settings: Settings)

  datatype Report = Report(credentials: nat, credentialGroups: nat, totpUsers: nat, mcpToken: bool)

  const NOTHING := Report(0, 0, 0, false)
  const TOKEN := "mcp_token"

  type Opener = string -> Result<string>
  type Sealer = (nat, string) -> Result<string>

  /** The primary key. */
  ghost predicate UniqueNames(rows: seq<SealedRow>) {
    forall i, j :: 0 <= i < j < |rows| ==> rows[i].name != rows[j].name
  }

  ghost predicate WellKeyed(db: Snapshot) {
    UniqueNames(db.credentials) && UniqueNames(db.groups) && UniqueNames(db.totp)
  }

  // ----- What a rotation has to achieve -----

  /** One column before and after: a blob is replaced by some sealing of what it opened to, anything else
      stays as it is. */
  ghost predicate Resealed(open: Opener, seal: Sealer, cell: string, cell': string) {
    if SecretBox.IsBlob(cell)
    then open(cell).Ok? && exists n :: seal(n, open(cell).value) == Ok(cell')
    else cell' == cell
  }

  ghost predicate RowResealed(open: Opener, seal: Sealer, r: SealedRow, r': SealedRow) {
    && r'.name == r.name && r'.rest == r.rest
    && Resealed(open, seal, r.first, r'.first)
    && Resealed(open, seal, r.second, r'.second)
  }

  ghost predicate RowsResealed(open: Opener, seal: Sealer, rows: seq<SealedRow>, rows': seq<SealedRow>) {
    |rows'| == |rows| && forall i :: 0 <= i < |rows| ==> RowResealed(open, seal, rows[i], rows'[i])
  }

  ghost predicate SettingsResealed(open: Opener, seal: Sealer, s: Settings, s': Settings) {
    if HasToken(s) then
      && s'.Object? && TOKEN in s'.fields && s'.fields[TOKEN].Str?
      && Resealed(open, seal, s.fields[TOKEN].text, s'.fields[TOKEN].text)
      && s'.fields == s.fields[TOKEN := s'.fields[TOKEN]]
    else s' == s
  }

  ghost predicate Rotated(open: Opener, seal: Sealer, db: Snapshot, db': Snapshot) {
    && RowsResealed(open, seal, db.credentials, db'.credentials)
    && RowsResealed(open, seal, db.groups, db'.groups)
    && RowsResealed(open, seal, db.totp, db'.totp)
    && SettingsResealed(open, seal, db.settings, db'.settings)
  }

  predicate HasToken(s: Settings) {
    s.Object? && TOKEN in s.fields && s.fields[TOKEN].Str? && SecretBox.IsBlob(s.fields[TOKEN].text)
  }

  predicate Touched(r: SealedRow) {
    SecretBox.IsBlob(r.first) || SecretBox.IsBlob(r.second)
  }

  function CountTouched(rows: seq<SealedRow>): nat {
    if rows == [] then 0 else CountTouched(rows[..|rows| - 1]) + if Touched(rows[|rows| - 1]) then 1 else 0
  }

  /** What is there to rotate, read off the database alone. */
  function Census(db: Snapshot): Report {
    Report(CountTouched(db.credentials), CountTouched(db.groups), CountTouched(db.totp), HasToken(db.settings))
  }

  /** The rows with a blob in one of their two columns. */
  function TouchedRows(rows: seq<SealedRow>): set<nat> {
    set i: nat | i < |rows| && (SecretBox.IsBlob(rows[i].first) || SecretBox.IsBlob(rows[i].second))
  }

  lemma {:induction false} CountIsRows(rows: seq<SealedRow>)
    ensures CountTouched(rows) == |TouchedRows(rows)|
  {
    if rows != [] {
      var n := |rows| - 1;
      CountIsRows(rows[..n]);
      assert TouchedRows(rows) == TouchedRows(rows[..n]) + if Touched(rows[n]) then {n} else {};
    }
  }

  /** Each number of the report is that of the table it is named after. */
  lemma CensusCounts(db: Snapshot)
    ensures Census(db).credentials == |TouchedRows(db.credentials)|
    ensures Census(db).credentialGroups == |TouchedRows(db.groups)|
    ensures Census(db).totpUsers == |TouchedRows(db.totp)|
    ensures Census(db).mcpToken <==>
              db.settings.Object? && "mcp_token" in db.settings.fields
              && exists text :: db.settings.fields["mcp_token"] == Str(text) && SecretBox.IsBlob(text)
  {
    CountIsRows(db.credentials);
    CountIsRows(db.groups);
    CountIsRows(db.totp);
  }

  ghost predicate CellOpens(open: Opener, cell: string) {
    SecretBox.IsBlob(cell) ==> open(cell).Ok?
  }

  ghost predicate RowsOpen(open: Opener, rows: seq<SealedRow>) {
    forall i :: 0 <= i < |rows| ==> CellOpens(open, rows[i].first) && CellOpens(open, rows[i].second)
  }

  /** The old key opens every blob of the database, and the settings row parses. */
  ghost predicate AllOpen(open: Opener, db: Snapshot) {
    && RowsOpen(open, db.credentials) && RowsOpen(open, db.groups) && RowsOpen(open, db.totp)
    && !db.settings.Malformed?
    && (HasToken(db.settings) ==> CellOpens(open, db.settings.fields[TOKEN].text))
  }

  ghost predicate NeverFails(seal: Sealer) {
    forall n, p :: seal(n, p).Ok?
  }

  // ----- The rotation -----

  function SetByName(rows: seq<SealedRow>, name: string, first: string, second: string): (out: seq<SealedRow>)
    ensures |out| == |rows|
    ensures forall i :: 0 <= i < |rows| ==>
      out[i] == if rows[i].name == name then rows[i].(first := first, second := second) else rows[i]
  {
    seq(|rows|, i requires 0 <= i < |rows| =>
      if rows[i].name == name then rows[i].(first := first, second := second) else rows[i])
  }

  datatype Pending = Pending(name: string, first: string, second: string)

  /** One UPDATE after the other. */
  function SetAll(rows: seq<SealedRow>, updates: seq<Pending>): (out: seq<SealedRow>)
    ensures |out| == |rows|
  {
    if updates == [] then rows
    else
      var u := updates[|updates| - 1];
      SetByName(SetAll(rows, updates[..|updates| - 1]), u.name, u.first, u.second)
  }

  ghost predicate UpdateFor(open: Opener, seal: Sealer, r: SealedRow, u: Pending) {
    u.name == r.name && RowResealed(open, seal, r, r.(first := u.first, second := u.second))
  }

  /** Names being unique, each update lands on the row it was made from and on no other. */
  lemma {:induction false} SetAllOnTarget(open: Opener, seal: Sealer, rows: seq<SealedRow>, updates: seq<Pending>, at: seq<nat>)
    requires UniqueNames(rows) && |at| == |updates|
    requires forall j :: 0 <= j < |at| ==> at[j] < |rows| && UpdateFor(open, seal, rows[at[j]], updates[j])
    ensures var out := SetAll(rows, updates);
            forall i :: 0 <= i < |rows| ==>
              if i in at then RowResealed(open, seal, rows[i], out[i]) else out[i] == rows[i]
  {
    if updates != [] {
      var n := |updates| - 1;
      SetAllOnTarget(open, seal, rows, updates[..n], at[..n]);
      assert at == at[..n] + [at[n]];
      SetOneOnTarget(open, seal, rows, SetAll(rows, updates[..n]), updates[n], at[..n], at[n]);
    }
  }

  lemma SetOneOnTarget(open: Opener, seal: Sealer, rows: seq<SealedRow>, mid: seq<SealedRow>, u: Pending, at: seq<nat>, k: nat)
    requires UniqueNames(rows) && k < |rows| == |mid| && UpdateFor(open, seal, rows[k], u)
    requires forall i :: 0 <= i < |rows| ==> if i in at then RowResealed(open, seal, rows[i], mid[i]) else mid[i] == rows[i]
    ensures var out := SetByName(mid, u.name, u.first, u.second);
            forall i :: 0 <= i < |rows| ==>
              if i == k || i in at then RowResealed(open, seal, rows[i], out[i]) else out[i] == rows[i]
  {
    var out := SetByName(mid, u.name, u.first, u.second);
    forall i | 0 <= i < |rows|
      ensures if i == k || i in at then RowResealed(open, seal, rows[i], out[i]) else out[i] == rows[i]
    {
      assert mid[i].name == rows[i].name && mid[i].rest == rows[i].rest;
      assert i != k ==> rows[i].name != rows[k].name;
    }
  }

  lemma SetAllReseals(open: Opener, seal: Sealer, rows: seq<SealedRow>, updates: seq<Pending>, at: seq<nat>)
    requires UniqueNames(rows) && |at| == |updates|
    requires forall j :: 0 <= j < |at| ==> at[j] < |rows| && UpdateFor(open, seal, rows[at[j]], updates[j])
    requires forall i :: 0 <= i < |rows| && Touched(rows[i]) ==> i in at
    ensures RowsResealed(open, seal, rows, SetAll(rows, updates))
  {
    SetAllOnTarget(open, seal, rows, updates, at);
  }

  class Database {
    var credentials: seq<SealedRow>
    var groups: seq<SealedRow>
    var totp: seq<SealedRow>
    var settings: Settings

    function Value(): Snapshot
      reads this
    {
      Snapshot(credentials, groups, totp, settings)
    }

    /** The closure `reseal`: the new text and whether the cell was a blob at all. */
    static method Reseal(open: Opener, seal: Sealer, calls: nat, cell: string)
      returns (out: string, touched: bool, calls': nat, ok: bool)
      ensures ok ==> touched == SecretBox.IsBlob(cell) && Resealed(open, seal, cell, out)
      ensures ok ==> CellOpens(open, cell)
      ensures CellOpens(open, cell) && NeverFails(seal) ==> ok
    {
      if cell == "" || !SecretBox.IsBlob(cell) {
        return cell, false, calls, true;
      }
      var plain := open(cell);
      if plain.Err? {
        return "", false, calls, false;
      }
      var sealed := seal(calls, plain.value);
      if sealed.Err? {
        return "", false, calls + 1, false;
      }
      return sealed.value, true, calls + 1, true;
    }

    /** The read loop over one table: the updates that the rows call for. */
    static method Collect(open: Opener, seal: Sealer, calls: nat, rows: seq<SealedRow>)
      returns (updates: seq<Pending>, ghost at: seq<nat>, calls': nat, ok: bool)
      ensures ok ==> |at| == |updates| == CountTouched(rows) && RowsOpen(open, rows)
      ensures ok ==> forall j :: 0 <= j < |at| ==> at[j] < |rows| && UpdateFor(open, seal, rows[at[j]], updates[j])
      ensures ok ==> forall i :: 0 <= i < |rows| && Touched(rows[i]) ==> i in at
      ensures RowsOpen(open, rows) && NeverFails(seal) ==> ok
    {
      updates, at, calls', ok := [], [], calls, false;
      for k := 0 to |rows|
        invariant |at| == |updates| == CountTouched(rows[..k])
        invariant forall j :: 0 <= j < |at| ==> at[j] < k && UpdateFor(open, seal, rows[at[j]], updates[j])
        invariant forall i :: 0 <= i < k && Touched(rows[i]) ==> i in at
        invariant forall i :: 0 <= i < k ==> CellOpens(open, rows[i].first) && CellOpens(open, rows[i].second)
      {
        var row := rows[k];
        var first, touchedFirst, second, touchedSecond, fine;
        first, touchedFirst, calls', fine := Reseal(open, seal, calls', row.first);
        if !fine { return; }
        second, touchedSecond, calls', fine := Reseal(open, seal, calls', row.second);
        if !fine { return; }
        assert rows[..k + 1][..k] == rows[..k];
        if touchedFirst || touchedSecond {
          updates := updates + [Pending(row.name, first, second)];
          at := at + [k];
        }
      }
      assert rows[..|rows|] == rows;
      ok := true;
    }

    /** The write loop over one table, on the transaction's copy. `writeOk` says which writes the database
        accepts; a dry run only counts. */
    static method Write(writeOk: nat -> bool, apply: bool, writes: nat, rows: seq<SealedRow>, updates: seq<Pending>)
      returns (out: seq<SealedRow>, count: nat, writes': nat, ok: bool)
      ensures ok ==> count == |updates| && out == if apply then SetAll(rows, updates) else rows
      ensures (forall n :: writeOk(n)) || !apply ==> ok
    {
      out, count, writes', ok := rows, 0, writes, false;
      for j := 0 to |updates|
        invariant count == j
        invariant out == if apply then SetAll(rows, updates[..j]) else rows
      {
        if apply {
          var accepted := writeOk(writes');
          writes' := writes' + 1;
          if !accepted { return; }
          out := SetByName(out, updates[j].name, updates[j].first, updates[j].second);
          assert updates[..j + 1][..j] == updates[..j];
        }
        count := count + 1;
      }
      assert updates[..|updates|] == updates;
      ok := true;
    }

    static method ResealTable(open: Opener, seal: Sealer, writeOk: nat -> bool, apply: bool, calls: nat, writes: nat,
                              rows: seq<SealedRow>)
      returns (out: seq<SealedRow>, count: nat, calls': nat, writes': nat, ok: bool)
      requires UniqueNames(rows)
      ensures ok ==> RowsOpen(open, rows) && count == CountTouched(rows)
      ensures ok && apply ==> RowsResealed(open, seal, rows, out)
      ensures RowsOpen(open, rows) && NeverFails(seal) && ((forall n :: writeOk(n)) || !apply) ==> ok
    {
      out, count, writes' := rows, 0, writes;
      var updates;
      ghost var at;
      updates, at, calls', ok := Collect(open, seal, calls, rows);
      if ok {
        SetAllReseals(open, seal, rows, updates, at);
        out, count, writes', ok := Write(writeOk, apply, writes, rows, updates);
      }
    }

    /** On success the report is the census of the database as it was found, in either mode. */
    method RotateSealedColumns(open: Opener, seal: Sealer, writeOk: nat -> bool, commitOk: bool, apply: bool)
      returns (report: Report, ok: bool)
      requires WellKeyed(Value())
      modifies this
      ensures !apply || !ok ==> Value() == old(Value())
      ensures ok ==> report == Census(old(Value())) && AllOpen(open, old(Value()))
      ensures ok && apply ==> Rotated(open, seal, old(Value()), Value())
      ensures AllOpen(open, old(Value())) && NeverFails(seal) && !apply ==> ok
      ensures AllOpen(open, old(Value())) && NeverFails(seal) && (forall n :: writeOk(n)) && commitOk ==> ok
    {
      report, ok := NOTHING, false;
      var count, fine, txCredentials, txGroups, txTotp;
      var calls, writes := 0, 0;
      txCredentials, count, calls, writes, fine := ResealTable(open, seal, writeOk, apply, calls, writes, credentials);
      if !fine { return; }
      report := report.(credentials := count);
      txGroups, count, calls, writes, fine := ResealTable(open, seal, writeOk, apply, calls, writes, groups);
      if !fine { return; }
      report := report.(credentialGroups := count);
      txTotp, count, calls, writes, fine := ResealTable(open, seal, writeOk, apply, calls, writes, totp);
      if !fine { return; }
      report := report.(totpUsers := count);

      var txSettings := settings;
      match settings {
        case NoRow =>
        case Malformed => return;
        case Object(fields) =>
          if TOKEN in fields && fields[TOKEN].Str? && SecretBox.IsBlob(fields[TOKEN].text) {
            var token, touched;
            token, touched, calls, fine := Reseal(open, seal, calls, fields[TOKEN].text);
            if !fine { return; }
            if touched {
              if apply {
                if !writeOk(writes) { return; }
                txSettings := Object(fields[TOKEN := Str(token)]);
              }
              report := report.(mcpToken := true);
            }
          }
      }

      if !apply {
        return report, true;
      }
      if commitOk {
        credentials, groups, totp, settings := txCredentials, txGroups, txTotp, txSettings;
        ok := true;
      }
    }
  }

  // ----- What it means -----

  /** `openNew` undoes `seal`, as OpenSeal shows for secretbox. */
  ghost predicate Undoes(openNew: Opener, seal: Sealer) {
    forall n, p, c :: seal(n, p) == Ok(c) ==> openNew(c) == Ok(p) && (SecretBox.IsBlob(c) <==> p != "") && (p == "" ==> c == "")
  }

  /** How a column is read back (db.go, decryptCipher). */
  function Decrypt(open: Opener, cell: string): Result<string> {
    if cell == "" then Ok("") else open(cell)
  }

  /** A sealed column reads under `open'` as it read under `open` before; any other is the same text. */
  predicate SameCell(open: Opener, open': Opener, cell: string, cell': string) {
    if SecretBox.IsBlob(cell) then Decrypt(open', cell') == Decrypt(open, cell) else cell' == cell
  }

  ghost predicate SameRows(open: Opener, open': Opener, rows: seq<SealedRow>, rows': seq<SealedRow>) {
    && |rows'| == |rows|
    && forall i :: 0 <= i < |rows| ==>
      && rows'[i].name == rows[i].name && rows'[i].rest == rows[i].rest
      && SameCell(open, open', rows[i].first, rows'[i].first)
      && SameCell(open, open', rows[i].second, rows'[i].second)
  }

  ghost predicate SameSettings(open: Opener, open': Opener, s: Settings, s': Settings) {
    if s.Object? && TOKEN in s.fields && s.fields[TOKEN].Str? then
      && s'.Object? && TOKEN in s'.fields && s'.fields[TOKEN].Str?
      && SameCell(open, open', s.fields[TOKEN].text, s'.fields[TOKEN].text)
      && s'.fields == s.fields[TOKEN := s'.fields[TOKEN]]
    else s' == s
  }

  /** Everything in `db'` reads under `open'` as it does in `db` under `open`. */
  ghost predicate Equivalent(open: Opener, open': Opener, db: Snapshot, db': Snapshot) {
    && SameRows(open, open', db.credentials, db'.credentials)
    && SameRows(open, open', db.groups, db'.groups)
    && SameRows(open, open', db.totp, db'.totp)
    && SameSettings(open, open', db.settings, db'.settings)
  }

  lemma CellMeaning(open: Opener, seal: Sealer, openNew: Opener, cell: string, cell': string)
    requires Undoes(openNew, seal) && Resealed(open, seal, cell, cell')
    ensures SameCell(open, openNew, cell, cell')
    ensures SecretBox.IsBlob(cell') || cell' == "" || cell' == cell
  {
    if SecretBox.IsBlob(cell) {
      var n :| seal(n, open(cell).value) == Ok(cell');
    }
  }

  lemma RowsMeaning(open: Opener, seal: Sealer, openNew: Opener, rows: seq<SealedRow>, rows': seq<SealedRow>)
    requires Undoes(openNew, seal) && RowsResealed(open, seal, rows, rows')
    ensures SameRows(open, openNew, rows, rows')
  {
    forall i | 0 <= i < |rows|
      ensures SameCell(open, openNew, rows[i].first, rows'[i].first)
      ensures SameCell(open, openNew, rows[i].second, rows'[i].second)
    {
      assert RowResealed(open, seal, rows[i], rows'[i]);
      CellMeaning(open, seal, openNew, rows[i].first, rows'[i].first);
      CellMeaning(open, seal, openNew, rows[i].second, rows'[i].second);
    }
  }

  /** An applied rotation changes no meaning: under the new key the database says what it said under the
      old one. */
  lemma RotationPreservesMeaning(open: Opener, seal: Sealer, openNew: Opener, db: Snapshot, db': Snapshot)
    requires Undoes(openNew, seal) && Rotated(open, seal, db, db')
    ensures Equivalent(open, openNew, db, db')
  {
    RowsMeaning(open, seal, openNew, db.credentials, db'.credentials);
    RowsMeaning(open, seal, openNew, db.groups, db'.groups);
    RowsMeaning(open, seal, openNew, db.totp, db'.totp);
    var s, s' := db.settings, db'.settings;
    if HasToken(s) {
      CellMeaning(open, seal, openNew, s.fields[TOKEN].text, s'.fields[TOKEN].text);
    } else if s.Object? && TOKEN in s.fields {
      assert s.fields == s.fields[TOKEN := s.fields[TOKEN]];
    }
  }

  /** After a rotation every blob opens under the new key, so the next rotation is not refused. */
  lemma RotatedOpens(open: Opener, seal: Sealer, openNew: Opener, db: Snapshot, db': Snapshot)
    requires Undoes(openNew, seal) && Rotated(open, seal, db, db') && AllOpen(open, db)
    ensures AllOpen(openNew, db')
  {
    RotationPreservesMeaning(open, seal, openNew, db, db');
    TableOpens(open, openNew, db.credentials, db'.credentials);
    TableOpens(open, openNew, db.groups, db'.groups);
    TableOpens(open, openNew, db.totp, db'.totp);
  }

  lemma TableOpens(open: Opener, open': Opener, rows: seq<SealedRow>, rows': seq<SealedRow>)
    requires SameRows(open, open', rows, rows') && RowsOpen(open, rows)
    ensures RowsOpen(open', rows')
  {
    forall i | 0 <= i < |rows'|
      ensures CellOpens(open', rows'[i].first) && CellOpens(open', rows'[i].second)
    {
      assert CellOpens(open, rows[i].first) && CellOpens(open, rows[i].second);
    }
  }

  lemma CellThereAndBack(openOld: Opener, sealOld: Sealer, openNew: Opener, sealNew: Sealer, a: string, b: string, c: string)
    requires Undoes(openNew, sealNew) && Undoes(openOld, sealOld)
    requires Resealed(openOld, sealNew, a, b) && Resealed(openNew, sealOld, b, c)
    ensures SameCell(openOld, openOld, a, c)
  {
    CellMeaning(openOld, sealNew, openNew, a, b);
    CellMeaning(openNew, sealOld, openOld, b, c);
  }

  lemma RowsThereAndBack(openOld: Opener, sealOld: Sealer, openNew: Opener, sealNew: Sealer,
                         a: seq<SealedRow>, b: seq<SealedRow>, c: seq<SealedRow>)
    requires Undoes(openNew, sealNew) && Undoes(openOld, sealOld)
    requires RowsResealed(openOld, sealNew, a, b) && RowsResealed(openNew, sealOld, b, c)
    ensures SameRows(openOld, openOld, a, c)
  {
    forall i | 0 <= i < |a|
      ensures c[i].name == a[i].name && c[i].rest == a[i].rest
      ensures SameCell(openOld, openOld, a[i].first, c[i].first)
      ensures SameCell(openOld, openOld, a[i].second, c[i].second)
    {
      assert RowResealed(openOld, sealNew, a[i], b[i]) && RowResealed(openNew, sealOld, b[i], c[i]);
      CellThereAndBack(openOld, sealOld, openNew, sealNew, a[i].first, b[i].first, c[i].first);
      CellThereAndBack(openOld, sealOld, openNew, sealNew, a[i].second, b[i].second, c[i].second);
    }
  }

  /** Rotating to a new key and back again: the old key reads what it read to begin with. */
  lemma ThereAndBack(openOld: Opener, sealOld: Sealer, openNew: Opener, sealNew: Sealer, a: Snapshot, b: Snapshot, c: Snapshot)
    requires Undoes(openNew, sealNew) && Undoes(openOld, sealOld)
    requires Rotated(openOld, sealNew, a, b) && Rotated(openNew, sealOld, b, c)
    ensures Equivalent(openOld, openOld, a, c)
  {
    RowsThereAndBack(openOld, sealOld, openNew, sealNew, a.credentials, b.credentials, c.credentials);
    RowsThereAndBack(openOld, sealOld, openNew, sealNew, a.groups, b.groups, c.groups);
    RowsThereAndBack(openOld, sealOld, openNew, sealNew, a.totp, b.totp, c.totp);
    RotationPreservesMeaning(openOld, sealNew, openNew, a.(credentials := [], groups := [], totp := []), b.(credentials := [], groups := [], totp := []));
    RotationPreservesMeaning(openNew, sealOld, openOld, b.(credentials := [], groups := [], totp := []), c.(credentials := [], groups := [], totp := []));
    if HasToken(a.settings) {
      CellThereAndBack(openOld, sealOld, openNew, sealNew, a.settings.fields[TOKEN].text, b.settings.fields[TOKEN].text, c.settings.fields[TOKEN].text);
    }
  }

  /** Secretbox under a fixed key and any stream of nonces of the right length meets the law above. */
  lemma SecretBoxUndoes(c: SecretBox.Primitives, key: string, nonces: nat -> string)
    requires SecretBox.Lawful(c) && forall n :: |nonces(n)| == SecretBox.NONCE_LEN
    ensures Undoes(blob => SecretBox.OpenWith(c, key, blob), (n: nat, p: string) => Ok(SecretBox.SealWith(c, key, nonces(n), p)))
  {
    forall n: nat, p
      ensures SecretBox.OpenWith(c, key, SecretBox.SealWith(c, key, nonces(n), p)) == Ok(p)
      ensures SecretBox.IsBlob(SecretBox.SealWith(c, key, nonces(n), p)) <==> p != ""
    {
      SecretBox.OpenSeal(c, key, nonces(n), p);
    }
  }

  /** A dry run that goes through promises what the real run will do: whatever nonces each of them draws,
      the real one succeeds and reports the same, unless sealing or the database fails it. */
  method DryRunThenRotate(db: Database, open: Opener, sealDry: Sealer, sealReal: Sealer, writeOk: nat -> bool, commitOk: bool)
    returns (dry: Report, dryOk: bool, applied: Report, realOk: bool)
    requires WellKeyed(db.Value())
    modifies db
    ensures dryOk && NeverFails(sealReal) && (forall n :: writeOk(n)) && commitOk ==> realOk
    ensures dryOk && realOk ==> dry == applied && Rotated(open, sealReal, old(db.Value()), db.Value())
    ensures !dryOk || !realOk ==> db.Value() == old(db.Value())
  {
    applied, realOk := NOTHING, false;
    dry, dryOk := db.RotateSealedColumns(open, sealDry, writeOk, commitOk, false);
    if dryOk {
      applied, realOk := db.RotateSealedColumns(open, sealReal, writeOk, commitOk, true);
    }
  }
}

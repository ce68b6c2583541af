/** The writes the charm helper makes into Lidarr's SQLite database, on an
    in-memory picture of the three tables it touches. A table is a sequence of
    rows in row order (the order SQLite returns them without ORDER BY), and a
    `Settings` column holds the decoded JSON object rather than its text. */
module Database {
  import opened Python

  /** The decoded JSON object stored in a `Settings` column. */
  type Settings = map<string, Value>

  /** A row of `DownloadClients` or `Notifications`: the discriminator
      `ConfigContract`, the `Settings` payload, and every other column by name. */
  datatype IntegrationRow = IntegrationRow(configContract: string, settings: Settings, columns: map<string, Value>)

  /** A row of `Indexers`: the two switches and every other column by name. */
  datatype IndexerRow = IndexerRow(enableRss: int, enableSearch: int, otherColumns: map<string, Value>)

  /** `KeyError(key)`, raised by a dictionary lookup of a missing key. */
  datatype Error = KeyError(key: string)

  // ----- Indexers -----

  /** `UPDATE Indexers SET EnableRss = f, EnableSearch = f`, where `f` is 1 for a
      truthy status and 0 otherwise. */
  function ToggleIndexers(rows: seq<IndexerRow>, status: Value): (r: seq<IndexerRow>)
    ensures |r| == |rows|
    ensures forall i :: 0 <= i < |r| ==>
              && r[i].enableRss == (if Truthy(status) then 1 else 0)
              && r[i].enableSearch == (if Truthy(status) then 1 else 0)
              && r[i].otherColumns == rows[i].otherColumns
  {
    var flag := if Truthy(status) then 1 else 0;
    seq(|rows|, i requires 0 <= i < |rows| => rows[i].(enableRss := flag, enableSearch := flag))
  }

  /** A second toggle with the same status changes nothing. */
  lemma ToggleIndexersIdempotent(rows: seq<IndexerRow>, status: Value)
    ensures ToggleIndexers(ToggleIndexers(rows, status), status) == ToggleIndexers(rows, status)
  {
    var once := ToggleIndexers(rows, status);
    var twice := ToggleIndexers(once, status);
    assert forall i :: 0 <= i < |once| ==> twice[i] == once[i];
  }

  // ----- Rows selected by ConfigContract -----

  /** Row `k` is the first row whose contract is `c`. */
  predicate IsFirstMatch(rows: seq<IntegrationRow>, c: string, k: int)
  {
    && 0 <= k < |rows|
    && rows[k].configContract == c
    && forall j :: 0 <= j < k ==> rows[j].configContract != c
  }

  predicate NoMatch(rows: seq<IntegrationRow>, c: string)
  {
    forall i :: 0 <= i < |rows| ==> rows[i].configContract != c
  }

  /** `SELECT Settings FROM t WHERE ConfigContract is c`, fetched as a list:
      empty exactly when no row has contract `c`, and otherwise led by the
      settings of the first such row. */
  function SelectSettings(rows: seq<IntegrationRow>, c: string): (r: seq<Settings>)
    ensures |r| <= |rows|
    ensures r == [] <==> NoMatch(rows, c)
    ensures forall k :: IsFirstMatch(rows, c, k) ==> r != [] && r[0] == rows[k].settings
  {
    if rows == [] then []
    else
      var rest := SelectSettings(rows[1..], c);
      assert forall k :: IsFirstMatch(rows, c, k) && k > 0 ==> IsFirstMatch(rows[1..], c, k - 1);
      assert NoMatch(rows[1..], c) && rows[0].configContract != c ==> NoMatch(rows, c);
      (if rows[0].configContract == c then [rows[0].settings] else []) + rest
  }

  /** `UPDATE t SET Settings = s WHERE ConfigContract is c`: every row with
      contract `c` gets `s`, whatever row `s` was read from. */
  function UpdateSettings(rows: seq<IntegrationRow>, c: string, s: Settings): (r: seq<IntegrationRow>)
    ensures |r| == |rows|
  {
    seq(|rows|, i requires 0 <= i < |rows| =>
      if rows[i].configContract == c then rows[i].(settings := s) else rows[i])
  }

  /** The update keeps the number of rows with contract `c`, and all of them
      then carry `s`. */
  lemma {:induction false} SelectAfterUpdate(rows: seq<IntegrationRow>, c: string, s: Settings)
    ensures |SelectSettings(UpdateSettings(rows, c, s), c)| == |SelectSettings(rows, c)|
    ensures forall j :: 0 <= j < |SelectSettings(UpdateSettings(rows, c, s), c)| ==>
              SelectSettings(UpdateSettings(rows, c, s), c)[j] == s
  {
    if rows != [] {
      var u := UpdateSettings(rows, c, s);
      assert u[1..] == UpdateSettings(rows[1..], c, s);
      SelectAfterUpdate(rows[1..], c, s);
    }
  }

  /** Appending a row adds its settings to the end of the selection when its
      contract is `c`, and nothing otherwise. */
  lemma {:induction false} SelectAfterAppend(rows: seq<IntegrationRow>, x: IntegrationRow, c: string)
    ensures SelectSettings(rows + [x], c) ==
              SelectSettings(rows, c) + (if x.configContract == c then [x.settings] else [])
  {
    if rows == [] {
      assert [] + [x] == [x];
    } else {
      assert (rows + [x])[1..] == rows[1..] + [x];
      SelectAfterAppend(rows[1..], x, c);
    }
  }

  /** Updating every row of contract `c` to the settings they already carry is
      a no-op. */
  lemma UpdateToCurrentSettings(rows: seq<IntegrationRow>, c: string, s: Settings)
    requires forall i :: 0 <= i < |rows| && rows[i].configContract == c ==> rows[i].settings == s
    ensures UpdateSettings(rows, c, s) == rows
  {
    var u := UpdateSettings(rows, c, s);
    assert forall i :: 0 <= i < |rows| ==> u[i] == rows[i];
  }

  /** `merged` is `base` with `overrides` laid on top: overrides win on a
      shared key and every other key of `base` keeps its value. */
  predicate MergedOver(base: Settings, overrides: Settings, merged: Settings)
  {
    && merged.Keys == base.Keys + overrides.Keys
    && (forall k :: k in overrides ==> merged[k] == overrides[k])
    && (forall k :: k in base && k !in overrides ==> merged[k] == base[k])
  }

  // ----- Sabnzbd download client -----

  const SabnzbdContract := "SabnzbdSettings"

  /** The three keys `setup_sabnzbd` writes over an existing row's settings. */
  function SabnzbdOverrides(port: Value, apiKey: Value, host: Value): Settings
  {
    map["port" := port, "apiKey" := apiKey, "host" := host]
  }

  /** The row `setup_sabnzbd` inserts when no Sabnzbd client exists. */
  function SabnzbdRow(port: Value, apiKey: Value, host: Value): IntegrationRow
  {
    IntegrationRow(
      SabnzbdContract,
      map["musicCategory" := VStr("audio"), "port" := port, "apiKey" := apiKey,
          "olderTvPriority" := VInt(-100), "host" := host, "useSsl" := VBool(false),
          "recentTvPriority" := VInt(-100)],
      map["Enable" := VInt(1), "Name" := VStr("Sabnzbd"), "Implementation" := VStr("Sabnzbd")])
  }

  /** The first Sabnzbd row's settings with the three keys assigned in turn. */
  function SabnzbdMerge(s: Settings, port: Value, apiKey: Value, host: Value): Settings
  {
    s["port" := port]["apiKey" := apiKey]["host" := host]
  }

  /** `DownloadClients` after `setup_sabnzbd(port, apikey, hostname)`. */
  function UpsertSabnzbd(rows: seq<IntegrationRow>, port: Value, apiKey: Value, host: Value): seq<IntegrationRow>
  {
    var found := SelectSettings(rows, SabnzbdContract);
    if |found| > 0 then
      UpdateSettings(rows, SabnzbdContract, SabnzbdMerge(found[0], port, apiKey, host))
    else
      rows + [SabnzbdRow(port, apiKey, host)]
  }

  /** The three assignments are a shallow merge of `SabnzbdOverrides`, and
      repeating them changes nothing. */
  lemma SabnzbdMergeSpec(s: Settings, port: Value, apiKey: Value, host: Value)
    ensures MergedOver(s, SabnzbdOverrides(port, apiKey, host), SabnzbdMerge(s, port, apiKey, host))
    ensures SabnzbdMerge(SabnzbdMerge(s, port, apiKey, host), port, apiKey, host) == SabnzbdMerge(s, port, apiKey, host)
  {
    var m := SabnzbdMerge(s, port, apiKey, host);
    assert "port" != "apiKey" && "port" != "host" && "apiKey" != "host";
    assert m["port"] == port && m["apiKey"] == apiKey && m["host"] == host;
    assert m["port" := port] == m;
    assert m["port" := port]["apiKey" := apiKey] == m;
  }

  /** The default settings already hold the three values. */
  lemma SabnzbdDefaultsFixed(port: Value, apiKey: Value, host: Value)
    ensures SabnzbdMerge(SabnzbdRow(port, apiKey, host).settings, port, apiKey, host) == SabnzbdRow(port, apiKey, host).settings
  {
    var d := SabnzbdRow(port, apiKey, host).settings;
    assert d["port"] == port && d["apiKey"] == apiKey && d["host"] == host;
    assert d["port" := port] == d;
    assert d["port" := port]["apiKey" := apiKey] == d;
  }

  /** Every row `UpdateSettings` touches now carries `s`; the rest are as before. */
  lemma UpdateSettingsAt(rows: seq<IntegrationRow>, c: string, s: Settings)
    ensures forall i :: 0 <= i < |rows| && rows[i].configContract != c ==> UpdateSettings(rows, c, s)[i] == rows[i]
    ensures forall i :: 0 <= i < |rows| && rows[i].configContract == c ==>
              UpdateSettings(rows, c, s)[i] == rows[i].(settings := s)
  {
  }

  /** Update branch: with a Sabnzbd row present nothing is inserted; every
      Sabnzbd row's settings become the first one's with `port`, `apiKey` and
      `host` overwritten and every other key kept; its other columns and all
      rows of other contracts are unchanged. */
  lemma SabnzbdUpdatesEveryMatch(rows: seq<IntegrationRow>, port: Value, apiKey: Value, host: Value, k: int)
    requires IsFirstMatch(rows, SabnzbdContract, k)
    ensures var r := UpsertSabnzbd(rows, port, apiKey, host);
      && |r| == |rows|
      && (forall i :: 0 <= i < |rows| && rows[i].configContract != SabnzbdContract ==> r[i] == rows[i])
      && (forall i :: 0 <= i < |rows| && rows[i].configContract == SabnzbdContract ==>
            && r[i].configContract == rows[i].configContract
            && r[i].columns == rows[i].columns
            && MergedOver(rows[k].settings, SabnzbdOverrides(port, apiKey, host), r[i].settings))
  {
    var m := SabnzbdMerge(rows[k].settings, port, apiKey, host);
    assert UpsertSabnzbd(rows, port, apiKey, host) == UpdateSettings(rows, SabnzbdContract, m);
    SabnzbdMergeSpec(rows[k].settings, port, apiKey, host);
    UpdateSettingsAt(rows, SabnzbdContract, m);
  }

  /** Insert branch: with no Sabnzbd row, exactly one row is appended, enabled,
      named and implemented as "Sabnzbd", carrying the default settings with the
      three given values; the existing rows are untouched. */
  lemma SabnzbdInsertsOneRow(rows: seq<IntegrationRow>, port: Value, apiKey: Value, host: Value)
    requires NoMatch(rows, SabnzbdContract)
    ensures var r := UpsertSabnzbd(rows, port, apiKey, host);
      && |r| == |rows| + 1
      && r[..|rows|] == rows
      && r[|rows|] == SabnzbdRow(port, apiKey, host)
      && r[|rows|].columns["Enable"] == VInt(1)
      && r[|rows|].columns["Name"] == r[|rows|].columns["Implementation"] == VStr("Sabnzbd")
      && MergedOver(r[|rows|].settings, SabnzbdOverrides(port, apiKey, host), r[|rows|].settings)
  {
    var r := UpsertSabnzbd(rows, port, apiKey, host);
    assert r == rows + [SabnzbdRow(port, apiKey, host)];
    assert r[..|rows|] == rows;
    SabnzbdDefaultsFixed(port, apiKey, host);
    SabnzbdMergeSpec(SabnzbdRow(port, apiKey, host).settings, port, apiKey, host);
  }

  /** A call leaves at least one Sabnzbd row and never adds a second one:
      the count becomes 1 from 0 and stays put otherwise. */
  lemma SabnzbdMatchCount(rows: seq<IntegrationRow>, port: Value, apiKey: Value, host: Value)
    ensures var n := |SelectSettings(rows, SabnzbdContract)|;
      |SelectSettings(UpsertSabnzbd(rows, port, apiKey, host), SabnzbdContract)| == if n == 0 then 1 else n
  {
    var found := SelectSettings(rows, SabnzbdContract);
    if |found| > 0 {
      SelectAfterUpdate(rows, SabnzbdContract, SabnzbdMerge(found[0], port, apiKey, host));
    } else {
      SelectAfterAppend(rows, SabnzbdRow(port, apiKey, host), SabnzbdContract);
    }
  }

  /** A second call with the same arguments changes nothing. */
  lemma SabnzbdIdempotent(rows: seq<IntegrationRow>, port: Value, apiKey: Value, host: Value)
    ensures UpsertSabnzbd(UpsertSabnzbd(rows, port, apiKey, host), port, apiKey, host)
         == UpsertSabnzbd(rows, port, apiKey, host)
  {
    var c := SabnzbdContract;
    var found := SelectSettings(rows, c);
    var r := UpsertSabnzbd(rows, port, apiKey, host);
    var m;
    if |found| > 0 {
      m := SabnzbdMerge(found[0], port, apiKey, host);
      assert r == UpdateSettings(rows, c, m);
      SelectAfterUpdate(rows, c, m);
      SabnzbdMergeSpec(found[0], port, apiKey, host);
      UpdateSettingsAt(rows, c, m);
    } else {
      var row := SabnzbdRow(port, apiKey, host);
      m := row.settings;
      assert r == rows + [row];
      SelectAfterAppend(rows, row, c);
      SabnzbdDefaultsFixed(port, apiKey, host);
    }
    var again := SelectSettings(r, c);
    assert |again| > 0 && again[0] == m;
    assert SabnzbdMerge(m, port, apiKey, host) == m;
    assert UpsertSabnzbd(r, port, apiKey, host) == UpdateSettings(r, c, m);
    assert forall i :: 0 <= i < |r| && r[i].configContract == c ==> r[i].settings == m;
    UpdateToCurrentSettings(r, c, m);
  }

  /** The arguments of one `setup_sabnzbd` call. */
  datatype SabnzbdCall = SabnzbdCall(port: Value, apiKey: Value, host: Value)

  /** `DownloadClients` after a series of `setup_sabnzbd` calls, in order. */
  function SabnzbdCalls(rows: seq<IntegrationRow>, calls: seq<SabnzbdCall>): seq<IntegrationRow>
    decreases |calls|
  {
    if calls == [] then rows
    else SabnzbdCalls(UpsertSabnzbd(rows, calls[0].port, calls[0].apiKey, calls[0].host), calls[1..])
  }

  /** From a table with at most one Sabnzbd row (an empty one, say), any
      non-empty series of calls leaves exactly one. */
  lemma {:induction false} SabnzbdCallsLeaveOneRow(rows: seq<IntegrationRow>, calls: seq<SabnzbdCall>)
    requires |calls| > 0
    requires |SelectSettings(rows, SabnzbdContract)| <= 1
    ensures |SelectSettings(SabnzbdCalls(rows, calls), SabnzbdContract)| == 1
    decreases |calls|
  {
    SabnzbdMatchCount(rows, calls[0].port, calls[0].apiKey, calls[0].host);
    if |calls| > 1 {
      SabnzbdCallsLeaveOneRow(UpsertSabnzbd(rows, calls[0].port, calls[0].apiKey, calls[0].host), calls[1..]);
    }
  }

  // ----- Plex notification target -----

  const PlexContract := "PlexServerSettings"

  /** The settings `setup_plex` inserts when no Plex notification exists;
      missing credentials become empty strings. */
  function PlexRow(host: Value, port: Value, user: Value, passwd: Value): IntegrationRow
  {
    IntegrationRow(
      PlexContract,
      map["host" := host, "port" := port, "username" := Or(user, VStr("")),
          "password" := Or(passwd, VStr("")), "updateLibrary" := VBool(true),
          "useSsl" := VBool(false), "isValid" := VBool(true)],
      map["Name" := VStr("Plex"), "OnGrab" := VInt(0), "Implementation" := VStr("PlexServer"),
          "OnUpgrade" := VInt(1), "Tags" := VNone, "OnRename" := VInt(1),
          "OnReleaseImport" := VInt(1), "OnHealthIssue" := VInt(1),
          "IncludeHealthWarnings" := VInt(1), "OnDownloadFailure" := VInt(1),
          "OnImportFailure" := VInt(1), "OnTrackRetag" := VInt(1)])
  }

  /** The first Plex row's settings as `setup_plex` rewrites them: host and
      port overwritten, then each credential kept when truthy and otherwise
      replaced by the argument; reading a credential that is absent raises. */
  function PlexMerge(s: Settings, host: Value, port: Value, user: Value, passwd: Value): Result<Settings, Error>
  {
    var s := s["host" := host]["port" := port];
    if "username" !in s then Failure(KeyError("username"))
    else
      var s := s["username" := Or(s["username"], user)];
      if "password" !in s then Failure(KeyError("password"))
      else Success(s["password" := Or(s["password"], passwd)])
  }

  /** `Notifications` after `setup_plex(hostname, port, user, passwd)`, or the
      error it raises (in which case nothing was written). */
  function UpsertPlex(rows: seq<IntegrationRow>, host: Value, port: Value, user: Value, passwd: Value)
    : Result<seq<IntegrationRow>, Error>
  {
    var found := SelectSettings(rows, PlexContract);
    if |found| > 0 then
      match PlexMerge(found[0], host, port, user, passwd)
      case Success(s) => Success(UpdateSettings(rows, PlexContract, s))
      case Failure(e) => Failure(e)
    else
      Success(rows + [PlexRow(host, port, user, passwd)])
  }

  /** What an existing Plex row's credentials become: kept when truthy,
      otherwise the new argument. */
  function PlexOverrides(prev: Settings, host: Value, port: Value, user: Value, passwd: Value): Settings
    requires "username" in prev && "password" in prev
  {
    map["host" := host, "port" := port,
        "username" := Or(prev["username"], user), "password" := Or(prev["password"], passwd)]
  }

  /** The rewrite succeeds exactly when both credentials are present, raising
      `KeyError` for the first one missing otherwise; on success it is a
      shallow merge of `PlexOverrides`, and repeating it changes nothing. */
  lemma PlexMergeSpec(prev: Settings, host: Value, port: Value, user: Value, passwd: Value)
    ensures "username" !in prev ==> PlexMerge(prev, host, port, user, passwd) == Failure(KeyError("username"))
    ensures "username" in prev && "password" !in prev ==>
              PlexMerge(prev, host, port, user, passwd) == Failure(KeyError("password"))
    ensures "username" in prev && "password" in prev ==>
              && PlexMerge(prev, host, port, user, passwd).Success?
              && var m := PlexMerge(prev, host, port, user, passwd).value;
                 && MergedOver(prev, PlexOverrides(prev, host, port, user, passwd), m)
                 && PlexMerge(m, host, port, user, passwd) == Success(m)
  {
    PlexMergeMissing(prev, host, port, user, passwd);
    if "username" in prev && "password" in prev {
      PlexMergeSuccess(prev, host, port, user, passwd);
      var m := PlexMerge(prev, host, port, user, passwd).value;
      PlexMergeFixed(m, host, port, user, passwd);
    }
  }

  /** The first credential missing from the stored settings is the one the
      `KeyError` names; the host and port assignments do not supply it. */
  lemma PlexMergeMissing(prev: Settings, host: Value, port: Value, user: Value, passwd: Value)
    ensures "username" !in prev ==> PlexMerge(prev, host, port, user, passwd) == Failure(KeyError("username"))
    ensures "username" in prev && "password" !in prev ==>
              PlexMerge(prev, host, port, user, passwd) == Failure(KeyError("password"))
  {
    var h := prev["host" := host]["port" := port];
    assert "username" != "host" && "username" != "port";
    assert "username" in h <==> "username" in prev;
    if "username" in prev {
      assert "password" != "host" && "password" != "port" && "password" != "username";
      assert "password" in h["username" := Or(h["username"], user)] <==> "password" in prev;
    }
  }

  /** With both credentials present, the four assignments succeed and merge
      host, port and the `or`-combined credentials over the stored settings. */
  lemma PlexMergeSuccess(prev: Settings, host: Value, port: Value, user: Value, passwd: Value)
    requires "username" in prev && "password" in prev
    ensures PlexMerge(prev, host, port, user, passwd).Success?
    ensures var m := PlexMerge(prev, host, port, user, passwd).value;
      && MergedOver(prev, PlexOverrides(prev, host, port, user, passwd), m)
      && m["host"] == host && m["port"] == port
      && m["username"] == Or(prev["username"], user) && m["password"] == Or(prev["password"], passwd)
  {
    assert "username" != "host" && "username" != "port";
    assert "password" != "host" && "password" != "port" && "password" != "username";
    var m := prev["host" := host]["port" := port]["username" := Or(prev["username"], user)]
                 ["password" := Or(prev["password"], passwd)];
    assert PlexMerge(prev, host, port, user, passwd) == Success(m);
  }

  /** Settings that already hold the host, the port and credentials that the
      merge would keep are left as they are. */
  lemma PlexMergeFixed(m: Settings, host: Value, port: Value, user: Value, passwd: Value)
    requires "username" in m && "password" in m && "host" in m && "port" in m
    requires m["host"] == host && m["port"] == port
    requires Or(m["username"], user) == m["username"] && Or(m["password"], passwd) == m["password"]
    ensures PlexMerge(m, host, port, user, passwd) == Success(m)
  {
    assert "username" != "host" && "username" != "port";
    assert "password" != "host" && "password" != "port" && "password" != "username";
    var h := m["host" := host]["port" := port];
    assert h == m;
    var u := h["username" := Or(h["username"], user)];
    assert u == m;
    assert u["password" := Or(u["password"], passwd)] == m;
  }

  /** On the row `setup_plex` inserts, an identical call writes the credential
      arguments themselves. */
  lemma PlexRowMerge(host: Value, port: Value, user: Value, passwd: Value)
    ensures var d := PlexRow(host, port, user, passwd).settings;
      PlexMerge(d, host, port, user, passwd) == Success(d["username" := user]["password" := passwd])
  {
    var d := PlexRow(host, port, user, passwd).settings;
    assert "username" != "host" && "username" != "port";
    assert "password" != "host" && "password" != "port" && "password" != "username";
    assert d["host"] == host && d["port"] == port;
    assert d["username"] == Or(user, VStr("")) && d["password"] == Or(passwd, VStr(""));
    assert Or(Or(user, VStr("")), user) == user;
    assert Or(Or(passwd, VStr("")), passwd) == passwd;
    var h := d["host" := host]["port" := port];
    assert h == d;
  }

  /** Update branch: when the first Plex row has both credentials, nothing is
      inserted; every Plex row's settings become the first one's with `host`
      and `port` overwritten, a truthy stored username or password kept and a
      falsy one replaced by the argument, and every other key kept; all other
      columns and rows are unchanged. */
  lemma PlexUpdatesEveryMatch(rows: seq<IntegrationRow>, host: Value, port: Value, user: Value, passwd: Value, k: int)
    requires IsFirstMatch(rows, PlexContract, k)
    requires "username" in rows[k].settings && "password" in rows[k].settings
    ensures UpsertPlex(rows, host, port, user, passwd).Success?
    ensures var r := UpsertPlex(rows, host, port, user, passwd).value;
      var prev := rows[k].settings;
      && |r| == |rows|
      && (forall i :: 0 <= i < |rows| && rows[i].configContract != PlexContract ==> r[i] == rows[i])
      && (forall i :: 0 <= i < |rows| && rows[i].configContract == PlexContract ==>
            && r[i].configContract == rows[i].configContract
            && r[i].columns == rows[i].columns
            && MergedOver(prev, PlexOverrides(prev, host, port, user, passwd), r[i].settings)
            && r[i].settings["username"] == (if Truthy(prev["username"]) then prev["username"] else user)
            && r[i].settings["password"] == (if Truthy(prev["password"]) then prev["password"] else passwd))
  {
    var prev := rows[k].settings;
    PlexMergeSpec(prev, host, port, user, passwd);
    var m := PlexMerge(prev, host, port, user, passwd).value;
    assert UpsertPlex(rows, host, port, user, passwd) == Success(UpdateSettings(rows, PlexContract, m));
    UpdateSettingsAt(rows, PlexContract, m);
    var o := PlexOverrides(prev, host, port, user, passwd);
    assert m["username"] == o["username"] && m["password"] == o["password"];
  }

  /** Update branch with a credential missing from the first Plex row: the
      lookup raises `KeyError` (the username is read first) and no row is
      written. */
  lemma PlexMissingCredential(rows: seq<IntegrationRow>, host: Value, port: Value, user: Value, passwd: Value, k: int)
    requires IsFirstMatch(rows, PlexContract, k)
    requires "username" !in rows[k].settings || "password" !in rows[k].settings
    ensures UpsertPlex(rows, host, port, user, passwd)
         == Failure(KeyError(if "username" !in rows[k].settings then "username" else "password"))
  {
    PlexMergeSpec(rows[k].settings, host, port, user, passwd);
  }

  /** Insert branch: with no Plex row, exactly one row is appended whose
      credentials are the arguments, or "" where they are falsy, with
      `updateLibrary`, `useSsl` and `isValid` set to true, false and true. */
  lemma PlexInsertsOneRow(rows: seq<IntegrationRow>, host: Value, port: Value, user: Value, passwd: Value)
    requires NoMatch(rows, PlexContract)
    ensures UpsertPlex(rows, host, port, user, passwd).Success?
    ensures var r := UpsertPlex(rows, host, port, user, passwd).value;
      var s := r[|rows|].settings;
      && |r| == |rows| + 1
      && r[..|rows|] == rows
      && r[|rows|] == PlexRow(host, port, user, passwd)
      && s["host"] == host && s["port"] == port
      && s["username"] == (if Truthy(user) then user else VStr(""))
      && s["password"] == (if Truthy(passwd) then passwd else VStr(""))
      && s["updateLibrary"] == VBool(true) && s["useSsl"] == VBool(false) && s["isValid"] == VBool(true)
  {
    var row := PlexRow(host, port, user, passwd);
    assert UpsertPlex(rows, host, port, user, passwd) == Success(rows + [row]);
    assert (rows + [row])[..|rows|] == rows;
  }

  /** A successful call leaves at least one Plex row and never adds a second
      one. */
  lemma PlexMatchCount(rows: seq<IntegrationRow>, host: Value, port: Value, user: Value, passwd: Value)
    requires UpsertPlex(rows, host, port, user, passwd).Success?
    ensures var n := |SelectSettings(rows, PlexContract)|;
      |SelectSettings(UpsertPlex(rows, host, port, user, passwd).value, PlexContract)| == if n == 0 then 1 else n
  {
    var found := SelectSettings(rows, PlexContract);
    if |found| > 0 {
      SelectAfterUpdate(rows, PlexContract, PlexMerge(found[0], host, port, user, passwd).value);
    } else {
      SelectAfterAppend(rows, PlexRow(host, port, user, passwd), PlexContract);
    }
  }

  /** Once a Plex row has been updated, repeating the call changes nothing. */
  lemma PlexUpdateIdempotent(rows: seq<IntegrationRow>, host: Value, port: Value, user: Value, passwd: Value)
    requires !NoMatch(rows, PlexContract)
    requires UpsertPlex(rows, host, port, user, passwd).Success?
    ensures var r := UpsertPlex(rows, host, port, user, passwd).value;
      UpsertPlex(r, host, port, user, passwd) == Success(r)
  {
    var c := PlexContract;
    var found := SelectSettings(rows, c);
    PlexMergeSpec(found[0], host, port, user, passwd);
    var m := PlexMerge(found[0], host, port, user, passwd).value;
    var r := UpsertPlex(rows, host, port, user, passwd).value;
    assert r == UpdateSettings(rows, c, m);
    SelectAfterUpdate(rows, c, m);
    UpdateSettingsAt(rows, c, m);
    var again := SelectSettings(r, c);
    assert |again| > 0 && again[0] == m;
    assert UpsertPlex(r, host, port, user, passwd) == Success(UpdateSettings(r, c, m));
    assert forall i :: 0 <= i < |r| && r[i].configContract == c ==> r[i].settings == m;
    UpdateToCurrentSettings(r, c, m);
  }

  /** The insert and update branches treat a falsy credential differently:
      the insert stores `user or ""`, while an identical second call stores the
      argument itself (for `None`, a JSON null). So repeating a call that
      inserted is a no-op exactly when `user or ""` and `passwd or ""` are the
      arguments themselves. */
  lemma PlexInsertThenUpdate(rows: seq<IntegrationRow>, host: Value, port: Value, user: Value, passwd: Value)
    requires NoMatch(rows, PlexContract)
    ensures UpsertPlex(rows, host, port, user, passwd).Success?
    ensures var r1 := UpsertPlex(rows, host, port, user, passwd).value;
      var r2 := UpsertPlex(r1, host, port, user, passwd);
      && r2.Success?
      && |r2.value| == |r1| == |rows| + 1
      && r1[|rows|].settings["username"] == Or(user, VStr(""))
      && r2.value[|rows|].settings["username"] == user
      && r2.value[|rows|].settings["password"] == passwd
      && (r2.value == r1 <==> Or(user, VStr("")) == user && Or(passwd, VStr("")) == passwd)
  {
    var c := PlexContract;
    var row := PlexRow(host, port, user, passwd);
    var r1 := rows + [row];
    assert UpsertPlex(rows, host, port, user, passwd) == Success(r1);
    SelectAfterAppend(rows, row, c);
    assert IsFirstMatch(r1, c, |rows|);
    PlexRowMerge(host, port, user, passwd);
    var m := row.settings["username" := user]["password" := passwd];
    var r2 := UpdateSettings(r1, c, m);
    assert UpsertPlex(r1, host, port, user, passwd) == Success(r2);
    UpdateSettingsAt(r1, c, m);
    assert r2[|rows|].settings == m;
    assert "password" != "username";
    assert m["username"] == user && m["password"] == passwd;
    assert row.settings["username"] == Or(user, VStr("")) && row.settings["password"] == Or(passwd, VStr(""));
    if Or(user, VStr("")) == user && Or(passwd, VStr("")) == passwd {
      assert m == row.settings;
      UpdateToCurrentSettings(r1, c, m);
    } else {
      assert r2[|rows|].settings != r1[|rows|].settings;
    }
  }
}

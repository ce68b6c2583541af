/** `LidarrHelper`, the object through which the charm changes Lidarr's
    state. The object holds what its methods rewrite: the text of
    `config.xml` and the three database tables it writes. Each method is
    proved against the function in `ConfigPatch` or `Database` that describes
    its effect, and leaves the rest of the state alone. */
module Lidarr {
  import opened Python
  import opened ConfigPatch
  import opened Database

  /** One `if` statement of the loop body: when the stripped line opens `t`'s
      element and `arg` is truthy, the line becomes that element around
      `text`. */
  method RewriteIfOpens(line: string, t: Tag, arg: Value, text: string, ghost a: PatchArgs)
    returns (r: string)
    requires arg == Arg(a, t) && text == NewText(a, t)
    ensures r == Step(line, a, t)
  {
    r := line;
    if StartsWith(Strip(line), Open(t)) && Truthy(arg) {
      r := Element(t, text);
    }
  }

  /** The body of the loop in `modify_config`: the four tests, in order, each
      applied to the line as the previous one left it. */
  method RewriteConfigLine(line: string, port: Value, sslport: Value, auth: Value, urlbase: Value)
    returns (r: string)
    ensures r == RewriteLine(line, PatchArgs(port, sslport, auth, urlbase))
  {
    ghost var a := PatchArgs(port, sslport, auth, urlbase);
    r := RewriteIfOpens(line, Port, port, Str(port), a);
    var urlBaseText := if urlbase == VStr("None") then "" else Str(urlbase);
    r := RewriteIfOpens(r, UrlBase, urlbase, urlBaseText, a);
    r := RewriteIfOpens(r, SslPort, sslport, Str(sslport), a);
    r := RewriteIfOpens(r, AuthenticationMethod, auth, Str(auth), a);
  }

  /** The loop of `modify_config`: each line read is rewritten and printed,
      the printed strings following one another in the file. */
  method RewriteConfigLines(lines: seq<string>, port: Value, sslport: Value, auth: Value, urlbase: Value)
    returns (written: string)
    ensures written == Concat(Patch(lines, PatchArgs(port, sslport, auth, urlbase)))
  {
    ghost var a := PatchArgs(port, sslport, auth, urlbase);
    written := [];
    var i := 0;
    while i < |lines|
      invariant 0 <= i <= |lines|
      invariant written == Concat(Patch(lines[..i], a))
    {
      var line := RewriteConfigLine(lines[i], port, sslport, auth, urlbase);
      PatchPrefixSnoc(lines, i, a);
      ConcatSnoc(Patch(lines[..i], a), line);
      written := written + line;
      i := i + 1;
    }
    assert lines[..i] == lines;
  }

  class LidarrHelper {
    /** The text of `config.xml` as last written (newline-translated when
        first read). */
    var configText: string
    /** The `Indexers`, `DownloadClients` and `Notifications` tables. */
    var indexers: seq<IndexerRow>
    var downloadClients: seq<IntegrationRow>
    var notifications: seq<IntegrationRow>

    constructor (configText: string, indexers: seq<IndexerRow>,
                 downloadClients: seq<IntegrationRow>, notifications: seq<IntegrationRow>)
      ensures this.configText == configText && this.indexers == indexers
      ensures this.downloadClients == downloadClients && this.notifications == notifications
    {
      this.configText := configText;
      this.indexers := indexers;
      this.downloadClients := downloadClients;
      this.notifications := notifications;
    }

    /** `modify_config`: reads the file line by line and prints each line,
        rewritten, back into it. A line whose stripped text opens a supplied
        element becomes that element's canonical line. When no written value
        holds a line break, the file then has the same number of lines, each
        the rewrite of the line that was there. */
    method ModifyConfig(port: Value, sslport: Value, auth: Value, urlbase: Value)
      modifies this
      ensures configText == PatchFile(old(configText), PatchArgs(port, sslport, auth, urlbase))
      ensures NoCarriageReturn(old(configText)) && CleanArgs(PatchArgs(port, sslport, auth, urlbase)) ==>
                SplitLines(configText) == Patch(SplitLines(old(configText)), PatchArgs(port, sslport, auth, urlbase))
      ensures indexers == old(indexers) && downloadClients == old(downloadClients)
      ensures notifications == old(notifications)
    {
      ghost var a := PatchArgs(port, sslport, auth, urlbase);
      var written := RewriteConfigLines(SplitLines(configText), port, sslport, auth, urlbase);
      if NoCarriageReturn(configText) && CleanArgs(a) {
        PatchFileSpec(configText, a);
      }
      configText := written;
    }

    /** `set_indexers`: switches RSS and search on for every indexer when the
        status is truthy, off otherwise. */
    method SetIndexers(status: Value)
      modifies this
      ensures indexers == ToggleIndexers(old(indexers), status)
      ensures configText == old(configText) && downloadClients == old(downloadClients)
      ensures notifications == old(notifications)
    {
      indexers := ToggleIndexers(indexers, status);
    }

    /** `setup_sabnzbd`: updates the settings of the existing Sabnzbd download
        client, or inserts one; afterwards there is at least one and, if there
        was at most one before, exactly one. */
    method SetupSabnzbd(port: Value, apikey: Value, hostname: Value)
      modifies this
      ensures downloadClients == UpsertSabnzbd(old(downloadClients), port, apikey, hostname)
      ensures var n := |SelectSettings(old(downloadClients), SabnzbdContract)|;
        |SelectSettings(downloadClients, SabnzbdContract)| == if n == 0 then 1 else n
      ensures configText == old(configText) && indexers == old(indexers)
      ensures notifications == old(notifications)
    {
      SabnzbdMatchCount(downloadClients, port, apikey, hostname);
      var result := SelectSettings(downloadClients, SabnzbdContract);
      if |result| > 0 {
        var settings := result[0];
        settings := settings["port" := port];
        settings := settings["apiKey" := apikey];
        settings := settings["host" := hostname];
        downloadClients := UpdateSettings(downloadClients, SabnzbdContract, settings);
      } else {
        downloadClients := downloadClients + [SabnzbdRow(port, apikey, hostname)];
      }
    }

    /** `setup_plex`: updates the settings of the existing Plex notification,
        or inserts one. A missing stored credential raises `KeyError`, reported
        in `err`, and then nothing is written. */
    method SetupPlex(hostname: Value, port: Value, user: Value, passwd: Value) returns (err: Option<Error>)
      modifies this
      ensures match UpsertPlex(old(notifications), hostname, port, user, passwd)
        case Success(t) => err == None && notifications == t
        case Failure(e) => err == Some(e) && notifications == old(notifications)
      ensures configText == old(configText) && indexers == old(indexers)
      ensures downloadClients == old(downloadClients)
    {
      var result := SelectSettings(notifications, PlexContract);
      if |result| > 0 {
        var settings := result[0];
        settings := settings["host" := hostname];
        settings := settings["port" := port];
        if "username" !in settings {
          return Some(KeyError("username"));
        }
        settings := settings["username" := Or(settings["username"], user)];
        if "password" !in settings {
          return Some(KeyError("password"));
        }
        settings := settings["password" := Or(settings["password"], passwd)];
        notifications := UpdateSettings(notifications, PlexContract, settings);
      } else {
        notifications := notifications + [PlexRow(hostname, port, user, passwd)];
      }
      err := None;
    }
  }
}

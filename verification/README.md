# Lidarr charm helper: configuration patcher and database upserts

This project models the state-changing core of `LidarrHelper`, the helper class
of a Juju charm that installs and configures the Lidarr music manager. It covers
four methods and one loop:

- `modify_config` rewrites Lidarr's `config.xml` one line at a time. A line
  whose stripped text opens `<Port>`, `<UrlBase>`, `<SslPort>` or
  `<AuthenticationMethod>` becomes a canonical `  <Tag>value</Tag>\n` line when
  the matching argument is truthy. A url base equal to the string `"None"`
  clears the element instead.
- `set_indexers` switches RSS and search on or off for every row of the
  `Indexers` table.
- `setup_sabnzbd` updates the `SabnzbdSettings` download client, or inserts
  one when none exists.
- `setup_plex` updates the `PlexServerSettings` notification, or inserts one
  when none exists.
- The asset loop of `get_latest_release` picks the first asset whose name
  ends in `linux.tar.gz`.

The model has five modules:

- `Python` (python.dfy) holds the Python semantics the helper relies on:
  - scalar values;
  - truthiness and `or`;
  - `str()`;
  - `str.strip()` over the full `str.isspace()` set;
  - `startswith` and `endswith`;
  - reading a text file line by line, and printing lines back with
    `end=''`.
- `ConfigPatch` (config_patch.dfy) is the line rewrite as functions. It
  includes an order-free description of the rewrite that is proved equal to
  the four sequential `if`s.
- `Database` (database.dfy) holds the three tables as sequences of rows. Each
  `Settings` column is a map holding its decoded JSON object. The upserts are
  functions, and their branches, row counts and idempotence are proved as
  lemmas.
- `Releases` (releases.dfy) is the asset loop as a method.
- `Lidarr` (lidarr.dfy) is the `LidarrHelper` class. It holds the text of
  the config file and the three tables as fields, and its methods are proved
  against the functions above. The loop of `modify_config` and its body are
  methods of their own beside the class.

The model follows the code in these details:

- A field counts as supplied only when it is truthy. A port of `0` or an
  empty string leaves the line alone.
- The canonical line ends in `\n`.
- The Plex credential rule is `stored or argument`: a truthy stored value is
  kept, and a falsy one is replaced by the argument.
- An update writes the merged settings into every row that has the contract,
  not just the first.
- `setup_plex` is not idempotent on its insert path. The first call stores
  `user or ""`, and an identical second call stores `user` itself, which is
  `null` for `None`. `Database.PlexInsertThenUpdate` states exactly when a
  repeat changes the row.

## Model

| member | source | states |
|---|---|---|
| Python.Truthy | lib/lib_lidarr.py:47-56 | Python truthiness: `None`, `False`, `0` and `""` are falsy, every other value truthy. The `and port` style tests and `Or` are stated in terms of it. |
| Python.Or | lib/lib_lidarr.py:132-133 | `a or b` is `a` when `a` is truthy and `b` otherwise. The result is truthy exactly when either operand is. |
| Python.NatToDecimal | lib/lib_lidarr.py:48 | `str()` of a natural number is a non-empty run of decimal digits with no leading zero. |
| Python.NatToDecimalValue | lib/lib_lidarr.py:48 | The digits `str()` writes for a natural number spell that number back (`DecimalValue`). |
| Python.Str | lib/lib_lidarr.py:48-57 | `str(v)`, the text `format` inserts: `None`, `True`/`False`, the decimal digits of an int with `-` when negative, a string as it is. `StrSpec` states its properties. |
| Python.StrSpec | lib/lib_lidarr.py:48-57 | `str()` returns a string unchanged. For an int it writes digits that spell the value, after a `-` when it is negative. Only a string argument can put a line break into the written line. |
| Python.TrimLeftSpec | lib/lib_lidarr.py:47 | `lstrip()` removes only a leading run of whitespace. The result is a suffix of the input, and it does not start with whitespace. |
| Python.TrimRightSpec | lib/lib_lidarr.py:47 | `rstrip()` removes only a trailing run of whitespace. The result is a prefix of the input, and it does not end with whitespace. |
| Python.Strip | lib/lib_lidarr.py:47 | `line.strip()`, as `rstrip` after `lstrip`. `StripSpec` states what it keeps. |
| Python.StripSpec | lib/lib_lidarr.py:47 | `strip()` returns a contiguous middle part of the line. What it drops on either side is all whitespace, and the result neither starts nor ends with whitespace. |
| Python.StripKeepsPrefix | lib/lib_lidarr.py:47 | If the text after the leading whitespace starts with `p`, and `p` ends in a non-space character, then `strip()` keeps that prefix. |
| Python.TrimLeftAfterSpaces | lib/lib_lidarr.py:47 | `lstrip()` of whitespace followed by a non-space character yields exactly the text after the whitespace. |
| Python.FirstLineLength | lib/lib_lidarr.py:46 | The first line read from a non-empty text runs up to and including the first `\n`, or to the end when there is none. |
| Python.SplitLines | lib/lib_lidarr.py:46 | Iterating a file opened in text mode: the text cut after each `\n`, each line keeping its terminator. `ConcatSplitLines`, `SplitLinesWellFormed` and `SplitConcat` state its properties. |
| Python.Concat | lib/lib_lidarr.py:58 | What printing the lines one after another with `end=''` writes: their concatenation in order. `ConcatSnoc`, `ConcatSplitLines` and `SplitConcat` state its properties. |
| Python.ConcatSnoc | lib/lib_lidarr.py:58 | Printing one more string with `end=''` appends exactly that string to the output. |
| Python.ConcatSplitLines | lib/lib_lidarr.py:46 | Reading a text line by line loses nothing: the lines written back one after another are the text. |
| Python.SplitLinesWellFormed | lib/lib_lidarr.py:46 | The lines read from a text without `\r` are well formed: each is non-empty with no break before its end, and all but the last end in `\n`. |
| Python.FirstLineOf | lib/lib_lidarr.py:46 | The first line read from `h + rest` is `h` when `h` is a line that ends in `\n` or is followed by nothing. |
| Python.SplitConcat | lib/lib_lidarr.py:46-58 | Reading back well-formed lines printed one after another gives the same lines. |
| ConfigPatch.RewriteLine | lib/lib_lidarr.py:47-57 | The loop body: the four tests applied in order, each to the line as the previous one left it. `RewriteLineSpec` shows it equal to the order-free rule. |
| ConfigPatch.NewText | lib/lib_lidarr.py:48-57 | The value written between the tags: `str()` of the argument, or the empty text for a url base equal to `"None"`. `UrlBaseElement`, `StrSpec` and `CleanArgsOf` state its properties. |
| ConfigPatch.Element | lib/lib_lidarr.py:48-57 | The canonical replacement line: two spaces, the opening tag, the text, the closing tag and `\n`. `ElementStartsWithTag`, `ElementIsLine` and `UrlBaseText` state its properties. |
| ConfigPatch.Patch | lib/lib_lidarr.py:46-58 | The strings the loop prints, one per line read, each the rewrite of that line. There are as many as lines read. |
| ConfigPatch.PatchSnoc | lib/lib_lidarr.py:46-58 | One more line read appends that line's rewrite to the printed strings. Lines are rewritten independently and in order. |
| ConfigPatch.PatchPrefixSnoc | lib/lib_lidarr.py:46-58 | After line `i` is handled, the printed strings are those for the first `i` lines followed by line `i`'s rewrite. |
| ConfigPatch.OpenExclusive | lib/lib_lidarr.py:47-57 | No text starts with the opening tags of two different elements, so at most one of the four tests can fire on an original line. |
| ConfigPatch.ElementStartsWithTag | lib/lib_lidarr.py:48-57 | A canonical line strips to text that opens its own tag. |
| ConfigPatch.StepKeepsElement | lib/lib_lidarr.py:47-57 | A line already replaced for one tag is left alone by the tests for the other tags. |
| ConfigPatch.RewriteLineSpec | lib/lib_lidarr.py:47-57 | The four sequential tests agree with the order-free rule. A line supplied for tag `t` becomes `t`'s canonical line, and a line supplied for no tag is echoed unchanged. |
| ConfigPatch.RewriteLineIdempotent | lib/lib_lidarr.py:47-57 | Rewriting an already rewritten line with the same arguments changes nothing. |
| ConfigPatch.PatchSpec | lib/lib_lidarr.py:46-58 | One printed string per line read. The string for a supplied line is its tag's canonical line, and the string for any other line is that line unchanged, at the same position. It speaks of printed strings, not of the file's lines; `PatchFileSpec` gives the lines read back. |
| ConfigPatch.PatchTagLine | lib/lib_lidarr.py:47-57 | A line that opens tag `t` is replaced by `  <t>text</t>\n` exactly when the argument is truthy, where the text is what `NewText` gives: `str(arg)`, or nothing for a url base of `"None"`. With a falsy argument the line is unchanged. |
| ConfigPatch.UrlBaseElement | lib/lib_lidarr.py:49-53 | A url base of `"None"` writes the empty `<UrlBase></UrlBase>` element, never the text "None". Any other non-empty string is written verbatim. |
| ConfigPatch.UrlBaseText | lib/lib_lidarr.py:51-53 | The url base line reads `  <UrlBase>text</UrlBase>\n`, and with no text it is `  <UrlBase></UrlBase>\n`. |
| ConfigPatch.PatchIdempotent | lib/lib_lidarr.py:46-58 | Rewriting each printed string again with the same arguments gives the same strings. `PatchFileIdempotent` states this for the file. |
| ConfigPatch.CleanArgsOf | lib/lib_lidarr.py:48-57 | When no string argument holds a line break, no written value does. Ints, bools and `None` never bring one. |
| ConfigPatch.ElementIsLine | lib/lib_lidarr.py:48-57 | A canonical line around a value without a line break is a single line that ends in `\n`. |
| ConfigPatch.PatchWellFormed | lib/lib_lidarr.py:46-58 | With no line break in any written value, the printed strings are well-formed lines again. |
| ConfigPatch.PatchFile | lib/lib_lidarr.py:46-58 | The whole rewrite of the file text: the text read as lines, each line rewritten, the results printed back one after another. `PatchFileSpec` and `PatchFileIdempotent` state its properties. |
| ConfigPatch.PatchFileSpec | lib/lib_lidarr.py:46-58 | For a text without `\r` and written values without line breaks, the file read back after the rewrite has as many lines as before. Each is the rewrite of the line at the same position. |
| ConfigPatch.PatchFileIdempotent | lib/lib_lidarr.py:46-58 | Under the same conditions, a second `modify_config` with the same arguments leaves the file text as the first one left it. |
| Database.ToggleIndexers | lib/lib_lidarr.py:70-73 | Every indexer row gets `EnableRss` and `EnableSearch` set to 1 for a truthy status and 0 otherwise. Row count and all other columns are kept. |
| Database.ToggleIndexersIdempotent | lib/lib_lidarr.py:70-73 | A second toggle with the same status changes nothing. |
| Database.SelectSettings | lib/lib_lidarr.py:93-95 | The fetched list is empty exactly when no row has the contract. Otherwise its first entry is the first matching row's settings. |
| Database.UpdateSettings | lib/lib_lidarr.py:102-103 | The update keeps the number of rows. |
| Database.SelectAfterUpdate | lib/lib_lidarr.py:102-103 | After the update, the same number of rows match the contract, and all of them carry the written settings. |
| Database.SelectAfterAppend | lib/lib_lidarr.py:108-111 | An inserted row extends the selection only when its contract matches. |
| Database.UpdateToCurrentSettings | lib/lib_lidarr.py:102-103 | Writing to every matching row the settings it already holds is a no-op. |
| Database.UpdateSettingsAt | lib/lib_lidarr.py:102-103 | Matching rows get the new settings and every other row is unchanged. |
| Database.SabnzbdRow | lib/lib_lidarr.py:106-111 | The inserted row: Enable 1, Name and Implementation "Sabnzbd", and settings holding the given port, API key and host plus the fixed defaults (category "audio", priorities -100, no SSL). `SabnzbdDefaultsFixed` and `SabnzbdInsertsOneRow` state its properties. |
| Database.SabnzbdMerge | lib/lib_lidarr.py:98-101 | The first Sabnzbd row's settings with `port`, `apiKey` and `host` assigned in turn. `SabnzbdMergeSpec` shows it is a shallow merge that a repeat leaves fixed. |
| Database.UpsertSabnzbd | lib/lib_lidarr.py:89-112 | `DownloadClients` after `setup_sabnzbd`: with a Sabnzbd row, every Sabnzbd row gets the first one's settings merged; without one, `SabnzbdRow` is appended. `SabnzbdUpdatesEveryMatch`, `SabnzbdInsertsOneRow`, `SabnzbdMatchCount` and `SabnzbdIdempotent` state its properties. |
| Database.SabnzbdMergeSpec | lib/lib_lidarr.py:98-101 | The three assignments are a shallow merge: `port`, `apiKey` and `host` win, every other key keeps its value, and repeating them changes nothing. |
| Database.SabnzbdDefaultsFixed | lib/lib_lidarr.py:106-107 | The inserted default settings already hold the three given values. |
| Database.SabnzbdUpdatesEveryMatch | lib/lib_lidarr.py:95-103 | With a Sabnzbd row present, nothing is inserted. Every Sabnzbd row's settings become the first row's settings with the three keys merged over them. Other columns and other contracts' rows are unchanged. |
| Database.SabnzbdInsertsOneRow | lib/lib_lidarr.py:104-111 | With no Sabnzbd row, exactly one row is appended, with Enable 1, Name and Implementation "Sabnzbd", and the default settings with the three values. Existing rows are untouched. |
| Database.SabnzbdMatchCount | lib/lib_lidarr.py:93-111 | The number of Sabnzbd rows becomes 1 from 0 and is unchanged otherwise. |
| Database.SabnzbdIdempotent | lib/lib_lidarr.py:89-112 | A second call with the same arguments leaves the table as the first call left it. |
| Database.SabnzbdCallsLeaveOneRow | lib/lib_lidarr.py:89-112 | Starting from at most one Sabnzbd row, any non-empty series of calls leaves exactly one. |
| Database.PlexRow | lib/lib_lidarr.py:138-146 | The inserted row: Name "Plex", Implementation "PlexServer", the event flags, and settings holding host, port, `user or ""`, `passwd or ""` and updateLibrary/useSsl/isValid true/false/true. `PlexInsertsOneRow` and `PlexRowMerge` state its properties. |
| Database.PlexMerge | lib/lib_lidarr.py:129-133 | The first Plex row's settings after the four assignments: host and port overwritten, then each credential read and `or`-combined with its argument, a missing one raising `KeyError`. `PlexMergeSpec` states its properties. |
| Database.UpsertPlex | lib/lib_lidarr.py:115-147 | `Notifications` after `setup_plex`, or the `KeyError` it raises: with a Plex row, every Plex row gets `PlexMerge` of the first one's settings; without one, `PlexRow` is appended. `PlexUpdatesEveryMatch`, `PlexMissingCredential`, `PlexInsertsOneRow`, `PlexMatchCount` and `PlexUpdateIdempotent` state its properties. |
| Database.PlexMergeSpec | lib/lib_lidarr.py:129-133 | The rewrite fails with `KeyError` on the first missing credential, username before password. Otherwise it is a shallow merge of host, port and `stored or argument` credentials, and repeating it changes nothing. |
| Database.PlexMergeMissing | lib/lib_lidarr.py:130-133 | A credential missing from the stored settings raises `KeyError` naming it, username first. The host and port assignments do not supply it. |
| Database.PlexMergeSuccess | lib/lib_lidarr.py:130-133 | With both credentials present the four assignments succeed. They merge host, port and the `or`-combined credentials over the stored settings. |
| Database.PlexMergeFixed | lib/lib_lidarr.py:130-133 | Settings that already hold the host, the port and credentials the rule would keep are left unchanged. |
| Database.PlexRowMerge | lib/lib_lidarr.py:130-139 | On the inserted row, an identical call writes the credential arguments themselves. |
| Database.PlexUpdatesEveryMatch | lib/lib_lidarr.py:126-135 | With a Plex row that holds both credentials, the call succeeds and inserts nothing. Every Plex row gets host and port overwritten, each credential kept when truthy and otherwise replaced by the argument, and every other key kept. Other rows and columns are unchanged. |
| Database.PlexMissingCredential | lib/lib_lidarr.py:132-133 | A Plex row lacking `username` raises `KeyError('username')`. One that has `username` but lacks `password` raises `KeyError('password')`. |
| Database.PlexInsertsOneRow | lib/lib_lidarr.py:136-146 | With no Plex row, exactly one row is appended. It holds host and port, `user or ""` and `passwd or ""`, and updateLibrary/useSsl/isValid set to true/false/true. |
| Database.PlexMatchCount | lib/lib_lidarr.py:124-146 | After a successful call, the number of Plex rows becomes 1 from 0 and is unchanged otherwise. |
| Database.PlexUpdateIdempotent | lib/lib_lidarr.py:126-135 | Once a Plex row exists and the call succeeds, repeating the call changes nothing. |
| Database.PlexInsertThenUpdate | lib/lib_lidarr.py:132-138 | After an insert, an identical call writes the raw arguments as credentials. It leaves the table unchanged exactly when `user or ""` and `passwd or ""` equal the arguments. |
| Releases.SelectLinuxTarball | lib/lib_lidarr.py:166-169 | Returns `None` exactly when no asset name ends in `linux.tar.gz`. Otherwise it returns the download URL of the first such asset in list order. |
| Lidarr.RewriteConfigLine | lib/lib_lidarr.py:47-57 | Computes `RewriteLine`, the four tests in order, which `RewriteLineSpec` shows equal to the order-free rule. |
| Lidarr.RewriteConfigLines | lib/lib_lidarr.py:46-58 | The loop writes exactly the rewrites of the lines read, one after another, in order (`Concat` of `Patch`). |
| Lidarr.LidarrHelper.ModifyConfig | lib/lib_lidarr.py:35-62 | The file text becomes `PatchFile` of the old text. For a text without `\r` and written values without line breaks, the lines read back are `Patch` of the old lines, as many as before. The database tables are unchanged. |
| Lidarr.LidarrHelper.SetIndexers | lib/lib_lidarr.py:64-74 | The `Indexers` table becomes `ToggleIndexers` of the old one, and nothing else changes. |
| Lidarr.LidarrHelper.SetupSabnzbd | lib/lib_lidarr.py:89-112 | `DownloadClients` becomes `UpsertSabnzbd` of the old table, so the Sabnzbd row count goes from 0 to 1 or stays put. Nothing else changes. |
| Lidarr.LidarrHelper.SetupPlex | lib/lib_lidarr.py:115-147 | On success `Notifications` becomes `UpsertPlex` of the old table. On `KeyError` the error is returned and the table is unchanged. Nothing else changes. |

## Left out

- Service control: `service_stop`, `service_start` and `service_restart`, and
  the service left stopped after a `KeyError` in `setup_plex`. This is process
  management outside the data model.
- Logging (`hookenv.log`). It has no effect on state.
- `configure_configdir`, `configure_installdir`, `setup_systemd`,
  `install_deps` and the configuration reads in `__init__`. These cover file
  ownership, templating and package installation, not the data the helper
  writes.
- File handling in `modify_config`: `fileinput` with `inplace=True`, and the
  atomicity of the rewrite. The file is its text as text-mode reading
  returns it, split after each `\n`.
- Newline translation: text-mode reading turns `\r\n` and a lone `\r` into
  `\n`, so a file written with `\r\n` comes back with `\n` even on the
  lines no test touches. The model starts from the text after that
  translation, and the lemmas about the file read back assume it holds no
  `\r` (`NoCarriageReturn`).
- PatchSpec, PatchIdempotent: these speak of the strings the loop prints,
  one per line read, not of the file's lines. A written value that holds a
  `\n` or `\r` (only a string argument can) splits its printed string, so
  the file read back has more lines than before and a second run sees
  different lines. The file-level lemmas `PatchFileSpec` and
  `PatchFileIdempotent`, and the second `ensures` of `ModifyConfig`, assume
  no written value holds a line break (`CleanArgs`).
- The SQLite connection, cursor, SQL text and `commit`. A table is a
  sequence of rows in the order SQLite returns them. A `Settings` column is
  its decoded JSON object, so `json.loads` and `json.dumps` are modelled as
  exact inverses.
- JSON values other than scalars: floats, lists and nested objects, and
  `Settings` text that is not a JSON object or is malformed. A `Value` is
  `None`, a bool, an int or a string, which is what the helper writes.
- Row identifiers and any columns the helper neither reads nor writes. These
  are kept in the `columns` and `otherColumns` maps, keyed by column name.
- `get_latest_release` apart from its asset loop. GitHub access, the network,
  and the `IndexError` raised when there is no release are left out; the
  model's input is the list of assets of the newest release.
- `update_lidarr` and `install_lidarr`, which download and unpack the
  tarball. This is network and file I/O.
- `str()` of argument types other than `None`, bools, ints and strings, such
  as floats. Only those four kinds of `Value` exist in the model.

# pmpsdb_client in Dafny

`pmpsdb_client` deploys and inspects the PMPS (personnel and machine
protection system) database files on Beckhoff PLCs. It reaches them over FTP.
This project models its pure decision rules in Dafny and proves what those
rules promise. The modelled rules are:

- the FTP session (`ftp_data.py`):
  - the `ftp` context manager's credential fallback, working-directory set-up
    and teardown;
  - the `LIST` line parser and `list_file_info`;
  - uploads with their target-name choice;
  - ASCII downloads;
  - `compare_file`.
- the bitmask rendering and state-table aggregation of `ioc_data.py`;
- the string and list rules inside the Qt window (`gui.py`);
- the configuration list and exit-code rules of the command line (`cli.py`);
- the beam-class table (`beam_class.py`).

The PLC's FTP server is a value of `Ftp.Server`. It is an immutable oracle
that says:

- whether connecting works;
- what each login returns;
- what the root and working directories list;
- what `STOR`, `RETR`, `QUIT` and close do.

Every operation returns a `Run`: the FTP commands it issued, in order, and
then its value or the exception it ends with. Claims about order, "at most
once" and "only if" are therefore statements about that command trace.

Python's semantics are spelled out where they matter:

- `str.split()` splits on the whole `str.isspace` set;
- `int()` accepts an optional sign and ASCII digits;
- `datetime` rejects impossible dates;
- `bin()` of a negative number keeps its `b`;
- `==` on parsed JSON treats `1`, `1.0` and `True` as equal.

Modules, one per file:

| module | file | models |
|---|---|---|
| `Results` | results.dfy | `Option` and `Result` |
| `Text` | text.dfy | Python's `split`, `join`, `in`, `startswith`, `replace`, `capitalize` and `int` on strings |
| `ConfigDoc` | config_doc.dfy | parsed JSON documents and Python's `==` on them |
| `Listing` | listing.dfy | `PLCFile.from_list_line` and the listing grammar |
| `Ftp` | ftp.dfy | the session and every `ftp_data.py` operation |
| `IocData` | ioc_data.dfy | `clean_bitmask` and `AllStateBP.get_table_data` |
| `Gui` | gui.dfy | helpers lifted out of `gui.py` |
| `Cli` | cli.dfy | `gui()`, `get_included_config`, `main` and `_main` |
| `BeamClass` | beam_class.dfy | table tokenising and `BeamClass.from_strs` |

Where this model departs from a plain reading of the documentation, it
follows the code:

- The login loop has no `break`. After a successful default login, the next
  default credential is still tried.
- Teardown is not in a `finally`. When the body raises, neither `QUIT` nor
  close is sent.
- An exception from close propagates.
- A negative size in a listing line is accepted.
- `compare_file` compares with Python's numeric equality, so `1` equals `1.0`.
- `compare_file` forwards an omitted PLC file name as `None` (see Findings).

## Model

| member | source | states |
|---|---|---|
| `Ftp.WorkingDirectory` | pmpsdb_client/ftp_data.py:51 | The directory is the one given when it is non-empty, and `pmps` when it is `None` or empty. |
| `Ftp.TryLogins` | pmpsdb_client/ftp_data.py:57-63 | Credentials are tried in list order, as a prefix of the list. The loop runs to the end of the list unless an exception other than `error_perm` ends it. |
| `Ftp.LoginAbandonedIffFatal` | pmpsdb_client/ftp_data.py:58-63 | The login loop finishes exactly when no default credential raises anything but `error_perm`. |
| `Ftp.LoginAbandonedAtFirstFatal` | pmpsdb_client/ftp_data.py:58-63 | A loop that ends early stops at the first credential raising a non-permission error, and it raises that error. |
| `Ftp.LoginKeepsLastReply` | pmpsdb_client/ftp_data.py:57-63 | `rval` is the reply of the last credential that returned. It stays `None` when none returned. |
| `Ftp.LoginKeepsInitial` | pmpsdb_client/ftp_data.py:57-63 | A completed loop in which no login returned still holds the initial reply. |
| `Ftp.LoginKeepsLastReplied` | pmpsdb_client/ftp_data.py:57-63 | A completed loop holds the reply of a credential when no later login returned. |
| `Ftp.Open` | pmpsdb_client/ftp_data.py:49-77 | The session starts with the connect. When connected, the default logins follow in order. Only set-up commands are issued. On success the working directory is the defaulted one. |
| `Ftp.AfterDefaults` | pmpsdb_client/ftp_data.py:64-75 | After the login loop: anonymous login is sent iff the loop kept no reply. The RuntimeError is raised iff that login returns nothing as well. Only set-up commands follow, and success yields the directory. Errors are ftplib exceptions or that RuntimeError. |
| `Ftp.AfterDefaultsMkd` | pmpsdb_client/ftp_data.py:64-73 | After the login loop, `MKD` comes only after the root listing was requested. Once it was, `MKD` is sent iff the listing succeeded and lacks the directory. |
| `Ftp.EnterDirectory` | pmpsdb_client/ftp_data.py:71-75 | The root listing is requested first. `MKD` is sent iff the listing succeeds and lacks the directory, whether or not a later step raises. A success ends with `CWD` into it. No login is sent, and the RuntimeError never arises here. |
| `Ftp.AnonymousFallback` | pmpsdb_client/ftp_data.py:64-70 | Anonymous login is attempted iff the default logins left no reply. The session fails with the RuntimeError iff the anonymous login also returns nothing. |
| `Ftp.AnonymousNotDefault` | pmpsdb_client/ftp_data.py:19-22 | The anonymous credential is not one of the default pairs, so it is never among the default login attempts. |
| `Ftp.EveryDefaultTried` | pmpsdb_client/ftp_data.py:58-61 | When no default login raises a fatal error, both default pairs are tried right after connecting, in order. |
| `Ftp.NoBreakAfterSuccess` | pmpsdb_client/ftp_data.py:58-63 | Even after the first default login succeeds, the second is still tried. A permission error on the second keeps the first reply. |
| `Ftp.MkdOnlyWhenAbsent` | pmpsdb_client/ftp_data.py:71-73 | Whether or not the set-up succeeds, `MKD` comes only after the root listing was requested. Once it was, `MKD` is issued iff the listing succeeded and lacks the working directory. |
| `Ftp.DirectoryCreatedIfAbsent` | pmpsdb_client/ftp_data.py:72-75 | After a successful set-up, `MKD` was issued iff the root listing lacks the working directory, and the set-up ends with `CWD` into it. |
| `Ftp.Finish` | pmpsdb_client/ftp_data.py:77-84 | After the body: `QUIT` is sent iff set-up and body succeeded, and close only if `QUIT` raised. The result is the body's value iff quit or close succeeded. |
| `Ftp.Teardown` | pmpsdb_client/ftp_data.py:77-84 | In a whole session: `QUIT` iff the body succeeds, close iff `QUIT` then raises. A failing body's exception propagates unchanged, with no cleanup. |
| `Ftp.OnlyItsBodyCommand` | pmpsdb_client/ftp_data.py:77 | A session issues exactly one data command: the body's own. |
| `Ftp.ListFilenames` | pmpsdb_client/ftp_data.py:87-109 | Success iff set-up, `NLST` and teardown succeed. The value is the directory's name list. |
| `Listing.ParseFields` | pmpsdb_client/ftp_data.py:142-155 | Date and time must split into 3 and 2 parts, else the matching error. A success reads its fields from the tokens and is a valid date in year 2000 or later. It is the only valid record those tokens describe. |
| `Listing.ParseListLine` | pmpsdb_client/ftp_data.py:141-155 | A line parses only if it has exactly four whitespace-separated tokens, otherwise the field-count error. The filename is the fourth token, and the date is valid with year at least 2000. |
| `Listing.ParseFormatRoundTrip` | pmpsdb_client/ftp_data.py:124-155 | Every file record that can be written as a listing line parses back to itself. |
| `Listing.NegativeSizeAccepted` | pmpsdb_client/ftp_data.py:154 | A line whose size token is negative parses, with that negative size. |
| `Listing.BlankRunsBetweenFields` | pmpsdb_client/ftp_data.py:141 | Any non-empty runs of whitespace between four tokens give back exactly those four tokens. |
| `Listing.DocumentedSample` | pmpsdb_client/ftp_data.py:132-133 | The sample line parses to `kfe-motion.json`, size 16439, created 2022-11-04 13:59. |
| `Listing.ParseListing` | pmpsdb_client/ftp_data.py:183 | A listing parses iff every line does. The result has one record per line, in order. Otherwise the error is the first malformed line's error: every earlier line parses. |
| `Listing.IntStringRoundTrip` | pmpsdb_client/ftp_data.py:154 | `int()` reads any integer's decimal text back as that integer, and the text is one token. |
| `Text.SplitWs` | pmpsdb_client/ftp_data.py:141 | `str.split()` yields only non-empty tokens without whitespace. |
| `Text.SplitWsJoinWs` | pmpsdb_client/ftp_data.py:141 | Tokens joined by single spaces split back into the same tokens. |
| `Ftp.ListFileInfo` | pmpsdb_client/ftp_data.py:180-183 | Success iff set-up, `LIST` and teardown succeed and every line parses. A successful listing has one record per `LIST` line, each that line's parse. A parse error arises only after the session closed politely, and it is the first malformed line's. |
| `Ftp.ParseSessionLines` | pmpsdb_client/ftp_data.py:183 | Lines from a finished session are parsed one record per line. A session error passes through unchanged. A parse error is the first malformed line's. |
| `Ftp.UploadFile` | pmpsdb_client/ftp_data.py:215-216 | `STOR` of the target and data is sent iff the set-up succeeded. Success iff set-up, the store and teardown all succeed. |
| `Ftp.Basename` | pmpsdb_client/ftp_data.py:248 | The base name is the longest suffix without `/`. |
| `Ftp.BasenameAfterSlash` | pmpsdb_client/ftp_data.py:248 | The base name of `dir/name` is `name`. |
| `Ftp.TargetName` | pmpsdb_client/ftp_data.py:248 | The target is the destination name when it is non-empty, otherwise the local base name. |
| `Ftp.UploadFilename` | pmpsdb_client/ftp_data.py:245-251 | A local file that cannot be opened fails before any FTP command. Otherwise `STOR` of the data under the chosen target name is sent iff the set-up succeeds, and the upload succeeds iff set-up, store and teardown succeed. |
| `Ftp.DecodeAscii` | pmpsdb_client/ftp_data.py:291 | Decoding succeeds iff every byte is below 0x80, one character per byte with the same code. Otherwise the error names the first byte at or above 0x80. |
| `Ftp.AsciiRoundTrip` | pmpsdb_client/ftp_data.py:291 | ASCII encoding and decoding are inverse. |
| `Ftp.DecodeChunksIsDecodeAll` | pmpsdb_client/ftp_data.py:289-292 | Decoding chunk by chunk and concatenating equals decoding all the bytes at once. |
| `Ftp.DecodedDownload` | pmpsdb_client/ftp_data.py:289-292 | Decoding the chunks succeeds iff every byte is below 0x80. Then the text's ASCII encoding is the bytes; otherwise the error names a byte at or above 0x80 that occurs. |
| `Ftp.DownloadText` | pmpsdb_client/ftp_data.py:286-292 | `RETR` is sent iff the set-up succeeded. Success iff set-up, `RETR` and teardown succeed and every byte is below 0x80. The text's ASCII encoding is exactly the concatenated chunks, so its length is the byte count. A byte at or above 0x80 makes it fail, naming a byte that occurs. |
| `Ftp.DownloadJson` | pmpsdb_client/ftp_data.py:327-333 | Success iff the text download succeeds and that text parses. A parsed document comes from a successful download of that file's text. |
| `ConfigDoc.DocEqCanon` | pmpsdb_client/ftp_data.py:397 | Python equality of two parsed documents holds iff their canonical forms are equal. Numbers compare by value, and key order plays no part. |
| `ConfigDoc.DocEqEquivalence` | pmpsdb_client/ftp_data.py:397 | The document comparison is reflexive, symmetric and transitive. |
| `ConfigDoc.StringNeverEqualsNumber` | pmpsdb_client/ftp_data.py:397 | A string value never equals a numeric one. |
| `Ftp.CompareFile` | pmpsdb_client/ftp_data.py:391-397 | The local file is read first, and failing to read it issues no FTP command. Success iff the local document was read and the download under the forwarded name succeeds. The result is true iff the local document equals the one downloaded under the forwarded name. |
| `Ftp.OmittedPlcNameRequestsNone` | pmpsdb_client/ftp_data.py:392-396 | With the PLC name omitted, the code as written requests `RETR None` and never the local file's base name. The intended version requests the base name. |
| `Ftp.CompareFileIntended` | pmpsdb_client/ftp_data.py:372-374 | With the PLC name defaulted to the local base name, success iff the local document was read and that name's download succeeds, and the result is true iff the documents are equal. The download requests that name. |
| `Ftp.CompareFileIntendedAgrees` | pmpsdb_client/ftp_data.py:391-397 | When a PLC name is given, the corrected comparison is the one written. |
| `IocData.Unsigned` | pmpsdb_client/ioc_data.py:144-145 | Only a negative mask has `2**width` added. In-range masks land in `[0, 2**width)`. |
| `IocData.CleanBitmask` | pmpsdb_client/ioc_data.py:136-149 | The text is at least `width` long, and exactly `width` when the fixed value fits. For masks from `-2**width` up it holds only `0`/`1`, and reads back as the fixed unsigned value. Below that it keeps `bin`'s `b`. |
| `IocData.TwosComplement` | pmpsdb_client/ioc_data.py:144-149 | In-range masks render to exactly `width` bits. Their value is the mask or the mask plus `2**width`, and non-negative masks are unchanged. |
| `IocData.MinusOneIsAllOnes` | pmpsdb_client/ioc_data.py:144-149 | `-1` renders as `width` ones. |
| `IocData.BinaryValue` | pmpsdb_client/ioc_data.py:146 | The binary digits of a natural number read back as that number. |
| `IocData.Binary` | pmpsdb_client/ioc_data.py:146 | `bin`'s digits of a natural number are non-empty, only `0`/`1`, and have no leading zero unless the number is 0. |
| `IocData.BinDigits` | pmpsdb_client/ioc_data.py:146 | After cutting two characters, a non-negative value leaves only bits, and a negative value leaves text starting with `b`. |
| `IocData.BinaryLength` | pmpsdb_client/ioc_data.py:146 | A number below `2**width` has at most `width` binary digits. |
| `IocData.ZeroPad` | pmpsdb_client/ioc_data.py:147-148 | The loop prepends zeros up to the width, and leaves a text of at least that width unchanged. |
| `IocData.LeadingZeros` | pmpsdb_client/ioc_data.py:147-148 | Prepending zeros to a bit string keeps its value. |
| `IocData.PaddedValue` | pmpsdb_client/ioc_data.py:144-149 | For masks from `-2**width` up, the padded text holds only bits and reads back as the fixed unsigned value. |
| `IocData.PaddedWidth` | pmpsdb_client/ioc_data.py:144-149 | When the fixed value fits the width, the padded text is exactly `width` long. |
| `IocData.Entry` | pmpsdb_client/ioc_data.py:124-132 | A row keeps the lookup name, rate and transmission. The beam-class range is rendered at width 16 and the energy range at width 32. |
| `IocData.CollectKeys` | pmpsdb_client/ioc_data.py:120-124 | After scanning `n` states, a name is a key iff it is non-empty and some scanned state has it. |
| `IocData.CollectSize` | pmpsdb_client/ioc_data.py:120-124 | Scanning `n` states keeps at most `n` keys. |
| `IocData.CollectKeepsLast` | pmpsdb_client/ioc_data.py:120-124 | Each key holds the last scanned state with that name, so later duplicates overwrite earlier ones. |
| `IocData.Rows` | pmpsdb_client/ioc_data.py:124-132 | There is one row per kept state, under the same key, built from that state. |
| `IocData.TableData` | pmpsdb_client/ioc_data.py:113-133 | For the 15 states: keys are exactly the non-empty lookup names. Each entry is the last such state's row, with `name` equal to its key. There are at most 15 entries. |
| `IocData.AsDocument` | pmpsdb_client/ioc_data.py:124-126 | The table as a document has the same keys, each entry's `name` being its key. |
| `Gui.HostnameToFilename` | pmpsdb_client/gui.py:636-640 | The file name is the key followed by `.json`. |
| `Gui.FilenameRoundTrip` | pmpsdb_client/gui.py:629-640 | Stripping `.json` from a PLC's file name gives back its key. No two hostnames share a file name. |
| `Gui.StatesPrefixes` | pmpsdb_client/gui.py:555-567 | A name containing `GAS_MAA` gives two prefixes, `:Y:STATE:` then `:X:STATE:`. Any other name gives one, `:MMS:STATE:`. Each starts with the name with `-` replaced by `:`. |
| `Gui.PvBase` | pmpsdb_client/gui.py:562 | Every `-` becomes `:`, and every other character is kept. |
| `Gui.MergeHeader` | pmpsdb_client/gui.py:500-504 | The header starts with the fixed column order unchanged and contains every file key. Appended keys come from the file, are not in the fixed order, and keep their first-seen order. The header has no duplicates. |
| `Gui.ParameterHeader` | pmpsdb_client/gui.py:500-504 | A device without states fails, as `[0]` raises. Otherwise the header extends the fixed order with the first state's keys. |
| `Gui.LastLetter` | pmpsdb_client/gui.py:484-487 | The letter becomes that of the last `l`/`k` character (either case, or the Kelvin sign), and stays the same if there is none. |
| `Gui.LetterOf` | pmpsdb_client/gui.py:482-486 | Only `l`/`L` count as `l`. Only `k`/`K` and the Kelvin sign count as `k`, those being what lower-cases to them. |
| `Gui.LineLetter` | pmpsdb_client/gui.py:482-487 | The line letter is the current one, `l` or `k`. For a name without `-`, it is the letter of the whole name's last `l` or `k` after lower-casing, or the current one if there is none. |
| `Gui.LineLetterBeforeDash` | pmpsdb_client/gui.py:482-487 | Only the part of the device name before its first `-` decides the line letter. |
| `Gui.Ctime` | pmpsdb_client/gui.py:413 | The upload time is shown as 24 characters. Weekday, month, space-padded day, hour, minute, `00` seconds and year sit at their `ctime` positions, with single spaces and `:` between them. |
| `Gui.CtimeReadsBack` | pmpsdb_client/gui.py:413 | Hour, minute and year read back from the text as the time's own. |
| `Gui.NextDayWeekday` | pmpsdb_client/gui.py:413 | The day after any date has the next ordinal and the next weekday, across month and year ends. |
| `Gui.CtimeSample` | pmpsdb_client/gui.py:413 | The listing sample's time shows as `Fri Nov  4 13:59:00 2022`. |
| `Gui.CleanErrorText` | pmpsdb_client/gui.py:403-406 | Text starting with `[Errno` and containing `] ` is cut to the piece after the first `] `. The result is capitalised either way. |
| `Gui.ErrnoMessage` | pmpsdb_client/gui.py:403-406 | An OS error text `[Errno N] message` shows as the capitalised message. |
| `Text.Capitalize` | pmpsdb_client/gui.py:406 | `capitalize` keeps the length and the letters up to case. The first character is not a lower-case letter, and the others are not upper-case. |
| `Text.CapitalizeIdempotent` | pmpsdb_client/gui.py:406 | Capitalising twice is capitalising once. |
| `Gui.UploadCellText` | pmpsdb_client/gui.py:397-415 | The cell shows the creation time of the first listed file named after the PLC. Otherwise it shows `No upload found` after a good listing, or the cleaned error text after a failed one. |
| `Gui.ParsedFilesAreDated` | pmpsdb_client/gui.py:411-413 | Every file from a parsed listing has a date that `ctime` can show. |
| `Gui.TestMode` | pmpsdb_client/gui.py:334-338 | Test mode is on iff some configured hostname contains `-tst-`. |
| `Gui.EffectiveConfigs` | pmpsdb_client/gui.py:72-73 | With no configuration given, the window loads the packaged test configuration. |
| `Cli.IncludedConfig` | pmpsdb_client/cli.py:204-205 | The path is the package directory, then `/pmpsdb_`, the name and `.yml`. The name can be read back from the middle of the path. |
| `Cli.ConfigList` | pmpsdb_client/cli.py:187-197 | The user's `--config` files come first, unchanged and in order, followed by the selected packaged files. |
| `Cli.SelectedInOrder` | pmpsdb_client/cli.py:188-197 | Packaged files come in the order tst, lfe, kfe, tmo, rix, each at most once. |
| `Cli.SelectedMembership` | pmpsdb_client/cli.py:188-197 | Each packaged file is loaded iff one of its switches is set. `tmo` or `rix` always brings `kfe`. |
| `Cli.SingleSwitches` | pmpsdb_client/cli.py:192-197 | `--tmo` alone loads kfe then tmo, `--rix` alone kfe then rix, `--lfe-all` only lfe, and `--kfe-all` kfe, tmo and rix. |
| `Cli.AllProduction` | pmpsdb_client/cli.py:190-197 | `--all-prod` without `--tst` loads lfe, kfe, tmo and rix, and never the test file. |
| `Cli.OnlySelectedPaths` | pmpsdb_client/cli.py:188-205 | A packaged configuration's file is among the paths only if that configuration was selected. |
| `Cli.SiteFilesDiffer` | pmpsdb_client/cli.py:188-205 | Different packaged configurations have different files. |
| `Cli.DefaultIsTest` | pmpsdb_client/cli.py:187-197 | With no switches and no `--config`, the list is empty and the window falls back to the same file `--tst` loads. |
| `Cli.InnerMain` | pmpsdb_client/cli.py:152-172 | `--version` prints and returns before anything else. Otherwise logging is set up first, at debug level iff verbose. Only the `gui` subcommand returns an exit code. An exception is always a collaborator's own, unchanged. |
| `Cli.Main` | pmpsdb_client/cli.py:137-149 | Without `--verbose` an `Exception` is shown and becomes exit code 1. With `--verbose`, or for a `KeyboardInterrupt`/`SystemExit`, which `except Exception` does not catch, it propagates unchanged. A normal return passes through. |
| `Cli.VersionShortCircuits` | pmpsdb_client/cli.py:159-162 | With `--version` the run is exactly "show the version", whatever the other options and collaborators do. |
| `Cli.InterruptEscapes` | pmpsdb_client/cli.py:143-149 | A `KeyboardInterrupt` in the GUI propagates out of `main` unchanged even without `--verbose`, and no error text is shown. |
| `Cli.QuietExitCode` | pmpsdb_client/cli.py:143-149 | Without `--verbose` the program exits with a code unless a non-`Exception` escapes, so always when the collaborators raise only `Exception`s. That code is 1 exactly when a step raised an `Exception` or the GUI itself exited with 1. |
| `BeamClass.Cell` | pmpsdb_client/beam_class.py:69-71 | A cell is "no value" iff it is exactly `-`. Any other text is kept unchanged. |
| `BeamClass.Cells` | pmpsdb_client/beam_class.py:68-71 | A line gives one cell per tab-separated piece, in order, each read as a cell. |
| `Text.SplitOn` | pmpsdb_client/beam_class.py:68 | `str.split(sep)` yields at least one piece, and no piece contains the separator. |
| `Text.JoinOnSplitOn` | pmpsdb_client/beam_class.py:68 | Joining the pieces with the separator gives back the original text. |
| `Text.SplitOnJoinOn` | pmpsdb_client/beam_class.py:68 | Pieces free of the separator, once joined, split back into the same pieces. |
| `BeamClass.CellRoundTrip` | pmpsdb_client/beam_class.py:69-71 | Writing a cell back gives its text. Reading back gives the cell unless its value is itself `-`. |
| `BeamClass.TableRows` | pmpsdb_client/beam_class.py:65-72 | One row per non-empty line, in line order, each that line's tab-separated cells. |
| `BeamClass.TableOfLines` | pmpsdb_client/beam_class.py:65-72 | A table of non-empty lines between newlines reads back as exactly one row per line, in order. Each row's cells join back into its line. |
| `BeamClass.Coerce` | pmpsdb_client/beam_class.py:22-33 | An `Optional` field keeps `None` as `None` and turns any other text into a value. A `str` field never fails. Every value fits its field's type. |
| `BeamClass.CoerceAll` | pmpsdb_client/beam_class.py:22 | Only the first `min(len(args), 10)` arguments are coerced, in order. The loop fails iff one of them fails. |
| `BeamClass.FromStrs` | pmpsdb_client/beam_class.py:18-38 | Construction fails iff there are fewer than ten arguments or one of the first ten cannot be coerced. With fewer than ten coercible arguments, the error is the arity error. |
| `BeamClass.FromStrsPlainFields` | pmpsdb_client/beam_class.py:25-26 | The index is `int` of the first argument. The name is the second argument as text, or `None` for a missing one. The notes are the tenth argument unchanged. |
| `BeamClass.FromStrsKeepsNone` | pmpsdb_client/beam_class.py:28-33 | Every optional field is `None` exactly when its argument was `None`. |
| `BeamClass.ExtraArgumentsIgnored` | pmpsdb_client/beam_class.py:22 | Arguments past the tenth do not change the result. |

## Left out

- Sockets, the 2-second timeout and active mode are left out. The server is a parameter, so no network behaviour is modelled.
- `STOR`/`RETR` streaming is modelled as whole byte sequences and chunk lists.
- Logging calls have no effect on any result and are left out.
- Opening and reading local files are left out. Their outcome (bytes, a parsed document or the error text) is a parameter.
- JSON decoding (`json.loads`/`json.load`) is a parameter, a function from text to a parsed document or an error. Its parser is not modelled.
- Qt widgets, dialogs, menus, table filling and `check_server_online`'s ping are left out. Only the string and list rules inside them are modelled.
- The EPICS/ophyd signals of `ioc_data.py` are left out. `get_table_data` takes the 15 states' readings as a sequence.
- `BeamClass.Coerce`: `int(...)` and `float(...)` are parameters that say only whether they succeed and with what value. Their parsing rules are not modelled.
- `Listing.ParseListLine`: Python's `int()` also accepts underscores, surrounding whitespace and non-ASCII digits. The model accepts an optional sign and ASCII digits only.
- `Gui.CleanErrorText`: `str.capitalize` is modelled on ASCII letters only. Other characters pass through unchanged.
- `Gui.LastLetter`: `str.lower` is modelled only as far as it can produce `l` or `k`, which is from `L`, `K` and the Kelvin sign.
- `Gui.Ctime`: only whole-minute times are modelled, as the listing supplies them. Seconds are always `00`.
- `Cli.IncludedConfig`, `Gui.EffectiveConfigs`: the join `Path(dir) / name` is written `dir + "/" + name`. Path normalisation is left out.
- The `plc` subcommand of `cli.py` is left out. It calls `compare_file` with a keyword the function does not take (`cli.py:222`).
- `Cli.InnerMain`: printing the version, the version lookup and the GUI's event loop are abstract steps. Their own failures are not modelled.
- `get_bitmask_desc`, `summarize_beam_class_bitmask`, `export_data`, `epics_tools.py`, `version.py` and the older `pmps_manager` package are not part of this model.
- `ConfigDoc.DocEqCanon`: documents are modelled two levels deep (name, parameter, scalar). The files on the PLCs nest further (hostname, device, state, parameter), and `compare_file` compares them whole with `==`. Deeper nesting and nested lists are not modelled.
- `ConfigDoc.DocEqEquivalence`: JSON `NaN` and the infinities are not modelled. In Python a document holding `NaN` is not equal to a second copy of itself, so reflexivity holds only for the modelled values.
- `IocData.TableData`: the dict `get_table_data` builds keeps insertion order (`ioc_data.py:120-126`), and the GUI takes its header from the first entry and fills rows in that order (`gui.py:533`, `gui.py:544`). A Dafny map has no order, so the row order and which entry counts as first are not modelled.
- Dafny datatypes are immutable. The `BeamClass` dataclass's frozenness therefore holds by construction and gets no separate contract.

## Findings

| source | as written | input that shows it | evidently intended | confidence | as-written member | corrected member |
|---|---|---|---|---|---|---|
| pmpsdb_client/ftp_data.py:392-396 | `compare_file` passes `plc_filename` to the download unchanged. When it is omitted, `f'RETR {filename}'` requests a file literally named `None`. | `compare_file(hostname, "dir/kfe.json")` with no `plc_filename` | The docstring says an omitted name defaults to the local file's base name, `kfe.json`. | not executed | `Ftp.OmittedPlcNameRequestsNone` | `Ftp.CompareFileIntended` |

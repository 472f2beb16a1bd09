# PnPDeviceChangeWatcher, modelled in Dafny

The repository has two Windows console programs. Both are woken by WMI
"some plug-and-play device changed" notifications. Each notification carries no
content, so each program queries the devices again and compares the answer
with the state it retained from the previous notification.

- **PnPDeviceChangeWatcher** watches one device ID. Its `ProcessEvent` compares
  the retained flag `connected` with the device's current presence. Only on a
  genuine change does it report "connected" or "disconnected" and start the
  command configured for that change (`cmd.exe /c <command>`, hidden). It then
  overwrites `connected`. Around it sit:
  - the WQL escaping of the device ID in `IsDevicePresent`;
  - the option scanner `ParseParams`, with `Main`'s refusal to run without a
    device ID;
  - the null-aware, case-insensitive `IsArg`;
  - the command line `RunHidden` builds to relaunch the program in a hidden
    window.
- **GetDeviceIDs** retains the full list of (DeviceID, Description) pairs. On
  each notification it reports every new entry not contained in the retained
  list as added, then every retained entry not contained in the new list as
  removed. It then retains the new list.

The model has six modules:
- `Wrappers`: `Option`, standing for a null reference or a query that throws.
- `Text`: ASCII `ToLower`, one-character `Replace`.
- `Wql`: the presence query.
- `CommandLine`: `IsArg`, the option scan, and the relaunch line.
- `PresenceWatcher`: the program's static fields as class `Watcher`.
- `DeviceIds`: GetDeviceIDs' `devices` field as class `DeviceListener`.

WMI queries become parameters:
- PnPDeviceChangeWatcher gets a function `wmi` that maps a query text to the
  number of matching records, or to `None` when the query throws.
- GetDeviceIDs gets the device list, or `None`.

Console output, process starts and `Environment.Exit` become returned values
(`Event`, `Report`, `Outcome`).

Each stateful operation is proved against a specification function:
- `Watcher.ProcessEvent` against `Reaction`;
- `Watcher.ParseParams` against `Parse`, which is the lexer `Tokens` followed
  by the interpreter `Apply`; the body of its loop is the method
  `Watcher.ScanArgument`, proved against one step of the lexer (`Lead`);
- `BuildArgLine` against `ArgLine`;
- `DeviceListener.ProcessEvent` against `Diff`.

The properties are proved about those functions. Each encoding is paired with
a decoder written for this model and shown to invert it:
- `ReadLiteral` reads a WQL string literal;
- `DecodeArgLine` reads the quoted relaunch line.

Three facts about the program that the model keeps:
- GetDeviceIDs compares devices on both tuple components, the DeviceID and the
  Description (GetDeviceIDs/GetDeviceIDs.cs:34,39). A changed Description is
  reported as one device added and one removed.
- GetDeviceIDs reports the added devices in new-list order, then the removed
  devices in retained-list order (GetDeviceIDs/GetDeviceIDs.cs:33-42).
- `IsDevicePresent` escapes the device ID itself before placing it in the
  query (PnPDeviceChangeWatcher/PnPDeviceChangeWatcher.cs:112).

`Session` is the iteration of `ProcessEvent` over a run of query answers. The
method `Watcher.Watch` calls `ProcessEvent` once per answer and is proved to
log `Session`'s events and leave `Session`'s flag, so the session lemmas are
statements about repeated notifications.

## Model

| member | source | states |
|---|---|---|
| `Wql.IsDevicePresent` | PnPDeviceChangeWatcher/PnPDeviceChangeWatcher.cs:109-115 | the device is present iff its query matches exactly one record; no answer when the query throws or the device ID is null |
| `Wql.EscapeDeviceIdIsOnePass` | PnPDeviceChangeWatcher/PnPDeviceChangeWatcher.cs:112 | doubling backslashes and then escaping quotes equals escaping each character once: the backslash added before a quote is not doubled |
| `Wql.EscapedDeviceIdReadsBack` | PnPDeviceChangeWatcher/PnPDeviceChangeWatcher.cs:112 | the escaped ID, followed by a closing quote, reads back as exactly the ID whatever follows; no character of the ID ends the literal early |
| `Wql.PresenceQueryNamesDevice` | PnPDeviceChangeWatcher/PnPDeviceChangeWatcher.cs:112 | the query's DeviceID literal holds exactly the watched ID and its closing quote ends the query |
| `CommandLine.IsArgMeaning` | PnPDeviceChangeWatcher/PnPDeviceChangeWatcher.cs:191-194 | IsArg holds iff both are null, or both are non-null and equal character by character up to ASCII letter case |
| `CommandLine.Apply` | PnPDeviceChangeWatcher/PnPDeviceChangeWatcher.cs:160-185 | parsing finishes without exiting iff no action option was met; an exit is always for an action actually in the arguments |
| `CommandLine.TokensAppend` | PnPDeviceChangeWatcher/PnPDeviceChangeWatcher.cs:160-185 | the scan of a prefix not ending in a value-taking option is not affected by what follows it |
| `CommandLine.ApplyAppend` | PnPDeviceChangeWatcher/PnPDeviceChangeWatcher.cs:160-185 | the later arguments take effect on the settings the earlier ones left, unless an earlier action already stopped the scan |
| `CommandLine.ScanStep` | PnPDeviceChangeWatcher/PnPDeviceChangeWatcher.cs:160-184 | one pass of the loop: an action ends the scan with that action and the settings as they are; a value-taking option that is not last assigns the next argument and the scan resumes two places on; anything else is passed over |
| `CommandLine.LaterValueWins` | PnPDeviceChangeWatcher/PnPDeviceChangeWatcher.cs:176-183 | `/deviceId`, `/onConnect`, `/onDisconnect` consume the next argument whatever it is (even `/stop`); the last occurrence overrides all earlier ones |
| `CommandLine.FirstActionWins` | PnPDeviceChangeWatcher/PnPDeviceChangeWatcher.cs:160-175 | the first of `/hide`, `/hideSimulated`, `/stop`, `/help`, `/?` decides the exit, and nothing after it is looked at |
| `CommandLine.UnknownArgumentSkipped` | PnPDeviceChangeWatcher/PnPDeviceChangeWatcher.cs:176-184 | an argument that names no option is skipped: removing it does not change the result |
| `CommandLine.TrailingBackslashes` | PnPDeviceChangeWatcher/PnPDeviceChangeWatcher.cs:133-137 | the count the stripping loop reaches is at most the length, and the character before the counted run is not a backslash |
| `CommandLine.TrailingRun` | PnPDeviceChangeWatcher/PnPDeviceChangeWatcher.cs:133-137 | every character the stripping loop counts is a backslash |
| `CommandLine.QuotedArgumentShape` | PnPDeviceChangeWatcher/PnPDeviceChangeWatcher.cs:132-139 | an argument becomes a quote, its stem with quotes doubled and interior backslashes unchanged, twice its trailing backslashes, and a quote |
| `CommandLine.UnquoteQuoted` | PnPDeviceChangeWatcher/PnPDeviceChangeWatcher.cs:132-139 | quoting loses nothing: the quoted argument reads back as the argument and reading stops right after it |
| `CommandLine.KeptArguments` | PnPDeviceChangeWatcher/PnPDeviceChangeWatcher.cs:125-127 | an argument is passed on iff it is neither `/hide` nor `/hideSimulated` (ignoring case) |
| `CommandLine.ArgLineIsJoin` | PnPDeviceChangeWatcher/PnPDeviceChangeWatcher.cs:124-142 | the line is the kept arguments, each quoted, joined by single spaces; it is empty iff no argument is kept |
| `CommandLine.ArgLineRoundTrip` | PnPDeviceChangeWatcher/PnPDeviceChangeWatcher.cs:124-142 | the relaunch line decodes to exactly the kept arguments in order, so there is no leading, trailing or doubled space |
| `CommandLine.EscapeArgument` | PnPDeviceChangeWatcher/PnPDeviceChangeWatcher.cs:132-139 | the strip-and-count `while` loop and the re-append `for` loop compute the quoted argument |
| `CommandLine.BuildArgLine` | PnPDeviceChangeWatcher/PnPDeviceChangeWatcher.cs:124-142 | the `foreach` over the arguments builds the relaunch line |
| `PresenceWatcher.ReactionCases` | PnPDeviceChangeWatcher/PnPDeviceChangeWatcher.cs:76-101 | unchanged presence reports and starts nothing; false to true reports one connect and starts `cmd.exe` with `/c` and the connect command only when one is set; true to false does the same with the disconnect command |
| `PresenceWatcher.SessionChanges` | PnPDeviceChangeWatcher/PnPDeviceChangeWatcher.cs:73-104 | the notices of a run of notifications and the flag it leaves are one notice per answer that differs from the retained flag, whatever commands are configured; a failed query reports nothing |
| `PresenceWatcher.ChangesAlternate` | PnPDeviceChangeWatcher/PnPDeviceChangeWatcher.cs:73-104 | in that reference definition the changes alternate from the initial presence and the flag flips once per change |
| `PresenceWatcher.SessionAlternates` | PnPDeviceChangeWatcher/PnPDeviceChangeWatcher.cs:73-104 | over any run of notifications, connects and disconnects alternate, starting from the initial presence, and the retained flag flips once per notice |
| `PresenceWatcher.SessionRetainsLastAnswer` | PnPDeviceChangeWatcher/PnPDeviceChangeWatcher.cs:73-104 | the retained flag ends as the last query that answered said, or unchanged if none answered |
| `PresenceWatcher.ReactionLaunches` | PnPDeviceChangeWatcher/PnPDeviceChangeWatcher.cs:76-101 | one notification starts exactly the command its notice calls for: `/c` and the connect command for a connect, the disconnect command for a disconnect, nothing when that command is not set |
| `PresenceWatcher.SessionLaunchesPerNotice` | PnPDeviceChangeWatcher/PnPDeviceChangeWatcher.cs:76-101 | over any run of notifications the started commands are, in order, one per notice: `/c` and the connect command for each connect and the disconnect command for each disconnect, each only when it is set |
| `PresenceWatcher.RunHidden` | PnPDeviceChangeWatcher/PnPDeviceChangeWatcher.cs:120-149 | the relaunch carries the line that decodes to the kept arguments; the window is hidden unless the launch is simulated |
| `PresenceWatcher.Watcher.constructor` | PnPDeviceChangeWatcher/PnPDeviceChangeWatcher.cs:26-34 | the static fields start null and false |
| `PresenceWatcher.Watcher.ScanArgument` | PnPDeviceChangeWatcher/PnPDeviceChangeWatcher.cs:161-183 | the `IsArg` tests of one loop pass, in the source's order: an exit exactly when the argument is an action option, with that action's exit and the settings untouched; otherwise the value assignment or nothing, and the next position |
| `PresenceWatcher.Watcher.ParseParams` | PnPDeviceChangeWatcher/PnPDeviceChangeWatcher.cs:155-186 | the new settings and the exit are those of the scan: no arguments means help; the first action exits with code 0; otherwise the settings are assigned |
| `PresenceWatcher.Watcher.Start` | PnPDeviceChangeWatcher/PnPDeviceChangeWatcher.cs:36-51 | an exit from parsing is taken; with no device ID the program exits with -1; otherwise the retained flag becomes the device's initial presence |
| `PresenceWatcher.Watcher.ProcessEvent` | PnPDeviceChangeWatcher/PnPDeviceChangeWatcher.cs:73-104 | the events are the reaction to the old flag and the new presence, and the flag becomes the new presence; a throwing query changes nothing |
| `PresenceWatcher.WatchStep` | PnPDeviceChangeWatcher/PnPDeviceChangeWatcher.cs:73-104 | one call advances the session by one observation: the returned events continue the log and the flag it leaves starts the rest |
| `PresenceWatcher.Watcher.Watch` | PnPDeviceChangeWatcher/PnPDeviceChangeWatcher.cs:73-104 | repeated notifications: the logged events and the final flag are those of `Session` over the answers' presence observations |
| `DeviceIds.MissingMembers` | GetDeviceIDs/GetDeviceIDs.cs:33-42 | an entry is reported iff one list has it and the other does not contain it |
| `DeviceIds.MissingAppend` | GetDeviceIDs/GetDeviceIDs.cs:33-42 | reports follow list order: reporting distributes over concatenation of the scanned list |
| `DeviceIds.MissingEmpty` | GetDeviceIDs/GetDeviceIDs.cs:33-42 | nothing is reported iff every entry of the scanned list is contained in the other |
| `DeviceIds.DiffSymmetry` | GetDeviceIDs/GetDeviceIDs.cs:33-42 | what (old, new) reports as added is what (new, old) reports as removed, and vice versa |
| `DeviceIds.DiffReports` | GetDeviceIDs/GetDeviceIDs.cs:31-45 | all added reports precede all removed ones; a device is reported added iff only the new list has it, removed iff only the old list has it; there are at most as many reports as entries in the two lists |
| `DeviceIds.MissingCount` | GetDeviceIDs/GetDeviceIDs.cs:33-42 | the scan keeps every occurrence of an entry the other list does not contain, and no occurrence of one it contains |
| `DeviceIds.DiffCounts` | GetDeviceIDs/GetDeviceIDs.cs:31-45 | each entry is reported once per occurrence: added as often as it occurs in the new list when the retained list lacks it, removed as often as it occurs in the retained list when the new list lacks it, and otherwise not at all |
| `DeviceIds.NoChangeNoReports` | GetDeviceIDs/GetDeviceIDs.cs:33-42 | a list compared with itself or any reordering of itself reports nothing |
| `DeviceIds.DescriptionChangeReportsBoth` | GetDeviceIDs/GetDeviceIDs.cs:33-42 | with an unchanged DeviceID and a changed Description, the device is reported added and removed |
| `DeviceIds.DeviceListener.constructor` | GetDeviceIDs/GetDeviceIDs.cs:14 | the retained list starts as the initial query's answer |
| `DeviceIds.DeviceListener.ProcessEvent` | GetDeviceIDs/GetDeviceIDs.cs:31-45 | the reports are the diff of the retained and the new list, and the new list is retained even when nothing is reported; a throwing query changes nothing |

## Left out

- WMI itself is not modelled. This covers `ManagementObjectSearcher`,
  `ManagementEventWatcher`, `WqlEventQuery` and `GetDevices`. Query answers are
  parameters, and `None` stands for a query that throws. The subscription is
  not modelled either: a run of notifications is a sequence of `ProcessEvent`
  calls, or an observation sequence in `Session`.
- What the runtime does with an exception thrown out of a notification handler
  is not modelled. The model only shows that the retained state is untouched.
- Process starts are recorded, not performed. `Process.Start` and the
  `ProcessStartInfo` window settings become `Launch` events and the `Relaunch`
  effect. A command that fails to start is not modelled.
- `WaitForKeyOrStopSignal` and `SendStopSignal` are not modelled. They are
  threads and named wait handles whose purpose is concurrency and
  cross-process signalling. `/stop` appears only as the `SendStopSignal` exit.
- `ShowHelp`, the configuration printout in `Main` and assembly reflection are
  presentation only. Console text is modelled as abstract events. GetDeviceIDs
  prints Item1 (the DeviceID) under the "device" label and Item2 (the
  Description) under "DeviceID". `Report` carries the unchanged pair.
- `Environment.Exit` is not modelled as termination. It becomes a returned
  `Outcome`.
- Case folding is ASCII only. `ToLower` in `IsArg` is culture-sensitive, and
  the model does not capture that.
- `EndsWith("\\")` in RunHidden's stripping loop
  (PnPDeviceChangeWatcher/PnPDeviceChangeWatcher.cs:134) is a culture-sensitive
  comparison. The model tests the last character ordinally (`TrailingBackslashes`,
  `EscapeArgument`). Under a culture comparison a trailing ignorable code point
  can make `EndsWith` true, and `Substring` then removes that code point
  instead of a backslash; the model does not capture this.
- The Windows command-line parser that splits the relaunch line in the new
  process is not modelled. `DecodeArgLine` is the inverse of this quoting
  only: it reads `""` as one quote and halves the trailing backslash run. So
  `UnquoteQuoted` and `ArgLineRoundTrip` are not a promise about the
  relaunched process. Under the documented Microsoft C runtime rules, a
  backslash directly before an interior quote is not preserved: `a\"b` is
  quoted as `"a\""b"`, which that parser reads as `a"b`.
- Command-line arguments are never null, so `args` is a `seq<string>`.
  `IsArg` keeps its null rule over `Option`.
- An initial `GetDevices` that throws in GetDeviceIDs' `Main` is not modelled.
  The constructor takes the initial list.

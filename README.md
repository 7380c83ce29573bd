# Triplink sync and maintenance commands, modelled in Dafny

Triplink's reporter client keeps a local ipset blocklist in step with a
server. The `fetch` command does this:

1. It asks the server for the IP records after the stored watermark
   (`Filter.Since`), and for everything on a full fetch.
2. It stores and saves the new watermark.
3. It empties the set it flushes when the server or the user asks for a
   full sync.
4. It applies each record as an `ipset add` or `ipset del`.
5. It backs the set up next to the configuration file.

Around this sync path sit several smaller commands:

- `ipinfo` splits and filters IPs, sends them to the server, classifies the
  reply and prints reports.
- `install` is a wizard that appends a crontab entry.
- `backup` and `deletebackup` handle the backup files.
- The configuration helpers locate, create and classify the configuration
  file.

The model:

- **`Env.Host`** is the outside world. It holds:
  - the ipset store, a map from set name to `set<string>`;
  - the file system, a map from path to size;
  - a trace of every command run, file operation, request and saved
    configuration;
  - fixed oracles that decide whether each external command or file
    operation succeeds.

  `ipset add`, `del`, `flush`, `list` and `create` follow set semantics:
  - adding a member fails;
  - deleting a non-member fails;
  - every command but `create` fails on a missing set.
- **`Conf.Config`** is the in-memory configuration. A sync updates it in
  place.
- **Imperative code becomes methods** on the host and the configuration
  (`FetchIPs`, `BlockIPs`, `BackupIPs`, `DelBackup`, `InitArrayParam`,
  `WriteCrontab`). Each method's postcondition ties its effect to a pure
  specification function: `Replay`, `BackupSteps`, `DeleteSteps`,
  `SplitParams`, `DisplayLines` or `CrontabEntry`. The lemmas state what the
  source promises about those functions.
- **The install wizard is a set of pure functions.** They map the answers
  read from standard input to a plan (command, description, cron line) or
  to an abort.
- **`Text`** models the Go library functions the code relies on:
  - `path.Split`;
  - `strings.Index`, `LastIndex`, `Contains`, `Split`, `ReplaceAll` (for one
    character), `Trim` (for spaces) and `ToLower` (wherever the lower case is ASCII);
  - `strconv.Atoi` and `strconv.Itoa` on 64-bit `int`.

Abstract inputs:

- The HTTP call (`request`) is a function from the request to a reply.
- `json.Unmarshal` is a decoder function.
- `isIPValid`, `readConfig`, `validateLogFile` and `parseTimeStamp` are
  functions passed in.
- The answers typed at the prompts, the home directory, and whether the
  process runs as root are parameters.

Behaviour of the source that the model keeps as written:

- **The watermark is copied from the response.** It is not clamped and can
  go backwards.
- **The configuration is saved before any set changes.** The result of
  `blockIPs` is ignored.
- **The flush always empties the set named `blocklist`.** No derived name
  can ever be that set (`FlushTargetIsNoBlocklist`). A full fetch therefore
  keeps members of the real set that have no record in the snapshot
  (`FullFetchKeepsStaleMembers`).
- **The fetch reply is not checked for the `-1` and `2` sentinels.** Only
  newlines are removed before the `[]` comparison, and spaces are kept.
- **The backup after a fetch uses a fixed set name.** It passes the fixed
  configuration path `~/.tripwirereporter/conf.json`, so it always saves the
  set `blocklist_conf` (`FetchBackupSavesConfSet`), whatever the managed
  set is.
- **`deletebackup` looks for `iptables.bak` and `ipset.bak`.** `backup`
  never writes those names (`DeleteTargetsMissBackups`).
- **The deletion confirmation is inverted.** A yes answer returns without
  deleting.
- **`deletebackup` accepts an empty configuration (status 0).** `backup`
  requires status 1.
- **`setIP` rejects an unknown option only after asking for the period.**
  `setTripwire` rejects it at once.
- **A failed `checkChain` is reported as `true`.**

## Model

| member | source | states |
|---|---|---|
| Sync.FetchIPs | Update.go:78-119 | On a transport error, a body that is `[]` once newlines are removed, or a decode error, the reply's error is returned and the request is the only event. In that case no set, file or save changes, and the watermark stays at the request's `since`. Otherwise the watermark becomes the response's `CurrentTimestamp` and is saved first. Then `blocklist` is flushed iff `Full`, `fetchAll` or a zero watermark. Then the records are replayed and the set is backed up, and the state is exactly `Replay` and `BackupSteps` of the old state. |
| Sync.ApplyResponse | Update.go:110-118 | The success half of FetchIPs: save, conditional flush, `blockIPs`, then a backup of the set only. The new store, files and trace are given by `FlushState`, `Replay` and `BackupSteps`. |
| Sync.ApplyRecords | Update.go:112-116 | After the flush, when asked for, and `blockIPs`, the store is `Replay` of the flushed store. No set appears or disappears, no file changes, and the trace grows by exactly `RecordEvents`. |
| Sync.RequestFor | Update.go:79-89 | The request sends `since = 0` exactly when `fetchAll` is set or the stored watermark is 0. Otherwise it sends the stored watermark. |
| Sync.ReadFetchReply | Update.go:95-108 | A transport error is reported iff the call failed. "Nothing to do" happens iff the body minus newlines is exactly `[]`. Anything else goes to the decoder. |
| Sync.EmptyListWithNewlines | Update.go:96-97 | `[]` with newlines anywhere around or inside it still counts as "nothing to do". |
| Sync.SaveBeforeMutation | Update.go:110-117 | On success the saved configuration is the first event. The only store-changing events are the flush of `blocklist` and adds or deletes on the fetched set, and the backup changes no set. |
| Sync.FullFetchKeepsStaleMembers | Update.go:112-116 | Take a member of the derived set with no valid record in the response. It is still a member after a flush followed by the replay. |
| Sync.ApplyRecord | Update.go:124-133 | `Deleted == 1` runs `ipset del`, and any other value runs `ipset add`. An invalid IP runs nothing and reports failure. |
| Sync.BlockIPs | Update.go:121-150 | The loop leaves the store, both counters and the commands run equal to `Replay` of the records. `RulesEnsured` is appended iff `AutocreateIptables`. The result is false only when creating the rules fails. |
| Sync.ReplayFrame | Update.go:121-134 | Replaying keeps the set names and every other set. A missing set stays untouched with both counters 0. Each counted command ran, at most one per record. Every command is an add or a del on the fetched set. |
| Sync.MembershipByLastRecord | Update.go:124-134 | Each IP's final membership is decided by its last record with a valid IP: a member after an add, not after a del. IPs without such a record keep their membership. |
| Sync.ReplayIdempotent | Update.go:124-134 | Replaying the same records twice leaves the same store as replaying them once. |
| Sync.AddsCountNewMembers | Update.go:122-134 | With only valid adds, the set becomes its old members plus the records' IPs. The add counter equals the number of IPs that were not members, and the remove counter is 0. |
| Sync.FetchConfigPrecedence | Update.go:43-66 | Fetch goes on iff status is 1, or status is 0 with host and token both given. Non-empty flags override the file's host and token. A configuration built from flags has watermark 0, so its request asks for everything. |
| Sync.FetchStartsFrom | Update.go:43-66 | From the files before validation: an existing non-empty configuration file is read and the flags merged in; after creating the folder and file, only host and token flags together start a fetch; a missing path or home starts nothing. |
| Sync.FetchCommand | Update.go:29-74 | Without root nothing happens. The first command is `ipset help`, and when it fails nothing else happens. Then comes `ipset list` of the derived name, and `ipset create` when it is missing; a refused creation ends the command with no fetch and no file change. Otherwise the configuration started is `FetchConfig` of the validation of the files as they were. Once FetchIPs started, the derived set exists and non-empty flags won. An error can only come from FetchIPs. |
| Sync.PrepareFetch | Update.go:32-41 | Goes on exactly as root, with `ipset help` succeeding and the derived set present or created. The trace gains just the commands run up to the stop (`help`, `list`, `create`). Only a created set is added to the store, and no file changes. |
| Sync.FetchWithConfig | Update.go:43-71 | After the set exists: status, configuration file, files and trace after validation are those of `Validate` on the files before. The configuration started is `FetchConfig` of that status, the file read when the status is 1, and the flags. Without one nothing more happens and there is no error. With one, FetchIPs' whole effect follows from the validated state: the request from that configuration's token and watermark, and either the reading error or the saved configuration, the replayed sets and the backup. |
| Firewall.GetBlocklistName | Update.go:228-237 | The result is `blocklist_` followed by a slash-free stem of the configuration name's file name, cut at its last `.`. |
| Firewall.StemUnique | Update.go:228-237 | A path has exactly one such stem, so the contract of GetBlocklistName fixes its result. |
| Firewall.LastDotStartsExtension | Update.go:232-236 | The stem ends at the last `.` of the file name, or at its end when there is none. |
| Firewall.BaseName | Update.go:229-231 | The file name has no `/`, and the directory part of `path.Split` followed by it gives the path back. |
| Firewall.BlocklistNameOfBasename | Update.go:229-231 | The name depends only on the file name after the last `/`. |
| Firewall.BlocklistNameDeterminedByStem | Update.go:228-237 | Configurations with the same stem share a set, named `blocklist_` + stem. |
| Firewall.BlocklistNameOfNestedFile | Update.go:228-237 | `configs/acme.json` gives `blocklist_acme`. |
| Firewall.BlocklistNameOfPlainName | Update.go:228-237 | `plain` gives `blocklist_plain`. |
| Firewall.BlocklistNameOfDottedName | Update.go:228-237 | `a.b.c` gives `blocklist_a.b`. |
| Firewall.BlocklistNameHasNoSlash | Update.go:228-237 | A blocklist name never contains `/`. |
| Firewall.FlushTargetIsNoBlocklist | Update.go:176-178 | The set that flusIPset empties, `blocklist`, is never a derived blocklist name. |
| Firewall.IpsetAddIP | Update.go:180-187 | A valid IP runs `ipset add` and reports its success. An invalid IP runs nothing and reports false. |
| Firewall.IpsetRemoveIP | Update.go:189-196 | A valid IP runs `ipset del` and reports its success. An invalid IP runs nothing and reports false. |
| Firewall.FlushIPset | Update.go:176-178 | Runs `ipset flush blocklist`. That set is emptied if it exists, and nothing else changes. |
| Firewall.IsIpsetInstalled | Update.go:198-207 | Installed iff `ipset help` succeeds. |
| Firewall.HasBlocklist | Update.go:209-212 | True iff the set exists, checked by running `ipset list`. |
| Firewall.CreateBlocklist | Update.go:214-217 | Runs `ipset create`, which succeeds only when the set is missing. |
| Firewall.SetupIPset | Update.go:219-226 | Creation is attempted only when the set is missing. It exits iff creation was needed and failed, and otherwise the set exists afterwards. |
| Firewall.RunIptablesAction | Update.go:156-174 | Unless the first optional flag is true, it probes with `-C` and acts only if the probe fails. It reports false only when the action failed at verbosity above 2. |
| Firewall.CheckChain | Update.go:239-248 | `-N` runs only after `-L` failed. The result is true iff both failed. |
| Backup.BackupSetName | Backup.go:40-41 | The saved set is `getBlocklistName` of the configuration file's file name. |
| Backup.BackupFilesDistinct | Backup.go:43-44 | The iptables and ipset backup files differ, and lie directly in the folder. |
| Backup.BackupFilesInConfigFolder | Backup.go:40-44 | Both backup files of a configuration file lie directly in its folder. |
| Backup.FetchBackupSavesConfSet | Update.go:117 | The backup after a fetch saves `blocklist_conf`, the set named after the fixed configuration file. |
| Backup.IptablesSaveAttempted | Backup.go:46-61 | `iptables-save` is in the trace iff asked for, even when creating its file failed. |
| Backup.IpsetSaveRuns | Backup.go:63-83 | `ipset save` runs iff asked for, ipset is installed, and its file existed or could be created. |
| Backup.IptablesBeforeIpset | Backup.go:46-83 | Every event belongs to one of the two steps, and no iptables event follows an ipset event. |
| Backup.BackupOnlyAddsBackupFiles | Backup.go:46-83 | Backing up adds at most the two backup files, each created empty, and keeps every existing entry of the path-to-size map. What the save commands write into a backup file is not modelled. |
| Backup.BackupIPs | Backup.go:39-84 | The new trace and files are exactly `BackupSteps` for the folder and set name of the configuration file. |
| Backup.BackupInto | Backup.go:39-84 | For a given folder and set name, the new trace and files are exactly `BackupSteps`, and the sets are untouched. |
| Backup.IptablesStep | Backup.go:46-61 | Stat, create when missing, then `iptables-save` regardless. |
| Backup.IpsetStep | Backup.go:63-83 | `ipset help`, then create the file when missing, returning early if that fails, then `ipset save`. |
| Backup.BackupCommand | Backup.go:24-36 | Without root nothing happens. As root: no error iff the configuration exists and the configuration file exists non-empty (status 1), and the backup then runs. Otherwise the error is "config not found", and the files and trace are those `Validate` leaves. |
| DeleteBackup.NormaliseFlags | DeleteBackup.go:35-38 | `--all` turns both flags on, and otherwise they are kept. |
| DeleteBackup.ConfirmLabel | DeleteBackup.go:58-65 | The label is empty iff no flag is set. |
| DeleteBackup.ConfirmLabelNamesTargets | DeleteBackup.go:58-65 | The label starts with `IPset` iff the ipset backup goes, and ends with `IPtables` iff the iptables one goes. |
| DeleteBackup.DeleteTargetsMissBackups | DeleteBackup.go:53-55 | `iptables.bak` and `ipset.bak` are never a file that backupIPs writes, whatever the set name. |
| DeleteBackup.DeleteRemovesOnlyRequested | DeleteBackup.go:74-101 | Exactly the requested, existing, removable files disappear. No other file changes. A removal is attempted only on a requested file that is there. |
| DeleteBackup.DelBackup | DeleteBackup.go:52-102 | Unless confirmation is skipped, the prompt is asked, and a yes leaves files and trace untouched. Otherwise the result is exactly `DeleteSteps`: iptables first, then ipset. |
| DeleteBackup.RemoveBackups | DeleteBackup.go:74-101 | The new trace and files are exactly `DeleteSteps`: the iptables backup first, then the ipset backup, each only when asked for and present. |
| DeleteBackup.RemoveStep | DeleteBackup.go:75-85 | A missing file is skipped, and an existing one gets one removal attempt. |
| DeleteBackup.DeleteBackupCommand | DeleteBackup.go:28-49 | Without root, or with no flag, nothing happens. Otherwise status, configuration file, files and trace after validation are those of `Validate` on the files before, and the error is "config not found" iff that status is below 0. In that case the command stops there: the final files and trace are those validation left. At status 0 or 1 the files and trace are then changed exactly by `DeleteSteps` on the configuration folder, unless the prompt was answered no. |
| Conf.ConfFileUnderHome | Config.go:17-23 | The configuration file is `home + "/.tripwirereporter/conf.json"`. |
| Conf.SaveConfig | Config.go:38-48 | Writes the encoded configuration with mode 0600, and reports failure iff the write failed. On success the only change to the files is that `configFile` gets the encoded size; on failure nothing changes. |
| Conf.CreateAndValidateConfigFile | Config.go:50-94 | The status, file, new files and new trace are exactly `Validate` of the files before. With the path and home present, the status is -1 iff making the missing folder, or creating the missing file, was refused. On success the folder and the configuration file exist, and the status is 0 iff its size is 0. A missing argument path gives -1 and "" with nothing created. Existing directory and file are left alone. |
| Conf.Validate | Config.go:50-94 | The status is -1, 0 or 1, and -1 exactly with the empty file name. At 0 or 1 the path and home were there, the file is the fixed one under home, folder and file exist, and the status is 0 iff the file is empty. Only file operations are made. |
| Conf.ValidateFile | Config.go:76-93 | Once the folder is there: a missing file is created, a refusal gives -1, and otherwise the status follows the file's size. |
| Conf.ValidateStatus | Config.go:50-94 | A missing path or home gives -1 with no operation. Otherwise -1 exactly when making the missing folder or creating the missing file was refused; a made folder or file gives 0; with both present nothing changes and the status follows the size. |
| Conf.ValidateKeepsFiles | Config.go:63-83 | The validation removes no file, changes no size except the configuration file's, and adds at most the folder and the file. |
| Info.InitArrayParam | Info.go:142-164 | An empty list gives the empty list. Otherwise the result is `SplitParams`. |
| Info.AppendPieces | Info.go:150-155 | The inner loop appends exactly the non-empty pieces, in order. |
| Info.SplitParamsInOrder | Info.go:147-163 | The result is the in-order concatenation of each value split on the separator, empty pieces dropped. |
| Info.ParamPiecesIsSplit | Info.go:149-161 | Testing for the separator first gives the same pieces as splitting directly. |
| Info.NonEmpty | Info.go:151-154 | Keeps exactly the non-empty pieces. |
| Info.PiecesClean | Info.go:149-161 | A value's pieces are non-empty, free of a non-empty separator, and left unchanged by a second split. |
| Info.SplitParamsClean | Info.go:148-162 | After the split no element is empty, and none contains a non-empty separator. |
| Info.SettledFixed | Info.go:142-164 | A list of settled values is unchanged by InitArrayParam. |
| Info.SplitParamsIdempotent | Info.go:142-164 | InitArrayParam applied to its own output returns it unchanged. |
| Info.ValidIPs | Info.go:77-84 | Keeps exactly the valid IPs. |
| Info.ValidIPsConcat | Info.go:77-84 | The filter keeps order: it distributes over concatenation. |
| Info.FilterValidIPs | Info.go:77-84 | The loop's result is `ValidIPs` of the input. |
| Info.ClassifyInfo | Info.go:102-111 | After removing newlines and trimming spaces, `-1` gives "Invalid token" and `2` gives "Server error". Anything else is decoded, with a decode error prefixed "Error parsing response: ". |
| Info.SentinelsIgnoreLayout | Info.go:102-107 | The sentinels are recognised whatever spaces and newlines surround them. |
| Info.DecoderSeesCleanBody | Info.go:102-109 | The decoder never sees a newline, a leading space or a trailing space. |
| Info.SumCountsConcat | Info.go:127-130 | The total over a concatenation is the int64 sum, wrapping, of the two totals. |
| Info.ReportTotal | Info.go:127-130 | The loop's total is `SumCounts`, the reports' counts added with int64 wrap-around. |
| Info.ReportLines | Info.go:132-134 | One line per report. |
| Info.EntryLinesShape | Info.go:122-137 | An entry prints a header plus one line per report. Without reports it prints "No report for <ip>" unless hidden. Its first line starts with a newline iff it is not the first entry. |
| Info.DisplayIPData | Info.go:120-139 | The printed lines are `DisplayLines` of the data. |
| Info.DisplayEntry | Info.go:122-137 | One loop round prints `EntryLines` of its entry. |
| Info.PrintReports | Info.go:132-134 | The inner loop prints `ReportLines`. |
| Info.InfoConfigPrecedence | Info.go:32-68 | ipinfo goes on iff status is 1, or status is 0 with host and token given. Non-empty flags override host, token and log file. |
| Info.InfoStartsFrom | Info.go:32-68 | From the files before validation: an existing non-empty configuration file is read and the flags merged in; after creating the folder and file, only host and token flags together go on; a missing path or home goes nowhere. |
| Info.QueryIPs | Info.go:76-116 | With no valid IP, the error is "No valid IP found" and nothing is asked. Otherwise one request carries exactly the valid IPs, and the error and output are `InfoAnswer` of its reply. |
| Info.InfoAnswer | Info.go:98-116 | An error comes with no output. There is no error iff the reply arrived and its cleaned body decoded, and then the output is `DisplayLines` of the decoded data. |
| Info.IpInfoCommand | Info.go:29-117 | Status, configuration file, files and the trace after validation are those of `Validate` on the files before. Output only comes without an error. Only file operations and at most one request happen, and that request is the last event, carrying exactly the non-empty list of valid IPs. Without an `InfoConfig`, or when its non-empty log file does not exist, nothing is asked or printed. Otherwise the result is that of QueryIPs with that configuration. |
| Info.ReadInfoConfig | Info.go:32-68 | Status, configuration file, files and trace are those of `Validate` on the files before, and no set changes. The configuration is `InfoConfig` of that status, the file read when the status is 1, and the flags, so non-empty host and token flags take precedence. |
| Install.ParsePeriod | Install.go:93-110 | `@reboot` gives the reboot period. A periodic period keeps the typed text, and its value is what Atoi reads, within 0..59. |
| Install.PeriodAccepted | Install.go:94-103 | A period is accepted iff it is `@reboot` or an optionally signed digit string with value 0..59. |
| Install.MinutesAccepted | Install.go:94-104 | Every minute count 0..59, written by Itoa, is accepted with its value. |
| Install.DescriptionPlural | Install.go:104-107 | "every N minute" for N at most 1, and "every N minutes" otherwise. |
| Install.CronLineFields | Install.go:210-216 | A periodic line starts with the five crontab fields `*/N * * * *`, with N as typed. A reboot line starts with `@reboot`. The command follows. |
| Install.CrontabEntryLines | Install.go:238 | The appended text reads back as a blank line, `# description`, the command and an empty rest. |
| Install.Crontab.WriteCrontab | Install.go:233-241 | Appends exactly the entry, and fails without change when the file is missing or not writable. |
| Install.FirstMenuGate | Install.go:30-46 | Only `t`, `T`, `i`, `I` or the dotted capital `İ`, read successfully, gets past the first menu. |
| Install.SetTripwireOptions | Install.go:136-208 | Without a configuration file nothing is asked and nothing is planned. Otherwise options 1, 3 and 2 give `u -C="c"`, `r -u -C="c"` and `r -C="c"`. The period is read after the filter confirmation for options 1 and 3, and right after the option for 2. The description is the option's lead, then the period text, then ` (using "<config>" as configuration)`. The crontab line uses the period as typed. |
| Install.SetIPOptions | Install.go:112-128 | Options 1, 2 and 3 map to `mode -s`, `mode -t -s=false` and `mode -s -t`. Other options install nothing. |
| Install.UnknownOptionPrompts | Install.go:76-128 | setTripwire rejects an option outside 1..3 right after reading it. setIP rejects it only after the period prompt. |
| Install.PlansHaveValidPeriod | Install.go:88-133 | Every plan's period passed the check, and its cron line is built from the period as typed. |
| Install.RunInstall | Install.go:23-46 | Without root nothing is asked and no plan is made. As root the plan is the wizard's outcome. The crontab gets the plan's entry only when a plan was made and the file could be opened. |
| Text.PathSplit | Update.go:230 | `path.Split`: the directory part ends in `/` or is empty, the file part has no `/`, and together they give the path. |
| Text.PathSplitUnique | Backup.go:40 | That split is the only one with those properties. |
| Text.LastIndexOf | Update.go:234 | `strings.LastIndex`: the index of the last occurrence, or -1 iff absent. |
| Text.SplitJoin | Info.go:150 | `strings.Split` pieces joined with the separator give the string back. |
| Text.SplitPiecesFree | Info.go:150 | No piece of a split contains the separator. |
| Text.RemoveAll | Update.go:96 | `strings.ReplaceAll(s, "\n", "")`: no newline is left, and every other character keeps its count. |
| Text.RemoveAllConcat | Update.go:96 | Removal distributes over concatenation, so the remaining characters keep their order. |
| Text.RemoveAllAbsent | Update.go:96 | A text without newlines is left unchanged. |
| Text.TrimLeftPadding | Info.go:102 | `strings.Trim` removes exactly the surrounding spaces. |
| Text.ToLowerOneLetter | Install.go:35 | A one-letter answer lower-cases to a letter iff it is that letter in either case, or the dotted capital I for `i`, or the Kelvin sign for `k`. |
| Text.WrapInt64 | Info.go:129 | Go's 64-bit `int` addition: the result is an int64, and a value that already fits is kept. |
| Text.WrapAddLeft | Info.go:129 | Wrapping an intermediate int64 sum does not change the wrapped result. |
| Text.WrapAssoc | Info.go:129 | Wrapped int64 addition is associative, so adding the counts one at a time gives the wrapped total of the parts. |
| Text.AtoiAccepts | Install.go:95 | `strconv.Atoi` accepts exactly an optional sign followed by digits whose value fits in an int64. |
| Text.AtoiItoa | Install.go:95 | Atoi reads back what Itoa writes. |

## Left out

- HTTP, TLS and JSON are inputs: the request is a function to a reply, and decoding is a decoder function. `json.Marshal` errors cannot happen on these records and are not modelled.
- Processes, `iptables` and `iptables-save` are trace events with fixed success oracles. The contents of backup files and the real semantics of iptables are not modelled.
- `createIPtableRules` is an opaque `RulesEnsured` event, and `c.save` is a `ConfigSaved` event carrying the values saved. Neither is defined in these files. The save is recorded in the trace only: the size of `conf.json` in the file map is left as it was, since the encoded size of the configuration is not modelled.
- Interactive input (`WaitForMessage`, `confirmInput`) is modelled by the answers passed in. `os.Getuid` is modelled by an `isRoot` flag, and `os.UserHomeDir` by an optional home directory.
- `os.Exit(1)` in setupIPset is modelled by an `exited` result that ends the command.
- `os.Executable`, its panic, `systemctl restart cron`, `createFilter` and `getConfigPathFromHome` are inputs or are not modelled. setTripwire receives the configuration path and whether it exists.
- Logging text, colours and `verboseLevel` are not modelled, except at Update.go:168, where the verbosity changes the result.
- Neither `fmt.Println` output nor the log message with the add and remove counts is modelled. displayIPdata is modelled by the lines it prints, with `parseTimeStamp` as an input.
- `readConfig` is a function from path to configuration, and its panics are not modelled. A status-1 file that fails to parse is outside the model.
- main.go only registers the commands and is not part of this model.
- Sync.FetchCommand: does not restate FetchIPs' full effect after the setup steps, because that effect is stated by Sync.FetchWithConfig. It states the setup commands and their early exits, the configuration started and the flag precedence.
- Ipset semantics: `ipset add` of a member and `ipset del` of a non-member fail, so the counters count only effective changes. Real ipset may differ in options not used here.

# MCP installer and status tool, modelled in Dafny

This project models the decision logic of two command-line tools, and proves properties of it. The first, `mcp-installer.py`, registers MCP (Model Context Protocol) servers in the `mcpServers` map of `~/.claude.json`. The second, `mcp-status.py`, reports on what is registered.

## What is modelled

- **The installer's security gate** (`SecurityValidator`). It is modelled as pure predicates over a registry entry `{type, command, args, env}` and a whitelist value (module `Security`). The gate has five parts:
  - the `type` tag;
  - the command check: `Path(command).name` is computed as pathlib does, then lower-cased; every `.exe`, `.cmd` and `.bat` is removed through a model of Python's `str.replace`; the result is looked up in the defaults plus the custom additions;
  - the denylist: all 25 `DANGEROUS_PATTERNS`, written in a small regular-expression language (literal characters, `.`, `\s`, classes, `*`), searched case-insensitively;
  - the npx package rule;
  - the environment checks.

  The process-wide custom whitelists are a class whose two set fields only grow. Module `SecurityProperties` proves what the gate guarantees for all inputs.
- **The installer's registry operations** (`MCPInstaller`), modelled as class `Registry.Installer`. Its fields are:
  - the `mcpServers` map;
  - the configuration file;
  - the backup directory, a sequence of (name, mtime, content) files.

  Its methods are `load_config`, `add_mcp_installer`, `add_server`, `remove_server`, `_cleanup_old_backups`, `create_backup` and `_attempt_recovery`. The file system and the JSON parser are inputs: the parse outcome, whether a copy succeeded, the free space, and the current time.

  The methods that validate consult the process-wide `SecurityValidator`, as the source's class-level methods do. `add_mcp_installer` is proved always to succeed: its own entry passes the gate on every platform.

  `add_server`'s loop is proved equal to the specification function `Merge.MergeAll`, and the lemmas of module `Merge` give its guarantees. `_cleanup_old_backups`' two loops are proved equal to unlinking the set `Backups.Doomed`. Module `Backups` characterises that set and bounds how many backups survive.
- **The status tool's pure rules** (module `Status`):
  - the package-name normalisation and the cache key of `get_mcp_online_info`;
  - its time-to-live cache, a class with one map field; the registry response is an input;
  - repository-URL cleanup and the keyword filter;
  - the "fill only empty fields" merge of the built-in metadata;
  - package extraction from an entry's arguments;
  - masking of secret environment values;
  - the project filter;
  - the active and inactive counts.

Wherever Python's `None` and `""` behave the same (only truthiness is consulted), both are written `""`.

One observation about the source: `validate_command` strips `.bat`, so `npx.bat` passes the command whitelist. But `validate_args` applies the npx package rule only to `npx`, `npx.cmd` and `npx.exe`, so it never applies that rule to `npx.bat`. `SecurityProperties.NpxBatSkipsPackageRule` proves this. It may be intended, so it is stated as a property, not as a finding.

## Model

| member | source | states |
|---|---|---|
| Security.SecurityValidator.constructor | mcp-installer.py:77-78 | the custom command and package whitelists start empty |
| Security.SecurityValidator.AddCustomPackages | mcp-installer.py:110-114 | the custom packages grow by exactly the given names; the custom commands are unchanged |
| Security.SecurityValidator.AddCustomCommands | mcp-installer.py:117-121 | the custom commands grow by exactly the lower-cased given names; nothing is removed; the custom packages are unchanged |
| Security.SecurityValidator.LoadWhitelistFile | mcp-installer.py:124-139 | an unreadable file gives false and changes nothing; otherwise the result is true; the `packages` field is added as is and the `commands` field lower-cased; a missing field adds nothing |
| Security.FileName | mcp-installer.py:160 | `Path(command).name`, the last separator-free component; `FileNameAfterDirectory` and `QualifiedCommandAccepted` state what it keeps |
| Security.BaseCommand | mcp-installer.py:160-163 | the lower-cased name with every `.exe`, `.cmd` and `.bat` removed; `BaseOfSuffixed` and `QualifiedCommandAccepted` give its value |
| Security.ValidateCommand | mcp-installer.py:142-170 | `validate_command`; `TraversalRejected`, `QualifiedCommandAccepted`, `BareNameFacts` and `WhitelistMonotone` state when it passes |
| Security.ValidateArgs | mcp-installer.py:173-203 | `validate_args`; `EmptyArgsAccepted`, `DangerousIffSomePattern`, `NpxPackageRule` and `NpxWithoutPackageRejected` state when it passes |
| Security.ValidateEnv | mcp-installer.py:206-222 | `validate_env`; `ValidateEnvAll` states when it passes |
| Security.ValidateServerConfig | mcp-installer.py:225-254 | `validate_server_config`, the conjunction of the type tag and the three checks; `TypeGate` and `WhitelistMonotone` state its properties |
| SecurityProperties.TypeGate | mcp-installer.py:228-234 | an entry whose `type` is absent or not `stdio` is rejected, whatever its command, args and env |
| SecurityProperties.TraversalRejected | mcp-installer.py:152-157 | a command with `..` at any position is rejected |
| SecurityProperties.FileNameAfterDirectory | mcp-installer.py:160 | directory components in front of a separator-free name do not change `Path(c).name` |
| SecurityProperties.BaseOfSuffixed | mcp-installer.py:163 | a dot-free name followed by no suffix or one of `.exe`, `.cmd`, `.bat` has that name as its stripped base |
| SecurityProperties.QualifiedCommandAccepted | mcp-installer.py:144-170 | a command given with a directory, any letter case and one stripped suffix has the lower-cased name as its base, and passes when that name is whitelisted; leading `/` or `\` is not a rejection |
| SecurityProperties.BareNameFacts | mcp-installer.py:159-170 | for a bare dot-free name with one stripped suffix, the command passes exactly when the lower-cased name is in the defaults or the custom commands |
| SecurityProperties.WhitelistMonotone | mcp-installer.py:165-168 | widening the custom whitelists never turns an accepted entry into a rejected one |
| SecurityProperties.EmptyArgsAccepted | mcp-installer.py:175-176 | an empty argument list passes, even for npx |
| SecurityProperties.DangerousIffSomePattern | mcp-installer.py:178-184 | the denylist rejects exactly when one of its 25 patterns is found in the lower-cased joined arguments |
| SecurityProperties.LiteralRuleIndex | mcp-installer.py:81-107 | each of the 13 plain-text patterns appears in the denylist as a rule of its own |
| SecurityProperties.RuleNeedsChar | mcp-installer.py:81-107 | each of the 25 dangerous patterns demands one of the characters `f`, `d`, `v`, `(`, `$`, the backtick, `&`, `\|`, `;`, `>`, `<`, `.` and `w` (after lower-casing) |
| SecurityProperties.DenylistNeedsChar | mcp-installer.py:178-184 | arguments whose lower-cased joined text holds none of those characters pass the denylist |
| SecurityProperties.LiteralPatternRejected | mcp-installer.py:178-184 | non-empty arguments whose space-joined text contains a plain-text pattern, in any letter case, are rejected |
| SecurityProperties.ArgumentWithPatternRejected | mcp-installer.py:178-184 | one argument holding a plain-text pattern, in any letter case, makes the whole list rejected |
| SecurityProperties.FirstCandidateCharacterised | mcp-installer.py:189-197 | the package rule finds the first argument that starts with `@` or not with `-` and is not `-y`, `-c`, `/c`; it finds none only when there is no such argument |
| SecurityProperties.FirstCandidateUnique | mcp-installer.py:189-197 | the first package candidate is unique |
| SecurityProperties.NpxPackageRule | mcp-installer.py:186-201 | for npx and denylist-free arguments, validation passes exactly when a candidate exists and is whitelisted |
| SecurityProperties.NpxWithoutPackageRejected | mcp-installer.py:199-201 | npx with non-empty arguments and no package candidate is rejected |
| SecurityProperties.NpxBatSkipsPackageRule | mcp-installer.py:187-201 | `npx` and `npx.bat` both pass the command check, but a non-whitelisted package is rejected only under `npx` |
| SecurityProperties.ValidateEnvAll | mcp-installer.py:206-222 | the environment passes exactly when no key upper-cases to `PATH`, `PYTHONPATH` or `NODE_PATH` and no value holds one of `` $ ` " ; \| & < > `` |
| Pattern.LiteralSearch | mcp-installer.py:182 | searching for a plain-text pattern is the substring test |
| Pattern.SearchNeedsChar | mcp-installer.py:182 | a pattern that demands a character is found nowhere in a string that lacks it |
| Text.SplitJoin | mcp-installer.py:163 | the split that models `str.replace` gives back its input when joined with the separator |
| Text.Replace | mcp-installer.py:163 | `str.replace` as split and join; `SplitJoin`, `RemoveSuffix` and `BaseOfSuffixed` state what it does to command names |
| Text.PrecedesTotal | mcp-installer.py:464 | Python's string order is total, so the greatest backup name is well defined |
| Text.Precedes | mcp-installer.py:464 | Python's code-point order on strings; `PrecedesTotal` states that it is total |
| Merge.MergeAll | mcp-installer.py:531-543 | the import loop as a function of the registry and the items; `MergeKeepsExisting`, `MergeDomain`, `MergeAdds`, `MergePartition` and `MergeClassifies` state what it does |
| Merge.MergeKeepsExisting | mcp-installer.py:531-534 | a name already registered keeps its entry |
| Merge.MergeDomain | mcp-installer.py:531-543 | the registry grows by exactly the added names |
| Merge.MergeAdds | mcp-installer.py:536-543 | every added name holds an imported entry that passed the security gate |
| Merge.MergePartition | mcp-installer.py:527-543 | the added, skipped and failed lists together are the imported names, as a multiset |
| Merge.MergeClassifies | mcp-installer.py:531-543 | with distinct imported names, a name is skipped iff it was registered, added iff new and valid, failed iff new and invalid; a failed name is never registered |
| Merge.NamesFromPrefix | mcp-installer.py:531-543 | the three lists only hold imported names |
| Registry.Installer.constructor | mcp-installer.py:259-270 | no configuration is loaded and the registry is empty |
| Registry.Installer.LoadConfig | mcp-installer.py:272-294 | a missing file and a missing `mcpServers` key both give an empty registry and true; a read or parse error gives false and changes nothing |
| Registry.InstallerEntry | mcp-installer.py:482-503 | `cmd.exe /c npx -y @anaisbetts/mcp-installer` on Windows, `npx -y @anaisbetts/mcp-installer` elsewhere; `InstallerEntryAccepted` proves that it passes the gate |
| Registry.InstallerEntryGate | mcp-installer.py:482-508 | the platform's installer entry passes the gate exactly when its joined arguments match no dangerous pattern |
| Registry.InstallerEntryAccepted | mcp-installer.py:482-508 | the platform's installer entry passes the gate under any whitelist, on every platform |
| Registry.Installer.AddMcpInstaller | mcp-installer.py:476-512 | an existing `mcp-installer` entry gives true and no change; otherwise the platform's entry is added exactly when it passes the validator's whitelist; it always succeeds and the entry is registered afterwards |
| Registry.Installer.AddServer | mcp-installer.py:514-559 | a file of the wrong shape gives false and no change; otherwise registry and lists are those of `MergeAll` under the validator's whitelist, and the result is true iff something was added or skipped |
| Registry.Installer.RemoveServer | mcp-installer.py:575-583 | the result says whether the name was present, and only that key is deleted |
| Registry.Installer.CleanupOldBackups | mcp-installer.py:345-374 | the directory afterwards is the old one minus exactly the `Doomed` names; names stay distinct |
| Registry.Installer.UnlinkEach | mcp-installer.py:358-364 | the surplus loop unlinks exactly the names of the given files and nothing else |
| Registry.Installer.UnlinkExpired | mcp-installer.py:366-374 | the age loop unlinks exactly the given files modified before the cutoff |
| Registry.Installer.CreateBackup | mcp-installer.py:296-343 | a path is returned iff the configuration exists and either the run is dry or there is space, the copy succeeded and it is not empty; the copy is then in the directory, and apart from the new name the directory is exactly what retention leaves; with too little space or a failed copy the directory is exactly what retention leaves; an empty copy is unlinked again, leaving what retention leaves without the new name; at most 11 backups exist afterwards |
| Registry.Installer.AttemptRecovery | mcp-installer.py:458-474 | recovery succeeds iff the directory holds a backup and the copy succeeds; it then restores the backup whose name sorts greatest, else changes nothing |
| Backups.BackupName | mcp-installer.py:301-302 | a backup's file name is matched by the backup glob |
| Backups.FilterMembers | mcp-installer.py:352-372 | a file is listed iff its name matches the glob, survives iff its name is not unlinked, and is expired iff modified before the cutoff |
| Backups.SortNewestFirst | mcp-installer.py:355 | the sort by modification time, newest first; its result is a permutation of its input, and `SortFacts` states its order and names |
| Backups.SortFacts | mcp-installer.py:355 | the sort puts the newest first and keeps the set of names |
| Backups.Doomed | mcp-installer.py:352-374 | the names retention unlinks; `DoomedAreBackups`, `DoomedAt`, `Retention` and `RetentionBound` characterise them |
| Backups.DoomedAreBackups | mcp-installer.py:352 | retention only unlinks files the glob lists |
| Backups.DoomedAt | mcp-installer.py:357-374 | the sorted backup at position i is unlinked iff i >= max_keep or it is older than the cutoff |
| Backups.Retention | mcp-installer.py:352-374 | a file survives iff it is not a backup, or it is among the newest max_keep and not older than the cutoff |
| Backups.RetentionBound | mcp-installer.py:357-374 | at most max_keep backups survive retention |
| Backups.Latest | mcp-installer.py:464-466 | the chosen backup is in the directory and no other backup name sorts after it |
| Status.NormalisePackage | mcp-status.py:42-43 | a list stands for its first element; an empty list and no package both stand for none; a string stands for itself |
| Status.CacheKey | mcp-status.py:46 | `name:package`; `CacheKeyInjective` states when it tells entries apart |
| Status.CacheKeyInjective | mcp-status.py:46 | for names without a colon, the cache key determines name and package |
| Status.InfoCache.constructor | mcp-status.py:34 | the cache starts empty |
| Status.InfoCache.GetOnlineInfo | mcp-status.py:37-140 | an entry younger than 3600 s is returned and the cache is left as it was; otherwise the built information is stored under the key; the key is always present afterwards |
| Status.BuildInfo | mcp-status.py:52-133 | the information built on a cache miss; `UnscopedUsesKnownOnly` and `FillProperties` state its properties |
| Status.UnscopedUsesKnownOnly | mcp-status.py:64 | without a scoped package the registry response is ignored; the information is the built-in metadata or empty |
| Status.CleanRepositoryUrl | mcp-status.py:89-93 | every `git+` and `.git` removed; `CleanStripsWrapper` and `CleanKeepsPlain` give its value |
| Status.CleanStripsWrapper | mcp-status.py:89-93 | `git+<url>.git` becomes `<url>` when `<url>` holds neither marker |
| Status.CleanKeepsPlain | mcp-status.py:93 | a URL with neither marker is unchanged |
| Status.Features | mcp-status.py:99-102 | the keywords other than `mcp` and `mcp-*`; `FeaturesMembers` and `FeaturesAppend` characterise them |
| Status.FeaturesMembers | mcp-status.py:99-102 | a keyword is a feature iff it is neither `mcp` nor starts with `mcp-` |
| Status.FeaturesAppend | mcp-status.py:102 | the keyword filter keeps the keywords' order |
| Status.FillFromKnown | mcp-status.py:129-133 | the built-in metadata fills the empty fields; `FillProperties` states what it keeps and fills |
| Status.FillProperties | mcp-status.py:129-133 | built-in metadata never overwrites a set field; it fills every empty one; empty information becomes the metadata; filling twice changes nothing more |
| Status.ExtractPackage | mcp-status.py:313-321 | the result is the first argument that starts with `@` or follows `-y` or `npx` and is not `-y`, `npx` or `/c`; none iff no argument qualifies (also lines 175-181) |
| Status.MaskValue | mcp-status.py:226-228 | under a KEY, TOKEN, SECRET or PASSWORD key, a value longer than 4 keeps its first 4 characters and the rest become `*`; the length is kept; other values are unchanged |
| Status.MaskIdempotent | mcp-status.py:226-228 | masking a masked value changes nothing |
| Status.WithServers | mcp-status.py:372-376 | the projects with at least one server, in order; `WithServersMembers` and `WithServersAppend` characterise them |
| Status.ProjectsWithServers | mcp-status.py:372-376 | the listed projects are those of the project filter, in order |
| Status.WithServersMembers | mcp-status.py:375 | a project is listed iff it has at least one server |
| Status.WithServersAppend | mcp-status.py:374-376 | the project filter keeps the projects' order |
| Status.ActiveCount | mcp-status.py:365 | the servers with a command; `CountsPartition` relates it to the inactive count and the total |
| Status.CountsPartition | mcp-status.py:365-366 | the inactive count is the number of servers without a command; both counts lie between 0 and the total |

## Left out

- Console output and ANSI colours are not modelled. Neither are argparse, the `main` flows, the interactive prompt, `list_servers`, the Windows code-page calls and all Markdown and console layout.
- `verify` is not modelled; it runs an external `claude --version` subprocess.
- `save_config` and `atomic_save` are not modelled. They cover temporary files, fsync, rename and replace, platform branches and the recovery call. They are file-system mechanics; the choice recovery makes is modelled in `AttemptRecovery`.
- The NPM registry request, SSL set-up and JSON decoding are not modelled. The decoded record is an input, and `None` stands for a failed request.
- Time is an input: `time.time()`, `datetime.now()` and the formatted timestamp of a backup name. Times are whole seconds rather than floats.
- Disk usage, the copy and the file-size check are inputs to `CreateBackup`. `copy2` keeps the source's modification time.
- Unlinking a backup is taken to succeed. The source ignores a failed unlink, and that path is not modelled.
- Exceptions raised half way through an operation are not modelled. Examples: a non-string argument, a non-object entry, or a failing `stat`.
- Entries are records of strings. Non-string `args`, non-mapping `env` and non-object server entries are not modelled.
- Case mapping is ASCII only. Python's full Unicode `lower`/`upper` is not modelled, and neither is regex `IGNORECASE` beyond ASCII.
- Path parsing covers separators, `.` components and a Windows drive prefix. UNC paths are not modelled.
- On Windows, the glob's case-insensitive matching and the path sort's case folding are not modelled.
- Directory listing order and the dict order of the registry are not modelled. The registry is a `map`; a directory's listing order is whatever the model is given.
- Backups.SortNewestFirst: its contract states that the result is newest first, a permutation, and has the same names. It does not state stability. The function itself keeps listing order for equal times, as `list.sort` does.
- `add_mcp_installer.py` is not part of this model. Its package-extraction loop is the rule modelled by `Status.ExtractPackage`.
- Display of up to three features and of the runtime string is layout and is not modelled.

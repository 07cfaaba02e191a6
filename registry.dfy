/** `MCPInstaller`: the in-memory `mcpServers` registry loaded from
    `~/.claude.json`, the operations that change it, and the backup
    directory that retention and recovery act on. What the file system and
    the JSON parser report is passed in. */
module Registry {
  import opened Wrappers
  import opened Text
  import opened Security
  import opened Backups
  import opened Merge
  import opened SecurityProperties

  /** `~/.claude.json` on disk. */
  datatype ConfigFile = ConfigFile(content: string, mtime: int)

  /** What reading and parsing an existing configuration file gave: a read or
      JSON error, or an object with or without an `mcpServers` key. */
  datatype ConfigParse =
    | Unparsable
    | Parsed(mcpServers: Option<map<string, ServerEntry>>)

  /** What reading and parsing an import file gave. `Wrapped` is an object with
      an `mcpServers` key (its value `None` when that is not an object); `Bare`
      is an object without one, whose own items are the servers. Items are in
      document order. */
  datatype ImportFile =
    | Unreadable
    | NotAnObject
    | Wrapped(servers: Option<seq<(string, ServerEntry)>>)
    | Bare(items: seq<(string, ServerEntry)>)

  /** The imported items, when the file has the right shape. */
  function ImportedItems(file: ImportFile): Option<seq<(string, ServerEntry)>> {
    match file
    case Wrapped(servers) => servers
    case Bare(items) => Some(items)
    case _ => None
  }

  const InstallerName: string := "mcp-installer"
  const InstallerPackage: string := "@anaisbetts/mcp-installer"

  /** The entry `add_mcp_installer` registers: through `cmd.exe /c` on
      Windows, `npx` directly elsewhere. */
  function InstallerEntry(platform: Platform): ServerEntry {
    if platform == Win32 then
      ServerEntry(Some("stdio"), "cmd.exe", ["/c", "npx", "-y", InstallerPackage], [])
    else
      ServerEntry(Some("stdio"), "npx", ["-y", InstallerPackage], [])
  }

  /** The installer's own entry passes the gate under any whitelist exactly
      when its space-joined arguments match no dangerous pattern: its command
      is whitelisted and, under npx, its package is. */
  lemma InstallerEntryGate(wl: Whitelist, platform: Platform)
    ensures ValidateServerConfig(InstallerEntry(platform), wl, platform) <==>
      !IsDangerous(Join(InstallerEntry(platform).args, " "))
  {
    var entry := InstallerEntry(platform);
    if platform == Win32 {
      CmdExeAccepted(wl, platform);
      CmdExeNotNpx(platform);
    } else {
      NpxAccepted(wl, platform);
      InstallerPackageFirst();
    }
    GateIsDenylist(entry, wl, platform);
  }

  /** The installer's own entry passes the gate under any whitelist, on
      either platform: no character its arguments' text lacks is one every
      dangerous pattern can do without. */
  lemma InstallerEntryAccepted(wl: Whitelist, platform: Platform)
    ensures ValidateServerConfig(InstallerEntry(platform), wl, platform)
  {
    var args := InstallerEntry(platform).args;
    InstallerArgsText(platform);
    LowerAvoidsDenylistChars(Join(args, " "));
    DenylistNeedsChar(Join(args, " "));
    InstallerEntryGate(wl, platform);
  }

  /** The joined arguments of the installer entry hold no character of
      `DenylistChars` nor its capital. */
  lemma InstallerArgsText(platform: Platform)
    ensures Avoids(Join(InstallerEntry(platform).args, " "), CaseDenylistChars)
  {
    var tail := NpxArgsText();
    if platform == Win32 {
      var c, npx, sp := "/c", "npx", " ";
      var args := InstallerEntry(platform).args;
      assert Join(args, sp) == c + sp + (npx + sp + tail) by {
        assert args == [c, npx, "-y", InstallerPackage];
        assert args[1..] == [npx, "-y", InstallerPackage];
        assert args[1..][1..] == ["-y", InstallerPackage];
      }
      AvoidsAppend(npx, sp, CaseDenylistChars);
      AvoidsAppend(npx + sp, tail, CaseDenylistChars);
      AvoidsAppend(c, sp, CaseDenylistChars);
      AvoidsAppend(c + sp, npx + sp + tail, CaseDenylistChars);
    }
  }

  /** The text of `-y <package>`, the arguments npx is given. */
  lemma NpxArgsText() returns (tail: string)
    ensures tail == Join(["-y", InstallerPackage], " ")
    ensures Avoids(tail, CaseDenylistChars)
  {
    var pkg, sp, y := InstallerPackage, " ", "-y";
    tail := y + sp + pkg;
    assert Join([y, pkg], sp) == tail by {
      assert [y, pkg][1..] == [pkg];
    }
    InstallerPackageText();
    AvoidsAppend(y, sp, CaseDenylistChars);
    AvoidsAppend(y + sp, pkg, CaseDenylistChars);
  }

  lemma InstallerPackageText()
    ensures Avoids(InstallerPackage, CaseDenylistChars)
  {
  }

  lemma InstallerPackageFirst()
    ensures FirstCandidate(["-y", InstallerPackage]) == Some(InstallerPackage)
    ensures InstallerPackage in SafeNpxPackages
  {
    var args := ["-y", InstallerPackage];
    assert !IsPackageCandidate(args[0]);
    assert IsPackageCandidate(args[1]) by { assert args[1][..1] == "@"; }
    assert args[1..] == [InstallerPackage];
  }

  /** An stdio entry with an accepted command, no environment, arguments and,
      under npx, a whitelisted package passes exactly when its arguments match
      no dangerous pattern. */
  lemma GateIsDenylist(entry: ServerEntry, wl: Whitelist, platform: Platform)
    requires entry.kind == Some("stdio") && entry.env == [] && entry.args != []
    requires ValidateCommand(entry.command, wl, platform)
    requires IsNpx(entry.command, platform) ==>
      FirstCandidate(entry.args).Some? && FirstCandidate(entry.args).value in SafeNpxPackages
    ensures ValidateServerConfig(entry, wl, platform) <==> !IsDangerous(Join(entry.args, " "))
  {
  }

  lemma CmdExeAccepted(wl: Whitelist, platform: Platform)
    ensures ValidateCommand("cmd.exe", wl, platform)
  {
    var cmd := "cmd";
    var exe := cmd + ".exe";
    assert ValidateCommand(exe, wl, platform) by {
      assert NoSeparator(cmd, platform);
      BareNameFacts(cmd, ".exe", wl, platform);
      assert Lower(cmd) == cmd;
    }
    assert exe == "cmd.exe";
  }

  lemma CmdExeNotNpx(platform: Platform)
    ensures !IsNpx("cmd.exe", platform)
  {
    CmdExeFileName(platform);
    var exe := "cmd.exe";
    assert |exe| == 7 && exe[0] == 'c';
    NotNpxFirst(exe, platform);
  }

  /** A seven-character file name starting with `c` is none of the npx names. */
  lemma NotNpxFirst(c: string, platform: Platform)
    requires FileName(c, platform) == c && |c| == 7 && c[0] == 'c'
    ensures !IsNpx(c, platform)
  {
    var low := Lower(c);
    assert low[0] == 'c';
    assert "npx.cmd"[0] == 'n' && "npx.exe"[0] == 'n';
  }

  lemma CmdExeFileName(platform: Platform)
    ensures FileName("cmd.exe", platform) == "cmd.exe"
  {
    var cmd := "cmd";
    assert cmd + ".exe" == "cmd.exe";
    assert NoSeparator(cmd, platform);
    BareFileName(cmd, ".exe", platform);
  }

  /** Backups are skipped below this much free space (10 MiB). */
  const MinFreeBytes: int := 10 * 1024 * 1024
  /** `create_backup` keeps at most this many older backups. */
  const KeepBackups: nat := 10
  /** The default age limit of `_cleanup_old_backups`, in days. */
  const MaxAgeDays: int := 30

  class Installer {
    const dryRun: bool
    /** `self.data` has been set by a successful `load_config`. */
    var loaded: bool
    /** `self.data['mcpServers']`. */
    var servers: map<string, ServerEntry>
    /** `~/.claude.json`, if it exists. */
    var config: Option<ConfigFile>
    /** Whether `~/.claude-backups` exists, and what it holds. */
    var backupDirExists: bool
    var backups: seq<BackupFile>

    /** A directory holds distinct names, and a missing one holds nothing. */
    ghost predicate Valid()
      reads this
    {
      NamesDistinct(backups) && (!backupDirExists ==> backups == [])
    }

    constructor (dryRun: bool, config: Option<ConfigFile>, backupDirExists: bool, backups: seq<BackupFile>)
      requires NamesDistinct(backups) && (!backupDirExists ==> backups == [])
      ensures Valid()
      ensures this.dryRun == dryRun && this.config == config
      ensures this.backupDirExists == backupDirExists && this.backups == backups
      ensures !loaded && servers == map[]
    {
      this.dryRun := dryRun;
      this.config := config;
      this.backupDirExists := backupDirExists;
      this.backups := backups;
      loaded := false;
      servers := map[];
    }

    /** `load_config`: a missing file and a missing `mcpServers` key both give
        an empty registry; a read or parse error changes nothing. */
    method LoadConfig(parse: ConfigParse) returns (ok: bool)
      modifies this`loaded, this`servers
      ensures config.None? ==> ok && loaded && servers == map[]
      ensures config.Some? && parse.Unparsable? ==>
        !ok && loaded == old(loaded) && servers == old(servers)
      ensures config.Some? && parse.Parsed? ==>
        ok && loaded && servers == (if parse.mcpServers.Some? then parse.mcpServers.value else map[])
    {
      if config.None? {
        loaded, servers := true, map[];
        return true;
      }
      match parse
      case Unparsable =>
        return false;
      case Parsed(found) =>
        loaded := true;
        servers := if found.Some? then found.value else map[];
        return true;
    }

    /** `add_mcp_installer`: an existing `mcp-installer` entry is kept and
        reported as success; otherwise the platform's entry is registered if
        it passes the security gate. */
    method AddMcpInstaller(validator: SecurityValidator, platform: Platform) returns (ok: bool)
      requires loaded
      modifies this`servers
      ensures InstallerName in old(servers) ==> ok && servers == old(servers)
      ensures InstallerName !in old(servers) ==>
        ok == ValidateServerConfig(InstallerEntry(platform), validator.Allowed(), platform)
        && servers == (if ok then old(servers)[InstallerName := InstallerEntry(platform)] else old(servers))
      ensures ok && InstallerName in servers
    {
      if InstallerName in servers {
        return true;
      }
      var entry := InstallerEntry(platform);
      InstallerEntryAccepted(validator.Allowed(), platform);
      if !ValidateServerConfig(entry, validator.Allowed(), platform) {
        return false;
      }
      servers := servers[InstallerName := entry];
      return true;
    }

    /** `add_server`: the loop over the imported items, proved to be
        `MergeAll` under `validate_server_config`. */
    method AddServer(file: ImportFile, validator: SecurityValidator, platform: Platform)
      returns (ok: bool, added: seq<string>, skipped: seq<string>, failed: seq<string>)
      requires loaded
      modifies this`servers
      ensures ImportedItems(file).None? ==>
        !ok && servers == old(servers) && added == [] && skipped == [] && failed == []
      ensures ImportedItems(file).Some? ==>
        var wl := validator.Allowed();
        var r := MergeAll(old(servers), ImportedItems(file).value, e => ValidateServerConfig(e, wl, platform));
        servers == r.servers && added == r.added && skipped == r.skipped && failed == r.failed
        && ok == MergeOk(r)
    {
      added, skipped, failed := [], [], [];
      var wl := validator.Allowed();
      var found := ImportedItems(file);
      if found.None? {
        return false, added, skipped, failed;
      }
      var items := found.value;
      ghost var gate := e => ValidateServerConfig(e, wl, platform);
      var i := 0;
      while i < |items|
        invariant 0 <= i <= |items|
        invariant MergeAll(old(servers), items[..i], gate) == MergeState(servers, added, skipped, failed)
      {
        assert items[..i + 1][..i] == items[..i];
        var (name, entry) := items[i];
        if name in servers {
          skipped := skipped + [name];
        } else if !ValidateServerConfig(entry, wl, platform) {
          failed := failed + [name];
        } else {
          servers := servers[name := entry];
          added := added + [name];
        }
        i := i + 1;
      }
      assert items[..i] == items;
      ok := |added| > 0 || |skipped| > 0;
    }

    /** `remove_server`: deletes exactly the named entry, if present. */
    method RemoveServer(name: string) returns (ok: bool)
      requires loaded
      modifies this`servers
      ensures ok == (name in old(servers))
      ensures servers == old(servers) - {name}
    {
      if name !in servers {
        return false;
      }
      servers := servers - {name};
      return true;
    }

    /** `_cleanup_old_backups`: unlinks the surplus backups, then the expired
        ones among the newest `maxKeep`. Unlinking is taken to succeed. */
    method CleanupOldBackups(maxKeep: nat, maxAgeDays: int, now: int)
      requires Valid()
      modifies this`backups
      ensures Valid()
      ensures backups == if backupDirExists then Keep(old(backups), Doomed(old(backups), maxKeep, maxAgeDays, now)) else old(backups)
    {
      if !backupDirExists {
        return;
      }
      var sorted := SortNewestFirst(Matching(backups));
      ghost var surplus: set<string> := {};
      KeepNothing(backups);
      if |sorted| > maxKeep {
        UnlinkEach(sorted[maxKeep..]);
        surplus := Names(sorted[maxKeep..]);
      }
      var cutoff := Cutoff(now, maxAgeDays);
      UnlinkExpired(sorted[..Min(maxKeep, |sorted|)], cutoff);
      KeepTwice(old(backups), surplus, Names(Expired(sorted[..Min(maxKeep, |sorted|)], cutoff)));
      FiltersKeepDistinct(old(backups), Doomed(old(backups), maxKeep, maxAgeDays, now));
    }

    /** The first loop: unlinks every file of `victims`, in order. */
    method UnlinkEach(victims: seq<BackupFile>)
      modifies this`backups
      ensures backups == Keep(old(backups), Names(victims))
    {
      var i := 0;
      KeepNothing(backups);
      assert victims[..0] == [];
      while i < |victims|
        invariant 0 <= i <= |victims|
        invariant backups == Keep(old(backups), Names(victims[..i]))
      {
        KeepTwice(old(backups), Names(victims[..i]), {victims[i].name});
        NamesStep(victims, i);
        backups := Keep(backups, {victims[i].name});
        i := i + 1;
      }
      assert victims[..i] == victims;
    }

    /** The second loop: unlinks the files of `candidates` modified before
        `cutoff`. */
    method UnlinkExpired(candidates: seq<BackupFile>, cutoff: int)
      modifies this`backups
      ensures backups == Keep(old(backups), Names(Expired(candidates, cutoff)))
    {
      var j := 0;
      KeepNothing(backups);
      while j < |candidates|
        invariant 0 <= j <= |candidates|
        invariant backups == Keep(old(backups), Names(Expired(candidates[..j], cutoff)))
      {
        ExpiredStep(candidates, j, cutoff);
        if candidates[j].mtime < cutoff {
          KeepTwice(old(backups), Names(Expired(candidates[..j], cutoff)), {candidates[j].name});
          backups := Keep(backups, {candidates[j].name});
        } else {
          assert Names(Expired(candidates[..j + 1], cutoff)) == Names(Expired(candidates[..j], cutoff));
        }
        j := j + 1;
      }
      assert candidates[..j] == candidates;
    }

    /** `create_backup`: retention first, then the free-space check, then the
        copy (which replaces a same-named file and keeps the source's
        modification time), then the empty-copy check. `stamp` is the
        formatted current time and `copied` whether the copy succeeded. */
    method CreateBackup(stamp: string, now: int, freeBytes: int, copied: bool) returns (path: Option<string>)
      requires Valid()
      modifies this`backupDirExists, this`backups
      ensures Valid()
      ensures path.Some? <==>
        old(config).Some? && (dryRun || (freeBytes >= MinFreeBytes && copied && config.value.content != ""))
      ensures path.Some? ==> path.value == BackupName(stamp)
      ensures path.Some? && !dryRun ==>
        BackupFile(BackupName(stamp), config.value.mtime, config.value.content) in backups
      ensures config.None? || dryRun ==>
        backupDirExists == old(backupDirExists) && backups == old(backups)
      ensures config.Some? && !dryRun ==> backupDirExists && |Matching(backups)| <= KeepBackups + 1
      ensures config.Some? && !dryRun ==>
        Keep(backups, {BackupName(stamp)}) ==
        Keep(Keep(old(backups), Doomed(old(backups), KeepBackups, MaxAgeDays, now)), {BackupName(stamp)})
      ensures config.Some? && !dryRun && (freeBytes < MinFreeBytes || !copied) ==>
        backups == Keep(old(backups), Doomed(old(backups), KeepBackups, MaxAgeDays, now))
      ensures config.Some? && !dryRun && freeBytes >= MinFreeBytes && copied && config.value.content == "" ==>
        backups == Keep(Keep(old(backups), Doomed(old(backups), KeepBackups, MaxAgeDays, now)), {BackupName(stamp)})
    {
      if config.None? {
        return None;
      }
      var name := BackupName(stamp);
      if dryRun {
        return Some(name);
      }
      if !backupDirExists {
        backupDirExists := true;
      }
      CleanupOldBackups(KeepBackups, MaxAgeDays, now);
      RetentionBound(old(backups), KeepBackups, MaxAgeDays, now);
      if freeBytes < MinFreeBytes || !copied {
        return None;
      }
      var copy := BackupFile(name, config.value.mtime, config.value.content);
      var others := Keep(backups, {name});
      FiltersKeepDistinct(backups, {name});
      FilterNames(backups, {name}, 0);
      DistinctSnoc(others, copy);
      MatchingOfKeep(backups, {name});
      KeepShorter(Matching(backups), {name});
      FiltersAppend(others, [copy], {}, 0);
      backups := others + [copy];
      if copy.content == "" {
        FiltersAppend(others, [copy], {name}, 0);
        KeepIdempotent(others, name);
        assert Keep(backups, {name}) == others;
        backups := Keep(backups, {name});
        KeepTwice(others, {name}, {name});
        assert {name} + {name} == {name};
        return None;
      }
      assert copy in backups by { assert backups[|backups| - 1] == copy; }
      FiltersAppend(others, [copy], {name}, 0);
      assert Keep([copy], {name}) == [];
      KeepTwice(Keep(old(backups), Doomed(old(backups), KeepBackups, MaxAgeDays, now)), {name}, {name});
      assert {name} + {name} == {name};
      return Some(name);
    }

    /** `_attempt_recovery`: restores the backup whose name sorts greatest;
        `copied` is whether the copy succeeded. */
    method AttemptRecovery(copied: bool) returns (ok: bool)
      modifies this`config
      ensures ok == (backupDirExists && Matching(backups) != [] && copied)
      ensures ok ==> config == Some(ConfigFile(Latest(Matching(backups)).content, Latest(Matching(backups)).mtime))
      ensures !ok ==> config == old(config)
    {
      if !backupDirExists {
        return false;
      }
      var found := Matching(backups);
      if found == [] || !copied {
        return false;
      }
      var latest := Latest(found);
      config := Some(ConfigFile(latest.content, latest.mtime));
      return true;
    }
  }

  lemma NamesStep(s: seq<BackupFile>, i: int)
    requires 0 <= i < |s|
    ensures Names(s[..i + 1]) == Names(s[..i]) + {s[i].name}
  {
    assert s[..i + 1] == s[..i] + [s[i]];
    NamesAppend(s[..i], [s[i]]);
    LeadingName(s[i], []);
  }

  lemma ExpiredStep(sorted: seq<BackupFile>, j: int, cutoff: int)
    requires 0 <= j < |sorted|
    ensures Names(Expired(sorted[..j + 1], cutoff)) ==
      Names(Expired(sorted[..j], cutoff)) + (if sorted[j].mtime < cutoff then {sorted[j].name} else {})
  {
    assert sorted[..j + 1] == sorted[..j] + [sorted[j]];
    FiltersAppend(sorted[..j], [sorted[j]], {}, cutoff);
    NamesAppend(Expired(sorted[..j], cutoff), Expired([sorted[j]], cutoff));
    LeadingName(sorted[j], []);
  }

  lemma {:induction false} KeepNothing(s: seq<BackupFile>)
    ensures Keep(s, {}) == s
    decreases |s|
  {
    if s != [] {
      KeepNothing(s[1..]);
      assert [s[0]] + s[1..] == s;
    }
  }

  /** Unlinking a name that is not there changes nothing. */
  lemma {:induction false} KeepIdempotent(s: seq<BackupFile>, name: string)
    requires name !in Names(s)
    ensures Keep(s, {name}) == s
    decreases |s|
  {
    if s != [] {
      LeadingName(s[0], s[1..]);
      KeepIdempotent(s[1..], name);
      assert [s[0]] + s[1..] == s;
    }
  }
}

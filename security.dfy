/** The security gate for registry entries: a whitelist of command base
    names and npx packages (built-in defaults plus custom additions), a
    denylist of dangerous argument patterns, and checks on environment
    variables. Every check is a pure decision over the entry and the
    whitelist in force. */
module Security {
  import opened Wrappers
  import opened Text
  import opened Pattern

  /** The host platform, as far as it changes behaviour (path separators). */
  datatype Platform = Win32 | Darwin | OtherUnix

  /** A registry entry `{type, command, args, env}`. A missing `type` is
      `None`; a missing `command` is "" (Python's `get('command', '')`), missing
      `args` are [] and a missing `env` is []. `env` lists the mapping's items in
      document order. */
  datatype ServerEntry = ServerEntry(
    kind: Option<string>,
    command: string,
    args: seq<string>,
    env: seq<(string, string)>)

  /** The custom additions to the whitelists; the defaults are constants. */
  datatype Whitelist = Whitelist(commands: set<string>, packages: set<string>)

  const SafeCommands: set<string> := {
    "npx", "node", "npm", "python", "python3", "py",
    "uvx", "uv", "pip", "pip3",
    "cmd", "cmd.exe", "powershell", "pwsh", "sh", "bash"
  }

  const SafeNpxPackages: set<string> := {
    "@anaisbetts/mcp-installer",
    "@modelcontextprotocol/server-filesystem",
    "@modelcontextprotocol/server-github",
    "@modelcontextprotocol/server-memory",
    "@modelcontextprotocol/server-postgres",
    "@modelcontextprotocol/server-sqlite",
    "@automattic/mcp-wordpress-remote",
    "youtube-data-mcp-server",
    "mcp-server-fetch",
    "@kimtaeyoon83/mcp-server-notion"
  }

  /** File names under which a command counts as npx for the package rule. */
  const NpxNames: set<string> := {"npx", "npx.cmd", "npx.exe"}

  /** Argument tokens that are never taken for the npx package. */
  const NpxFlags: set<string> := {"-y", "-c", "/c"}

  /** Environment variables that may not be set (compared upper-cased). */
  const SearchPathVariables: set<string> := {"PATH", "PYTHONPATH", "NODE_PATH"}

  /** Characters that may not appear in an environment value. */
  const ShellSpecial: string := "$`\";|&<>"

  // ---------------------------------------------------------------------
  // Command names

  predicate IsSeparator(c: char, platform: Platform) {
    c == '/' || (platform == Win32 && c == '\\')
  }

  /** The text between separators, in order (empty pieces included). */
  function PathPieces(s: string, platform: Platform): (r: seq<string>)
    ensures |r| >= 1
    decreases |s|
  {
    if s == [] then [""]
    else
      var rest := PathPieces(s[1..], platform);
      if IsSeparator(s[0], platform) then [""] + rest
      else [[s[0]] + rest[0]] + rest[1..]
  }

  /** The last piece that pathlib keeps (it drops "" and "."), or "". */
  function LastKept(pieces: seq<string>): string
    decreases |pieces|
  {
    if pieces == [] then ""
    else
      var last := pieces[|pieces| - 1];
      if last == "" || last == "." then LastKept(pieces[..|pieces| - 1]) else last
  }

  /** `Path(command).name`: the last component, after a Windows drive. */
  function FileName(command: string, platform: Platform): string {
    var rel :=
      if platform == Win32 && |command| >= 2 && !IsSeparator(command[0], platform) && command[1] == ':'
      then command[2..] else command;
    LastKept(PathPieces(rel, platform))
  }

  /** The name looked up in the whitelist: the file name lower-cased, with
      every `.exe`, then every `.cmd`, then every `.bat` removed. */
  function BaseCommand(command: string, platform: Platform): string {
    Replace(Replace(Replace(Lower(FileName(command, platform)), ".exe", ""), ".cmd", ""), ".bat", "")
  }

  /** `validate_command`. */
  predicate ValidateCommand(command: string, wl: Whitelist, platform: Platform) {
    if command == "" then false
    else if '\0' in command then false
    else if Contains(command, "..") then false
    else BaseCommand(command, platform) in SafeCommands + wl.commands
  }

  // ---------------------------------------------------------------------
  // Arguments

  /** A denylist entry: a literal head (matched case-insensitively) followed
      by the rest of the pattern, written lower-case. */
  datatype Rule = Rule(head: string, tail: seq<Atom>)

  function RuleAtoms(rule: Rule): seq<Atom> {
    Literal(Lower(rule.head)) + rule.tail
  }

  function Lit(head: string): Rule {
    Rule(head, [])
  }

  /** `DANGEROUS_PATTERNS`, in order. */
  const DangerousRules: seq<Rule> := [
    Rule("rm", SpacesPlus() + Literal("-rf")),                                     // rm\s+-rf
    Rule("del", SpacesPlus() + Literal("/") + [Once(OneOf("sf"))]),                // del\s+/[sf]
    Rule("Remove-Item", [Repeat(AnyButNewline)] + Literal("-recurse")),            // Remove-Item.*-Recurse
    Rule("rd", SpacesPlus() + Literal("/s")),                                      // rd\s+/s
    Rule("format", SpacesPlus() + [Once(OneOf("c"))] + Literal(":")),              // format\s+[cC]:
    Rule("dd", SpacesPlus() + Literal("if=") + [Repeat(AnyButNewline)] + Literal("of=/dev/")),
    Rule("eval", [Repeat(Space)] + Literal("(")),                                  // eval\s*\(
    Rule("exec", [Repeat(Space)] + Literal("(")),                                  // exec\s*\(
    Lit("Invoke-Expression"),
    Rule("IEX", [Repeat(Space)] + Literal("(")),                                   // IEX\s*\(
    Rule("$(", [Repeat(AnyButNewline)] + Literal(")")),                            // \$\(.*\)
    Rule("`", [Repeat(AnyButNewline)] + Literal("`")),                             // `.*`
    Lit("&&"),
    Lit("||"),
    Lit(";"),
    Lit("|"),
    Lit(">"),
    Lit("<"),
    Lit(">>"),
    Lit("2>"),
    Lit("Add-Type"),
    Lit("System.Reflection.Assembly"),
    Rule("-WindowStyle", SpacesPlus() + Literal("hidden")),                        // -WindowStyle\s+Hidden
    Lit("DownloadString"),
    Lit("WebClient")
  ]

  /** The entries of `DANGEROUS_PATTERNS` that are plain text. */
  const LiteralPatterns: seq<string> := [
    "Invoke-Expression", "&&", "||", ";", "|", ">", "<", ">>", "2>",
    "Add-Type", "System.Reflection.Assembly", "DownloadString", "WebClient"
  ]

  /** Some rule of `rules` matches somewhere in the (lower-cased) text. */
  predicate AnyRuleMatches(rules: seq<Rule>, text: string)
    decreases |rules|
  {
    rules != [] && (Search(RuleAtoms(rules[0]), text) || AnyRuleMatches(rules[1..], text))
  }

  /** `re.search(pattern, args_str, re.IGNORECASE)` for some pattern. */
  predicate IsDangerous(argsText: string) {
    AnyRuleMatches(DangerousRules, Lower(argsText))
  }

  predicate IsNpx(command: string, platform: Platform) {
    command != "" && Lower(FileName(command, platform)) in NpxNames
  }

  /** An argument the npx rule takes for the package. */
  predicate IsPackageCandidate(arg: string) {
    (StartsWith(arg, "@") || !StartsWith(arg, "-")) && arg !in NpxFlags
  }

  /** `args[i]` is the first package candidate. */
  ghost predicate FirstCandidateAt(args: seq<string>, i: int) {
    0 <= i < |args| && IsPackageCandidate(args[i])
    && forall j :: 0 <= j < i ==> !IsPackageCandidate(args[j])
  }

  /** The first package candidate among the arguments. */
  function FirstCandidate(args: seq<string>): Option<string>
    decreases |args|
  {
    if args == [] then None
    else if IsPackageCandidate(args[0]) then Some(args[0])
    else FirstCandidate(args[1..])
  }

  /** `validate_args`. */
  predicate ValidateArgs(args: seq<string>, command: string, wl: Whitelist, platform: Platform) {
    if args == [] then true
    else if IsDangerous(Join(args, " ")) then false
    else if IsNpx(command, platform) then
      match FirstCandidate(args)
      case None => false
      case Some(pkg) => pkg in SafeNpxPackages + wl.packages
    else true
  }

  // ---------------------------------------------------------------------
  // Environment

  predicate HasShellSpecial(value: string) {
    exists i :: 0 <= i < |value| && value[i] in ShellSpecial
  }

  /** `validate_env`: the items are checked in order, the first bad one rejects. */
  predicate ValidateEnv(env: seq<(string, string)>)
    decreases |env|
  {
    if env == [] then true
    else if Upper(env[0].0) in SearchPathVariables then false
    else if HasShellSpecial(env[0].1) then false
    else ValidateEnv(env[1..])
  }

  // ---------------------------------------------------------------------
  // Whole entries

  /** `validate_server_config`. */
  predicate ValidateServerConfig(entry: ServerEntry, wl: Whitelist, platform: Platform) {
    if entry.kind.None? then false
    else if entry.kind.value != "stdio" then false
    else if !ValidateCommand(entry.command, wl, platform) then false
    else if !ValidateArgs(entry.args, entry.command, wl, platform) then false
    else ValidateEnv(entry.env)
  }

  /** The process-wide custom whitelist: it starts empty and only grows. */
  class SecurityValidator {
    var customCommands: set<string>
    var customPackages: set<string>

    constructor ()
      ensures customCommands == {} && customPackages == {}
    {
      customCommands, customPackages := {}, {};
    }

    /** The whitelist the class-level validation methods consult. */
    function Allowed(): Whitelist
      reads this
    {
      Whitelist(customCommands, customPackages)
    }

    /** `add_custom_packages`. */
    method AddCustomPackages(packages: seq<string>)
      modifies this
      ensures customPackages == old(customPackages) + set p | p in packages
      ensures customCommands == old(customCommands)
    {
      var i := 0;
      while i < |packages|
        invariant 0 <= i <= |packages|
        invariant customPackages == old(customPackages) + set p | p in packages[..i]
        invariant customCommands == old(customCommands)
      {
        assert packages[..i + 1] == packages[..i] + [packages[i]];
        customPackages := customPackages + {packages[i]};
        i := i + 1;
      }
      assert packages[..i] == packages;
    }

    /** `add_custom_commands`: names are stored lower-cased. */
    method AddCustomCommands(commands: seq<string>)
      modifies this
      ensures customCommands == old(customCommands) + set c | c in commands :: Lower(c)
      ensures customPackages == old(customPackages)
    {
      var i := 0;
      while i < |commands|
        invariant 0 <= i <= |commands|
        invariant customCommands == old(customCommands) + set c | c in commands[..i] :: Lower(c)
        invariant customPackages == old(customPackages)
      {
        assert commands[..i + 1] == commands[..i] + [commands[i]];
        customCommands := customCommands + {Lower(commands[i])};
        i := i + 1;
      }
      assert commands[..i] == commands;
    }

    /** `load_whitelist_file`, given what reading and parsing the file gave. */
    method LoadWhitelistFile(file: WhitelistFile) returns (ok: bool)
      modifies this
      ensures ok == file.Document?
      ensures !ok ==> customCommands == old(customCommands) && customPackages == old(customPackages)
      ensures ok ==> customPackages == old(customPackages) + ListedSet(file.packages)
      ensures ok ==> customCommands == old(customCommands) + set c | c in Listed(file.commands) :: Lower(c)
    {
      if file.Unreadable? {
        return false;
      }
      if file.packages.Some? {
        AddCustomPackages(file.packages.value);
      }
      if file.commands.Some? {
        AddCustomCommands(file.commands.value);
      }
      return true;
    }
  }

  /** A whitelist file as read: missing or not JSON, or its optional
      `packages` and `commands` arrays. */
  datatype WhitelistFile =
    | Unreadable
    | Document(packages: Option<seq<string>>, commands: Option<seq<string>>)

  function Listed(field: Option<seq<string>>): seq<string> {
    if field.Some? then field.value else []
  }

  function ListedSet(field: Option<seq<string>>): set<string> {
    set p | p in Listed(field)
  }
}

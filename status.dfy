/** The pure rules inside the status and report tool: the package-name
    normalisation and cache rule of the online lookup, how a registry record
    and the built-in metadata become the displayed information, package
    extraction from an entry's arguments, masking of secret environment
    values, and the project and activity counts. */
module Status {
  import opened Wrappers
  import opened Text
  import opened Security

  /** Cached lookups are reused for this many seconds. */
  const CacheExpiry: int := 3600

  // ---------------------------------------------------------------------
  // Lookup key

  /** The `package_name` argument: absent, a string, or a list. */
  datatype PackageArg = NoPackage | Package(name: string) | PackageList(names: seq<string>)

  /** A list stands for its first element, an empty list for none; "" stands
      for no package. */
  function NormalisePackage(p: PackageArg): (r: string)
    ensures p.PackageList? && p.names != [] ==> r == p.names[0]
    ensures p.PackageList? && p.names == [] ==> r == ""
    ensures p.Package? ==> r == p.name
    ensures p.NoPackage? ==> r == ""
  {
    match p
    case NoPackage => ""
    case Package(name) => name
    case PackageList(names) => if names == [] then "" else names[0]
  }

  /** `f"{mcp_name}:{package_name or ''}"`. */
  function CacheKey(name: string, package: string): string {
    name + ":" + package
  }

  /** The first colon of a key ends a colon-free name. */
  lemma KeyColon(n: string, p: string)
    requires ':' !in n
    ensures CacheKey(n, p)[|n|] == ':'
    ensures forall j :: 0 <= j < |n| ==> CacheKey(n, p)[j] != ':'
  {
    forall j | 0 <= j < |n| ensures CacheKey(n, p)[j] != ':' {
      assert CacheKey(n, p)[j] == n[j];
    }
  }

  /** For names without a colon the key determines name and package. */
  lemma CacheKeyInjective(n1: string, p1: string, n2: string, p2: string)
    requires ':' !in n1 && ':' !in n2
    requires CacheKey(n1, p1) == CacheKey(n2, p2)
    ensures n1 == n2 && p1 == p2
  {
    var k := CacheKey(n1, p1);
    KeyColon(n1, p1);
    KeyColon(n2, p2);
    assert |n1| == |n2|;
    assert n1 == k[..|n1|] && n2 == k[..|n2|];
    assert p1 == k[|n1| + 1..] && p2 == k[|n2| + 1..];
  }

  // ---------------------------------------------------------------------
  // Information

  /** The information dictionary; "" stands for `None`. */
  datatype Info = Info(
    description: string,
    repository: string,
    version: string,
    features: seq<string>,
    scope: string,
    healthCheck: string,
    runtime: string)

  const EmptyInfo: Info := Info("", "", "", [], "", "", "")

  /** What the NPM registry returned, as far as it is used: `description`;
      `repository.url` when `repository` is an object ("" when it has no
      `url`); `dist-tags.latest`; `keywords`. */
  datatype NpmRecord = NpmRecord(
    description: Option<string>,
    repositoryUrl: Option<string>,
    latest: Option<string>,
    keywords: Option<seq<string>>)

  /** Every `git+` is removed, then every `.git`. */
  function CleanRepositoryUrl(url: string): string {
    Replace(Replace(url, "git+", ""), ".git", "")
  }

  lemma {:induction false} SplitAtEnd(m: string, p: string)
    requires p != [] && forall i :: 0 <= i < |m| ==> !OccursAt(m + p, p, i)
    ensures Split(m + p, p) == [m, ""]
    decreases |m|
  {
    if m == [] {
      assert m + p == p;
      assert p[|p|..] == [];
    } else {
      var s := m + p;
      assert !OccursAt(s, p, 0);
      assert s[1..] == m[1..] + p;
      forall i | 0 <= i < |m[1..]| ensures !OccursAt(m[1..] + p, p, i) {
        assert !OccursAt(s, p, i + 1);
        assert s[i + 1..i + 1 + |p|] == (m[1..] + p)[i..i + |p|];
      }
      SplitAtEnd(m[1..], p);
      assert [m[0]] + m[1..] == m;
    }
  }

  /** A leading `git+` is the only one removed when the rest has none. */
  lemma StripLeading(tail: string)
    requires !Contains(tail, "git+")
    ensures Replace("git+" + tail, "git+", "") == tail
  {
    assert ("git+" + tail)[4..] == tail;
    assert StartsWith("git+" + tail, "git+");
    SplitNoOccurrence(tail, "git+");
    assert Split("git+" + tail, "git+") == [""] + Split(tail, "git+");
    assert Split("git+" + tail, "git+") == ["", tail];
    assert Join(["", tail], "") == "" + "" + Join([tail], "");
  }

  /** Appending `.git` creates no `git+`. */
  lemma SuffixAddsNoPlus(core: string)
    requires !Contains(core, "git+")
    ensures !Contains(core + ".git", "git+")
  {
    var tail := core + ".git";
    ContainsAt(core, "git+");
    forall i | 0 <= i && i + 4 <= |tail| ensures !OccursAt(tail, "git+", i) {
      if i + 4 <= |core| {
        assert !OccursAt(core, "git+", i);
        assert tail[i..i + 4] == core[i..i + 4];
      } else {
        assert tail[i + 3] == ".git"[i + 3 - |core|];
        assert tail[i..i + 4][3] != "git+"[3];
      }
    }
    ContainsAt(tail, "git+");
  }

  /** The final `.git` is the only occurrence when `core` has none. */
  lemma OnlyFinalSuffix(core: string)
    requires !Contains(core, ".git")
    ensures forall i :: 0 <= i < |core| ==> !OccursAt(core + ".git", ".git", i)
  {
    var tail := core + ".git";
    ContainsAt(core, ".git");
    forall i | 0 <= i < |core| ensures !OccursAt(tail, ".git", i) {
      if i + 4 <= |core| {
        assert !OccursAt(core, ".git", i);
        assert tail[i..i + 4] == core[i..i + 4];
      } else if i + 4 <= |tail| {
        assert tail[|core|] == '.';
        assert tail[i..i + 4][|core| - i] != ".git"[|core| - i];
      }
    }
  }

  /** The usual `git+<url>.git` form is reduced to `<url>`. */
  lemma CleanStripsWrapper(core: string)
    requires !Contains(core, "git+") && !Contains(core, ".git")
    ensures CleanRepositoryUrl("git+" + core + ".git") == core
  {
    var tail := core + ".git";
    assert "git+" + core + ".git" == "git+" + tail;
    SuffixAddsNoPlus(core);
    StripLeading(tail);
    OnlyFinalSuffix(core);
    SplitAtEnd(core, ".git");
    assert Join([core, ""], "") == core + "" + Join([""], "");
  }

  /** A URL with neither marker is left as it is. */
  lemma CleanKeepsPlain(url: string)
    requires !Contains(url, "git+") && !Contains(url, ".git")
    ensures CleanRepositoryUrl(url) == url
  {
    ReplaceAbsent(url, "git+", "");
    ReplaceAbsent(url, ".git", "");
  }

  /** Keywords other than `mcp` and `mcp-*`, in order. */
  function Features(keywords: seq<string>): seq<string>
    decreases |keywords|
  {
    if keywords == [] then []
    else if keywords[0] == "mcp" || StartsWith(keywords[0], "mcp-") then Features(keywords[1..])
    else [keywords[0]] + Features(keywords[1..])
  }

  /** A keyword is a feature exactly when it is neither `mcp` nor `mcp-*`. */
  lemma {:induction false} FeaturesMembers(keywords: seq<string>, k: string)
    ensures k in Features(keywords) <==> k in keywords && k != "mcp" && !StartsWith(k, "mcp-")
    decreases |keywords|
  {
    if keywords != [] {
      FeaturesMembers(keywords[1..], k);
      assert k in keywords <==> k == keywords[0] || k in keywords[1..];
    }
  }

  /** The filter keeps the keywords' order. */
  lemma {:induction false} FeaturesAppend(a: seq<string>, b: seq<string>)
    ensures Features(a + b) == Features(a) + Features(b)
    decreases |a|
  {
    if a == [] {
      assert a + b == b;
    } else {
      assert (a + b)[1..] == a[1..] + b;
      FeaturesAppend(a[1..], b);
    }
  }

  /** The information taken from a registry record. */
  function FromRegistry(rec: NpmRecord): Info {
    Info(
      description := if rec.description.Some? then rec.description.value else "",
      repository := if rec.repositoryUrl.Some? && rec.repositoryUrl.value != "" then CleanRepositoryUrl(rec.repositoryUrl.value) else "",
      version := if rec.latest.Some? then rec.latest.value else "",
      features := if rec.keywords.Some? && "mcp" in rec.keywords.value then Features(rec.keywords.value) else [],
      scope := "",
      healthCheck := "",
      runtime := "")
  }

  /** The built-in metadata; fields it does not list are empty. */
  const KnownMcps: map<string, Info> := map[
    "shrimp" := Info(
      "자연어 요청을 구조화된 개발 작업으로 변환, 작업 분해·추적 지원", "", "",
      ["체인 오브 소트(chain-of-thought) 기반 계획", "수행 및 반영(reflection) 흐름 제공"],
      "user", "GET /health", "Node.js 18+ (npm 기반)"),
    "filesystem" := Info(
      "파일 시스템 접근 및 조작 기능 제공", "", "",
      ["파일 읽기/쓰기", "디렉토리 탐색", "파일 검색"],
      "user", "", "Node.js"),
    "mcp-installer" := Info(
      "MCP 서버 관리 도구 (설치/제거/업데이트)", "", "",
      ["MCP 서버 자동 설치", "의존성 관리", "설정 자동화"],
      "user", "", "Node.js (npx)")
  ]

  function FillString(current: string, known: string): string {
    if current == "" then known else current
  }

  /** Each empty field takes the known value. */
  function FillFromKnown(info: Info, known: Info): Info {
    Info(
      FillString(info.description, known.description),
      FillString(info.repository, known.repository),
      FillString(info.version, known.version),
      if info.features == [] then known.features else info.features,
      FillString(info.scope, known.scope),
      FillString(info.healthCheck, known.healthCheck),
      FillString(info.runtime, known.runtime))
  }

  /** `b` agrees with `a` on every field that `a` has set. */
  predicate KeepsSetFields(a: Info, b: Info) {
    (a.description != "" ==> b.description == a.description)
    && (a.repository != "" ==> b.repository == a.repository)
    && (a.version != "" ==> b.version == a.version)
    && (a.features != [] ==> b.features == a.features)
    && (a.scope != "" ==> b.scope == a.scope)
    && (a.healthCheck != "" ==> b.healthCheck == a.healthCheck)
    && (a.runtime != "" ==> b.runtime == a.runtime)
  }

  /** Every field empty in `a` holds the value of `known` in `b`. */
  predicate FillsEmptyFields(a: Info, known: Info, b: Info) {
    (a.description == "" ==> b.description == known.description)
    && (a.repository == "" ==> b.repository == known.repository)
    && (a.version == "" ==> b.version == known.version)
    && (a.features == [] ==> b.features == known.features)
    && (a.scope == "" ==> b.scope == known.scope)
    && (a.healthCheck == "" ==> b.healthCheck == known.healthCheck)
    && (a.runtime == "" ==> b.runtime == known.runtime)
  }

  /** Known metadata never overwrites a field already set, fills every empty
      one, and filling twice changes nothing more. */
  lemma FillProperties(info: Info, known: Info)
    ensures KeepsSetFields(info, FillFromKnown(info, known))
    ensures FillsEmptyFields(info, known, FillFromKnown(info, known))
    ensures info == EmptyInfo ==> FillFromKnown(info, known) == known
    ensures FillFromKnown(FillFromKnown(info, known), known) == FillFromKnown(info, known)
  {
  }

  /** The information a lookup builds: the registry record for a scoped
      package (`fetched` is `None` when the request failed), then the
      built-in metadata in the empty fields. */
  function BuildInfo(name: string, package: string, fetched: Option<NpmRecord>): Info {
    var base := if StartsWith(package, "@") && fetched.Some? then FromRegistry(fetched.value) else EmptyInfo;
    if name in KnownMcps then FillFromKnown(base, KnownMcps[name]) else base
  }

  /** Without a scoped package the registry is not consulted. */
  lemma UnscopedUsesKnownOnly(name: string, package: string, fetched: Option<NpmRecord>)
    requires !StartsWith(package, "@")
    ensures BuildInfo(name, package, fetched) == if name in KnownMcps then KnownMcps[name] else EmptyInfo
  {
    if name in KnownMcps {
      FillProperties(EmptyInfo, KnownMcps[name]);
    }
  }

  /** `MCP_INFO_CACHE`: key to (time stored, information). */
  class InfoCache {
    var entries: map<string, (int, Info)>

    constructor ()
      ensures entries == map[]
    {
      entries := map[];
    }

    /** `get_mcp_online_info` at time `now`; `storedAt` is the time read when
        the new entry is stored. */
    method GetOnlineInfo(name: string, packageArg: PackageArg, now: int, storedAt: int, fetched: Option<NpmRecord>)
      returns (info: Info)
      modifies this
      ensures var key := CacheKey(name, NormalisePackage(packageArg));
        key in entries
        && if key in old(entries) && now - old(entries)[key].0 < CacheExpiry then
             info == old(entries)[key].1 && entries == old(entries)
           else
             info == BuildInfo(name, NormalisePackage(packageArg), fetched)
             && entries == old(entries)[key := (storedAt, info)]
    {
      var package := NormalisePackage(packageArg);
      var key := CacheKey(name, package);
      if key in entries && now - entries[key].0 < CacheExpiry {
        return entries[key].1;
      }
      info := EmptyInfo;
      if StartsWith(package, "@") && fetched.Some? {
        var rec := fetched.value;
        if rec.description.Some? {
          info := info.(description := rec.description.value);
        }
        if rec.repositoryUrl.Some? {
          var url := rec.repositoryUrl.value;
          if url != "" {
            url := CleanRepositoryUrl(url);
          }
          info := info.(repository := url);
        }
        if rec.latest.Some? {
          info := info.(version := rec.latest.value);
        }
        if rec.keywords.Some? && "mcp" in rec.keywords.value {
          info := info.(features := Features(rec.keywords.value));
        }
      }
      if name in KnownMcps {
        info := FillFromKnown(info, KnownMcps[name]);
      }
      entries := entries[key := (storedAt, info)];
    }
  }

  // ---------------------------------------------------------------------
  // Package extraction

  /** `args[i]` is taken for the package: it starts with `@` or follows `-y`
      or `npx`, and is not itself `-y`, `npx` or `/c`. */
  predicate QualifiesAt(args: seq<string>, i: int)
    requires 0 <= i < |args|
  {
    (StartsWith(args[i], "@") || (i > 0 && args[i - 1] in {"-y", "npx"}))
    && args[i] !in {"-y", "npx", "/c"}
  }

  /** The package shown for an entry: the first qualifying argument. */
  method ExtractPackage(args: seq<string>) returns (package: Option<string>)
    ensures package.None? <==> forall i :: 0 <= i < |args| ==> !QualifiesAt(args, i)
    ensures package.Some? ==>
      exists i :: 0 <= i < |args| && QualifiesAt(args, i) && args[i] == package.value
        && forall j :: 0 <= j < i ==> !QualifiesAt(args, j)
  {
    var i := 0;
    while i < |args|
      invariant 0 <= i <= |args|
      invariant forall j :: 0 <= j < i ==> !QualifiesAt(args, j)
    {
      if QualifiesAt(args, i) {
        return Some(args[i]);
      }
      i := i + 1;
    }
    return None;
  }

  // ---------------------------------------------------------------------
  // Masking

  /** Keys whose upper-case form mentions a credential. */
  predicate IsSecretKey(key: string) {
    var k := Upper(key);
    Contains(k, "KEY") || Contains(k, "TOKEN") || Contains(k, "SECRET") || Contains(k, "PASSWORD")
  }

  function Stars(n: nat): (r: string)
    ensures |r| == n && forall i :: 0 <= i < n ==> r[i] == '*'
  {
    seq(n, i => '*')
  }

  /** The value shown for an environment variable. */
  function MaskValue(key: string, value: string): (r: string)
    ensures |r| == |value|
    ensures IsSecretKey(key) && |value| > 4 ==>
      r[..4] == value[..4] && forall i :: 4 <= i < |r| ==> r[i] == '*'
    ensures !(IsSecretKey(key) && |value| > 4) ==> r == value
  {
    if IsSecretKey(key) && |value| > 4 then value[..4] + Stars(|value| - 4) else value
  }

  /** Masking a masked value changes nothing. */
  lemma MaskIdempotent(key: string, value: string)
    ensures MaskValue(key, MaskValue(key, value)) == MaskValue(key, value)
  {
    var once := MaskValue(key, value);
    if IsSecretKey(key) && |value| > 4 {
      var twice := MaskValue(key, once);
      assert twice[..4] == once[..4];
      assert forall i :: 0 <= i < |twice| ==> twice[i] == once[i] by {
        forall i | 0 <= i < |twice| ensures twice[i] == once[i] {
          if i < 4 { assert twice[i] == twice[..4][i] && once[i] == once[..4][i]; }
        }
      }
    }
  }

  // ---------------------------------------------------------------------
  // Projects and counts

  /** A project of the `projects` map; a missing `mcpServers` is empty. */
  datatype Project = Project(path: string, mcpServers: map<string, ServerEntry>)

  /** The projects listed in the report, in order. */
  function WithServers(projects: seq<Project>): seq<Project>
    decreases |projects|
  {
    if projects == [] then []
    else if |projects[0].mcpServers| > 0 then [projects[0]] + WithServers(projects[1..])
    else WithServers(projects[1..])
  }

  /** A project is listed exactly when it has a server. */
  lemma {:induction false} WithServersMembers(projects: seq<Project>, p: Project)
    ensures p in WithServers(projects) <==> p in projects && |p.mcpServers| > 0
    decreases |projects|
  {
    if projects != [] {
      WithServersMembers(projects[1..], p);
      assert p in projects <==> p == projects[0] || p in projects[1..];
    }
  }

  /** The filter keeps the projects' order. */
  lemma {:induction false} WithServersAppend(a: seq<Project>, b: seq<Project>)
    ensures WithServers(a + b) == WithServers(a) + WithServers(b)
    decreases |a|
  {
    if a == [] {
      assert a + b == b;
    } else {
      assert (a + b)[1..] == a[1..] + b;
      WithServersAppend(a[1..], b);
    }
  }

  /** The loop that collects `project_with_mcp`. */
  method ProjectsWithServers(projects: seq<Project>) returns (listed: seq<Project>)
    ensures listed == WithServers(projects)
  {
    listed := [];
    var i := 0;
    while i < |projects|
      invariant 0 <= i <= |projects|
      invariant listed == WithServers(projects[..i])
    {
      assert projects[..i + 1] == projects[..i] + [projects[i]];
      WithServersAppend(projects[..i], [projects[i]]);
      if |projects[i].mcpServers| > 0 {
        listed := listed + [projects[i]];
      }
      i := i + 1;
    }
    assert projects[..i] == projects;
  }

  /** The servers with a non-empty `command`. */
  function ActiveNames(servers: map<string, ServerEntry>): set<string> {
    set k | k in servers && servers[k].command != ""
  }

  function ActiveCount(servers: map<string, ServerEntry>): int {
    |ActiveNames(servers)|
  }

  function InactiveCount(servers: map<string, ServerEntry>): int {
    |servers| - ActiveCount(servers)
  }

  /** The inactive count is the number of servers without a command, so
      neither count is negative and together they make the total. */
  lemma CountsPartition(servers: map<string, ServerEntry>)
    ensures InactiveCount(servers) == |set k | k in servers && servers[k].command == ""|
    ensures 0 <= ActiveCount(servers) <= |servers|
  {
    var active := ActiveNames(servers);
    var inactive := set k | k in servers && servers[k].command == "";
    assert servers.Keys == active + inactive;
    assert active * inactive == {};
    assert |servers.Keys| == |servers|;
  }
}

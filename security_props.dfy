/** What the security gate guarantees, stated over all inputs. */
module SecurityProperties {
  import opened Wrappers
  import opened Text
  import opened Pattern
  import opened Security

  // ---------------------------------------------------------------------
  // The type gate

  /** Without `type: "stdio"` an entry is rejected, whatever else it holds. */
  lemma TypeGate(entry: ServerEntry, wl: Whitelist, platform: Platform)
    requires entry.kind != Some("stdio")
    ensures !ValidateServerConfig(entry, wl, platform)
  {
  }

  // ---------------------------------------------------------------------
  // Commands

  /** A command with `..` anywhere in it is rejected. */
  lemma TraversalRejected(command: string, i: int, wl: Whitelist, platform: Platform)
    requires OccursAt(command, "..", i)
    ensures !ValidateCommand(command, wl, platform)
  {
    ContainsAt(command, "..");
  }

  predicate NoSeparator(n: string, platform: Platform) {
    forall c :: c in n ==> !IsSeparator(c, platform)
  }

  lemma {:induction false} PiecesOfPlain(n: string, platform: Platform)
    requires NoSeparator(n, platform)
    ensures PathPieces(n, platform) == [n]
    decreases |n|
  {
    if n != [] {
      assert NoSeparator(n[1..], platform);
      PiecesOfPlain(n[1..], platform);
      assert [n[0]] + n[1..] == n;
    }
  }

  lemma {:induction false} PiecesAfterSeparator(dir: string, sep: char, n: string, platform: Platform)
    requires IsSeparator(sep, platform) && NoSeparator(n, platform)
    ensures PathPieces(dir + [sep] + n, platform) == PathPieces(dir, platform) + [n]
    decreases |dir|
  {
    if dir == [] {
      assert dir + [sep] + n == [sep] + n;
      assert ([sep] + n)[1..] == n;
      PiecesOfPlain(n, platform);
    } else {
      assert (dir + [sep] + n)[1..] == dir[1..] + [sep] + n;
      PiecesAfterSeparator(dir[1..], sep, n, platform);
    }
  }

  /** Directory components in front of a name do not change `Path(c).name`;
      in particular a leading `/` (or `\\` on Windows) is not a rejection. */
  lemma FileNameAfterDirectory(dir: string, sep: char, n: string, platform: Platform)
    requires IsSeparator(sep, platform) && NoSeparator(n, platform) && n != "" && n != "."
    ensures FileName(dir + [sep] + n, platform) == n
  {
    var s := dir + [sep] + n;
    if platform == Win32 && |s| >= 2 && !IsSeparator(s[0], platform) && s[1] == ':' {
      assert |dir| >= 2;
      assert s[2..] == dir[2..] + [sep] + n;
      PiecesAfterSeparator(dir[2..], sep, n, platform);
    } else {
      PiecesAfterSeparator(dir, sep, n, platform);
    }
  }

  /** A bare name without separators, dots or colons is its own file name. */
  lemma FileNameOfBareName(n: string, platform: Platform)
    requires NoSeparator(n, platform) && n != "" && '.' !in n && ':' !in n
    ensures FileName(n, platform) == n
  {
    PiecesOfPlain(n, platform);
  }

  lemma {:induction false} SplitBeforeSuffix(m: string, suffix: string)
    requires suffix != [] && suffix[0] == '.' && '.' !in m
    ensures Split(m + suffix, suffix) == [m, ""]
    decreases |m|
  {
    if m == [] {
      assert m + suffix == suffix;
      assert suffix[|suffix|..] == [];
    } else {
      var s := m + suffix;
      assert s[0] != '.';
      assert !StartsWith(s, suffix);
      assert s[1..] == m[1..] + suffix;
      SplitBeforeSuffix(m[1..], suffix);
      assert [m[0]] + m[1..] == m;
    }
  }

  /** `str.replace` removes one trailing suffix from a name without dots. */
  lemma RemoveSuffix(m: string, suffix: string)
    requires suffix != [] && suffix[0] == '.' && '.' !in m
    ensures Replace(m + suffix, suffix, "") == m
  {
    SplitBeforeSuffix(m, suffix);
    assert Join([m, ""], "") == m + "" + "";
  }

  /** A name without dots is left alone by the suffix removals. */
  lemma DotFreeUnchanged(m: string, p: string, q: string)
    requires p != [] && p[0] == '.' && '.' !in m
    ensures Replace(m, p, q) == m
  {
    ContainsNeedsChar(m, p, '.');
    ReplaceAbsent(m, p, q);
  }

  lemma LowerKeepsDotFree(n: string)
    requires '.' !in n
    ensures '.' !in Lower(n)
  {
  }

  /** The base name of `n` followed by one of the stripped suffixes is `n`
      lower-cased. */
  lemma {:induction false} BaseOfSuffixed(m: string, suffix: string)
    requires '.' !in m
    requires suffix == "" || suffix == ".exe" || suffix == ".cmd" || suffix == ".bat"
    ensures Replace(Replace(Replace(m + suffix, ".exe", ""), ".cmd", ""), ".bat", "") == m
  {
    if suffix == "" {
      assert m + suffix == m;
      DotFreeUnchanged(m, ".exe", "");
      DotFreeUnchanged(m, ".cmd", "");
      DotFreeUnchanged(m, ".bat", "");
    } else if suffix == ".exe" {
      RemoveSuffix(m, ".exe");
      DotFreeUnchanged(m, ".cmd", "");
      DotFreeUnchanged(m, ".bat", "");
    } else if suffix == ".cmd" {
      assert !Contains(m + suffix, ".exe") by { NoOtherSuffix(m, suffix, ".exe"); }
      ReplaceAbsent(m + suffix, ".exe", "");
      RemoveSuffix(m, ".cmd");
      DotFreeUnchanged(m, ".bat", "");
    } else {
      assert !Contains(m + suffix, ".exe") by { NoOtherSuffix(m, suffix, ".exe"); }
      ReplaceAbsent(m + suffix, ".exe", "");
      assert !Contains(m + suffix, ".cmd") by { NoOtherSuffix(m, suffix, ".cmd"); }
      ReplaceAbsent(m + suffix, ".cmd", "");
      RemoveSuffix(m, ".bat");
    }
  }

  /** A dot-free name followed by one four-character suffix holds no other
      four-character dotted suffix. */
  lemma NoOtherSuffix(m: string, suffix: string, other: string)
    requires '.' !in m && |suffix| == 4 && |other| == 4 && suffix[0] == '.' && other[0] == '.'
    requires suffix != other && '.' !in suffix[1..]
    ensures !Contains(m + suffix, other)
  {
    ContainsAt(m + suffix, other);
  }

  /** Commands written with a directory, any letter case and one of the
      stripped suffixes are accepted when the bare name (lower-cased) is
      whitelisted and nothing else rejects them. */
  lemma QualifiedCommandAccepted(dir: string, sep: char, n: string, suffix: string, wl: Whitelist, platform: Platform)
    requires IsSeparator(sep, platform) && NoSeparator(n, platform) && n != "" && '.' !in n
    requires suffix == "" || suffix == ".exe" || suffix == ".cmd" || suffix == ".bat"
    requires '\0' !in dir && '\0' !in n && !Contains(dir, "..")
    requires Lower(n) in SafeCommands + wl.commands
    ensures BaseCommand(dir + [sep] + n + suffix, platform) == Lower(n)
    ensures ValidateCommand(dir + [sep] + n + suffix, wl, platform)
  {
    var command := dir + [sep] + n + suffix;
    BaseOfQualified(dir, sep, n, suffix, platform);
    assert '\0' !in command;
    NoDoubleDot(dir, sep, n, suffix);
  }

  lemma BaseOfQualified(dir: string, sep: char, n: string, suffix: string, platform: Platform)
    requires IsSeparator(sep, platform) && NoSeparator(n, platform) && n != "" && '.' !in n
    requires suffix == "" || suffix == ".exe" || suffix == ".cmd" || suffix == ".bat"
    ensures BaseCommand(dir + [sep] + n + suffix, platform) == Lower(n)
  {
    var name := n + suffix;
    assert dir + [sep] + n + suffix == dir + [sep] + name;
    assert NoSeparator(name, platform);
    assert name != "." by { assert name[0] == n[0]; }
    FileNameAfterDirectory(dir, sep, name, platform);
    assert Lower(name) == Lower(n) + suffix;
    LowerKeepsDotFree(n);
    BaseOfSuffixed(Lower(n), suffix);
  }

  /** `..` cannot start at the separator or inside a dot-free name followed
      by one suffix, so it is in the command only if it is in the directory. */
  lemma NoDoubleDot(dir: string, sep: char, n: string, suffix: string)
    requires sep != '.' && '.' !in n && !Contains(dir, "..")
    requires suffix == "" || suffix == ".exe" || suffix == ".cmd" || suffix == ".bat"
    ensures !Contains(dir + [sep] + n + suffix, "..")
  {
    var s := dir + [sep] + n + suffix;
    ContainsAt(dir, "..");
    forall i | 0 <= i && i + 2 <= |s| ensures !OccursAt(s, "..", i) {
      assert s[i..i + 2][0] == s[i] && s[i..i + 2][1] == s[i + 1];
      if i + 1 < |dir| {
        assert s[i..i + 2] == dir[i..i + 2];
        assert !OccursAt(dir, "..", i);
      } else if i + 1 == |dir| {
        assert s[i + 1] == sep;
      } else if i == |dir| {
        assert s[i] == sep;
      } else if i < |dir| + 1 + |n| {
        assert s[i] == n[i - |dir| - 1];
      } else {
        assert s[i + 1] == suffix[i + 1 - |dir| - 1 - |n|];
      }
    }
    ContainsAt(s, "..");
  }

  /** The custom whitelists only ever widen what is accepted. */
  lemma WhitelistMonotone(entry: ServerEntry, wl: Whitelist, wider: Whitelist, platform: Platform)
    requires wl.commands <= wider.commands && wl.packages <= wider.packages
    requires ValidateServerConfig(entry, wl, platform)
    ensures ValidateServerConfig(entry, wider, platform)
  {
  }

  // ---------------------------------------------------------------------
  // Arguments

  /** An empty argument list passes, even for npx. */
  lemma EmptyArgsAccepted(command: string, wl: Whitelist, platform: Platform)
    ensures ValidateArgs([], command, wl, platform)
  {
  }

  lemma {:induction false} AnyRuleMatchesAt(rules: seq<Rule>, m: int, text: string)
    requires 0 <= m < |rules| && Search(RuleAtoms(rules[m]), text)
    ensures AnyRuleMatches(rules, text)
    decreases m
  {
    if m > 0 { AnyRuleMatchesAt(rules[1..], m - 1, text); }
  }

  lemma {:induction false} AnyRuleMatchesSome(rules: seq<Rule>, text: string)
    requires AnyRuleMatches(rules, text)
    ensures exists m :: 0 <= m < |rules| && Search(RuleAtoms(rules[m]), text)
    decreases |rules|
  {
    if !Search(RuleAtoms(rules[0]), text) {
      AnyRuleMatchesSome(rules[1..], text);
      var m :| 0 <= m < |rules[1..]| && Search(RuleAtoms(rules[1..][m]), text);
      assert rules[1..][m] == rules[m + 1];
    }
  }

  /** The denylist rejects exactly when one of its patterns is found in the
      lower-cased, space-joined arguments. */
  lemma DangerousIffSomePattern(argsText: string)
    ensures IsDangerous(argsText) <==>
      exists m :: 0 <= m < |DangerousRules| && Search(RuleAtoms(DangerousRules[m]), Lower(argsText))
  {
    if IsDangerous(argsText) {
      AnyRuleMatchesSome(DangerousRules, Lower(argsText));
    }
    if exists m :: 0 <= m < |DangerousRules| && Search(RuleAtoms(DangerousRules[m]), Lower(argsText)) {
      var m :| 0 <= m < |DangerousRules| && Search(RuleAtoms(DangerousRules[m]), Lower(argsText));
      AnyRuleMatchesAt(DangerousRules, m, Lower(argsText));
    }
  }

  /** Every denylist rule demands, somewhere, one of these characters. */
  const DenylistChars: set<char> := {'f', 'd', 'v', '(', '$', '`', '&', '|', ';', '>', '<', '.', 'w'}

  /** The same characters with the capitals that lower-case to them. */
  const CaseDenylistChars: set<char> := DenylistChars + {'D', 'F', 'V', 'W'}

  /** No character of `t` is in `cs`. */
  predicate Avoids(t: string, cs: set<char>) {
    forall k :: 0 <= k < |t| ==> t[k] !in cs
  }

  lemma AvoidsAppend(a: string, b: string, cs: set<char>)
    requires Avoids(a, cs) && Avoids(b, cs)
    ensures Avoids(a + b, cs)
  {
    forall k | 0 <= k < |a + b|
      ensures (a + b)[k] !in cs
    {
      if k >= |a| { assert (a + b)[k] == b[k - |a|]; }
    }
  }

  lemma HeadNeeds(rule: Rule, k: int)
    requires 0 <= k < |rule.head|
    ensures Once(Exactly(LowerChar(rule.head[k]))) in RuleAtoms(rule)
  {
    assert RuleAtoms(rule)[k] == Once(Exactly(LowerChar(rule.head[k])));
  }

  lemma TailNeeds(rule: Rule, k: int)
    requires 0 <= k < |rule.tail|
    ensures rule.tail[k] in RuleAtoms(rule)
  {
    assert RuleAtoms(rule)[|Lower(rule.head)| + k] == rule.tail[k];
  }

  /** The character of `DenylistChars` that rule `m` demands. */
  lemma RuleNeedsChar(m: int) returns (c: char)
    requires 0 <= m < |DangerousRules|
    ensures c in DenylistChars && Once(Exactly(c)) in RuleAtoms(DangerousRules[m])
  {
    var rule := DangerousRules[m];
    if m == 0 {
      assert rule.tail[4] == Once(Exactly('f'));
      TailNeeds(rule, 4);
      c := 'f';
    } else if m == 7 || m == 9 {
      assert rule.tail[1] == Once(Exactly('('));
      TailNeeds(rule, 1);
      c := '(';
    } else if m < 12 {
      c := EarlyHeadChar(m);
    } else {
      c := LateHeadChar(m);
    }
  }

  /** Rules 1 to 11, bar the two whose `(` is in the tail, demand a
      character of their head. */
  lemma EarlyHeadChar(m: int) returns (c: char)
    requires 0 < m < 12 && m != 7 && m != 9
    ensures c in DenylistChars && Once(Exactly(c)) in RuleAtoms(DangerousRules[m])
  {
    var rule := DangerousRules[m];
    var k := if m == 2 then 4 else if m == 3 || m == 6 then 1 else if m == 8 then 2 else 0;
    assert LowerChar(rule.head[k]) in DenylistChars;
    HeadNeeds(rule, k);
    c := LowerChar(rule.head[k]);
  }

  /** So do rules 12 to 24: the shell operators, then the PowerShell and
      .NET names. */
  lemma LateHeadChar(m: int) returns (c: char)
    requires 12 <= m < |DangerousRules|
    ensures c in DenylistChars && Once(Exactly(c)) in RuleAtoms(DangerousRules[m])
  {
    var rule := DangerousRules[m];
    if m < 17 {
      assert LowerChar(rule.head[0]) in DenylistChars;
      HeadNeeds(rule, 0);
      c := LowerChar(rule.head[0]);
    } else if m < 21 {
      var k := if m < 19 then 0 else 1;
      assert LowerChar(rule.head[k]) in DenylistChars;
      HeadNeeds(rule, k);
      c := LowerChar(rule.head[k]);
    } else {
      c := NameHeadChar(m);
    }
  }

  lemma NameHeadChar(m: int) returns (c: char)
    requires 21 <= m < |DangerousRules|
    ensures c in DenylistChars && Once(Exactly(c)) in RuleAtoms(DangerousRules[m])
  {
    var rule := DangerousRules[m];
    var k := if m == 21 then 6 else if m == 22 then 4 else 0;
    assert LowerChar(rule.head[k]) in DenylistChars;
    HeadNeeds(rule, k);
    c := LowerChar(rule.head[k]);
  }

  /** Arguments whose lower-cased text holds none of `DenylistChars` pass the
      denylist. */
  lemma DenylistNeedsChar(argsText: string)
    requires Avoids(Lower(argsText), DenylistChars)
    ensures !IsDangerous(argsText)
  {
    forall m | 0 <= m < |DangerousRules|
      ensures !Search(RuleAtoms(DangerousRules[m]), Lower(argsText))
    {
      var c := RuleNeedsChar(m);
      assert c !in Lower(argsText);
      SearchNeedsChar(RuleAtoms(DangerousRules[m]), Lower(argsText), c);
    }
    DangerousIffSomePattern(argsText);
  }

  /** Lower-casing only brings in a character of `DenylistChars` where the
      text holds it or its capital. */
  lemma LowerAvoidsDenylistChars(t: string)
    requires Avoids(t, CaseDenylistChars)
    ensures Avoids(Lower(t), DenylistChars)
  {
  }

  /** The text patterns of the denylist appear in it as themselves. */
  lemma LiteralRuleIndex(k: int) returns (m: int)
    requires 0 <= k < |LiteralPatterns|
    ensures 0 <= m < |DangerousRules| && DangerousRules[m] == Lit(LiteralPatterns[k])
  {
    m := if k == 0 then 8 else if k <= 10 then k + 11 else k + 12;
  }

  /** Joined arguments that contain one of the text patterns, in any letter
      case, are rejected. */
  lemma LiteralPatternRejected(args: seq<string>, command: string, wl: Whitelist, platform: Platform, k: int)
    requires args != [] && 0 <= k < |LiteralPatterns|
    requires Contains(Lower(Join(args, " ")), Lower(LiteralPatterns[k]))
    ensures !ValidateArgs(args, command, wl, platform)
  {
    var m := LiteralRuleIndex(k);
    var text := Lower(Join(args, " "));
    assert RuleAtoms(DangerousRules[m]) == Literal(Lower(LiteralPatterns[k]));
    LiteralSearch(Lower(LiteralPatterns[k]), text);
    AnyRuleMatchesAt(DangerousRules, m, text);
  }

  lemma {:induction false} JoinHoldsPiece(pieces: seq<string>, sep: string, i: int) returns (off: int)
    requires 0 <= i < |pieces|
    ensures OccursAt(Join(pieces, sep), pieces[i], off)
    decreases |pieces|
  {
    if |pieces| == 1 {
      off := 0;
      assert Join(pieces, sep)[0..|pieces[0]|] == pieces[0];
    } else if i == 0 {
      off := 0;
      var j := Join(pieces, sep);
      assert j == pieces[0] + (sep + Join(pieces[1..], sep));
      assert j[0..|pieces[0]|] == pieces[0];
    } else {
      var inner := JoinHoldsPiece(pieces[1..], sep, i - 1);
      var prefix := pieces[0] + sep;
      var j := Join(pieces, sep);
      assert j == prefix + Join(pieces[1..], sep);
      off := |prefix| + inner;
      assert j[off..off + |pieces[i]|] == Join(pieces[1..], sep)[inner..inner + |pieces[i]|];
    }
  }

  lemma ContainsThrough(outer: string, inner: string, off: int, p: string)
    requires OccursAt(outer, inner, off) && Contains(inner, p)
    ensures Contains(outer, p)
  {
    ContainsAt(inner, p);
    var i :| OccursAt(inner, p, i);
    forall k | 0 <= k < |p| ensures outer[off + i + k] == p[k] {
      assert outer[off + i + k] == outer[off..off + |inner|][i + k];
    }
    assert outer[off + i..off + i + |p|] == p;
    assert OccursAt(outer, p, off + i);
    ContainsAt(outer, p);
  }

  /** One argument holding a text pattern of the denylist, in any letter
      case, is enough to reject the whole list. */
  lemma ArgumentWithPatternRejected(args: seq<string>, i: int, command: string, wl: Whitelist, platform: Platform, k: int)
    requires 0 <= i < |args| && 0 <= k < |LiteralPatterns|
    requires Contains(Lower(args[i]), Lower(LiteralPatterns[k]))
    ensures !ValidateArgs(args, command, wl, platform)
  {
    var joined := Join(args, " ");
    var off := JoinHoldsPiece(args, " ", i);
    assert Lower(joined)[off..off + |args[i]|] == Lower(args[i]);
    ContainsThrough(Lower(joined), Lower(args[i]), off, Lower(LiteralPatterns[k]));
    LiteralPatternRejected(args, command, wl, platform, k);
  }

  /** `FirstCandidate` finds the first package candidate, and none only when
      there is none. */
  lemma {:induction false} FirstCandidateCharacterised(args: seq<string>)
    ensures FirstCandidate(args).None? <==> forall i :: 0 <= i < |args| ==> !IsPackageCandidate(args[i])
    ensures FirstCandidate(args).Some? ==>
      exists i :: FirstCandidateAt(args, i) && args[i] == FirstCandidate(args).value
    decreases |args|
  {
    if args != [] && !IsPackageCandidate(args[0]) {
      FirstCandidateCharacterised(args[1..]);
      if FirstCandidate(args[1..]).Some? {
        var i :| FirstCandidateAt(args[1..], i) && args[1..][i] == FirstCandidate(args[1..]).value;
        assert FirstCandidateAt(args, i + 1);
      }
      if forall i :: 0 <= i < |args[1..]| ==> !IsPackageCandidate(args[1..][i]) {
        forall i | 0 <= i < |args| ensures !IsPackageCandidate(args[i]) {
          if i > 0 { assert args[i] == args[1..][i - 1]; }
        }
      }
    } else if args != [] {
      assert FirstCandidateAt(args, 0);
    }
  }

  lemma FirstCandidateUnique(args: seq<string>, i: int, j: int)
    requires FirstCandidateAt(args, i) && FirstCandidateAt(args, j)
    ensures i == j
  {
  }

  /** For npx, arguments free of dangerous patterns pass exactly when their
      first package candidate is a whitelisted package. */
  lemma NpxPackageRule(args: seq<string>, command: string, wl: Whitelist, platform: Platform)
    requires args != [] && !IsDangerous(Join(args, " ")) && IsNpx(command, platform)
    ensures ValidateArgs(args, command, wl, platform) <==>
      exists i :: FirstCandidateAt(args, i) && args[i] in SafeNpxPackages + wl.packages
  {
    FirstCandidateCharacterised(args);
    if FirstCandidate(args).Some? {
      var i :| FirstCandidateAt(args, i) && args[i] == FirstCandidate(args).value;
      forall j | FirstCandidateAt(args, j) ensures j == i {
        FirstCandidateUnique(args, i, j);
      }
    }
  }

  /** npx with no package candidate at all is rejected. */
  lemma NpxWithoutPackageRejected(args: seq<string>, command: string, wl: Whitelist, platform: Platform)
    requires args != [] && IsNpx(command, platform)
    requires forall i :: 0 <= i < |args| ==> !IsPackageCandidate(args[i])
    ensures !ValidateArgs(args, command, wl, platform)
  {
    FirstCandidateCharacterised(args);
  }

  /** `npx.bat` has base name `npx`, so it passes the command whitelist, but
      its file name is not in `NpxNames`, so the package rule is skipped: an
      unlisted package rejected under `npx` is accepted under `npx.bat`. */
  lemma NpxBatSkipsPackageRule(args: seq<string>, wl: Whitelist, platform: Platform)
    requires args != [] && !IsDangerous(Join(args, " "))
    requires FirstCandidate(args).Some? && FirstCandidate(args).value !in SafeNpxPackages + wl.packages
    ensures ValidateCommand("npx.bat", wl, platform) && ValidateCommand("npx", wl, platform)
    ensures !ValidateArgs(args, "npx", wl, platform)
    ensures ValidateArgs(args, "npx.bat", wl, platform)
  {
    NpxAccepted(wl, platform);
    NpxBatAccepted(wl, platform);
    NpxBatNotNpx(platform);
  }

  lemma NpxAccepted(wl: Whitelist, platform: Platform)
    ensures ValidateCommand("npx", wl, platform) && IsNpx("npx", platform)
  {
    var npx := "npx";
    assert npx + "" == npx;
    assert Lower(npx) == npx;
    assert ValidateCommand(npx, wl, platform) && FileName(npx, platform) == npx by {
      assert NoSeparator(npx, platform);
      BareNameFacts(npx, "", wl, platform);
    }
  }

  lemma NpxBatAccepted(wl: Whitelist, platform: Platform)
    ensures ValidateCommand("npx.bat", wl, platform)
  {
    var npx := "npx";
    var bat := npx + ".bat";
    assert ValidateCommand(bat, wl, platform) by {
      assert NoSeparator(npx, platform);
      BareNameFacts(npx, ".bat", wl, platform);
      assert Lower(npx) == npx;
    }
    assert bat == "npx.bat";
  }

  lemma NpxBatNotNpx(platform: Platform)
    ensures !IsNpx("npx.bat", platform)
  {
    NpxBatFileName(platform);
    NotNpxName("npx.bat", platform);
  }

  /** A seven-character file name ending in `t` is none of the npx names. */
  lemma NotNpxName(c: string, platform: Platform)
    requires FileName(c, platform) == c && |c| == 7 && c[6] == 't'
    ensures !IsNpx(c, platform)
  {
    var low := Lower(c);
    assert low[6] == 't';
    assert "npx.cmd"[6] == 'd' && "npx.exe"[6] == 'e';
  }

  lemma NpxBatFileName(platform: Platform)
    ensures FileName("npx.bat", platform) == "npx.bat"
  {
    var npx := "npx";
    assert npx + ".bat" == "npx.bat";
    assert NoSeparator(npx, platform);
    BareFileName(npx, ".bat", platform);
  }

  /** A bare dot-free name with one of the stripped suffixes: its file name is
      itself, its base is the name lower-cased, and it is accepted exactly when
      that base is whitelisted. */
  lemma BareNameFacts(n: string, suffix: string, wl: Whitelist, platform: Platform)
    requires NoSeparator(n, platform) && n != "" && '.' !in n && ':' !in n && '\0' !in n
    requires suffix == "" || suffix == ".exe" || suffix == ".cmd" || suffix == ".bat"
    ensures FileName(n + suffix, platform) == n + suffix
    ensures BaseCommand(n + suffix, platform) == Lower(n)
    ensures ValidateCommand(n + suffix, wl, platform) <==> Lower(n) in SafeCommands + wl.commands
  {
    BareFileName(n, suffix, platform);
    BareBase(n, suffix, platform);
    NameNoDoubleDot(n, suffix);
    assert '\0' !in n + suffix;
  }

  lemma BareFileName(n: string, suffix: string, platform: Platform)
    requires NoSeparator(n, platform) && n != "" && ':' !in n && '.' !in n
    requires suffix == "" || suffix == ".exe" || suffix == ".cmd" || suffix == ".bat"
    ensures FileName(n + suffix, platform) == n + suffix
  {
    var name := n + suffix;
    assert NoSeparator(name, platform);
    PiecesOfPlain(name, platform);
    assert name[0] == n[0];
    if |n| >= 2 { assert name[1] == n[1]; } else if |name| >= 2 { assert name[1] == suffix[0]; }
    assert LastKept([name]) == name;
  }

  lemma BareBase(n: string, suffix: string, platform: Platform)
    requires FileName(n + suffix, platform) == n + suffix && '.' !in n
    requires suffix == "" || suffix == ".exe" || suffix == ".cmd" || suffix == ".bat"
    ensures BaseCommand(n + suffix, platform) == Lower(n)
  {
    assert Lower(n + suffix) == Lower(n) + suffix;
    LowerKeepsDotFree(n);
    BaseOfSuffixed(Lower(n), suffix);
  }

  lemma NameNoDoubleDot(n: string, suffix: string)
    requires '.' !in n
    requires suffix == "" || suffix == ".exe" || suffix == ".cmd" || suffix == ".bat"
    ensures !Contains(n + suffix, "..")
  {
    var s := n + suffix;
    forall i | 0 <= i && i + 2 <= |s| ensures !OccursAt(s, "..", i) {
      assert s[i..i + 2][0] == s[i] && s[i..i + 2][1] == s[i + 1];
      if i < |n| {
        assert s[i] == n[i];
      } else {
        assert s[i + 1] == suffix[i + 1 - |n|];
      }
    }
    ContainsAt(s, "..");
  }

  // ---------------------------------------------------------------------
  // Environment

  /** `validate_env` accepts exactly when no key is a search-path variable
      (in any letter case) and no value holds a shell-special character. */
  lemma {:induction false} ValidateEnvAll(env: seq<(string, string)>)
    ensures ValidateEnv(env) <==>
      forall i :: 0 <= i < |env| ==>
        Upper(env[i].0) !in SearchPathVariables && !HasShellSpecial(env[i].1)
    decreases |env|
  {
    if env != [] {
      ValidateEnvAll(env[1..]);
      assert forall i :: 1 <= i < |env| ==> env[i] == env[1..][i - 1];
    }
  }
}

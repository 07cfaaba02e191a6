/** The backup directory `~/.claude-backups` as the installer sees it: which
    files are backups, the newest-first order in which retention looks at
    them, which of them retention deletes, and which one recovery restores.
    The directory is a sequence of files in listing order; file names in a
    directory are distinct. */
module Backups {
  import opened Text

  /** A file in the backup directory: its name, its modification time in
      whole seconds and its content. */
  datatype BackupFile = BackupFile(name: string, mtime: int, content: string)

  const SecondsPerDay: int := 24 * 60 * 60

  /** `glob("claude_*.json")` applied to a file name: the fixed prefix and
      suffix, which may not overlap. */
  predicate IsBackupName(n: string) {
    StartsWith(n, "claude_") && EndsWith(n, ".json") && |n| >= 12
  }

  /** The file name of the backup taken at a given timestamp. */
  function BackupName(stamp: string): (r: string)
    ensures IsBackupName(r)
  {
    var r := "claude_" + stamp + ".json";
    assert r[..7] == "claude_";
    assert r[|r| - 5..] == ".json";
    r
  }

  // ---------------------------------------------------------------------
  // Names

  function Names(s: seq<BackupFile>): set<string>
    decreases |s|
  {
    if s == [] then {} else {s[0].name} + Names(s[1..])
  }

  /** No two files of `s` share a name. */
  predicate NamesDistinct(s: seq<BackupFile>)
    decreases |s|
  {
    s == [] || (s[0].name !in Names(s[1..]) && NamesDistinct(s[1..]))
  }

  lemma {:induction false} NamesMembers(s: seq<BackupFile>)
    ensures forall n :: n in Names(s) <==> exists f :: f in s && f.name == n
    decreases |s|
  {
    if s != [] {
      NamesMembers(s[1..]);
      assert forall f :: f in s <==> f == s[0] || f in s[1..];
    }
  }

  lemma {:induction false} NamesAppend(a: seq<BackupFile>, b: seq<BackupFile>)
    ensures Names(a + b) == Names(a) + Names(b)
    decreases |a|
  {
    if a == [] {
      assert a + b == b;
    } else {
      assert (a + b)[1..] == a[1..] + b;
      assert (a + b)[0] == a[0];
      NamesAppend(a[1..], b);
      assert Names(a + b) == {a[0].name} + Names(a[1..] + b);
    }
  }

  /** A sequence has at least as many files as names, and exactly as many
      when its names are distinct. */
  lemma {:induction false} NamesCount(s: seq<BackupFile>)
    ensures |Names(s)| <= |s|
    ensures NamesDistinct(s) ==> |Names(s)| == |s|
    decreases |s|
  {
    if s != [] {
      NamesCount(s[1..]);
    }
  }

  // ---------------------------------------------------------------------
  // Filters

  /** The files that the backup glob lists, in listing order. */
  function Matching(files: seq<BackupFile>): seq<BackupFile>
    decreases |files|
  {
    if files == [] then []
    else if IsBackupName(files[0].name) then [files[0]] + Matching(files[1..])
    else Matching(files[1..])
  }

  /** The files whose names are not in `doomed`: the directory after those
      names are unlinked. */
  function Keep(files: seq<BackupFile>, doomed: set<string>): seq<BackupFile>
    decreases |files|
  {
    if files == [] then []
    else if files[0].name in doomed then Keep(files[1..], doomed)
    else [files[0]] + Keep(files[1..], doomed)
  }

  /** The files in `s` modified before `cutoff`. */
  function Expired(s: seq<BackupFile>, cutoff: int): seq<BackupFile>
    decreases |s|
  {
    if s == [] then []
    else if s[0].mtime < cutoff then [s[0]] + Expired(s[1..], cutoff)
    else Expired(s[1..], cutoff)
  }

  lemma {:induction false} FilterMembers(files: seq<BackupFile>, doomed: set<string>, cutoff: int, f: BackupFile)
    ensures f in Matching(files) <==> f in files && IsBackupName(f.name)
    ensures f in Keep(files, doomed) <==> f in files && f.name !in doomed
    ensures f in Expired(files, cutoff) <==> f in files && f.mtime < cutoff
    decreases |files|
  {
    if files != [] {
      FilterMembers(files[1..], doomed, cutoff, f);
      assert f in files <==> f == files[0] || f in files[1..];
    }
  }

  lemma {:induction false} FilterNames(files: seq<BackupFile>, doomed: set<string>, cutoff: int)
    ensures Names(Matching(files)) <= Names(files)
    ensures Names(Keep(files, doomed)) == Names(files) - doomed
    ensures Names(Expired(files, cutoff)) <= Names(files)
    decreases |files|
  {
    if files != [] {
      FilterNames(files[1..], doomed, cutoff);
      LeadingName(files[0], Matching(files[1..]));
      LeadingName(files[0], Keep(files[1..], doomed));
      LeadingName(files[0], Expired(files[1..], cutoff));
    }
  }

  lemma LeadingName(f: BackupFile, s: seq<BackupFile>)
    ensures Names([f] + s) == {f.name} + Names(s)
    ensures NamesDistinct([f] + s) <==> f.name !in Names(s) && NamesDistinct(s)
  {
    assert ([f] + s)[1..] == s;
  }

  lemma {:induction false} FiltersKeepDistinct(files: seq<BackupFile>, doomed: set<string>)
    requires NamesDistinct(files)
    ensures NamesDistinct(Matching(files)) && NamesDistinct(Keep(files, doomed))
    decreases |files|
  {
    if files != [] {
      FiltersKeepDistinct(files[1..], doomed);
      FilterNames(files[1..], doomed, 0);
      LeadingName(files[0], Matching(files[1..]));
      LeadingName(files[0], Keep(files[1..], doomed));
    }
  }

  /** Unlinking two sets of names one after the other unlinks their union. */
  lemma {:induction false} KeepTwice(files: seq<BackupFile>, a: set<string>, b: set<string>)
    ensures Keep(Keep(files, a), b) == Keep(files, a + b)
    decreases |files|
  {
    if files != [] {
      KeepTwice(files[1..], a, b);
    }
  }

  lemma {:induction false} MatchingOfKeep(files: seq<BackupFile>, doomed: set<string>)
    ensures Matching(Keep(files, doomed)) == Keep(Matching(files), doomed)
    decreases |files|
  {
    if files != [] {
      MatchingOfKeep(files[1..], doomed);
    }
  }

  lemma {:induction false} FiltersAppend(a: seq<BackupFile>, b: seq<BackupFile>, doomed: set<string>, cutoff: int)
    ensures Matching(a + b) == Matching(a) + Matching(b)
    ensures Keep(a + b, doomed) == Keep(a, doomed) + Keep(b, doomed)
    ensures Expired(a + b, cutoff) == Expired(a, cutoff) + Expired(b, cutoff)
  {
    MatchingAppend(a, b);
    KeepAppend(a, b, doomed);
    ExpiredAppend(a, b, cutoff);
  }

  lemma {:induction false} MatchingAppend(a: seq<BackupFile>, b: seq<BackupFile>)
    ensures Matching(a + b) == Matching(a) + Matching(b)
    decreases |a|
  {
    if a == [] {
      assert a + b == b;
    } else {
      assert (a + b)[1..] == a[1..] + b;
      MatchingAppend(a[1..], b);
    }
  }

  lemma {:induction false} KeepAppend(a: seq<BackupFile>, b: seq<BackupFile>, doomed: set<string>)
    ensures Keep(a + b, doomed) == Keep(a, doomed) + Keep(b, doomed)
    decreases |a|
  {
    if a == [] {
      assert a + b == b;
    } else {
      assert (a + b)[1..] == a[1..] + b;
      KeepAppend(a[1..], b, doomed);
    }
  }

  lemma {:induction false} ExpiredAppend(a: seq<BackupFile>, b: seq<BackupFile>, cutoff: int)
    ensures Expired(a + b, cutoff) == Expired(a, cutoff) + Expired(b, cutoff)
    decreases |a|
  {
    if a == [] {
      assert a + b == b;
    } else {
      assert (a + b)[1..] == a[1..] + b;
      ExpiredAppend(a[1..], b, cutoff);
    }
  }

  lemma {:induction false} KeepShorter(s: seq<BackupFile>, doomed: set<string>)
    ensures |Keep(s, doomed)| <= |s|
    decreases |s|
  {
    if s != [] { KeepShorter(s[1..], doomed); }
  }

  /** A file whose name is new may be added to a directory. */
  lemma {:induction false} DistinctSnoc(s: seq<BackupFile>, f: BackupFile)
    requires NamesDistinct(s) && f.name !in Names(s)
    ensures NamesDistinct(s + [f])
    decreases |s|
  {
    if s == [] {
      assert s + [f] == [f] + [];
      LeadingName(f, []);
    } else {
      assert (s + [f])[1..] == s[1..] + [f];
      LeadingName(s[0], s[1..]);
      DistinctSnoc(s[1..], f);
      NamesAppend(s[1..], [f]);
      LeadingName(f, []);
      assert s + [f] == [s[0]] + (s[1..] + [f]);
      LeadingName(s[0], s[1..] + [f]);
    }
  }

  // ---------------------------------------------------------------------
  // Newest first

  /** Modification times never increase along `s`. */
  predicate NewestFirst(s: seq<BackupFile>) {
    forall i, j :: 0 <= i < j < |s| ==> s[i].mtime >= s[j].mtime
  }

  /** Puts `x` in front of the first file that is not newer than it, which
      keeps equal times in their original order. */
  function Insert(x: BackupFile, s: seq<BackupFile>): (r: seq<BackupFile>)
    ensures multiset(r) == multiset(s) + multiset{x}
    decreases |s|
  {
    if s == [] || x.mtime >= s[0].mtime then [x] + s
    else
      assert s == [s[0]] + s[1..];
      [s[0]] + Insert(x, s[1..])
  }

  /** A file no older than any in a newest-first sequence may go in front. */
  lemma NewestFirstCons(f: BackupFile, s: seq<BackupFile>)
    requires NewestFirst(s)
    requires forall i :: 0 <= i < |s| ==> s[i].mtime <= f.mtime
    ensures NewestFirst([f] + s)
  {
    var r := [f] + s;
    forall i, j | 0 <= i < j < |r| ensures r[i].mtime >= r[j].mtime {
      assert r[j] == s[j - 1];
      if i > 0 { assert r[i] == s[i - 1]; }
    }
  }

  lemma {:induction false} InsertMembers(x: BackupFile, s: seq<BackupFile>, i: int)
    requires 0 <= i < |Insert(x, s)|
    ensures Insert(x, s)[i] == x || exists j :: 0 <= j < |s| && Insert(x, s)[i] == s[j]
    decreases |s|
  {
    if !(s == [] || x.mtime >= s[0].mtime) && i > 0 {
      InsertMembers(x, s[1..], i - 1);
      if Insert(x, s[1..])[i - 1] != x {
        var j :| 0 <= j < |s[1..]| && Insert(x, s[1..])[i - 1] == s[1..][j];
        assert s[1..][j] == s[j + 1];
      }
    }
  }

  lemma {:induction false} InsertKeepsOrder(x: BackupFile, s: seq<BackupFile>)
    requires NewestFirst(s)
    ensures NewestFirst(Insert(x, s))
    decreases |s|
  {
    if s == [] || x.mtime >= s[0].mtime {
      NewestFirstCons(x, s);
    } else {
      var rest := Insert(x, s[1..]);
      assert NewestFirst(s[1..]) by {
        forall i, j | 0 <= i < j < |s[1..]| ensures s[1..][i].mtime >= s[1..][j].mtime {
          assert s[1..][i] == s[i + 1] && s[1..][j] == s[j + 1];
        }
      }
      InsertKeepsOrder(x, s[1..]);
      forall i | 0 <= i < |rest| ensures rest[i].mtime <= s[0].mtime {
        InsertMembers(x, s[1..], i);
      }
      NewestFirstCons(s[0], rest);
    }
  }

  lemma {:induction false} InsertNames(x: BackupFile, s: seq<BackupFile>)
    ensures Names(Insert(x, s)) == Names(s) + {x.name}
    ensures NamesDistinct(s) && x.name !in Names(s) ==> NamesDistinct(Insert(x, s))
    decreases |s|
  {
    if s == [] || x.mtime >= s[0].mtime {
      LeadingName(x, s);
    } else {
      InsertNames(x, s[1..]);
      LeadingName(s[0], Insert(x, s[1..]));
      LeadingName(s[0], s[1..]);
      assert [s[0]] + s[1..] == s;
    }
  }

  /** `files.sort(key=mtime, reverse=True)`: a stable sort, newest first. */
  function SortNewestFirst(s: seq<BackupFile>): (r: seq<BackupFile>)
    ensures multiset(r) == multiset(s) && |r| == |s|
    decreases |s|
  {
    if s == [] then []
    else
      assert s == [s[0]] + s[1..];
      Insert(s[0], SortNewestFirst(s[1..]))
  }

  /** The sort puts the newest first and keeps the names, and their
      distinctness. */
  lemma SortFacts(s: seq<BackupFile>)
    ensures NewestFirst(SortNewestFirst(s))
    ensures Names(SortNewestFirst(s)) == Names(s)
    ensures NamesDistinct(s) ==> NamesDistinct(SortNewestFirst(s))
  {
    SortOrder(s);
    SortNames(s);
    if NamesDistinct(s) {
      SortDistinct(s);
    }
  }

  lemma {:induction false} SortOrder(s: seq<BackupFile>)
    ensures NewestFirst(SortNewestFirst(s))
    decreases |s|
  {
    if s != [] {
      SortOrder(s[1..]);
      InsertKeepsOrder(s[0], SortNewestFirst(s[1..]));
    }
  }

  lemma {:induction false} SortNames(s: seq<BackupFile>)
    ensures Names(SortNewestFirst(s)) == Names(s)
    decreases |s|
  {
    if s != [] {
      SortNames(s[1..]);
      InsertNames(s[0], SortNewestFirst(s[1..]));
    }
  }

  lemma {:induction false} SortDistinct(s: seq<BackupFile>)
    requires NamesDistinct(s)
    ensures NamesDistinct(SortNewestFirst(s))
    decreases |s|
  {
    if s != [] {
      SortDistinct(s[1..]);
      SortNames(s[1..]);
      InsertNames(s[0], SortNewestFirst(s[1..]));
    }
  }

  // ---------------------------------------------------------------------
  // Retention

  /** Files older than this are expired. */
  function Cutoff(now: int, maxAgeDays: int): int {
    now - maxAgeDays * SecondsPerDay
  }

  function Min(a: int, b: int): int {
    if a <= b then a else b
  }

  /** The names `_cleanup_old_backups` unlinks: with the backups sorted
      newest first, every one from position `maxKeep` on, and among the
      first `maxKeep` those modified before the cutoff. */
  function Doomed(files: seq<BackupFile>, maxKeep: nat, maxAgeDays: int, now: int): set<string> {
    DoomedOf(SortNewestFirst(Matching(files)), maxKeep, Cutoff(now, maxAgeDays))
  }

  /** The same selection over the already sorted backups. */
  function DoomedOf(sorted: seq<BackupFile>, maxKeep: nat, cutoff: int): set<string> {
    (if |sorted| > maxKeep then Names(sorted[maxKeep..]) else {})
    + Names(Expired(sorted[..Min(maxKeep, |sorted|)], cutoff))
  }

  lemma {:induction false} NamesAt(s: seq<BackupFile>, i: int, n: string)
    requires NamesDistinct(s) && 0 <= i < |s| && s[i].name == n
    ensures forall j :: 0 <= j < |s| && s[j].name == n ==> j == i
    decreases |s|
  {
    if i == 0 {
      NamesMembers(s[1..]);
      forall j | 0 < j < |s| ensures s[j].name != n {
        assert s[j] in s[1..];
      }
    } else {
      assert s[0].name != n by {
        NamesMembers(s[1..]);
        assert s[i] in s[1..];
      }
      NamesAt(s[1..], i - 1, n);
      forall j | 0 < j < |s| && s[j].name == n ensures j == i {
        assert s[1..][j - 1] == s[j];
      }
    }
  }

  lemma SliceNames(s: seq<BackupFile>, k: int, n: string)
    requires 0 <= k <= |s|
    ensures n in Names(s[k..]) <==> exists j :: k <= j < |s| && s[j].name == n
    ensures n in Names(s[..k]) <==> exists j :: 0 <= j < k && s[j].name == n
  {
    NamesMembers(s[k..]);
    NamesMembers(s[..k]);
    if exists j :: k <= j < |s| && s[j].name == n {
      var j :| k <= j < |s| && s[j].name == n;
      assert s[k..][j - k] == s[j];
    }
    if exists j :: 0 <= j < k && s[j].name == n {
      var j :| 0 <= j < k && s[j].name == n;
      assert s[..k][j] == s[j];
    }
  }

  lemma {:induction false} ExpiredNames(s: seq<BackupFile>, cutoff: int, n: string)
    ensures n in Names(Expired(s, cutoff)) <==> exists j :: 0 <= j < |s| && s[j].name == n && s[j].mtime < cutoff
    decreases |s|
  {
    if s != [] {
      ExpiredNames(s[1..], cutoff, n);
      LeadingName(s[0], Expired(s[1..], cutoff));
      if exists j :: 0 <= j < |s[1..]| && s[1..][j].name == n && s[1..][j].mtime < cutoff {
        var j :| 0 <= j < |s[1..]| && s[1..][j].name == n && s[1..][j].mtime < cutoff;
        assert s[j + 1] == s[1..][j];
      }
      if exists j :: 0 <= j < |s| && s[j].name == n && s[j].mtime < cutoff {
        var j :| 0 <= j < |s| && s[j].name == n && s[j].mtime < cutoff;
        if j > 0 { assert s[1..][j - 1] == s[j]; }
      }
    }
  }

  lemma {:induction false} MatchingNames(files: seq<BackupFile>, n: string)
    requires n in Names(Matching(files))
    ensures IsBackupName(n)
    decreases |files|
  {
    if IsBackupName(files[0].name) {
      LeadingName(files[0], Matching(files[1..]));
      if n != files[0].name { MatchingNames(files[1..], n); }
    } else {
      MatchingNames(files[1..], n);
    }
  }

  lemma DoomedWithin(sorted: seq<BackupFile>, maxKeep: nat, cutoff: int)
    ensures DoomedOf(sorted, maxKeep, cutoff) <= Names(sorted)
  {
    var k := Min(maxKeep, |sorted|);
    assert sorted == sorted[..k] + sorted[k..];
    NamesAppend(sorted[..k], sorted[k..]);
    FilterNames(sorted[..k], {}, cutoff);
    if |sorted| > maxKeep { assert k == maxKeep; }
  }

  /** Retention only ever names backups. */
  lemma DoomedAreBackups(files: seq<BackupFile>, maxKeep: nat, maxAgeDays: int, now: int, n: string)
    requires n in Doomed(files, maxKeep, maxAgeDays, now)
    ensures IsBackupName(n)
  {
    SortFacts(Matching(files));
    DoomedWithin(SortNewestFirst(Matching(files)), maxKeep, Cutoff(now, maxAgeDays));
    MatchingNames(files, n);
  }

  /** Over sorted backups with distinct names, the one at position `i` is
      doomed exactly when it is past the first `maxKeep` or expired. */
  lemma DoomedAt(sorted: seq<BackupFile>, maxKeep: nat, cutoff: int, i: int)
    requires NamesDistinct(sorted) && 0 <= i < |sorted|
    ensures sorted[i].name in DoomedOf(sorted, maxKeep, cutoff) <==>
      !(i < maxKeep && sorted[i].mtime >= cutoff)
  {
    var f := sorted[i];
    var k := Min(maxKeep, |sorted|);
    NamesAt(sorted, i, f.name);
    ExpiredNames(sorted[..k], cutoff, f.name);
    if |sorted| > maxKeep { SliceNames(sorted, maxKeep, f.name); }
    if i < k {
      assert sorted[..k][i] == f;
      forall j | 0 <= j < |sorted[..k]| && sorted[..k][j].name == f.name ensures j == i {
        assert sorted[..k][j] == sorted[j];
      }
    } else {
      assert forall j :: 0 <= j < |sorted[..k]| ==> sorted[..k][j] == sorted[j];
    }
  }

  /** In a directory of distinct names, a backup survives retention exactly
      when it is among the `maxKeep` newest and is not expired; every other
      file is left alone. */
  lemma Retention(files: seq<BackupFile>, maxKeep: nat, maxAgeDays: int, now: int, f: BackupFile)
    requires NamesDistinct(files) && f in files
    ensures var sorted := SortNewestFirst(Matching(files));
      f in Keep(files, Doomed(files, maxKeep, maxAgeDays, now)) <==>
        !IsBackupName(f.name)
        || exists i :: 0 <= i < maxKeep && i < |sorted| && sorted[i] == f && f.mtime >= Cutoff(now, maxAgeDays)
  {
    var m := Matching(files);
    var sorted := SortNewestFirst(m);
    var cutoff := Cutoff(now, maxAgeDays);
    var d := Doomed(files, maxKeep, maxAgeDays, now);
    FilterMembers(files, d, cutoff, f);
    if !IsBackupName(f.name) {
      if f.name in d { DoomedAreBackups(files, maxKeep, maxAgeDays, now, f.name); }
    } else {
      FiltersKeepDistinct(files, {});
      SortFacts(m);
      FilterMembers(files, {}, cutoff, f);
      assert f in multiset(m);
      assert f in sorted by { assert f in multiset(sorted); }
      var i :| 0 <= i < |sorted| && sorted[i] == f;
      NamesAt(sorted, i, f.name);
      DoomedAt(sorted, maxKeep, cutoff, i);
    }
  }

  lemma SubsetCard(a: set<string>, b: set<string>)
    requires a <= b
    ensures |a| <= |b|
  {
    assert b == a + (b - a);
  }

  /** Over sorted backups, the names that survive all lie in the first
      `maxKeep`. */
  lemma SurvivorsInFront(sorted: seq<BackupFile>, maxKeep: nat, cutoff: int)
    ensures Names(sorted) - DoomedOf(sorted, maxKeep, cutoff) <= Names(sorted[..Min(maxKeep, |sorted|)])
    ensures |Names(sorted[..Min(maxKeep, |sorted|)])| <= maxKeep
  {
    var k := Min(maxKeep, |sorted|);
    assert sorted == sorted[..k] + sorted[k..];
    NamesAppend(sorted[..k], sorted[k..]);
    NamesCount(sorted[..k]);
    if |sorted| > maxKeep {
      assert k == maxKeep;
    } else {
      assert sorted[k..] == [];
    }
  }

  /** So at most `maxKeep` backups remain after retention. */
  lemma RetentionBound(files: seq<BackupFile>, maxKeep: nat, maxAgeDays: int, now: int)
    requires NamesDistinct(files)
    ensures |Matching(Keep(files, Doomed(files, maxKeep, maxAgeDays, now)))| <= maxKeep
  {
    var m := Matching(files);
    var sorted := SortNewestFirst(m);
    var cutoff := Cutoff(now, maxAgeDays);
    var d := Doomed(files, maxKeep, maxAgeDays, now);
    var left := Matching(Keep(files, d));
    MatchingOfKeep(files, d);
    FiltersKeepDistinct(files, d);
    FiltersKeepDistinct(m, d);
    FilterNames(m, d, 0);
    SortFacts(m);
    NamesCount(left);
    SurvivorsInFront(sorted, maxKeep, cutoff);
    SubsetCard(Names(left), Names(sorted[..Min(maxKeep, |sorted|)]));
  }

  // ---------------------------------------------------------------------
  // Recovery

  /** The backup whose name sorts greatest: the first of
      `sorted(glob(...), reverse=True)`. */
  function Latest(s: seq<BackupFile>): (r: BackupFile)
    requires s != []
    ensures r in s
    ensures forall f :: f in s ==> f.name == r.name || Precedes(f.name, r.name)
    decreases |s|
  {
    if |s| == 1 then
      PrecedesIrreflexive(s[0].name);
      s[0]
    else
      var rest := Latest(s[1..]);
      if Precedes(rest.name, s[0].name) then
        forall f | f in s[1..] ensures f.name == s[0].name || Precedes(f.name, s[0].name) {
          if f.name != rest.name { PrecedesTransitive(f.name, rest.name, s[0].name); }
        }
        s[0]
      else
        PrecedesTotal(rest.name, s[0].name);
        rest
  }
}

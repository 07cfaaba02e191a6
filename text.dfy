/** String helpers with Python's meaning: prefix and substring tests, ASCII case
    mapping, `sep.join(...)`, `str.split(p)`, `str.replace(p, q)` and the
    code-point order in which Python compares strings. */
module Text {

  predicate StartsWith(s: string, p: string) {
    |p| <= |s| && s[..|p|] == p
  }

  predicate EndsWith(s: string, p: string) {
    |p| <= |s| && s[|s| - |p|..] == p
  }

  /** Python's `p in s` for strings, scanned from the left. */
  predicate Contains(s: string, p: string)
    decreases |s|
  {
    StartsWith(s, p) || (s != [] && Contains(s[1..], p))
  }

  /** `p` occurs in `s` starting at position `i`. */
  predicate OccursAt(s: string, p: string, i: int) {
    0 <= i && i + |p| <= |s| && s[i..i + |p|] == p
  }

  /** The scan above finds exactly the positions at which `p` occurs. */
  lemma {:induction false} ContainsAt(s: string, p: string)
    ensures Contains(s, p) <==> exists i :: OccursAt(s, p, i)
    decreases |s|
  {
    if StartsWith(s, p) {
      assert OccursAt(s, p, 0);
    } else if s == [] {
    } else {
      ContainsAt(s[1..], p);
      if Contains(s[1..], p) {
        var i :| OccursAt(s[1..], p, i);
        assert s[i + 1..i + 1 + |p|] == s[1..][i..i + |p|];
        assert OccursAt(s, p, i + 1);
      }
      if exists i :: OccursAt(s, p, i) {
        var i :| OccursAt(s, p, i);
        assert i != 0;
        assert s[1..][i - 1..i - 1 + |p|] == s[i..i + |p|];
        assert OccursAt(s[1..], p, i - 1);
      }
    }
  }

  /** A string that lacks one of the characters of `p` does not contain `p`. */
  lemma ContainsNeedsChar(s: string, p: string, c: char)
    requires c in p && c !in s
    ensures !Contains(s, p)
  {
    ContainsAt(s, p);
  }

  /** A substring still occurs after both sides are lower-cased. */
  lemma ContainsLower(s: string, p: string)
    requires Contains(s, p)
    ensures Contains(Lower(s), Lower(p))
  {
    ContainsAt(s, p);
    var i :| OccursAt(s, p, i);
    assert Lower(s)[i..i + |p|] == Lower(p);
    assert OccursAt(Lower(s), Lower(p), i);
    ContainsAt(Lower(s), Lower(p));
  }

  function LowerChar(c: char): char {
    if 'A' <= c <= 'Z' then (c as int + 32) as char else c
  }

  function UpperChar(c: char): char {
    if 'a' <= c <= 'z' then (c as int - 32) as char else c
  }

  /** `str.lower()` restricted to ASCII letters. */
  function Lower(s: string): (r: string)
    ensures |r| == |s|
    ensures forall i :: 0 <= i < |s| ==> r[i] == LowerChar(s[i])
  {
    seq(|s|, i requires 0 <= i < |s| => LowerChar(s[i]))
  }

  /** `str.upper()` restricted to ASCII letters. */
  function Upper(s: string): (r: string)
    ensures |r| == |s|
    ensures forall i :: 0 <= i < |s| ==> r[i] == UpperChar(s[i])
  {
    seq(|s|, i requires 0 <= i < |s| => UpperChar(s[i]))
  }

  /** `sep.join(pieces)`. */
  function Join(pieces: seq<string>, sep: string): string
    decreases |pieces|
  {
    if pieces == [] then ""
    else if |pieces| == 1 then pieces[0]
    else pieces[0] + sep + Join(pieces[1..], sep)
  }

  /** `s.split(p)` for a non-empty separator: the pieces between the
      non-overlapping occurrences of `p`, found from the left. */
  function Split(s: string, p: string): (r: seq<string>)
    requires p != []
    ensures |r| >= 1
    decreases |s|
  {
    if s == [] then [""]
    else if StartsWith(s, p) then [""] + Split(s[|p|..], p)
    else
      var rest := Split(s[1..], p);
      [[s[0]] + rest[0]] + rest[1..]
  }

  /** `s.replace(p, q)`, which Python defines as `q.join(s.split(p))`. */
  function Replace(s: string, p: string, q: string): string
    requires p != []
  {
    Join(Split(s, p), q)
  }

  /** Joining the pieces again with the separator gives back the string. */
  lemma {:induction false} SplitJoin(s: string, p: string)
    requires p != []
    ensures Join(Split(s, p), p) == s
    decreases |s|
  {
    if s == [] {
    } else if StartsWith(s, p) {
      SplitJoin(s[|p|..], p);
      JoinAfterEmpty(Split(s[|p|..], p), p);
      assert s == p + s[|p|..];
    } else {
      SplitJoin(s[1..], p);
      JoinExtendFirst(s[0], Split(s[1..], p), p);
      assert s == [s[0]] + s[1..];
    }
  }

  lemma JoinAfterEmpty(rest: seq<string>, sep: string)
    requires |rest| >= 1
    ensures Join([""] + rest, sep) == sep + Join(rest, sep)
  {
    assert ([""] + rest)[1..] == rest;
  }

  lemma JoinExtendFirst(c: char, rest: seq<string>, sep: string)
    requires |rest| >= 1
    ensures Join([[c] + rest[0]] + rest[1..], sep) == [c] + Join(rest, sep)
  {
    var first := [c] + rest[0];
    if |rest| > 1 {
      assert ([first] + rest[1..])[1..] == rest[1..];
    }
  }

  /** A piece that `Split` produces first is a prefix of its input. */
  lemma {:induction false} SplitFirstIsPrefix(s: string, p: string)
    requires p != []
    ensures |Split(s, p)[0]| <= |s| && s[..|Split(s, p)[0]|] == Split(s, p)[0]
    decreases |s|
  {
    if s == [] {
    } else if StartsWith(s, p) {
    } else {
      SplitFirstIsPrefix(s[1..], p);
    }
  }

  /** No piece that `Split` produces contains the separator. */
  lemma {:induction false} SplitPiecesFree(s: string, p: string)
    requires p != []
    ensures forall k :: 0 <= k < |Split(s, p)| ==> !Contains(Split(s, p)[k], p)
    decreases |s|
  {
    if s == [] {
      EmptyContains(p);
    } else if StartsWith(s, p) {
      SplitPiecesFree(s[|p|..], p);
      EmptyContains(p);
      var r := Split(s, p);
      forall k | 0 <= k < |r| ensures !Contains(r[k], p) {
        if k > 0 { assert r[k] == Split(s[|p|..], p)[k - 1]; }
      }
    } else {
      SplitPiecesFree(s[1..], p);
      SplitFirstIsPrefix(s[1..], p);
      var rest := Split(s[1..], p);
      var first := [s[0]] + rest[0];
      assert first[1..] == rest[0];
      var r := Split(s, p);
      forall k | 0 <= k < |r| ensures !Contains(r[k], p) {
        if k > 0 { assert r[k] == rest[k]; }
      }
    }
  }

  lemma EmptyContains(p: string)
    requires p != []
    ensures !Contains("", p)
  {
  }

  /** `s.replace(p, q)` leaves a string without any occurrence of `p` unchanged. */
  lemma ReplaceAbsent(s: string, p: string, q: string)
    requires p != [] && !Contains(s, p)
    ensures Replace(s, p, q) == s
  {
    SplitNoOccurrence(s, p);
  }

  lemma {:induction false} SplitNoOccurrence(s: string, p: string)
    requires p != [] && !Contains(s, p)
    ensures Split(s, p) == [s]
    decreases |s|
  {
    if s != [] {
      SplitNoOccurrence(s[1..], p);
      assert [s[0]] + s[1..] == s;
    }
  }

  /** Python's `a < b` on strings: code-point lexicographic order. */
  predicate Precedes(a: string, b: string)
    decreases |a|
  {
    if a == [] then b != []
    else if b == [] then false
    else if a[0] != b[0] then a[0] < b[0]
    else Precedes(a[1..], b[1..])
  }

  lemma {:induction false} PrecedesIrreflexive(a: string)
    ensures !Precedes(a, a)
    decreases |a|
  {
    if a != [] { PrecedesIrreflexive(a[1..]); }
  }

  lemma {:induction false} PrecedesTransitive(a: string, b: string, c: string)
    requires Precedes(a, b) && Precedes(b, c)
    ensures Precedes(a, c)
    decreases |a|
  {
    if a != [] && b != [] && c != [] && a[0] == b[0] && b[0] == c[0] {
      PrecedesTransitive(a[1..], b[1..], c[1..]);
    }
  }

  lemma {:induction false} PrecedesTotal(a: string, b: string)
    ensures a == b || Precedes(a, b) || Precedes(b, a)
    decreases |a|
  {
    if a != [] && b != [] && a[0] == b[0] {
      PrecedesTotal(a[1..], b[1..]);
      if a[1..] == b[1..] {
        assert a == [a[0]] + a[1..] && b == [b[0]] + b[1..];
      }
    }
  }
}

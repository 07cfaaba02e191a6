/** The fragment of Python's `re` that the argument denylist uses: single
    characters, `.`, `\s`, character classes, and the `*` and `+`
    repetitions, searched anywhere in a string (`re.search`). */
module Pattern {
  import opened Text

  datatype CharClass =
    | Exactly(c: char)      // a literal character
    | AnyButNewline         // `.`
    | Space                 // `\s` on `str` patterns
    | OneOf(cs: string)     // `[...]`

  datatype Atom =
    | Once(cls: CharClass)   // the class, exactly once
    | Repeat(cls: CharClass) // the class, zero or more times (`*`)

  /** The characters Python's `\s` matches in a `str` pattern (`str.isspace`). */
  predicate IsSpace(c: char) {
    ('\t' <= c <= '\r') || ('\U{1c}' <= c <= ' ')
    || c == '\U{85}' || c == '\U{a0}' || c == '\U{1680}'
    || ('\U{2000}' <= c <= '\U{200a}') || c == '\U{2028}' || c == '\U{2029}'
    || c == '\U{202f}' || c == '\U{205f}' || c == '\U{3000}'
  }

  predicate InClass(c: char, cls: CharClass) {
    match cls
    case Exactly(d) => c == d
    case AnyButNewline => c != '\n'
    case Space => IsSpace(c)
    case OneOf(cs) => c in cs
  }

  /** The pattern matches some prefix of `s` (`re.match`, with backtracking). */
  predicate MatchesPrefix(pat: seq<Atom>, s: string)
    decreases |pat|, |s|
  {
    if pat == [] then true
    else match pat[0]
      case Once(cls) => s != [] && InClass(s[0], cls) && MatchesPrefix(pat[1..], s[1..])
      case Repeat(cls) =>
        MatchesPrefix(pat[1..], s) || (s != [] && InClass(s[0], cls) && MatchesPrefix(pat, s[1..]))
  }

  /** `re.search(pat, s)` finds a match starting somewhere in `s`. */
  predicate Search(pat: seq<Atom>, s: string)
    decreases |s|
  {
    MatchesPrefix(pat, s) || (s != [] && Search(pat, s[1..]))
  }

  /** A literal string as a pattern. */
  function Literal(p: string): (r: seq<Atom>)
    ensures |r| == |p|
    ensures forall i :: 0 <= i < |p| ==> r[i] == Once(Exactly(p[i]))
  {
    seq(|p|, i requires 0 <= i < |p| => Once(Exactly(p[i])))
  }

  /** `\s+` */
  function SpacesPlus(): seq<Atom> {
    [Once(Space), Repeat(Space)]
  }

  /** A literal pattern matches a prefix exactly when the string starts with it. */
  lemma {:induction false} LiteralPrefix(p: string, s: string)
    ensures MatchesPrefix(Literal(p), s) <==> StartsWith(s, p)
    decreases |p|
  {
    if p != [] {
      assert Literal(p)[1..] == Literal(p[1..]);
      if s != [] {
        LiteralPrefix(p[1..], s[1..]);
        if |p| <= |s| {
          assert s[..|p|] == [s[0]] + s[1..][..|p| - 1];
          assert p == [p[0]] + p[1..];
        }
      }
    }
  }

  /** Searching for a literal pattern is Python's substring test. */
  lemma {:induction false} LiteralSearch(p: string, s: string)
    ensures Search(Literal(p), s) <==> Contains(s, p)
    decreases |s|
  {
    LiteralPrefix(p, s);
    if s != [] { LiteralSearch(p, s[1..]); }
  }

  /** A match of a pattern that demands the character `c` somewhere consumes
      a `c`. */
  lemma {:induction false} PrefixNeedsChar(pat: seq<Atom>, s: string, c: char)
    requires Once(Exactly(c)) in pat && MatchesPrefix(pat, s)
    ensures c in s
    decreases |pat|, |s|
  {
    assert pat == [pat[0]] + pat[1..];
    match pat[0]
    case Once(cls) =>
      if pat[0] != Once(Exactly(c)) {
        PrefixNeedsChar(pat[1..], s[1..], c);
        assert s == [s[0]] + s[1..];
      }
    case Repeat(cls) =>
      if MatchesPrefix(pat[1..], s) {
        PrefixNeedsChar(pat[1..], s, c);
      } else {
        PrefixNeedsChar(pat, s[1..], c);
        assert s == [s[0]] + s[1..];
      }
  }

  /** Such a pattern is found nowhere in a string that lacks `c`. */
  lemma {:induction false} SearchNeedsChar(pat: seq<Atom>, s: string, c: char)
    requires Once(Exactly(c)) in pat && c !in s
    ensures !Search(pat, s)
    decreases |s|
  {
    if MatchesPrefix(pat, s) {
      PrefixNeedsChar(pat, s, c);
    }
    if s != [] {
      assert s == [s[0]] + s[1..];
      SearchNeedsChar(pat, s[1..], c);
    }
  }
}

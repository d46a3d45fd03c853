/** The string operations the plugin applies to configured paths. */
module Text {

  /** The path separator (`File.separator` on a Unix host). */
  const Separator: char := '/'

  /** `indexOf`: the first position of `c` in `s`, or -1. */
  function IndexOf(s: string, c: char): (i: int)
    ensures -1 <= i < |s|
    ensures i == -1 <==> c !in s
    ensures 0 <= i ==> s[i] == c && c !in s[..i]
  {
    if s == [] then -1
    else if s[0] == c then 0
    else
      var j := IndexOf(s[1..], c);
      if j < 0 then -1
      else
        assert s[..j + 1] == [s[0]] + s[1..][..j];
        j + 1
  }

  /**
   * The part of a relative path before its first separator, or the whole
   * path when it has none (`path.substring(0, path.indexOf("/"))`).
   */
  function FirstSegment(path: string): (name: string)
    ensures Separator !in name
    ensures |name| <= |path| && name == path[..|name|]
    ensures Separator in path ==> path[|name|] == Separator
    ensures Separator !in path ==> name == path
  {
    var i := IndexOf(path, Separator);
    if i == -1 then path else path[..i]
  }

  /**
   * `split`: the pieces of `s` between occurrences of `sep`, empty pieces
   * included, so that `n` separators give `n + 1` pieces.
   */
  function Split(s: string, sep: char): (parts: seq<string>)
    ensures |parts| >= 1
    ensures forall i | 0 <= i < |parts| :: sep !in parts[i]
    ensures sep !in s ==> parts == [s]
    decreases |s|
  {
    var i := IndexOf(s, sep);
    if i < 0 then [s] else [s[..i]] + Split(s[i + 1..], sep)
  }

  /** The inverse of `Split`: the pieces glued back with the separator between them. */
  function Join(parts: seq<string>, sep: char): (s: string)
    requires |parts| >= 1
  {
    if |parts| == 1 then parts[0] else parts[0] + [sep] + Join(parts[1..], sep)
  }

  lemma JoinCons(first: string, parts: seq<string>, sep: char)
    requires |parts| >= 1
    ensures Join([first] + parts, sep) == first + [sep] + Join(parts, sep)
  {
    assert ([first] + parts)[1..] == parts;
  }

  lemma Rejoin(s: string, i: nat)
    requires i < |s|
    ensures s == s[..i] + [s[i]] + s[i + 1..]
  {
  }

  lemma {:induction false} JoinSplit(s: string, sep: char)
    ensures Join(Split(s, sep), sep) == s
    decreases |s|
  {
    var i := IndexOf(s, sep);
    if i >= 0 {
      var rest := s[i + 1..];
      JoinSplit(rest, sep);
      JoinCons(s[..i], Split(rest, sep), sep);
      Rejoin(s, i);
    }
  }

  lemma {:induction false} SplitJoin(parts: seq<string>, sep: char)
    requires |parts| >= 1
    requires forall i | 0 <= i < |parts| :: sep !in parts[i]
    ensures Split(Join(parts, sep), sep) == parts
  {
    if |parts| > 1 {
      var s := Join(parts, sep);
      SplitJoin(parts[1..], sep);
      assert s[..|parts[0]|] == parts[0];
      assert s[|parts[0]|] == sep;
      assert IndexOf(s, sep) == |parts[0]| by {
        assert sep !in s[..|parts[0]|];
      }
      assert s[|parts[0]| + 1..] == Join(parts[1..], sep);
    }
  }

  /** The non-empty pieces, in order (`if (dir.isNotEmpty())`). */
  function NonEmpty(parts: seq<string>): (r: seq<string>)
    ensures |r| <= |parts|
    ensures forall i | 0 <= i < |r| :: r[i] != ""
  {
    if parts == [] then []
    else (if parts[0] == "" then [] else [parts[0]]) + NonEmpty(parts[1..])
  }

  /** `NonEmpty` keeps exactly the non-empty pieces. */
  lemma {:induction false} NonEmptyMember(parts: seq<string>, x: string)
    ensures x in NonEmpty(parts) <==> x in parts && x != ""
  {
    if parts != [] {
      NonEmptyMember(parts[1..], x);
      assert parts == [parts[0]] + parts[1..];
    }
  }

  /** The non-empty separator-free names a relative path walks through. */
  function Segments(path: string): (names: seq<string>)
    ensures forall i | 0 <= i < |names| :: names[i] != "" && Separator !in names[i]
  {
    var parts := Split(path, Separator);
    var names := NonEmpty(parts);
    forall i | 0 <= i < |names| ensures Separator !in names[i] {
      NonEmptyMember(parts, names[i]);
    }
    names
  }

  lemma FirstSegmentIsFirstPiece(path: string)
    ensures FirstSegment(path) == Split(path, Separator)[0]
  {
  }

  /** A path whose first segment is not empty starts its walk with that segment. */
  lemma FirstSegmentLeadsWalk(path: string)
    requires FirstSegment(path) != ""
    ensures Segments(path) != [] && Segments(path)[0] == FirstSegment(path)
  {
    FirstSegmentIsFirstPiece(path);
    var parts := Split(path, Separator);
    assert NonEmpty(parts) == [parts[0]] + NonEmpty(parts[1..]);
  }

  function LowerChar(c: char): char {
    if 'A' <= c <= 'Z' then (c as int - 'A' as int + 'a' as int) as char else c
  }

  /** `lowercase()`, on the ASCII letters. */
  function Lowercase(s: string): (r: string)
    ensures |r| == |s|
    ensures forall i | 0 <= i < |s| :: !('A' <= r[i] <= 'Z')
    ensures forall i | 0 <= i < |s| :: ('a' <= r[i] <= 'z') == ('a' <= s[i] <= 'z' || 'A' <= s[i] <= 'Z')
    ensures forall i | 0 <= i < |s| && !('A' <= s[i] <= 'Z') :: r[i] == s[i]
    ensures forall i | 0 <= i < |s| && 'A' <= s[i] <= 'Z' :: r[i] as int == s[i] as int + 32
  {
    seq(|s|, i requires 0 <= i < |s| => LowerChar(s[i]))
  }
}

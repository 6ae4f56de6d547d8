/**
 Sequence-of-character helpers shared by the key encoder and the wrapper codec:
 finding a delimiter, cutting a string at its first delimiter, and joining /
 splitting on a single separator character.
 */
module Strings {
  import opened Wrappers

  /** Position of the first occurrence of `c` in `s`, if any; `IndexOfSpec` characterizes it. */
  function IndexOf(s: string, c: char): (r: Option<nat>)
    ensures r.Some? ==> r.value < |s|
  {
    if |s| == 0 then None
    else if s[0] == c then Some(0)
    else
      match IndexOf(s[1..], c)
      case None => None
      case Some(i) => Some(i + 1)
  }

  /** `IndexOf` finds nothing exactly when `c` is absent, and otherwise the first `c`. */
  lemma {:induction false} IndexOfSpec(s: string, c: char)
    ensures IndexOf(s, c).None? <==> c !in s
    ensures IndexOf(s, c).Some? ==>
              var i := IndexOf(s, c).value; s[i] == c && c !in s[..i]
    decreases |s|
  {
    if |s| > 0 && s[0] != c {
      IndexOfSpec(s[1..], c);
      assert s == [s[0]] + s[1..];
      match IndexOf(s[1..], c)
      case None =>
      case Some(i) =>
        assert s[..i + 1] == [s[0]] + s[1..][..i];
    }
  }

  /** The first occurrence of `c` in `l + [c] + r` is at `|l|` when `l` is free of `c`. */
  lemma IndexOfAfterPrefix(l: string, c: char, r: string)
    requires c !in l
    ensures IndexOf(l + [c] + r, c) == Some(|l|)
  {
    var s := l + [c] + r;
    IndexOfSpec(s, c);
    assert s[|l|] == c;
    assert s[..|l|] == l;
  }

  /** Cuts `s` at its first `c`: the part before it and the part after it. */
  function SplitFirst(s: string, c: char): (r: Option<(string, string)>)
    ensures r.Some? ==> |r.value.1| < |s|
  {
    match IndexOf(s, c)
    case None => None
    case Some(i) => Some((s[..i], s[i + 1..]))
  }

  /** `SplitFirst` fails exactly when `c` is absent; otherwise its parts are
      a `c`-free head and a tail that rebuild the input around the first `c`. */
  lemma SplitFirstSpec(s: string, c: char)
    ensures SplitFirst(s, c).None? <==> c !in s
    ensures SplitFirst(s, c).Some? ==>
              var (head, tail) := SplitFirst(s, c).value;
              c !in head && s == head + [c] + tail
  {
    IndexOfSpec(s, c);
    if IndexOf(s, c).Some? {
      var i := IndexOf(s, c).value;
      assert s == s[..i] + [c] + s[i + 1..];
    }
  }

  /** Cutting a line that does not contain `c` and what follows it recovers both. */
  lemma SplitFirstOfConcat(l: string, c: char, r: string)
    requires c !in l
    ensures SplitFirst(l + [c] + r, c) == Some((l, r))
  {
    IndexOfAfterPrefix(l, c, r);
    var s := l + [c] + r;
    assert s[..|l|] == l;
    assert s[|l| + 1..] == r;
  }

  /** `parts` joined with `sep` between consecutive elements. */
  function Join(parts: seq<string>, sep: char): string
  {
    if |parts| == 0 then ""
    else if |parts| == 1 then parts[0]
    else parts[0] + [sep] + Join(parts[1..], sep)
  }

  /** `s` cut at every `sep`; always at least one piece. */
  function Pieces(s: string, sep: char): (r: seq<string>)
    ensures |r| >= 1
    ensures forall i :: 0 <= i < |r| ==> sep !in r[i]
    decreases |s|
  {
    SplitFirstSpec(s, sep);
    match SplitFirst(s, sep)
    case None => [s]
    case Some((head, tail)) => [head] + Pieces(tail, sep)
  }

  /** `s` cut at every `sep`; the empty string has no pieces. */
  function Split(s: string, sep: char): seq<string>
  {
    if s == "" then [] else Pieces(s, sep)
  }

  /** Joining separator-free parts and cutting the result again gives the parts back. */
  lemma {:induction false} PiecesOfJoin(parts: seq<string>, sep: char)
    requires |parts| >= 1
    requires forall i :: 0 <= i < |parts| ==> sep !in parts[i]
    ensures Pieces(Join(parts, sep), sep) == parts
    decreases |parts|
  {
    if |parts| == 1 {
      SplitFirstSpec(parts[0], sep);
    } else {
      SplitFirstOfConcat(parts[0], sep, Join(parts[1..], sep));
      PiecesOfJoin(parts[1..], sep);
      assert parts == [parts[0]] + parts[1..];
    }
  }

  /** Splitting undoes joining for non-empty, separator-free parts. */
  lemma SplitOfJoin(parts: seq<string>, sep: char)
    requires forall i :: 0 <= i < |parts| ==> parts[i] != "" && sep !in parts[i]
    ensures Split(Join(parts, sep), sep) == parts
  {
    if |parts| > 0 {
      assert Join(parts, sep) != "" by {
        if |parts| > 1 {
          assert Join(parts, sep)[0] == parts[0][0];
        }
      }
      PiecesOfJoin(parts, sep);
    }
  }

  /** Joining the pieces of any string reassembles it exactly. */
  lemma {:induction false} JoinOfPieces(s: string, sep: char)
    ensures Join(Pieces(s, sep), sep) == s
    decreases |s|
  {
    SplitFirstSpec(s, sep);
    match SplitFirst(s, sep)
    case None =>
    case Some((head, tail)) =>
      JoinOfPieces(tail, sep);
  }

  /** Joining undoes splitting, for every string. */
  lemma JoinOfSplit(s: string, sep: char)
    ensures Join(Split(s, sep), sep) == s
  {
    if s != "" {
      JoinOfPieces(s, sep);
    }
  }

  /** Joining a prefix of the parts yields a prefix of the joined whole. */
  lemma {:induction false} JoinPrefix(parts: seq<string>, sep: char, m: nat)
    requires m <= |parts|
    ensures Join(parts[..m], sep) <= Join(parts, sep)
    decreases m
  {
    if m == 0 || |parts| == 1 {
    } else if m == 1 {
      assert parts[..1] == [parts[0]];
    } else {
      JoinPrefix(parts[1..], sep, m - 1);
      assert parts[..m][1..] == parts[1..][..m - 1];
    }
  }
}

/** Models of the few functions of Go's `strings` package that the scheme code uses
    (Count, Index, SplitN, Join), plus Split, the decoder for identifiers. Count, Index,
    SplitN and Split take a one-character separator: every separator the scheme code
    counts, searches or splits on is one ASCII character, so byte offsets and character
    offsets coincide. Join takes any separator. The scheme code's one join on the empty
    separator is written as plain concatenation. */
module Strings {

  /** strings.Count(s, sep) for a one-character sep: the number of occurrences of c in s. */
  function Count(s: string, c: char): (n: nat)
    ensures n <= |s|
    ensures n == 0 <==> c !in s
  {
    if s == [] then 0 else (if s[0] == c then 1 else 0) + Count(s[1..], c)
  }

  /** strings.Index(s, sep) for a one-character sep: the first position of c in s, or -1. */
  function Index(s: string, c: char): (i: int)
    ensures -1 <= i < |s|
    ensures i == -1 <==> c !in s
    ensures 0 <= i ==> s[i] == c && c !in s[..i]
  {
    if s == [] then -1
    else if s[0] == c then 0
    else
      var j := Index(s[1..], c);
      if j == -1 then -1
      else
        assert s[..j + 1] == [s[0]] + s[1..][..j];
        j + 1
  }

  /** strings.SplitN(s, sep, n) for a one-character sep and n >= 0: at most n pieces, the
      last of which is the unsplit remainder; n == 0 gives no pieces. */
  function SplitN(s: string, c: char, n: nat): (parts: seq<string>)
    ensures n == 0 ==> parts == []
    ensures n > 0 ==> 1 <= |parts| <= n
    decreases n
  {
    if n == 0 then []
    else if n == 1 then [s]
    else
      var i := Index(s, c);
      if i < 0 then [s] else [s[..i]] + SplitN(s[i + 1..], c, n - 1)
  }

  /** strings.Split(s, sep) for a one-character sep: every piece between separators. */
  function Split(s: string, c: char): seq<string>
  {
    SplitN(s, c, Count(s, c) + 1)
  }

  /** strings.Join(parts, sep). */
  function Join(parts: seq<string>, sep: string): string
  {
    if |parts| == 0 then ""
    else if |parts| == 1 then parts[0]
    else parts[0] + sep + Join(parts[1..], sep)
  }

  /** A string is the part before a position, the character there, and the part after. */
  lemma SplitAt(s: string, i: nat)
    requires i < |s|
    ensures s == s[..i] + [s[i]] + s[i + 1..]
  {
  }

  /** Join of a list with at least two pieces, unfolded once. */
  lemma JoinCons(x: string, rest: seq<string>, sep: string)
    requires |rest| > 0
    ensures Join([x] + rest, sep) == x + sep + Join(rest, sep)
  {
    var parts := [x] + rest;
    assert parts[0] == x && parts[1..] == rest;
  }

  /** Join of exactly three pieces. */
  lemma JoinThree(x: string, y: string, z: string, sep: string)
    ensures Join([x, y, z], sep) == x + sep + y + sep + z
  {
    JoinCons(y, [z], sep);
    assert [x, y, z] == [x] + [y, z] && [y, z] == [y] + [z];
    JoinCons(x, [y, z], sep);
  }

  lemma {:induction false} CountAppend(a: string, b: string, c: char)
    ensures Count(a + b, c) == Count(a, c) + Count(b, c)
  {
    if a == [] {
      assert a + b == b;
    } else {
      assert (a + b)[1..] == a[1..] + b;
      CountAppend(a[1..], b, c);
    }
  }

  /** Counting around one occurrence of the separator. */
  lemma CountAround(a: string, b: string, c: char)
    ensures Count(a + [c] + b, c) == Count(a, c) + 1 + Count(b, c)
  {
    CountAppend(a + [c], b, c);
    CountAppend(a, [c], c);
  }

  /** The first occurrence of c in `a + [c] + b`, when a has none, is right after a. */
  lemma IndexAfterPrefix(a: string, b: string, c: char)
    requires c !in a
    ensures Index(a + [c] + b, c) == |a|
  {
    var s := a + [c] + b;
    var i := Index(s, c);
    assert s[|a|] == c;
    assert forall k :: 0 <= k < |a| ==> s[k] == a[k];
  }

  /** A string split at its first separator is split in only one way. */
  lemma SplitUnique(a: string, b: string, a': string, b': string, c: char)
    requires c !in a && c !in a'
    requires a + [c] + b == a' + [c] + b'
    ensures a == a' && b == b'
  {
    IndexAfterPrefix(a, b, c);
    IndexAfterPrefix(a', b', c);
    var s := a + [c] + b;
    assert a == s[..|a|] && a' == s[..|a'|];
    assert b == s[|a| + 1..] && b' == s[|a'| + 1..];
  }

  /** A string with two separators before its remainder is split in only one way. */
  lemma SplitTwiceUnique(a: string, b: string, r: string, a': string, b': string, r': string, c: char)
    requires c !in a && c !in b && c !in a' && c !in b'
    requires a + [c] + b + [c] + r == a' + [c] + b' + [c] + r'
    ensures a == a' && b == b' && r == r'
  {
    assert a + [c] + b + [c] + r == a + [c] + (b + [c] + r);
    assert a' + [c] + b' + [c] + r' == a' + [c] + (b' + [c] + r');
    SplitUnique(a, b + [c] + r, a', b' + [c] + r', c);
    SplitUnique(b, r, b', r', c);
  }

  /** Putting a piece back in front of the rest at a separator. */
  lemma JoinAtSeparator(s: string, c: char, i: nat, rest: seq<string>)
    requires i < |s| && s[i] == c
    requires |rest| > 0 && Join(rest, [c]) == s[i + 1..]
    ensures Join([s[..i]] + rest, [c]) == s
  {
    JoinCons(s[..i], rest, [c]);
    SplitAt(s, i);
  }

  /** The pieces of SplitN put back together with the separator give the input. */
  lemma {:induction false} SplitNJoin(s: string, c: char, n: nat)
    requires n > 0
    ensures Join(SplitN(s, c, n), [c]) == s
    decreases n
  {
    var i := Index(s, c);
    if n > 1 && i >= 0 {
      var rest := SplitN(s[i + 1..], c, n - 1);
      SplitNJoin(s[i + 1..], c, n - 1);
      JoinAtSeparator(s, c, i, rest);
      assert SplitN(s, c, n) == [s[..i]] + rest;
    }
  }

  /** With at least n - 1 separators, SplitN yields exactly n pieces, and all but the last
      are free of the separator. */
  lemma {:induction false} SplitNPieces(s: string, c: char, n: nat)
    requires n > 0 && Count(s, c) >= n - 1
    ensures |SplitN(s, c, n)| == n
    ensures forall k :: 0 <= k < n - 1 ==> c !in SplitN(s, c, n)[k]
    decreases n
  {
    if n > 1 {
      var i := Index(s, c);
      SplitAt(s, i);
      CountAround(s[..i], s[i + 1..], c);
      SplitNPieces(s[i + 1..], c, n - 1);
    }
  }

  /** Joining separator-free pieces and splitting again at most |parts| times gives the
      pieces back. */
  lemma {:induction false} SplitNOfJoin(parts: seq<string>, c: char)
    requires |parts| > 0
    requires forall k :: 0 <= k < |parts| ==> c !in parts[k]
    ensures Count(Join(parts, [c]), c) == |parts| - 1
    ensures SplitN(Join(parts, [c]), c, |parts|) == parts
    decreases |parts|
  {
    if |parts| > 1 {
      var rest := Join(parts[1..], [c]);
      SplitNOfJoin(parts[1..], c);
      CountAround(parts[0], rest, c);
      IndexAfterPrefix(parts[0], rest, c);
      var s := parts[0] + [c] + rest;
      assert Join(parts, [c]) == s;
      assert s[..|parts[0]|] == parts[0];
      assert s[|parts[0]| + 1..] == rest;
      assert SplitN(s, c, |parts|) == [parts[0]] + SplitN(rest, c, |parts| - 1);
      assert parts == [parts[0]] + parts[1..];
    }
  }

  /** Split undoes Join on separator-free pieces. */
  lemma SplitOfJoin(parts: seq<string>, c: char)
    requires |parts| > 0
    requires forall k :: 0 <= k < |parts| ==> c !in parts[k]
    ensures Split(Join(parts, [c]), c) == parts
  {
    SplitNOfJoin(parts, c);
  }
}

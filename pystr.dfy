/** The Python string built-ins the manuscript converter relies on:
    `str.find`, `str.split` and `str.join` with a non-empty separator,
    and `str(n)` for a natural number. */
module PyStr {

  /** `sep` occurs in `s` starting at index `i`. */
  predicate OccursAt(s: string, sep: string, i: nat)
  {
    i + |sep| <= |s| && s[i..i + |sep|] == sep
  }

  /** Python's `sep in s`. */
  ghost predicate Contains(s: string, sep: string)
  {
    exists i: nat :: OccursAt(s, sep, i)
  }

  /** `s.find(sep, from)`: the leftmost index at or after `from` where `sep`
      occurs, or -1 when there is none. */
  function Find(s: string, sep: string, from: nat): (r: int)
    requires |sep| > 0
    decreases |s| - from
    ensures r == -1 || (from <= r && OccursAt(s, sep, r))
    ensures forall j: nat :: from <= j && (r == -1 || j < r) ==> !OccursAt(s, sep, j)
  {
    if from + |sep| > |s| then -1
    else if OccursAt(s, sep, from) then from
    else Find(s, sep, from + 1)
  }

  /** `sep.join(parts)`: the first piece, then each further piece preceded
      by `sep`; so the first piece is a prefix, and with two or more pieces
      the result is at least as long as the first two and a separator. */
  function Join(parts: seq<string>, sep: string): (r: string)
    ensures |parts| >= 1 ==> parts[0] <= r
    ensures |parts| >= 2 ==> |r| >= |parts[0]| + |sep| + |parts[1]|
  {
    if |parts| == 0 then ""
    else if |parts| == 1 then parts[0]
    else parts[0] + sep + Join(parts[1..], sep)
  }

  /** `s.split(sep)` for a non-empty `sep`: scan left to right, cut at the
      leftmost occurrence of `sep`, continue after it; empty pieces are kept
      and there is always at least one piece. */
  function Split(s: string, sep: string): (r: seq<string>)
    requires |sep| > 0
    decreases |s|
    ensures |r| >= 1
    ensures Join(r, sep) == s
  {
    var i := Find(s, sep, 0);
    if i == -1 then [s]
    else
      var rest := Split(s[i + |sep|..], sep);
      assert s == s[..i] + sep + s[i + |sep|..];
      assert ([s[..i]] + rest)[1..] == rest;
      [s[..i]] + rest
  }

  /** A piece that is followed by `sep` was cut at the leftmost occurrence:
      no occurrence of `sep` in `p + sep` starts inside `p`. */
  ghost predicate CutsAtEnd(p: string, sep: string)
  {
    forall j: nat :: j < |p| ==> !OccursAt(p + sep, sep, j)
  }

  /** The pieces a left-to-right, non-overlapping split produces: at least
      one, every piece but the last cut at the leftmost occurrence, and no
      occurrence left in the last piece. */
  ghost predicate SplitPieces(parts: seq<string>, sep: string)
  {
    && |parts| >= 1
    && (forall k :: 0 <= k < |parts| - 1 ==> CutsAtEnd(parts[k], sep))
    && !Contains(parts[|parts| - 1], sep)
  }

  lemma CutsAtEndNotContains(p: string, sep: string)
    requires |sep| > 0 && CutsAtEnd(p, sep)
    ensures !Contains(p, sep)
  {
    forall j: nat | OccursAt(p, sep, j)
      ensures false
    {
      assert (p + sep)[j..j + |sep|] == p[j..j + |sep|];
      assert OccursAt(p + sep, sep, j);
    }
  }

  /** An occurrence in `s` that starts no later than `|p|` lies inside the
      prefix `p + sep` of `s`. */
  lemma OccursInPrefix(s: string, p: string, sep: string, j: nat)
    requires |p| + |sep| <= |s| && s[..|p| + |sep|] == p + sep
    requires j <= |p|
    ensures OccursAt(s, sep, j) <==> OccursAt(p + sep, sep, j)
  {
  }

  /** Split produces pieces of the expected shape. */
  lemma {:induction false} SplitSound(s: string, sep: string)
    requires |sep| > 0
    ensures SplitPieces(Split(s, sep), sep)
    decreases |s|
  {
    var i := Find(s, sep, 0);
    if i != -1 {
      var p := s[..i];
      var tail := s[i + |sep|..];
      SplitSound(tail, sep);
      var rest := Split(tail, sep);
      assert Split(s, sep) == [p] + rest;
      assert s[..|p| + |sep|] == p + sep;
      forall j: nat | j < |p|
        ensures !OccursAt(p + sep, sep, j)
      {
        OccursInPrefix(s, p, sep, j);
      }
    }
  }

  /** Every piece of a split is free of the separator. */
  lemma SplitPiecesFree(s: string, sep: string)
    requires |sep| > 0
    ensures forall k :: 0 <= k < |Split(s, sep)| ==> !Contains(Split(s, sep)[k], sep)
  {
    var r := Split(s, sep);
    SplitSound(s, sep);
    forall k | 0 <= k < |r| - 1
      ensures !Contains(r[k], sep)
    {
      CutsAtEndNotContains(r[k], sep);
    }
  }

  /** In the join of two or more well-formed pieces, the leftmost
      occurrence of `sep` is the one right after the first piece. */
  lemma FirstCut(parts: seq<string>, sep: string)
    requires |sep| > 0 && |parts| > 1 && SplitPieces(parts, sep)
    ensures Find(Join(parts, sep), sep, 0) == |parts[0]|
  {
    var s := Join(parts, sep);
    var p := parts[0];
    var i := Find(s, sep, 0);
    assert s == p + sep + Join(parts[1..], sep);
    assert s[..|p| + |sep|] == p + sep;
    assert OccursAt(s, sep, |p|) by {
      assert s[|p|..|p| + |sep|] == sep;
    }
    if 0 <= i < |p| {
      OccursInPrefix(s, p, sep, i);
    }
  }

  /** Dropping the first of two or more well-formed pieces leaves
      well-formed pieces. */
  lemma SplitPiecesTail(parts: seq<string>, sep: string)
    requires |parts| > 1 && SplitPieces(parts, sep)
    ensures SplitPieces(parts[1..], sep)
  {
    forall k | 0 <= k < |parts[1..]| - 1
      ensures CutsAtEnd(parts[1..][k], sep)
    {
      assert parts[1..][k] == parts[k + 1];
    }
  }

  /** Round trip the other way: splitting the join of well-formed pieces
      gives the pieces back. Together with Join(Split(s, sep), sep) == s and
      SplitSound, Split(s, sep) is the one and only well-formed split of s. */
  lemma {:induction false} SplitJoin(parts: seq<string>, sep: string)
    requires |sep| > 0 && SplitPieces(parts, sep)
    ensures Split(Join(parts, sep), sep) == parts
    decreases |parts|
  {
    if |parts| > 1 {
      var s := Join(parts, sep);
      var p := parts[0];
      var tail := Join(parts[1..], sep);
      assert s == p + sep + tail;
      FirstCut(parts, sep);
      assert s[..|p|] == p;
      assert s[|p| + |sep|..] == tail;
      SplitPiecesTail(parts, sep);
      SplitJoin(parts[1..], sep);
      assert parts == [p] + parts[1..];
    }
  }

  /** For a one-character separator, "no occurrence" and "cut at the
      leftmost occurrence" both mean the character is absent. */
  lemma SingleCharSep(p: string, c: char)
    ensures !Contains(p, [c]) <==> c !in p
    ensures CutsAtEnd(p, [c]) <==> c !in p
  {
    forall j: nat | j < |p|
      ensures OccursAt(p, [c], j) <==> p[j] == c
      ensures OccursAt(p + [c], [c], j) <==> p[j] == c
    {
      assert p[j..j + 1] == [p[j]];
      assert (p + [c])[j..j + 1] == [p[j]];
    }
    if c in p {
      var j :| 0 <= j < |p| && p[j] == c;
      assert OccursAt(p, [c], j);
    }
    forall j: nat | OccursAt(p, [c], j)
      ensures c in p
    {
      assert p[j] == p[j..j + 1][0];
    }
  }

  /** Splitting on a one-character separator leaves that character in no piece. */
  lemma SplitOnCharFree(s: string, c: char)
    ensures forall k :: 0 <= k < |Split(s, [c])| ==> c !in Split(s, [c])[k]
  {
    SplitPiecesFree(s, [c]);
    forall k | 0 <= k < |Split(s, [c])|
      ensures c !in Split(s, [c])[k]
    {
      SingleCharSep(Split(s, [c])[k], c);
    }
  }

  /** Joining gives the empty string exactly for no pieces or one empty piece. */
  lemma JoinEmpty(parts: seq<string>, sep: string)
    requires |sep| > 0
    ensures Join(parts, sep) == "" <==> parts == [] || parts == [""]
  {
  }

  /** The ASCII digit for `d`. */
  function DigitChar(d: nat): (c: char)
    requires d < 10
    ensures '0' <= c <= '9' && c as int - '0' as int == d
  {
    ('0' as int + d) as char
  }

  /** Every character of `s` is an ASCII decimal digit. */
  predicate IsDigits(s: string)
  {
    forall k :: 0 <= k < |s| ==> '0' <= s[k] <= '9'
  }

  /** Python's `str(n)` for a natural number: its decimal digits, most
      significant first, with no leading zero. */
  function Decimal(n: nat): (r: string)
    ensures |r| >= 1
    ensures IsDigits(r)
    ensures r[0] == '0' ==> n == 0
    decreases n
  {
    if n < 10 then [DigitChar(n)] else Decimal(n / 10) + [DigitChar(n % 10)]
  }

  /** Python's `int(s)` for a string of decimal digits. */
  function ParseDecimal(s: string): nat
    requires IsDigits(s)
  {
    if |s| == 0 then 0
    else 10 * ParseDecimal(s[..|s| - 1]) + (s[|s| - 1] as int - '0' as int)
  }

  lemma {:induction false} DecimalRoundTrip(n: nat)
    ensures ParseDecimal(Decimal(n)) == n
    decreases n
  {
    if n >= 10 {
      var d := Decimal(n / 10);
      assert (d + [DigitChar(n % 10)])[..|d|] == d;
      DecimalRoundTrip(n / 10);
    }
  }
}

/** Byte strings and the part of Go's `bytes` package that the pattern decoder relies on. */
module Bytes {
  import opened Results

  /** A Go byte. Characters below 256 stand for bytes, so that byte strings can be written as literals. */
  type byte = c: char | c as int < 256

  /** ASCII whitespace as Go's `bytes.TrimSpace` sees it: tab, newline, vertical tab, form feed,
      carriage return and space. */
  predicate IsSpace(c: byte)
  {
    c == ' ' || 9 <= c as int <= 13
  }

  /** `bytes.IndexByte`: the index of the first `d` in `s`, or -1 when there is none. */
  function IndexByte(s: seq<byte>, d: byte): (r: int)
    ensures -1 <= r < |s|
    ensures r < 0 <==> d !in s
    ensures 0 <= r ==> s[r] == d && d !in s[..r]
  {
    if s == [] then -1
    else if s[0] == d then 0
    else
      var k := IndexByte(s[1..], d);
      if k < 0 then -1 else k + 1
  }

  /** The first occurrence of `d` is determined by its position alone. */
  lemma FirstIndex(s: seq<byte>, d: byte, k: nat)
    requires k < |s| && s[k] == d && d !in s[..k]
    ensures IndexByte(s, d) == k
  {
  }

  /** `bytes.Count` for a one-byte separator. */
  function CountByte(s: seq<byte>, d: byte): (n: nat)
    ensures n == 0 <==> d !in s
  {
    multiset(s)[d]
  }

  /** `bytes.TrimSuffix` for a one-byte suffix. */
  function TrimSuffixByte(s: seq<byte>, d: byte): (r: seq<byte>)
    ensures s == r || s == r + [d]
    ensures s != [] && s[|s| - 1] == d ==> r == s[..|s| - 1]
    ensures d !in s ==> r == s
  {
    if s != [] && s[|s| - 1] == d then s[..|s| - 1] else s
  }

  /** Removes leading whitespace. */
  function TrimLeftSpace(s: seq<byte>): (r: seq<byte>)
    ensures |r| <= |s| && r == s[|s| - |r|..]
    ensures r == [] || !IsSpace(r[0])
    ensures forall i :: 0 <= i < |s| - |r| ==> IsSpace(s[i])
    decreases |s|
  {
    if s != [] && IsSpace(s[0]) then TrimLeftSpace(s[1..]) else s
  }

  /** Removes trailing whitespace. */
  function TrimRightSpace(s: seq<byte>): (r: seq<byte>)
    ensures |r| <= |s| && r == s[..|r|]
    ensures r == [] || !IsSpace(r[|r| - 1])
    ensures forall i :: |r| <= i < |s| ==> IsSpace(s[i])
    decreases |s|
  {
    if s != [] && IsSpace(s[|s| - 1]) then TrimRightSpace(s[..|s| - 1]) else s
  }

  /** `bytes.TrimSpace` on ASCII input: the slice of `s` left once the whitespace at both ends is
      cut off. It is empty exactly when `s` is all whitespace, and otherwise starts and ends with
      a non-space byte. */
  function TrimSpace(s: seq<byte>): (r: seq<byte>)
    ensures |r| <= |s|
    ensures exists i, j :: 0 <= i <= j <= |s| && r == s[i..j] &&
                           (forall k :: 0 <= k < i ==> IsSpace(s[k])) &&
                           (forall k :: j <= k < |s| ==> IsSpace(s[k]))
    ensures r == [] <==> forall i :: 0 <= i < |s| ==> IsSpace(s[i])
    ensures r != [] ==> !IsSpace(r[0]) && !IsSpace(r[|r| - 1])
  {
    var left := TrimLeftSpace(s);
    var i := |s| - |left|;
    var r := TrimRightSpace(left);
    assert s[i..i + |r|] == r;
    r
  }

  /** `bytes.SplitN(s, []byte{sep}, 2)` when it yields two parts: the text before the first `sep`
      and everything after it (which may contain further `sep` bytes). */
  function SplitAtFirst(s: seq<byte>, sep: byte): (r: Option<(seq<byte>, seq<byte>)>)
    ensures r.None? <==> sep !in s
    ensures r.Some? ==> s == r.value.0 + [sep] + r.value.1 && sep !in r.value.0
  {
    var k := IndexByte(s, sep);
    if k < 0 then None else Some((s[..k], s[k + 1..]))
  }

  /** The pieces put back together with `sep` between them. */
  function Join(parts: seq<seq<byte>>, sep: byte): seq<byte>
    requires |parts| >= 1
    decreases |parts|
  {
    if |parts| == 1 then parts[0] else parts[0] + [sep] + Join(parts[1..], sep)
  }

  /** `bytes.Split` for a one-byte separator: at least one piece, and no piece holds `sep`. */
  function Split(s: seq<byte>, sep: byte): (r: seq<seq<byte>>)
    ensures |r| >= 1
    ensures forall p :: p in r ==> sep !in p
    decreases |s|
  {
    var k := IndexByte(s, sep);
    if k < 0 then [s] else [s[..k]] + Split(s[k + 1..], sep)
  }

  /** Joining the pieces of `s` with the separator gives `s` back. */
  lemma {:induction false} JoinSplit(s: seq<byte>, sep: byte)
    ensures Join(Split(s, sep), sep) == s
    decreases |s|
  {
    var k := IndexByte(s, sep);
    if k >= 0 {
      var r := Split(s, sep);
      assert r[1..] == Split(s[k + 1..], sep);
      JoinSplit(s[k + 1..], sep);
    }
  }

  /** Splitting at the first separator: the piece before it, then the pieces of the rest. */
  lemma SplitAt(s: seq<byte>, sep: byte)
    requires sep in s
    ensures Split(s, sep) == [s[..IndexByte(s, sep)]] + Split(s[IndexByte(s, sep) + 1..], sep)
  {
  }

  /** Splitting after reading a line up to and including the first separator: the line
      without its separator is the first piece, and the pieces of what follows come after. */
  lemma SplitAfterLine(s: seq<byte>, line: seq<byte>, rest: seq<byte>, sep: byte)
    requires s == line + rest
    requires line != [] && line[|line| - 1] == sep && sep !in line[..|line| - 1]
    ensures Split(s, sep) == [line[..|line| - 1]] + Split(rest, sep)
  {
    var k := |line| - 1;
    assert s[..k] == line[..k];
    FirstIndex(s, sep, k);
    assert s[k + 1..] == rest;
  }

  /** The other round trip: splitting a join of separator-free pieces gives the pieces back. */
  lemma {:induction false} SplitJoin(parts: seq<seq<byte>>, sep: byte)
    requires |parts| >= 1
    requires forall p :: p in parts ==> sep !in p
    ensures Split(Join(parts, sep), sep) == parts
    decreases |parts|
  {
    if |parts| > 1 {
      var s := Join(parts, sep);
      var k := |parts[0]|;
      assert s[..k] == parts[0];
      FirstIndex(s, sep, k);
      assert s[k + 1..] == Join(parts[1..], sep);
      SplitJoin(parts[1..], sep);
    }
  }

  /** There is one more piece than there are separators. */
  lemma {:induction false} SplitCount(s: seq<byte>, sep: byte)
    ensures |Split(s, sep)| == CountByte(s, sep) + 1
    decreases |s|
  {
    var k := IndexByte(s, sep);
    if k >= 0 {
      assert s == s[..k] + [sep] + s[k + 1..];
      SplitCount(s[k + 1..], sep);
    }
  }
}

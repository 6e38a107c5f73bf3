/** The byte scanner that splits one version 1 group into its values (`sepReader`). */
module SepReaders {
  import opened Results
  import opened Bytes
  import Strconv

  /** A cursor over a byte slice that hands out the `s`-separated pieces one at a time. */
  class SepReader {
    /** The bytes not handed out yet; `None` is Go's nil slice, reached after the last piece. */
    var b: Option<seq<byte>>
    /** Where the last call found the separator, or -1. */
    var tail: int
    /** The separator. */
    const s: byte

    /** The pieces still to come, in order. */
    function Pieces(): seq<seq<byte>>
      reads this
    {
      if b.None? then [] else Split(b.value, s)
    }

    constructor (b: seq<byte>, s: byte)
      ensures this.s == s && Pieces() == Split(b, s)
    {
      this.b := Some(b);
      this.tail := 0;
      this.s := s;
    }

    /** Returns the next piece (possibly empty, as after a trailing separator), and `None` once
        the last piece has been returned, on every call from then on. */
    method Next() returns (v: Option<seq<byte>>)
      modifies this
      ensures old(Pieces()) == [] ==> v == None && Pieces() == []
      ensures old(Pieces()) != [] ==> v == Some(old(Pieces())[0]) && Pieces() == old(Pieces())[1..]
    {
      if b.None? {
        tail := -1;
        return None;
      }
      var cur := b.value;
      tail := IndexByte(cur, s);
      if tail == -1 {
        v := b;
        b := None;
        return;
      }
      SplitAt(cur, s);
      v := Some(cur[..tail]);
      b := Some(cur[tail + 1..]);
    }
  }

  /** Calls `Next` until it returns `None`, as the scanner's test does: the pieces come out in
      order, and they are exactly the pieces of `b` (which `JoinSplit` shows rebuild `b`). */
  method CollectPieces(b: seq<byte>, sep: byte) returns (pieces: seq<seq<byte>>)
    ensures pieces == Split(b, sep)
  {
    var r := new SepReader(b, sep);
    ghost var all := Split(b, sep);
    ghost var k := 0;
    pieces := [];
    var v := r.Next();
    while v.Some?
      invariant r.s == sep && 0 <= k <= |all|
      invariant pieces == all[..k]
      invariant v.Some? ==> k < |all| && v.value == all[k] && r.Pieces() == all[k + 1..]
      invariant v.None? ==> k == |all|
      decreases |all| - k
    {
      assert all[..k + 1] == all[..k] + [all[k]];
      pieces := pieces + [v.value];
      k := k + 1;
      ghost var rest := r.Pieces();
      assert rest == all[k..];
      v := r.Next();
      if v.Some? {
        assert v.value == rest[0] == all[k];
        assert r.Pieces() == rest[1..] == all[k + 1..];
      } else {
        assert |rest| == 0;
      }
    }
    assert all[..|all|] == all;
  }

  /** The decimal spellings of `ns`, one piece each. */
  function Spellings(ns: seq<nat>): (r: seq<seq<byte>>)
    ensures |r| == |ns|
    ensures forall i :: 0 <= i < |ns| ==> r[i] == Strconv.FormatDecimal(ns[i])
  {
    seq(|ns|, i requires 0 <= i < |ns| => Strconv.FormatDecimal(ns[i]))
  }

  /** The scanner's test, for every list of numbers and not only 0 to 10: splitting the
      comma-joined spellings gives them back in order, and each piece reads back as its number. */
  lemma CommaJoinedNumbers(ns: seq<nat>)
    requires |ns| >= 1
    requires forall i :: 0 <= i < |ns| ==> ns[i] <= Strconv.MaxInt64
    ensures var pieces := Split(Join(Spellings(ns), ','), ',');
            pieces == Spellings(ns) &&
            forall i :: 0 <= i < |ns| ==> Strconv.Atoi(pieces[i]) == Some(ns[i] as int)
  {
    var parts := Spellings(ns);
    forall p | p in parts
      ensures ',' !in p
    {
      var i :| 0 <= i < |parts| && parts[i] == p;
      Strconv.FormatDecimalCanonical(ns[i]);
    }
    SplitJoin(parts, ',');
    forall i | 0 <= i < |ns|
      ensures Strconv.Atoi(parts[i]) == Some(ns[i] as int)
    {
      Strconv.AtoiFormat(ns[i]);
    }
  }
}

/** The buffered pattern reader (`Reader`): header decoding, then version 0 or version 1 point
    decoding, each consuming the byte source step by step. */
module Readers {
  import opened Results
  import opened Bytes
  import opened Strconv
  import opened PatternTypes
  import opened HeaderDecoding
  import opened PointDecoding
  import SepReaders

  class Reader {
    /** The byte source: all the bytes it delivers, then how it ends. */
    const src: Source
    /** How many bytes have been consumed. */
    var pos: nat

    ghost predicate Valid()
      reads this
    {
      pos <= |src.data|
    }

    /** The bytes not consumed yet. */
    function Rest(): seq<byte>
      reads this
      requires Valid()
    {
      src.data[pos..]
    }

    constructor (src: Source)
      ensures Valid() && this.src == src && pos == 0
    {
      this.src := src;
      this.pos := 0;
    }

    /** `Peek(n)`: the next `n` bytes, without consuming them; when the source ends first, what
        is left and how the source ended. */
    method Peek(n: nat) returns (b: seq<byte>, err: Option<Ending>)
      requires Valid()
      ensures err.None? <==> n <= |Rest()|
      ensures err.None? ==> b == Rest()[..n]
      ensures err.Some? ==> b == Rest() && err.value == src.end
    {
      if n <= |src.data| - pos {
        return src.data[pos..pos + n], None;
      }
      return src.data[pos..], Some(src.end);
    }

    /** `ReadSlice(delim)`: consumes and returns the bytes up to and including the first `delim`;
        when there is none, consumes and returns all that is left, with how the source ended. */
    method ReadSlice(delim: byte) returns (line: seq<byte>, err: Option<Ending>)
      requires Valid()
      modifies this
      ensures Valid()
      ensures old(Rest()) == line + Rest()
      ensures err.None? <==> delim in old(Rest())
      ensures err.None? ==> line != [] && line[|line| - 1] == delim && delim !in line[..|line| - 1]
      ensures err.Some? ==> Rest() == [] && err.value == src.end
    {
      var k := IndexByte(src.data[pos..], delim);
      if k < 0 {
        line := src.data[pos..];
        pos := |src.data|;
        err := Some(src.end);
      } else {
        line := src.data[pos..pos + k + 1];
        assert line[..k] == src.data[pos..][..k];
        pos := pos + k + 1;
        err := None;
      }
    }

    /** One piece of the input: the bytes up to the next `delim`, or up to the end of the source
        when there is none, with that delimiter dropped and the surrounding whitespace trimmed. */
    method ReadPiece(delim: byte) returns (b: seq<byte>, err: Option<Ending>, ghost piece: seq<byte>)
      requires Valid()
      modifies this
      ensures Valid() && |Rest()| <= |old(Rest())|
      ensures b == TrimSpace(piece)
      ensures err.None? ==> |Rest()| < |old(Rest())| && Split(old(Rest()), delim) == [piece] + Split(Rest(), delim)
      ensures err.Some? ==> Rest() == [] && err.value == src.end && Split(old(Rest()), delim) == [piece]
    {
      ghost var before := Rest();
      var line;
      line, err := ReadSlice(delim);
      b := TrimSuffixByte(line, delim);
      piece := b;
      if err.None? {
        assert piece == line[..|line| - 1];
        SplitAfterLine(before, line, Rest(), delim);
      } else {
        assert line == before && delim !in line;
        assert piece == before;
        assert Split(before, delim) == [before];
      }
      b := TrimSpace(b);
    }

    /** Reads the header: the default one, consuming nothing, unless the input starts with "V:";
        then the fields up to the first '#', consuming it. */
    method ReadHeader() returns (r: Result<Header, Error>)
      requires Valid()
      modifies this
      ensures Valid() && old(pos) <= pos
      ensures DecodeHeader(old(Rest()), src.end) == (r, pos - old(pos))
    {
      var header := DefaultHeader;
      HeaderPrefix(Rest(), src.end);
      var versionHeader, err := Peek(2);
      if err.Some? {
        return Err(PeekFailed(err.value));
      }
      if versionHeader != VersionPrefix {
        return Ok(header);
      }
      ghost var rest0 := Rest();
      var b;
      b, err := ReadSlice('#');
      if err.Some? {
        return Err(HeaderUnterminated(err.value));
      }
      ghost var line := b;
      ghost var k := |b| - 1;
      b := TrimSuffixByte(b, '#');
      assert b == line[..k] == rest0[..k];
      HeaderEndsAtFirstHash(rest0, src.end, k);
      r := DecodeFields(Split(b, ';'));
    }

    /** Reads version 0 points: comma-separated values up to the end of the source. */
    method ReadAllV0Points() returns (r: Result<Points, Error>)
      requires Valid()
      modifies this
      ensures Valid()
      ensures r == DecodeV0(old(Rest()), src.end)
      ensures r.Ok? ==> Rest() == []
    {
      var points: Points := [];
      ghost var all := DecodeV0(Rest(), src.end);
      PrependNothing(all);
      var more := true;
      while more
        invariant Valid()
        invariant all == Prepend(points, if more then DecodeV0(Rest(), src.end) else Ok([]))
        invariant !more ==> Rest() == []
        decreases |Rest()|, more
      {
        var b, err, piece := ReadPiece(',');
        if err.Some? && err.value == Broken {
          return Err(ReadFailed);
        }
        more := err.None?;
        ghost var next: Result<Points, Error> := if more then DecodeV0(Rest(), src.end) else Ok([]);
        assert all == Prepend(points, Chain(V0Piece(piece), next)) by {
          if more {
            V0Front(piece, Split(Rest(), ','), src.end);
          } else {
            V0Single(piece, src.end);
          }
        }
        if b == [] {
          PrependNothing(next);
          continue;
        }
        var p := ParseUint8(b);
        if p.None? {
          return Err(BadPoint(b));
        }
        PrependPrepend(points, [[p.value]], next);
        points := points + [[p.value]];
      }
      PrependAll(points);
      return Ok(points);
    }

    /** Reads version 1 points: ';'-terminated groups of comma-separated values up to the end of
        the source, every group read under the stride of the first non-blank one; the values are
        collected in one flat run and cut into points at the end. */
    method ReadAllV1Points() returns (r: Result<Points, Error>)
      requires Valid()
      modifies this
      ensures Valid()
      ensures r == DecodeV1(old(Rest()), src.end)
      ensures r.Ok? ==> Rest() == []
    {
      var backing: seq<Strength> := [];
      var stride := -1;
      ghost var groups: Points := [];
      ghost var all := DecodeV1(Rest(), src.end);
      PrependNothing(all);
      var more := true;
      while more
        invariant Valid()
        invariant stride == -1 || stride >= 1
        invariant stride == -1 ==> groups == []
        invariant AllOfWidth(groups, stride)
        invariant backing == Flatten(groups)
        invariant all == Prepend(groups, if more then V1Pieces(Split(Rest(), ';'), src.end, stride) else Ok([]))
        invariant !more ==> Rest() == []
        decreases |Rest()|, more
      {
        var b, err, piece := ReadPiece(';');
        if err.Some? && err.value == Broken {
          return Err(ReadFailed);
        }
        more := err.None?;
        ghost var next: Result<Points, Error> :=
          if more then V1Pieces(Split(Rest(), ';'), src.end, NextStride(b, stride)) else Ok([]);
        assert all == Prepend(groups, V1Group(b, stride, next)) by {
          if more {
            V1Front(piece, Split(Rest(), ';'), src.end, stride);
          } else {
            V1Single(piece, src.end, stride);
          }
        }
        if b == [] {
          continue;
        }
        ghost var stride0 := stride;
        if stride == -1 {
          stride := CountByte(b, ',') + 1;
        }
        assert stride == NextStride(b, stride0);
        var point := ReadGroup(b, stride);
        if point.Err? {
          assert all == Err(point.error) by {
            V1GroupRead(b, stride0, next);
          }
          return Err(point.error);
        }
        assert all == Prepend(groups + [point.value], next) by {
          V1GroupRead(b, stride0, next);
          PrependPrepend(groups, [point.value], next);
        }
        assert AllOfWidth(groups + [point.value], stride) by {
          if stride0 != -1 {
            assert stride == stride0;
          }
          AllOfWidthAppend(groups, point.value, stride);
        }
        assert Flatten(groups + [point.value]) == backing + point.value by {
          FlattenAppend(groups, point.value);
        }
        backing := backing + point.value;
        groups := groups + [point.value];
      }
      PrependAll(groups);
      var pairs := Regroup(backing, stride, groups);
      return Ok(pairs);
    }
  }

  /** Applies the header fields in order to the default header; the first bad "V" or "S" value
      stops decoding. */
  method DecodeFields(fields: seq<seq<byte>>) returns (r: Result<Header, Error>)
    ensures r == ApplyFields(DefaultHeader, fields)
  {
    var header := DefaultHeader;
    var i := 0;
    while i < |fields|
      invariant 0 <= i <= |fields|
      invariant ApplyFields(header, fields[i..]) == ApplyFields(DefaultHeader, fields)
    {
      assert fields[i..][1..] == fields[i + 1..];
      FieldKeysDistinct();
      ghost var h0 := header;
      var parts := SplitAtFirst(fields[i], ':');
      if parts.Some? {
        var key, value := parts.value.0, parts.value.1;
        if key == "V" {
          var v := Atoi(value);
          if v.None? {
            return Err(BadVersion(value));
          }
          header := header.(version := v.value);
        } else if key == "T" {
          header := header.(typ := value);
        } else if key == "F" {
          header := header.(features := Split(value, ','));
        } else if key == "S" {
          var d := Atoi(value);
          if d.None? {
            return Err(BadInterval(value));
          }
          header := header.(intervalMs := d.value);
        } else if key == "M" {
          header := header.(md5Sum := value);
        }
      }
      assert ApplyField(h0, fields[i]) == Ok(header);
      i := i + 1;
    }
    return Ok(header);
  }

  /** Reads the values of one non-blank version 1 group with a separator reader over its
      commas: exactly `stride` of them, untrimmed, stopping at the first that is not a decimal
      byte; the values past the stride are never read. */
  method ReadGroup(b: seq<byte>, stride: nat) returns (r: Result<Point, Error>)
    ensures r == GroupPoint(b, stride)
    ensures r.Ok? ==> |r.value| == stride
  {
    var pr := new SepReaders.SepReader(b, ',');
    ghost var tokens := Split(b, ',');
    var values: seq<Strength> := [];
    var i := 0;
    assert tokens[0..] == tokens;
    PrependNothing(GroupPoint(b, stride));
    while i < stride
      invariant 0 <= i <= stride && i <= |tokens|
      invariant pr.s == ',' && pr.Pieces() == tokens[i..]
      invariant GroupPoint(b, stride) == Prepend(values, GroupValues(tokens[i..], stride - i, b, stride))
    {
      var v := pr.Next();
      if v.None? {
        return Err(ShortGroup(b, stride));
      }
      assert tokens[i..][1..] == tokens[i + 1..];
      var p := ParseUint8(v.value);
      if p.None? {
        return Err(BadPoint(v.value));
      }
      assert GroupPoint(b, stride) == Prepend(values + [p.value], GroupValues(tokens[i + 1..], stride - i - 1, b, stride)) by {
        PrependPrepend(values, [p.value], GroupValues(tokens[i + 1..], stride - i - 1, b, stride));
      }
      values := values + [p.value];
      i := i + 1;
    }
    PrependAll(values);
    return Ok(values);
  }

  /** Cuts the flat run of values into consecutive points of `stride` values each. */
  method Regroup(backing: seq<Strength>, stride: int, ghost groups: Points) returns (pairs: Points)
    requires backing == Flatten(groups)
    requires groups != [] ==> stride >= 1
    requires AllOfWidth(groups, stride)
    ensures pairs == groups
  {
    pairs := [];
    var head := 0;
    ghost var j := 0;
    while head < |backing|
      invariant 0 <= head <= |backing| && 0 <= j <= |groups|
      invariant pairs == groups[..j]
      invariant backing[head..] == Flatten(groups[j..])
      decreases |backing| - head
    {
      assert groups[j..] != [];
      assert groups[j..][0] == groups[j] && groups[j..][1..] == groups[j + 1..];
      assert backing[head..] == groups[j] + Flatten(groups[j + 1..]);
      var tail := head + stride;
      assert |groups[j]| == stride;
      assert backing[head..][..stride] == groups[j];
      assert backing[head..tail] == backing[head..][..stride];
      assert backing[tail..] == Flatten(groups[j + 1..]);
      assert groups[..j + 1] == groups[..j] + [groups[j]];
      pairs := pairs + [backing[head..tail]];
      head := tail;
      j := j + 1;
    }
    assert groups[..|groups|] == groups;
  }
}

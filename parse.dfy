/** The entry point (`Parse`): the header, then the points its version calls for, then the check
    that the points are as wide as the header's feature list. */
module Patterns {
  import opened Results
  import opened Bytes
  import opened PatternTypes
  import opened HeaderDecoding
  import opened PointDecoding
  import opened Readers

  /** An error met while decoding `stage`, wrapped with that stage. */
  function Within<T>(stage: Stage, r: Result<T, Error>): Result<T, Error>
  {
    match r
    case Ok(v) => Ok(v)
    case Err(e) => Err(While(stage, e))
  }

  /** The points a header's version calls for, decoded from the bytes after the header:
      versions 0 and 1 are decoded, version 2 is refused, and any other version has no points. */
  function VersionPoints(version: int, rest: seq<byte>, end: Ending): Result<Points, Error>
  {
    if version == 0 then Within(V0Stage, DecodeV0(rest, end))
    else if version == 1 then Within(V1Stage, DecodeV1(rest, end))
    else if version == 2 then Err(UnknownVersion(version))
    else Ok([])
  }

  /** Parsing a whole source: the header, then the points after it; a non-empty list of points
      whose first point is not as wide as the feature list is refused. */
  function ParseSource(src: Source): Result<Pattern, Error>
  {
    var (h, used) := DecodeHeader(src.data, src.end);
    match h
    case Err(e) => Err(While(HeaderStage, e))
    case Ok(header) =>
      match VersionPoints(header.version, src.data[used..], src.end)
      case Err(e) => Err(e)
      case Ok(ps) =>
        if |ps| > 0 && |ps[0]| != |header.features| then Err(Mismatch(|header.features|, |ps[0]|))
        else Ok(Pattern(header, ps))
  }

  /** A pattern whose every point has one value per feature, and which has a feature. */
  predicate WellFormed(p: Pattern)
  {
    |p.header.features| >= 1 &&
    forall i :: 0 <= i < |p.points| ==> |p.points[i]| == |p.header.features|
  }

  /** Reads the whole source with a fresh reader. */
  method Parse(src: Source) returns (r: Result<Pattern, Error>)
    ensures r == ParseSource(src)
    ensures r.Ok? ==> WellFormed(r.value)
  {
    ParseWellFormed(src);
    var reader := new Reader(src);
    assert reader.Rest() == src.data;
    var h := reader.ReadHeader();
    if h.Err? {
      return Err(While(HeaderStage, h.error));
    }
    var header := h.value;
    var p: Points := [];
    if header.version == 0 {
      var res := reader.ReadAllV0Points();
      if res.Err? {
        return Err(While(V0Stage, res.error));
      }
      p := res.value;
    } else if header.version == 1 {
      var res := reader.ReadAllV1Points();
      if res.Err? {
        return Err(While(V1Stage, res.error));
      }
      p := res.value;
    } else if header.version == 2 {
      return Err(UnknownVersion(header.version));
    }
    if |p| > 0 && |p[0]| != |header.features| {
      return Err(Mismatch(|header.features|, |p[0]|));
    }
    return Ok(Pattern(header, p));
  }

  /** Every parsed pattern has at least one feature and exactly one value per feature in each of
      its points: the check on the first point carries over to all of them, because version 0
      points all hold one value and version 1 points all share one stride. */
  lemma ParseWellFormed(src: Source)
    ensures ParseSource(src).Ok? ==> WellFormed(ParseSource(src).value)
  {
    var (h, used) := DecodeHeader(src.data, src.end);
    if ParseSource(src).Ok? {
      HeaderFeaturesNonEmpty(src.data, src.end);
      var rest := src.data[used..];
      if h.value.version == 0 {
        V0Singletons(rest, src.end);
      } else if h.value.version == 1 {
        V1EqualStride(rest, src.end);
      }
    }
  }

  /** A source with fewer than two bytes cannot be parsed: the header cannot be peeked. */
  lemma ParseTooShort(src: Source)
    requires |src.data| < 2
    ensures ParseSource(src) == Err(While(HeaderStage, PeekFailed(src.end)))
  {
    HeaderPrefix(src.data, src.end);
  }

  /** A source that does not start with "V:" is a version 0 file with the default header: its
      points are the version 0 points of the whole source, and it fails exactly when they do. */
  lemma ParseWithoutHeader(src: Source)
    requires |src.data| >= 2 && src.data[..2] != VersionPrefix
    ensures ParseSource(src).Ok? <==> DecodeV0(src.data, src.end).Ok?
    ensures ParseSource(src).Ok? ==>
              ParseSource(src).value == Pattern(DefaultHeader, DecodeV0(src.data, src.end).value)
    ensures ParseSource(src).Err? ==>
              ParseSource(src).error == While(V0Stage, DecodeV0(src.data, src.end).error)
  {
    HeaderPrefix(src.data, src.end);
    assert src.data[0..] == src.data;
    if DecodeV0(src.data, src.end).Ok? {
      V0Singletons(src.data, src.end);
    }
  }

  /** A header that says version 2 makes parsing fail, whatever follows it. */
  lemma ParseVersion2(src: Source)
    requires DecodeHeader(src.data, src.end).0.Ok?
    requires DecodeHeader(src.data, src.end).0.value.version == 2
    ensures ParseSource(src) == Err(UnknownVersion(2))
  {
  }

  /** A header with a version other than 0, 1 and 2 gives a pattern with that header and no
      points, whatever follows it. */
  lemma ParseOtherVersion(src: Source)
    requires DecodeHeader(src.data, src.end).0.Ok?
    requires DecodeHeader(src.data, src.end).0.value.version !in {0, 1, 2}
    ensures ParseSource(src) == Ok(Pattern(DecodeHeader(src.data, src.end).0.value, []))
  {
  }

  /** Points of version 0 or 1 are never decoded from a source that failed: parsing fails. */
  lemma ParseBrokenSource(src: Source)
    requires src.end == Broken
    requires DecodeHeader(src.data, src.end).0.Ok?
    requires DecodeHeader(src.data, src.end).0.value.version in {0, 1}
    ensures ParseSource(src).Err?
  {
    var used := DecodeHeader(src.data, src.end).1;
    V0Broken(src.data[used..]);
    V1Broken(src.data[used..]);
  }
}

/** Point decoding (`Reader.ReadAllV0Points`, `Reader.ReadAllV1Points`) as functions of the unread
    bytes, and what they amount to. */
module PointDecoding {
  import opened Results
  import opened Bytes
  import opened Strconv
  import opened PatternTypes

  /** The points `ps`, then those of `r`; an error stays that error. */
  function Prepend<T>(ps: seq<T>, r: Result<seq<T>, Error>): Result<seq<T>, Error>
  {
    match r
    case Ok(qs) => Ok(ps + qs)
    case Err(e) => Err(e)
  }

  /** The points of `r`, then those of `next`; the first error wins. */
  function Chain(r: Result<Points, Error>, next: Result<Points, Error>): Result<Points, Error>
  {
    match r
    case Err(e) => Err(e)
    case Ok(ps) => Prepend(ps, next)
  }

  /** The pieces with surrounding whitespace trimmed, blank ones left out, in order. */
  function NonBlank(pieces: seq<seq<byte>>): (r: seq<seq<byte>>)
    ensures |r| <= |pieces|
    ensures forall t :: t in r ==> t != []
    decreases |pieces|
  {
    if pieces == [] then []
    else
      var t := TrimSpace(pieces[0]);
      (if t == [] then [] else [t]) + NonBlank(pieces[1..])
  }

  /** The non-blank pieces are exactly the trims of the pieces that are not all whitespace. */
  lemma {:induction false} NonBlankMembers(pieces: seq<seq<byte>>)
    ensures forall t :: t in NonBlank(pieces) ==>
              exists i :: 0 <= i < |pieces| && TrimSpace(pieces[i]) == t
    ensures forall i :: 0 <= i < |pieces| && TrimSpace(pieces[i]) != [] ==>
              TrimSpace(pieces[i]) in NonBlank(pieces)
    decreases |pieces|
  {
    if pieces != [] {
      NonBlankMembers(pieces[1..]);
      var t := TrimSpace(pieces[0]);
      assert NonBlank(pieces) == (if t == [] then [] else [t]) + NonBlank(pieces[1..]);
      forall u | u in NonBlank(pieces)
        ensures exists i :: 0 <= i < |pieces| && TrimSpace(pieces[i]) == u
      {
        if u !in NonBlank(pieces[1..]) {
          assert TrimSpace(pieces[0]) == u;
        } else {
          var i :| 0 <= i < |pieces[1..]| && TrimSpace(pieces[1..][i]) == u;
          assert TrimSpace(pieces[i + 1]) == u;
        }
      }
      forall i | 0 <= i < |pieces| && TrimSpace(pieces[i]) != []
        ensures TrimSpace(pieces[i]) in NonBlank(pieces)
      {
        if i > 0 {
          assert pieces[1..][i - 1] == pieces[i];
        }
      }
    }
  }

  /** `i` is the first token that is not a decimal byte. */
  predicate FirstBad(tokens: seq<seq<byte>>, i: int)
  {
    0 <= i < |tokens| && ParseUint8(tokens[i]).None? &&
    forall j :: 0 <= j < i ==> ParseUint8(tokens[j]).Some?
  }

  /** Every token read as a decimal byte, in order; the first one that is not one is the error. */
  function ParseAll(tokens: seq<seq<byte>>): (r: Result<seq<Strength>, Error>)
    ensures r.Ok? <==> forall i :: 0 <= i < |tokens| ==> ParseUint8(tokens[i]).Some?
    ensures r.Ok? ==> |r.value| == |tokens| &&
                      forall i :: 0 <= i < |tokens| ==> ParseUint8(tokens[i]) == Some(r.value[i])
    ensures r.Err? ==> exists i :: FirstBad(tokens, i) && r.error == BadPoint(tokens[i])
    decreases |tokens|
  {
    if tokens == [] then Ok([])
    else
      match ParseUint8(tokens[0])
      case None => Err(BadPoint(tokens[0]))
      case Some(v) =>
        match ParseAll(tokens[1..])
        case Err(e) =>
          assert exists i :: FirstBad(tokens, i) && e == BadPoint(tokens[i]) by {
            var i :| FirstBad(tokens[1..], i) && e == BadPoint(tokens[1..][i]);
            assert FirstBad(tokens, i + 1);
          }
          Err(e)
        case Ok(vs) => Ok([v] + vs)
  }

  /** One-value points, one per value, in order. */
  function Singletons(vs: seq<Strength>): (r: Points)
    ensures |r| == |vs| && forall i :: 0 <= i < |vs| ==> r[i] == [vs[i]]
  {
    seq(|vs|, i requires 0 <= i < |vs| => [vs[i]])
  }

  /** Points laid end to end. */
  function Flatten(ps: Points): seq<Strength>
    decreases |ps|
  {
    if ps == [] then [] else ps[0] + Flatten(ps[1..])
  }

  /** Every point has `n` values. */
  predicate AllOfWidth(ps: Points, n: int)
  {
    forall i :: 0 <= i < |ps| ==> |ps[i]| == n
  }

  lemma AllOfWidthAppend(ps: Points, p: Point, n: int)
    requires AllOfWidth(ps, n) && |p| == n
    ensures AllOfWidth(ps + [p], n)
  {
    forall i | 0 <= i < |ps + [p]|
      ensures |(ps + [p])[i]| == n
    {
      if i < |ps| {
        assert (ps + [p])[i] == ps[i];
      }
    }
  }

  lemma {:induction false} FlattenAppend(ps: Points, p: Point)
    ensures Flatten(ps + [p]) == Flatten(ps) + p
    decreases |ps|
  {
    if ps != [] {
      assert (ps + [p])[1..] == ps[1..] + [p];
      FlattenAppend(ps[1..], p);
    } else {
      assert [p][1..] == [];
    }
  }

  // ---- Version 0: a flat comma-separated run of values ----

  /** One comma-separated piece of a version 0 file: trimmed; a blank piece gives no point,
      anything else must be a decimal byte and gives a one-value point. */
  function V0Piece(piece: seq<byte>): Result<Points, Error>
  {
    var t := TrimSpace(piece);
    if t == [] then Ok([])
    else
      match ParseUint8(t)
      case None => Err(BadPoint(t))
      case Some(v) => Ok([[v]])
  }

  /** The pieces in the order successive reads deliver them. The last read also meets the
      source's ending: at end of file the last piece is decoded like the others, while a
      failed source makes the read fail before the last piece is looked at. */
  function V0Pieces(pieces: seq<seq<byte>>, end: Ending): Result<Points, Error>
    requires |pieces| >= 1
    decreases |pieces|
  {
    if |pieces| == 1 then (if end == Broken then Err(ReadFailed) else V0Piece(pieces[0]))
    else Chain(V0Piece(pieces[0]), V0Pieces(pieces[1..], end))
  }

  /** Version 0 decoding of the unread bytes `rest` of a source ending with `end`. */
  function DecodeV0(rest: seq<byte>, end: Ending): Result<Points, Error>
  {
    V0Pieces(Split(rest, ','), end)
  }

  /** Decoded values as one-value points; an error stays that error. */
  function AsSingletons(r: Result<seq<Strength>, Error>): Result<Points, Error>
  {
    match r
    case Err(e) => Err(e)
    case Ok(vs) => Ok(Singletons(vs))
  }

  lemma NonBlankFront(pieces: seq<seq<byte>>)
    requires pieces != []
    ensures var t := TrimSpace(pieces[0]);
            NonBlank(pieces) == (if t == [] then [] else [t]) + NonBlank(pieces[1..])
  {
  }

  lemma ParseAllCons(t: seq<byte>, rest: seq<seq<byte>>)
    ensures ParseUint8(t).None? ==> ParseAll([t] + rest) == Err(BadPoint(t))
    ensures ParseUint8(t).Some? && ParseAll(rest).Err? ==> ParseAll([t] + rest) == Err(ParseAll(rest).error)
    ensures ParseUint8(t).Some? && ParseAll(rest).Ok? ==>
              ParseAll([t] + rest) == Ok([ParseUint8(t).value] + ParseAll(rest).value)
  {
    var ts := [t] + rest;
    assert ts[0] == t && ts[1..] == rest;
  }

  lemma ParseAllFront(t: seq<byte>, rest: seq<seq<byte>>)
    ensures ParseUint8(t).None? ==> AsSingletons(ParseAll([t] + rest)) == Err(BadPoint(t))
    ensures ParseUint8(t).Some? ==>
              AsSingletons(ParseAll([t] + rest)) == Prepend([[ParseUint8(t).value]], AsSingletons(ParseAll(rest)))
  {
    ParseAllCons(t, rest);
    if ParseUint8(t).Some? && ParseAll(rest).Ok? {
      var v, vs := ParseUint8(t).value, ParseAll(rest).value;
      assert Singletons([v] + vs) == [[v]] + Singletons(vs);
    }
  }

  lemma V0PiecesFront(pieces: seq<seq<byte>>)
    requires |pieces| >= 1
    ensures V0Pieces(pieces, EOF) ==
              Chain(V0Piece(pieces[0]), if |pieces| == 1 then Ok([]) else V0Pieces(pieces[1..], EOF))
  {
    if |pieces| == 1 {
      ChainNothing(V0Piece(pieces[0]));
    }
  }

  lemma {:induction false} V0PiecesAtEof(pieces: seq<seq<byte>>)
    requires |pieces| >= 1
    ensures V0Pieces(pieces, EOF) == AsSingletons(ParseAll(NonBlank(pieces)))
    decreases |pieces|
  {
    var t := TrimSpace(pieces[0]);
    var rest := NonBlank(pieces[1..]);
    var tail: Result<Points, Error> := if |pieces| == 1 then Ok([]) else V0Pieces(pieces[1..], EOF);
    V0PiecesFront(pieces);
    NonBlankFront(pieces);
    if |pieces| > 1 {
      V0PiecesAtEof(pieces[1..]);
    } else {
      assert rest == [] && Singletons([]) == [];
    }
    assert tail == AsSingletons(ParseAll(rest));
    if t == [] {
      assert NonBlank(pieces) == rest;
      PrependNothing(tail);
    } else {
      assert NonBlank(pieces) == [t] + rest;
      ParseAllFront(t, rest);
    }
  }

  /** A version 0 file at end of file decodes to one one-value point per non-blank piece,
      trimmed, in order; whitespace-only pieces are skipped rather than read as 0; the first
      trimmed piece that is not a decimal byte is the error. */
  lemma V0Decodes(rest: seq<byte>)
    ensures DecodeV0(rest, EOF) == AsSingletons(ParseAll(NonBlank(Split(rest, ','))))
  {
    V0PiecesAtEof(Split(rest, ','));
  }

  lemma {:induction false} V0PiecesBroken(pieces: seq<seq<byte>>)
    requires |pieces| >= 1
    ensures V0Pieces(pieces, Broken).Err?
    decreases |pieces|
  {
    if |pieces| > 1 {
      V0PiecesBroken(pieces[1..]);
    }
  }

  /** Version 0 decoding from a failed source always fails. */
  lemma V0Broken(rest: seq<byte>)
    ensures DecodeV0(rest, Broken).Err?
  {
    V0PiecesBroken(Split(rest, ','));
  }

  /** Every version 0 point holds exactly one value. */
  lemma V0Singletons(rest: seq<byte>, end: Ending)
    requires DecodeV0(rest, end).Ok?
    ensures forall i :: 0 <= i < |DecodeV0(rest, end).value| ==> |DecodeV0(rest, end).value[i]| == 1
  {
    if end == Broken {
      V0Broken(rest);
    } else {
      V0Decodes(rest);
    }
  }

  // ---- Version 1: ';'-terminated groups of comma-separated values ----

  /** The number of values a group spells: one more than its commas. */
  function Width(group: seq<byte>): nat
  {
    CountByte(group, ',') + 1
  }

  /** The first `n` of a group's tokens read as decimal bytes, in order and untrimmed, stopping
      at the first bad one; running out of tokens first is a short group. Tokens past the first
      `n` are never looked at. */
  function GroupValues(tokens: seq<seq<byte>>, n: nat, group: seq<byte>, stride: nat): (r: Result<Point, Error>)
    ensures r.Ok? <==> n <= |tokens| && forall i :: 0 <= i < n ==> ParseUint8(tokens[i]).Some?
    ensures r.Ok? ==> |r.value| == n && forall i :: 0 <= i < n ==> ParseUint8(tokens[i]) == Some(r.value[i])
    decreases n
  {
    if n == 0 then Ok([])
    else if tokens == [] then Err(ShortGroup(group, stride))
    else
      match ParseUint8(tokens[0])
      case None => Err(BadPoint(tokens[0]))
      case Some(v) =>
        match GroupValues(tokens[1..], n - 1, group, stride)
        case Err(e) => Err(e)
        case Ok(vs) => Ok([v] + vs)
  }

  /** The point a non-blank group gives under stride `stride`. */
  function GroupPoint(group: seq<byte>, stride: nat): Result<Point, Error>
  {
    GroupValues(Split(group, ','), stride, group, stride)
  }

  /** The groups' points under one stride, in order; the first failing group is the error. */
  function Groups(groups: seq<seq<byte>>, stride: nat): (r: Result<Points, Error>)
    ensures r.Ok? <==> forall i :: 0 <= i < |groups| ==> GroupPoint(groups[i], stride).Ok?
    ensures r.Ok? ==> |r.value| == |groups| &&
                      forall i :: 0 <= i < |groups| ==> GroupPoint(groups[i], stride) == Ok(r.value[i])
    decreases |groups|
  {
    if groups == [] then Ok([])
    else
      match GroupPoint(groups[0], stride)
      case Err(e) => Err(e)
      case Ok(p) =>
        match Groups(groups[1..], stride)
        case Err(e) => Err(e)
        case Ok(ps) => Ok([p] + ps)
  }

  /** The stride after group `g` (trimmed) is read: the first non-blank group fixes it. */
  function NextStride(g: seq<byte>, stride: int): (r: int)
    requires stride == -1 || stride >= 1
    ensures r == -1 || r >= 1
  {
    if g == [] || stride != -1 then stride else Width(g)
  }

  /** The decoding of one version 1 group `g` (trimmed) under the stride so far, followed by
      `next`, the decoding of what comes after it. */
  function V1Group(g: seq<byte>, stride: int, next: Result<Points, Error>): Result<Points, Error>
    requires stride == -1 || stride >= 1
  {
    if g == [] then next
    else
      match GroupPoint(g, NextStride(g, stride))
      case Err(e) => Err(e)
      case Ok(p) => Prepend([p], next)
  }

  /** The pieces in the order successive reads deliver them, with the stride so far (-1 before
      the first non-blank group). A piece is trimmed and skipped when blank; the first non-blank
      one fixes the stride at its width; each non-blank piece then gives one point. The last
      read meets the source's ending, as for version 0. */
  function V1Pieces(pieces: seq<seq<byte>>, end: Ending, stride: int): Result<Points, Error>
    requires |pieces| >= 1
    requires stride == -1 || stride >= 1
    decreases |pieces|
  {
    if |pieces| == 1 && end == Broken then Err(ReadFailed)
    else
      var g := TrimSpace(pieces[0]);
      V1Group(g, stride, if |pieces| == 1 then Ok([]) else V1Pieces(pieces[1..], end, NextStride(g, stride)))
  }

  /** Version 1 decoding of the unread bytes `rest` of a source ending with `end`. */
  function DecodeV1(rest: seq<byte>, end: Ending): Result<Points, Error>
  {
    V1Pieces(Split(rest, ';'), end, -1)
  }

  lemma GroupsFront(g: seq<byte>, rest: seq<seq<byte>>, stride: nat)
    ensures GroupPoint(g, stride).Err? ==> Groups([g] + rest, stride) == Err(GroupPoint(g, stride).error)
    ensures GroupPoint(g, stride).Ok? ==>
              Groups([g] + rest, stride) == Prepend([GroupPoint(g, stride).value], Groups(rest, stride))
  {
    assert ([g] + rest)[0] == g && ([g] + rest)[1..] == rest;
  }

  /** The points of the non-blank groups `gs` under the stride so far (-1: the first group's
      width). */
  function GroupsUnder(gs: seq<seq<byte>>, stride: int): Result<Points, Error>
  {
    if stride >= 1 then Groups(gs, stride)
    else if gs == [] then Ok([])
    else Groups(gs, Width(gs[0]))
  }

  lemma {:induction false} V1PiecesAtEof(pieces: seq<seq<byte>>, stride: int)
    requires |pieces| >= 1
    requires stride == -1 || stride >= 1
    ensures V1Pieces(pieces, EOF, stride) == GroupsUnder(NonBlank(pieces), stride)
    decreases |pieces|
  {
    var g := TrimSpace(pieces[0]);
    var rest := NonBlank(pieces[1..]);
    var st := NextStride(g, stride);
    var tail: Result<Points, Error> := if |pieces| == 1 then Ok([]) else V1Pieces(pieces[1..], EOF, st);
    assert V1Pieces(pieces, EOF, stride) == V1Group(g, stride, tail);
    NonBlankFront(pieces);
    if |pieces| > 1 {
      V1PiecesAtEof(pieces[1..], st);
    } else {
      assert rest == [];
    }
    assert tail == GroupsUnder(rest, st);
    if g == [] {
      assert NonBlank(pieces) == rest;
      assert V1Group(g, stride, tail) == tail;
    } else {
      assert NonBlank(pieces) == [g] + rest;
      assert tail == Groups(rest, st);
      assert GroupsUnder([g] + rest, stride) == Groups([g] + rest, st);
      GroupsFront(g, rest, st);
      if GroupPoint(g, st).Err? {
        assert V1Group(g, stride, tail) == Err(GroupPoint(g, st).error);
      } else {
        assert V1Group(g, stride, tail) == Prepend([GroupPoint(g, st).value], tail);
      }
    }
  }

  /** A version 1 file at end of file decodes to one point per non-blank group, trimmed, in
      order, every point under the stride fixed by the first non-blank group; with no such group
      the result is no points and no error. */
  lemma V1Decodes(rest: seq<byte>)
    ensures DecodeV1(rest, EOF) == GroupsUnder(NonBlank(Split(rest, ';')), -1)
  {
    V1PiecesAtEof(Split(rest, ';'), -1);
  }

  lemma {:induction false} V1PiecesBroken(pieces: seq<seq<byte>>, stride: int)
    requires |pieces| >= 1
    requires stride == -1 || stride >= 1
    ensures V1Pieces(pieces, Broken, stride).Err?
    decreases |pieces|
  {
    if |pieces| > 1 {
      var g := TrimSpace(pieces[0]);
      V1PiecesBroken(pieces[1..], NextStride(g, stride));
    }
  }

  /** Version 1 decoding from a failed source always fails. */
  lemma V1Broken(rest: seq<byte>)
    ensures DecodeV1(rest, Broken).Err?
  {
    V1PiecesBroken(Split(rest, ';'), -1);
  }

  /** Every version 1 point has the same length: the number of comma-separated values of the
      first non-blank group; there is one point per non-blank group. */
  lemma V1EqualStride(rest: seq<byte>, end: Ending)
    requires DecodeV1(rest, end).Ok?
    ensures var ps := DecodeV1(rest, end).value;
            var gs := NonBlank(Split(rest, ';'));
            |ps| == |gs| && forall i :: 0 <= i < |ps| ==> |ps[i]| == |Split(gs[0], ',')|
  {
    if end == Broken {
      V1Broken(rest);
    } else {
      V1Decodes(rest);
      var gs := NonBlank(Split(rest, ';'));
      if gs != [] {
        SplitCount(gs[0], ',');
      }
    }
  }

  /** A non-blank group with fewer values than the stride makes version 1 decoding fail, while
      the values a group has beyond the stride are never parsed. */
  lemma V1ShortGroupFails(rest: seq<byte>, end: Ending, i: nat)
    requires var gs := NonBlank(Split(rest, ';'));
             i < |gs| && |Split(gs[i], ',')| < Width(gs[0])
    ensures DecodeV1(rest, end).Err?
  {
    if end == Broken {
      V1Broken(rest);
    } else {
      V1Decodes(rest);
      var gs := NonBlank(Split(rest, ';'));
      assert GroupPoint(gs[i], Width(gs[0])).Err?;
    }
  }

  // ---- One read at a time ----

  lemma PrependPrepend<T>(a: seq<T>, b: seq<T>, r: Result<seq<T>, Error>)
    ensures Prepend(a, Prepend(b, r)) == Prepend(a + b, r)
  {
    match r
    case Err(_) =>
    case Ok(qs) => assert a + (b + qs) == a + b + qs;
  }

  lemma PrependNothing<T>(r: Result<seq<T>, Error>)
    ensures Prepend([], r) == r
  {
    match r
    case Err(_) =>
    case Ok(qs) => assert [] + qs == qs;
  }

  lemma PrependAll<T>(ps: seq<T>)
    ensures Prepend(ps, Ok([])) == Ok(ps)
  {
    assert ps + [] == ps;
  }

  lemma ChainNothing(r: Result<Points, Error>)
    ensures Chain(r, Ok([])) == r
  {
    match r
    case Err(_) =>
    case Ok(ps) => assert ps + [] == ps;
  }

  /** A version 0 piece followed by more pieces: its decoding, then theirs. */
  lemma V0Front(piece: seq<byte>, pieces: seq<seq<byte>>, end: Ending)
    requires |pieces| >= 1
    ensures V0Pieces([piece] + pieces, end) == Chain(V0Piece(piece), V0Pieces(pieces, end))
  {
    assert ([piece] + pieces)[1..] == pieces;
  }

  /** The last version 0 piece is decoded only when the source ended at end of file. */
  lemma V0Single(piece: seq<byte>, end: Ending)
    ensures V0Pieces([piece], end) == if end == Broken then Err(ReadFailed) else Chain(V0Piece(piece), Ok([]))
  {
    ChainNothing(V0Piece(piece));
  }

  lemma V1GroupRead(g: seq<byte>, stride: int, next: Result<Points, Error>)
    requires stride == -1 || stride >= 1
    requires g != []
    ensures V1Group(g, stride, next) ==
              match GroupPoint(g, NextStride(g, stride))
              case Err(e) => Err(e)
              case Ok(p) => Prepend([p], next)
  {
  }

  /** A version 1 piece followed by more pieces: its group, then theirs under the stride it leaves. */
  lemma V1Front(piece: seq<byte>, pieces: seq<seq<byte>>, end: Ending, stride: int)
    requires |pieces| >= 1
    requires stride == -1 || stride >= 1
    ensures var g := TrimSpace(piece);
            V1Pieces([piece] + pieces, end, stride) == V1Group(g, stride, V1Pieces(pieces, end, NextStride(g, stride)))
  {
    assert ([piece] + pieces)[1..] == pieces;
  }

  /** The last version 1 piece is decoded only when the source ended at end of file. */
  lemma V1Single(piece: seq<byte>, end: Ending, stride: int)
    requires stride == -1 || stride >= 1
    ensures V1Pieces([piece], end, stride) ==
              if end == Broken then Err(ReadFailed) else V1Group(TrimSpace(piece), stride, Ok([]))
  {
  }
}

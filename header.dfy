/** Header decoding (`Reader.ReadHeader`) as functions of the unread bytes. */
module HeaderDecoding {
  import opened Results
  import opened Bytes
  import opened Strconv
  import opened PatternTypes

  /** The two bytes that announce a header. */
  const VersionPrefix: seq<byte> := "V:"

  /** The value of `field` when it is a `key:value` field with this key; the key ends at the
      first ':', so the value may itself contain ':'. */
  function FieldValue(field: seq<byte>, key: seq<byte>): (r: Option<seq<byte>>)
    ensures r.Some? ==> field == key + [':'] + r.value && ':' !in key
  {
    match SplitAtFirst(field, ':')
    case None => None
    case Some((k, v)) => if k == key then Some(v) else None
  }

  /** A `key:value` field has `value` for `key`, whatever `value` holds, when the key has no ':'. */
  lemma FieldValueOfField(key: seq<byte>, value: seq<byte>)
    requires ':' !in key
    ensures FieldValue(key + [':'] + value, key) == Some(value)
  {
    var field := key + [':'] + value;
    assert field[..|key|] == key;
    FirstIndex(field, ':', |key|);
    assert field[|key| + 1..] == value;
  }

  /** One field of the header applied to the header so far: `V` and `S` must be integers, `T` and
      `M` are taken verbatim, `F` is split on ','; fields without ':' and other keys change nothing. */
  function ApplyField(h: Header, field: seq<byte>): Result<Header, Error>
  {
    match SplitAtFirst(field, ':')
    case None => Ok(h)
    case Some((key, value)) =>
      if key == "V" then
        match Atoi(value)
        case None => Err(BadVersion(value))
        case Some(v) => Ok(h.(version := v))
      else if key == "T" then Ok(h.(typ := value))
      else if key == "F" then Ok(h.(features := Split(value, ',')))
      else if key == "S" then
        match Atoi(value)
        case None => Err(BadInterval(value))
        case Some(d) => Ok(h.(intervalMs := d))
      else if key == "M" then Ok(h.(md5Sum := value))
      else Ok(h)
  }

  /** The fields applied left to right; the first bad field stops decoding. */
  function ApplyFields(h: Header, fields: seq<seq<byte>>): Result<Header, Error>
    decreases |fields|
  {
    if fields == [] then Ok(h)
    else
      match ApplyField(h, fields[0])
      case Err(e) => Err(e)
      case Ok(h1) => ApplyFields(h1, fields[1..])
  }

  /** Header decoding of the unread bytes `rest` of a source that ends with `end`: the result and
      the number of bytes consumed. Fewer than two bytes is an error; without the "V:" prefix
      nothing is consumed and the default header is the result; otherwise everything up to and
      including the first '#' is consumed, and the ';'-separated fields before it are applied. */
  function DecodeHeader(rest: seq<byte>, end: Ending): (r: (Result<Header, Error>, nat))
    ensures r.1 <= |rest|
  {
    if |rest| < 2 then (Err(PeekFailed(end)), 0)
    else if rest[..2] != VersionPrefix then (Ok(DefaultHeader), 0)
    else
      var k := IndexByte(rest, '#');
      if k < 0 then (Err(HeaderUnterminated(end)), |rest|)
      else (ApplyFields(DefaultHeader, Split(rest[..k], ';')), k + 1)
  }

  /** The value of the last field with this key, if any field has it. */
  function LastValue(fields: seq<seq<byte>>, key: seq<byte>): (r: Option<seq<byte>>)
    ensures r.None? <==> forall i :: 0 <= i < |fields| ==> FieldValue(fields[i], key).None?
    ensures r.Some? ==> exists i :: 0 <= i < |fields| && FieldValue(fields[i], key) == r &&
                                    forall j :: i < j < |fields| ==> FieldValue(fields[j], key).None?
    decreases |fields|
  {
    if fields == [] then None
    else
      match LastValue(fields[1..], key)
      case Some(v) => Some(v)
      case None => FieldValue(fields[0], key)
  }

  /** A field that makes header decoding fail: a `V` or `S` value that is not an integer. */
  predicate BadField(field: seq<byte>)
  {
    (FieldValue(field, "V").Some? && Atoi(FieldValue(field, "V").value).None?) ||
    (FieldValue(field, "S").Some? && Atoi(FieldValue(field, "S").value).None?)
  }

  /** The five keys a header field can have are different keys. */
  lemma FieldKeysDistinct()
    ensures "V" != "T" && "V" != "F" && "V" != "S" && "V" != "M"
    ensures "T" != "F" && "T" != "S" && "T" != "M"
    ensures "F" != "S" && "F" != "M" && "S" != "M"
  {
    assert "V"[0] == 'V' && "T"[0] == 'T' && "F"[0] == 'F' && "S"[0] == 'S' && "M"[0] == 'M';
  }

  /** What one field does: it fails exactly when it is bad, and otherwise sets the header field
      its key names (if any) and nothing else. */
  lemma ApplyFieldEffect(h: Header, field: seq<byte>)
    ensures ApplyField(h, field).Err? <==> BadField(field)
    ensures ApplyField(h, field).Ok? ==>
            var r := ApplyField(h, field).value;
            && r.typ == FieldValue(field, "T").GetOr(h.typ)
            && r.md5Sum == FieldValue(field, "M").GetOr(h.md5Sum)
            && (FieldValue(field, "F").None? ==> r.features == h.features)
            && (FieldValue(field, "F").Some? ==> r.features == Split(FieldValue(field, "F").value, ','))
            && (FieldValue(field, "V").None? ==> r.version == h.version)
            && (FieldValue(field, "V").Some? ==> Atoi(FieldValue(field, "V").value) == Some(r.version))
            && (FieldValue(field, "S").None? ==> r.intervalMs == h.intervalMs)
            && (FieldValue(field, "S").Some? ==> Atoi(FieldValue(field, "S").value) == Some(r.intervalMs))
  {
    FieldKeysDistinct();
    match SplitAtFirst(field, ':')
    case None =>
    case Some((key, value)) =>
      if key == "V" {
        assert FieldValue(field, "V") == Some(value);
      } else if key == "S" {
        assert FieldValue(field, "S") == Some(value);
      } else {
        assert FieldValue(field, "V").None? && FieldValue(field, "S").None?;
      }
  }

  /** Applying fields fails exactly when one of them is bad; unknown keys and fields without
      ':' never make it fail. */
  lemma {:induction false} ApplyFieldsFails(h: Header, fields: seq<seq<byte>>)
    ensures ApplyFields(h, fields).Err? <==> exists i :: 0 <= i < |fields| && BadField(fields[i])
    decreases |fields|
  {
    if fields != [] {
      ApplyFieldEffect(h, fields[0]);
      match ApplyField(h, fields[0])
      case Err(_) =>
      case Ok(h1) =>
        ApplyFieldsFails(h1, fields[1..]);
        if exists i :: 0 <= i < |fields| && BadField(fields[i]) {
          var i :| 0 <= i < |fields| && BadField(fields[i]);
          assert BadField(fields[1..][i - 1]);
        }
        if exists i :: 0 <= i < |fields[1..]| && BadField(fields[1..][i]) {
          var i :| 0 <= i < |fields[1..]| && BadField(fields[1..][i]);
          assert BadField(fields[i + 1]);
        }
    }
  }

  /** When the fields apply without error, each header field holds the value of the LAST field
      with its key (an earlier one is overwritten), and keeps its starting value when no field
      has its key. */
  lemma {:induction false} ApplyFieldsLastWins(h: Header, fields: seq<seq<byte>>)
    requires ApplyFields(h, fields).Ok?
    ensures var r := ApplyFields(h, fields).value;
            && r.typ == LastValue(fields, "T").GetOr(h.typ)
            && r.md5Sum == LastValue(fields, "M").GetOr(h.md5Sum)
            && (LastValue(fields, "F").None? ==> r.features == h.features)
            && (LastValue(fields, "F").Some? ==> r.features == Split(LastValue(fields, "F").value, ','))
            && (LastValue(fields, "V").None? ==> r.version == h.version)
            && (LastValue(fields, "V").Some? ==> Atoi(LastValue(fields, "V").value) == Some(r.version))
            && (LastValue(fields, "S").None? ==> r.intervalMs == h.intervalMs)
            && (LastValue(fields, "S").Some? ==> Atoi(LastValue(fields, "S").value) == Some(r.intervalMs))
    decreases |fields|
  {
    if fields != [] {
      ApplyFieldEffect(h, fields[0]);
      var h1 := ApplyField(h, fields[0]).value;
      ApplyFieldsLastWins(h1, fields[1..]);
    }
  }

  /** Applying fields never empties the feature list: `F` always yields at least one feature
      (an empty `F:` gives the single feature ""). */
  lemma {:induction false} ApplyFieldsKeepFeatures(h: Header, fields: seq<seq<byte>>)
    requires |h.features| >= 1
    requires ApplyFields(h, fields).Ok?
    ensures |ApplyFields(h, fields).value.features| >= 1
    decreases |fields|
  {
    if fields != [] {
      ApplyFieldsKeepFeatures(ApplyField(h, fields[0]).value, fields[1..]);
    }
  }

  /** A decoded header always has at least one feature. */
  lemma HeaderFeaturesNonEmpty(rest: seq<byte>, end: Ending)
    requires DecodeHeader(rest, end).0.Ok?
    ensures |DecodeHeader(rest, end).0.value.features| >= 1
  {
    if |rest| >= 2 && rest[..2] == VersionPrefix {
      var k := IndexByte(rest, '#');
      ApplyFieldsKeepFeatures(DefaultHeader, Split(rest[..k], ';'));
    }
  }

  /** What the first bytes decide: fewer than two is an error; two that are not "V:" give the
      default header and consume nothing; "V:" with no '#' after it is an error that consumes
      everything. */
  lemma HeaderPrefix(rest: seq<byte>, end: Ending)
    ensures |rest| < 2 ==> DecodeHeader(rest, end) == (Err(PeekFailed(end)), 0)
    ensures |rest| >= 2 && rest[..2] != "V:" ==> DecodeHeader(rest, end) == (Ok(DefaultHeader), 0)
    ensures |rest| >= 2 && rest[..2] == "V:" && '#' !in rest ==>
              DecodeHeader(rest, end) == (Err(HeaderUnterminated(end)), |rest|)
  {
  }

  /** A "V:" header ends at its first '#': exactly the bytes up to and including it are
      consumed, and the fields are the ';'-pieces of what precedes it. */
  lemma HeaderEndsAtFirstHash(rest: seq<byte>, end: Ending, k: nat)
    requires |rest| >= 2 && rest[..2] == "V:"
    requires k < |rest| && rest[k] == '#' && '#' !in rest[..k]
    ensures DecodeHeader(rest, end) == (ApplyFields(DefaultHeader, Split(rest[..k], ';')), k + 1)
  {
    FirstIndex(rest, '#', k);
  }
}

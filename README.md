# Lovense pattern file decoder

A Dafny model of the pattern-file decoder of go-lovense (`pattern/pattern.go`). A pattern file
is a byte stream. It may start with a header `V:<version>;T:<type>;F:<features>;S:<interval>;M:<md5>#`.
Without one, the file is a version 0 file with the default header (version 0, feature `v`,
interval 100 ms). After the header come the points:

- version 0: comma-separated strengths, one value per point;
- version 1: `;`-terminated groups of comma-separated strengths, one point per group, each
  point as wide as the first non-blank group.

`Parse` reads the header, then the points the version calls for. It refuses version 2. It
refuses a result whose first point is not as wide as the feature list.

The model has two layers:

- **Readers** (imperative). `Reader` is a class over a byte source with a read position.
  `Peek` and `ReadSlice` stand for the buffered reader. `ReadHeader`, `ReadAllV0Points` and
  `ReadAllV1Points` consume the source step by step, with the source's own loops. `SepReader`
  is the in-place comma scanner of a version 1 group.
- **Specification functions** (pure). `DecodeHeader`, `DecodeV0` and `DecodeV1` are functions
  of the unread bytes and of how the source ends. Each reading method is proved equal to its
  function. Lemmas then characterise the functions declaratively: which field wins, which
  groups are skipped, when decoding fails, and that every point has one value per feature.

A source is its bytes plus its ending: `EOF`, or `Broken` for a transport error after the last
byte. Errors are values of the `Error` datatype, one constructor per error the decoder
returns. A wrapped error records the stage (header, version 0 points, version 1 points) that
produced it.

The source switches on the version as an integer. Only 0 and 1 decode points, 2 is an error,
and every other value yields a pattern without points. The model keeps `version` an `int` and
follows that switch, rather than a closed set of known versions.

## Model

| member | source | states |
|---|---|---|
| Patterns.Parse | pattern/pattern.go:21-54 | parsing a source with a fresh reader equals `ParseSource`, and every pattern it returns is well formed |
| Patterns.ParseWellFormed | pattern/pattern.go:46-48 | a parsed pattern has at least one feature, and EVERY point (not only the first, which is all the code checks) has exactly one value per feature |
| Patterns.ParseTooShort | pattern/pattern.go:24-27 | a source of fewer than two bytes fails in the header stage with the peek error |
| Patterns.ParseWithoutHeader | pattern/pattern.go:31-36 | a source not starting with "V:" parses exactly when its version 0 points decode, to the default header with those points, else to their error wrapped as a version 0 error |
| Patterns.ParseVersion2 | pattern/pattern.go:42-43 | a header of version 2 makes parsing fail with the unknown-version error |
| Patterns.ParseOtherVersion | pattern/pattern.go:31-44 | a header version other than 0, 1, 2 gives that header and no points, whatever follows |
| Patterns.ParseBrokenSource | pattern/pattern.go:246-250 | a version 0 or 1 file whose source fails never parses |
| Readers.Reader.Peek | pattern/pattern.go:177-180 | peeking n bytes succeeds exactly when n bytes are left and returns them without consuming; otherwise returns what is left and how the source ended |
| Readers.Reader.ReadSlice | pattern/pattern.go:187-190 | consumes up to and including the first delimiter (the line ends with it and holds no earlier one); without one, consumes everything and reports the source's ending |
| Readers.Reader.ReadPiece | pattern/pattern.go:247-253 | one read, with the delimiter and surrounding space trimmed, consumes exactly the first `Split` piece of the unread bytes |
| Readers.Reader.ReadHeader | pattern/pattern.go:168-230 | the header read and the bytes consumed are those of `DecodeHeader` on the unread bytes |
| Readers.DecodeFields | pattern/pattern.go:195-229 | the field loop applies the fields left to right to the default header, stopping at the first bad `V` or `S` |
| Readers.Reader.ReadAllV0Points | pattern/pattern.go:235-268 | the points read are `DecodeV0` of the unread bytes, and a successful read consumes everything |
| Readers.Reader.ReadAllV1Points | pattern/pattern.go:294-354 | the points read are `DecodeV1` of the unread bytes, and a successful read consumes everything |
| Readers.ReadGroup | pattern/pattern.go:329-342 | the inner loop over a group gives `GroupPoint` of the group, a point of exactly `stride` values |
| Readers.Regroup | pattern/pattern.go:345-353 | cutting the flat run of values into strides gives back exactly the groups it was built from |
| SepReaders.SepReader.Next | pattern/pattern.go:364-375 | each call hands out the next `Split` piece and drops it; once none are left, every call returns nil |
| SepReaders.CollectPieces | pattern/pattern_test.go:25 | calling `next` until nil yields exactly the separator-free pieces of the input, in order |
| SepReaders.CommaJoinedNumbers | pattern/pattern_test.go:14-37 | for every list of 64-bit naturals, scanning their comma-joined spellings gives the spellings back, each reading back as its number |
| Bytes.IndexByte | pattern/pattern.go:365 | the index of the first occurrence, or -1 exactly when there is none |
| Bytes.TrimSpace | pattern/pattern.go:253 | the result is the slice of the input left once the ASCII whitespace at both ends is cut off: empty exactly when the input is all whitespace, else starting and ending with a non-space |
| Bytes.TrimSuffixByte | pattern/pattern.go:193 | drops exactly one trailing delimiter when the input ends with one, and otherwise returns the input unchanged |
| Bytes.SplitAtFirst | pattern/pattern.go:198-201 | two parts exactly when the separator occurs: the separator-free key before the first one, and everything after it |
| Bytes.Split | pattern/pattern.go:195 | at least one piece, and no piece holds the separator |
| Bytes.JoinSplit | pattern/pattern.go:195 | joining the pieces with the separator rebuilds the input |
| Bytes.SplitJoin | pattern/pattern.go:213 | splitting a join of separator-free pieces gives the pieces back |
| Bytes.SplitCount | pattern/pattern.go:326 | the number of pieces is the separator count plus one, so the stride is the width of the first group |
| Strconv.ParseUint8 | pattern/pattern.go:259 | a value exactly for a non-empty run of decimal digits below 256 |
| Strconv.ParseUint8Canonical | pattern/pattern.go:336 | a canonical digit string parses to v exactly when it is the decimal spelling of v |
| Strconv.AtoiFormat | pattern/pattern.go:205 | every 64-bit integer reads back from its decimal spelling |
| HeaderDecoding.FieldValue | pattern/pattern.go:198-203 | a field that has a value for a key is that key (which holds no ':'), a ':' and the value |
| HeaderDecoding.FieldValueOfField | pattern/pattern.go:198-203 | a `key:value` field whose key has no ':' has exactly `value` for that key, even when `value` holds ':' |
| HeaderDecoding.LastValue | pattern/pattern.go:197-227 | the value of the last field with a key, or none exactly when no field has it |
| HeaderDecoding.ApplyFieldEffect | pattern/pattern.go:198-226 | a field fails exactly when its `V` or `S` value is not an integer; otherwise it sets only the header field its key names |
| HeaderDecoding.ApplyFieldsFails | pattern/pattern.go:204-223 | header fields fail exactly when some field is bad; unknown keys and fields without ':' are ignored |
| HeaderDecoding.ApplyFieldsLastWins | pattern/pattern.go:197-227 | each header field holds the value of the last field with its key, or its default when none |
| HeaderDecoding.ApplyFieldsKeepFeatures | pattern/pattern.go:212-217 | applying fields never leaves the feature list empty |
| HeaderDecoding.HeaderFeaturesNonEmpty | pattern/pattern.go:169-173 | a decoded header always has a feature |
| HeaderDecoding.HeaderPrefix | pattern/pattern.go:177-190 | under two bytes is a peek error; no "V:" gives the default header consuming nothing; "V:" without '#' is an error consuming everything |
| HeaderDecoding.HeaderEndsAtFirstHash | pattern/pattern.go:187-195 | a header consumes exactly through its first '#', and its fields are the ';'-pieces before it |
| PointDecoding.NonBlank | pattern/pattern.go:252-257 | the filter that defines which pieces are read: its own contract adds only that no kept piece is empty |
| PointDecoding.NonBlankMembers | pattern/pattern.go:252-257 | the kept pieces are exactly the trims of the pieces that are not all whitespace: each kept piece is such a trim, and each such trim is kept |
| PointDecoding.ParseAll | pattern/pattern.go:259-262 | all tokens parse, in order, or the error names the first that does not |
| PointDecoding.V0Decodes | pattern/pattern.go:246-265 | a version 0 file at end of file gives one one-value point per non-blank trimmed piece, in order, or fails at the first bad one |
| PointDecoding.V0Broken | pattern/pattern.go:247-250 | version 0 decoding of a failed source always fails |
| PointDecoding.V0Singletons | pattern/pattern.go:232-234 | every version 0 point holds exactly one value |
| PointDecoding.GroupValues | pattern/pattern.go:329-342 | a group succeeds exactly when it has the stride's worth of tokens and each of them parses; the values are those tokens' values, untrimmed |
| PointDecoding.Groups | pattern/pattern.go:307-343 | one point per group, each the group's point under the stride, or the first failing group's error |
| PointDecoding.V1Decodes | pattern/pattern.go:307-343 | a version 1 file at end of file gives one point per non-blank trimmed group, in order, all under the stride of the first non-blank group; no group gives no points |
| PointDecoding.V1Broken | pattern/pattern.go:308-312 | version 1 decoding of a failed source always fails |
| PointDecoding.V1EqualStride | pattern/pattern.go:292-293 | all version 1 points are equally sized: one value per comma-separated value of the first non-blank group |
| PointDecoding.V1ShortGroupFails | pattern/pattern.go:330-334 | a group with fewer values than the stride makes decoding fail |

## Left out

- `Strength.Scale`, `Point.Scale`, `Point.ScaleAppend` and `clampF` (pattern/pattern.go:96-138) compute in floating point.
- `ReadV1Points` (pattern/pattern.go:270-290) is neither called by `Parse` nor by the other readers.
- The `api` package is outside the decoder.
- `Version.String` and the `Feature` constants are formatting and names only.
- The unused `spaces` table (pattern/pattern.go:159-165) is also left out.
- `NewReader`'s choice between wrapping and reusing a buffered reader is left out.
- The buffered reader's 4096-byte limit is not modelled: `ReadSlice` is given any line length. Go reports `bufio.ErrBufferFull` for a longer header or group.
- The `Peek(Buffered())` preallocations (pattern/pattern.go:240-244, 301-305) only size capacities and do not change results.
- The copy loop for `F` (pattern/pattern.go:214-217) converts each piece to a `Feature`. It is modelled as taking the pieces themselves.
- Bytes.TrimSpace: trims ASCII whitespace only. Go's `bytes.TrimSpace` also trims multi-byte UTF-8 encodings of Unicode spaces.
- HeaderDecoding.ApplyField: keeps the interval in milliseconds as read. It does not model the multiplication into a nanosecond `time.Duration`, nor its 64-bit overflow.
- Strconv.Atoi: its own contract states only the 64-bit range of the result. Its meaning is stated by `AtoiFormat` (every 64-bit integer reads back from its spelling) and by its definition.
- On an error, Go also returns the header or the points read so far. The model returns the error alone, because `Parse` discards those partial results.
- Error messages are `Error` constructors, not formatted text.
- Regroup: returns the points as separate values. In Go they share one backing array, and that aliasing is not modelled.
- I/O is a byte sequence plus its ending. A transport error is modelled as arriving after the last byte, with no timing and no short reads.
- `TestParse` (pattern/pattern_test.go:39-70) compares against header fields that the decoder does not have, so it is not modelled.

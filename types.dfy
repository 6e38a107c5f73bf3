/** The values a pattern file decodes to, the byte source it is read from, and the errors. */
module PatternTypes {
  import opened Bytes
  import Strconv

  /** One motor's intensity at one step (Go's `Strength`, a `uint8`). */
  type Strength = Strconv.uint8

  /** The strengths of all motors at one step, in feature order. */
  type Point = seq<Strength>

  /** Successive steps, one `Header.intervalMs` apart. */
  type Points = seq<Point>

  /** A motor channel name such as "v", "v1" or "r"; never checked against a list. */
  type Feature = seq<byte>

  /** The header fields: `V` version, `T` device type, `F` features, `S` interval in
      milliseconds, `M` content hash. The version is any integer the `V` field spells. */
  datatype Header = Header(version: int, typ: seq<byte>, features: seq<Feature>, intervalMs: int, md5Sum: seq<byte>)

  /** What header decoding starts from, and all it yields for a file without a "V:" header:
      version 0, the single feature "v", 100 ms, no type and no hash. */
  const DefaultHeader: Header := Header(0, [], ["v"], 100, [])

  /** A decoded pattern file. */
  datatype Pattern = Pattern(header: Header, points: Points)

  /** How the byte source ends after its last byte: a clean end of file, or a failure. */
  datatype Ending = EOF | Broken

  /** The whole input as the decoder sees it: the bytes the source delivers, then its ending. */
  datatype Source = Source(data: seq<byte>, end: Ending)

  /** The decoding stage an error is reported from. */
  datatype Stage = HeaderStage | V0Stage | V1Stage

  datatype Error =
    | PeekFailed(cause: Ending)          // fewer than two bytes before the source ended
    | HeaderUnterminated(cause: Ending)  // a "V:" header with no '#' after it
    | BadVersion(raw: seq<byte>)         // a `V` value that is not an integer
    | BadInterval(raw: seq<byte>)        // an `S` value that is not an integer
    | ReadFailed                         // the source failed (not at end of file) while points were read
    | BadPoint(raw: seq<byte>)           // a value that is not a decimal byte
    | ShortGroup(group: seq<byte>, stride: nat)  // a version 1 group with fewer values than the stride
    | UnknownVersion(version: int)       // version 2
    | Mismatch(features: nat, width: nat)  // first point's width differs from the feature count
    | While(stage: Stage, inner: Error)  // an error from a stage, wrapped by `Parse`
}

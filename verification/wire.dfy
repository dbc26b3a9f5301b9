/** The vocabulary shared by every layer of the OSC 1.0 codec: bytes, 32-bit
    integers, the four-byte alignment rule, and the errors the codec reports. */
module Wire {

  /** One octet on the wire. */
  type Byte = b: int | 0 <= b < 256

  /** The ranges of Go's int32 and uint32. */
  type Int32 = x: int | -0x8000_0000 <= x < 0x8000_0000
  type Uint32 = x: int | 0 <= x < 0x1_0000_0000

  /** OSC_BYTE_ALIGNMENT: strings, blobs and messages end on a multiple of four bytes. */
  const Alignment: nat := 4

  const Nul: Byte := 0
  const Slash: Byte := 0x2f   // '/'
  const Comma: Byte := 0x2c   // ','

  /** The standard type tags. Only the string tag has behaviour in the framer. */
  const TypeInt32: Byte := 0x69    // 'i'
  const TypeFloat32: Byte := 0x66  // 'f'
  const TypeString: Byte := 0x73   // 's'
  const TypeBlob: Byte := 0x62     // 'b'

  /** Why a value was refused before serialization (OSCArgumentError). */
  datatype ArgumentCause =
    | NonAscii(position: nat)      // a byte that is 0 or above 127
    | NoLeadingSlash               // an address pattern that does not start with '/'
    | Disallowed(position: nat)    // a reserved character after the leading '/'

  /** Why incoming bytes could not be parsed (the read errors). */
  datatype ReadCause =
    | ShortRead                    // fewer than four bytes for an int32 or float32
    | NoTerminator                 // input ended before the NUL of an OSC-string
    | BadPadding                   // a padding byte of an OSC-string missing or not NUL
    | NoComma                      // a type-tag string that does not start with ','
    | UnsupportedTag(tag: Byte)    // a type tag the message decoder cannot dispatch
    | NegativeBlobSize             // a blob whose size field is negative
    | BlobEndOfInput               // the blob payload read hit the end of input
    | IncompleteBlob(got: nat, want: nat)

  datatype Error =
    | ArgumentError(argument: ArgumentCause)
    | ReadError(read: ReadCause)
    | SinkError                    // the writer's own failure, passed on unchanged

  /** Go's `error` return: nil or an error. */
  datatype Outcome = Pass | Fail(error: Error)

  datatype Result<T> = Success(value: T) | Failure(error: Error)

  datatype Option<T> = None | Some(value: T)

  /** A decoded value and the number of input bytes its decoder consumed. */
  datatype Parsed<T> = Parsed(value: T, consumed: nat)

  function Min(a: nat, b: nat): nat {
    if a <= b then a else b
  }

  /** Subtraction that stops at zero. */
  function Sub(a: nat, b: nat): nat {
    if a <= b then 0 else a - b
  }

  /** The smallest multiple of Alignment that is at least n. */
  function PadTo(n: nat): (m: nat)
    ensures m % Alignment == 0
    ensures n <= m < n + Alignment
  {
    if n % Alignment == 0 then n else n + (Alignment - n % Alignment)
  }

  /** A multiple of Alignment between n and PadTo(n) is PadTo(n). */
  lemma PadToLeast(n: nat, k: nat)
    requires n <= k <= PadTo(n) && k % Alignment == 0
    ensures k == PadTo(n)
  {
  }

  /** Aligned lengths add up to an aligned length. */
  lemma AlignedSum(a: nat, b: nat)
    requires a % Alignment == 0 && b % Alignment == 0
    ensures (a + b) % Alignment == 0
  {
  }

  function Zeros(k: nat): seq<Byte> {
    seq(k, _ => Nul)
  }

  predicate AllZero(s: seq<Byte>) {
    forall i | 0 <= i < |s| :: s[i] == Nul
  }

  /** Sequence facts stated once for any element type, so that using them on
      sequences of sequences does not unfold the elements. */
  lemma TakeDrop<T>(s: seq<T>, k: nat)
    requires k <= |s|
    ensures s == s[..k] + s[k..]
  {
  }

  lemma AppendAssoc<T>(a: seq<T>, b: seq<T>, c: seq<T>)
    ensures a + b + c == a + (b + c)
  {
  }

  lemma EmptyAppend<T>(s: seq<T>)
    ensures [] + s == s
  {
  }

  lemma DropAppended<T>(a: seq<T>, b: seq<T>)
    ensures (a + b)[|a|..] == b
  {
  }

  lemma TakeSplit<T>(s: seq<T>, m: nat, n: nat)
    requires m + n <= |s|
    ensures s[..m + n] == s[..m] + s[m..][..n]
  {
  }

  lemma TakeThree<T>(s: seq<T>, m: nat, n: nat, k: nat)
    requires m <= |s| && n <= |s[m..]| && k <= |s[m..][n..]|
    ensures s[..m + n + k] == s[..m] + s[m..][..n] + s[m..][n..][..k]
  {
  }

  lemma TakeAll<T>(s: seq<T>)
    ensures s[..|s|] == s
  {
  }

  lemma TakeOneMore<T>(s: seq<T>, k: nat)
    requires k < |s|
    ensures s[..k + 1] == s[..k] + [s[k]]
  {
  }

  lemma TakeTake<T>(s: seq<T>, a: nat, b: nat)
    requires a <= b <= |s|
    ensures s[..b][..a] == s[..a]
  {
  }

  lemma ConsTail<T>(x: T, d: seq<T>, s: seq<T>)
    requires |s| > 0 && s[0] == x
    ensures d + [x] + s[1..] == d + s
  {
  }

  lemma ConsDrop<T>(x: T, s: seq<T>)
    ensures ([x] + s)[0] == x && ([x] + s)[1..] == s
  {
  }

  lemma DropOne<T>(s: seq<T>, k: nat)
    requires k < |s|
    ensures s[k..] == [s[k]] + s[k + 1..]
  {
  }

  lemma AllZeroEqual(x: seq<Byte>, y: seq<Byte>)
    requires |x| == |y| && AllZero(x) && AllZero(y)
    ensures x == y
  {
  }

  lemma SplitEqual<T>(x: seq<T>, y: seq<T>, k: nat)
    requires |x| == |y| && k <= |x|
    requires x[..k] == y[..k] && x[k..] == y[k..]
    ensures x == y
  {
    assert x == x[..k] + x[k..];
    assert y == y[..k] + y[k..];
  }

  /** What a writer that can take at most `room` more bytes accepts of `s`. */
  function Prefix(s: seq<Byte>, room: nat): seq<Byte> {
    s[..Min(|s|, room)]
  }

  lemma PrefixAll(s: seq<Byte>, room: nat)
    requires |s| <= room
    ensures Prefix(s, room) == s
  {
  }

  lemma PrefixAfter(x: seq<Byte>, y: seq<Byte>, room: nat)
    requires |x| <= room
    ensures Prefix(x + y, room) == x + Prefix(y, room - |x|)
  {
    assert (x + y)[..|x| + Min(|y|, room - |x|)] == x + y[..Min(|y|, room - |x|)];
  }

  lemma PrefixWithin(x: seq<Byte>, y: seq<Byte>, room: nat)
    requires room <= |x|
    ensures Prefix(x + y, room) == Prefix(x, room)
  {
    assert (x + y)[..room] == x[..room];
  }
}

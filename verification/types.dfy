/** The OSC 1.0 atomic data types as byte sequences: the encoders, the
    validity checks, and the specifications of the stream decoders. */
module Types {
  import opened Wire

  // ---------------------------------------------------------------------
  // int32 and float32: four bytes, big-endian
  // ---------------------------------------------------------------------

  /** A 32-bit pattern, most significant byte first. */
  function EncUint32(u: Uint32): (r: seq<Byte>)
    ensures |r| == 4
    ensures (r[0] as int) * 0x100_0000 + (r[1] as int) * 0x1_0000 + (r[2] as int) * 0x100 + r[3] == u
  {
    var low24 := u % 0x100_0000;
    var low16 := low24 % 0x1_0000;
    [u / 0x100_0000, low24 / 0x1_0000, low16 / 0x100, low16 % 0x100]
  }

  function DecUint32(b: seq<Byte>): Uint32
    requires |b| == 4
  {
    (b[0] as int) * 0x100_0000 + (b[1] as int) * 0x1_0000 + (b[2] as int) * 0x100 + b[3]
  }

  /** Every four-byte sequence is the encoding of exactly one 32-bit pattern. */
  lemma EncDecUint32(b: seq<Byte>)
    requires |b| == 4
    ensures EncUint32(DecUint32(b)) == b
  {
    var u := DecUint32(b);
    var r := EncUint32(u);
    var low24 := (b[1] as int) * 0x1_0000 + (b[2] as int) * 0x100 + b[3];
    var low16 := (b[2] as int) * 0x100 + b[3];
    assert u / 0x100_0000 == b[0] && u % 0x100_0000 == low24;
    assert low24 / 0x1_0000 == b[1] && low24 % 0x1_0000 == low16;
    assert low16 / 0x100 == b[2] && low16 % 0x100 == b[3];
  }

  /** Go's conversion of an integer to int32: keep the low 32 bits, read
      them as two's complement. */
  function WrapInt32(n: int): (r: Int32)
    ensures (r - n) % 0x1_0000_0000 == 0
  {
    var u := n % 0x1_0000_0000;
    if u < 0x8000_0000 then u else u - 0x1_0000_0000
  }

  /** int32 on the wire: two's complement, big-endian (OSCInt32.WriteTo). */
  function EncInt32(x: Int32): (r: seq<Byte>)
    ensures |r| == 4
    ensures DecInt32(r) == x
  {
    EncUint32(if x < 0 then x + 0x1_0000_0000 else x)
  }

  /** The int32 that four bytes denote (ReadOSCInt32). */
  function DecInt32(b: seq<Byte>): Int32
    requires |b| == 4
  {
    var u := DecUint32(b);
    if u < 0x8000_0000 then u else u - 0x1_0000_0000
  }

  /** The sign of an int32 is its first bit. */
  lemma EncInt32Sign(x: Int32)
    ensures x < 0 <==> EncInt32(x)[0] >= 0x80
  {
  }

  /** Decoding then re-encoding gives back the same four bytes. */
  lemma EncDecInt32(b: seq<Byte>)
    requires |b| == 4
    ensures EncInt32(DecInt32(b)) == b
  {
    EncDecUint32(b);
  }

  // ---------------------------------------------------------------------
  // OSC-string: ASCII bytes, a NUL, NUL padding to a multiple of four
  // ---------------------------------------------------------------------

  predicate IsOscChar(b: Byte) {
    1 <= b <= 127
  }

  /** What OSCString.Valid accepts. */
  predicate IsOscString(s: seq<Byte>) {
    forall i | 0 <= i < |s| :: IsOscChar(s[i])
  }

  predicate NoNul(s: seq<Byte>) {
    forall i | 0 <= i < |s| :: s[i] != Nul
  }

  /** OSCString.Valid: the first byte that is 0 or above 127 is reported by
      its position; otherwise the string is valid. */
  function StringValid(s: seq<Byte>): (r: Outcome)
    ensures r.Pass? <==> IsOscString(s)
    ensures r.Fail? ==> r.error.ArgumentError? && r.error.argument.NonAscii?
    ensures r.Fail? ==>
      var p := r.error.argument.position;
      p < |s| && !IsOscChar(s[p]) && IsOscString(s[..p])
  {
    StringValidFrom(s, 0)
  }

  function StringValidFrom(s: seq<Byte>, i: nat): (r: Outcome)
    requires i <= |s|
    decreases |s| - i
    ensures r.Pass? <==> forall j | i <= j < |s| :: IsOscChar(s[j])
    ensures r.Fail? ==> r.error.ArgumentError? && r.error.argument.NonAscii?
    ensures r.Fail? ==>
      var p := r.error.argument.position;
      i <= p < |s| && !IsOscChar(s[p]) && forall j | i <= j < p :: IsOscChar(s[j])
  {
    if i == |s| then Pass
    else if !IsOscChar(s[i]) then Fail(ArgumentError(NonAscii(i)))
    else StringValidFrom(s, i + 1)
  }

  /** OSCString.WriteTo's bytes: the string, one NUL, then NULs up to the next
      multiple of four. */
  function EncString(s: seq<Byte>): (r: seq<Byte>)
    ensures |r| % Alignment == 0
    ensures |s| < |r| <= |s| + Alignment
    ensures r[..|s|] == s && AllZero(r[|s|..])
  {
    s + Zeros(PadTo(|s| + 1) - |s|)
  }

  /** The encoded length is the smallest multiple of four above |s|. */
  lemma EncStringLength(s: seq<Byte>, m: nat)
    requires m % Alignment == 0 && m > |s|
    ensures 4 <= |EncString(s)| <= m
  {
  }

  /** The index of the first NUL, if there is one. */
  function NulIndex(s: seq<Byte>): (r: Option<nat>)
    ensures r.Some? ==> r.value < |s| && s[r.value] == Nul && NoNul(s[..r.value])
    ensures r.None? ==> NoNul(s)
  {
    if |s| == 0 then None
    else if s[0] == Nul then Some(0)
    else match NulIndex(s[1..])
      case None => None
      case Some(k) =>
        assert s[..k + 1] == [s[0]] + s[1..][..k];
        Some(k + 1)
  }

  /** A NUL preceded by no other NUL is the one NulIndex finds. */
  lemma NulIndexAt(s: seq<Byte>, k: nat)
    requires k < |s| && s[k] == Nul && NoNul(s[..k])
    ensures NulIndex(s) == Some(k)
  {
  }

  /** ReadOSCString's result on `input`: read up to the first NUL, then
      consume the padding up to the next multiple of four, which must all be
      NUL, then re-validate what was read. */
  function ParseString(input: seq<Byte>): (r: Result<Parsed<seq<Byte>>>)
    ensures r == Failure(ReadError(NoTerminator)) <==> NoNul(input)
    ensures r.Failure? ==>
      r.error == ReadError(NoTerminator) || r.error == ReadError(BadPadding) || r.error.ArgumentError?
    ensures r.Success? ==>
      var p := r.value;
      p.consumed <= |input| && p.consumed % Alignment == 0 && IsOscString(p.value)
  {
    match NulIndex(input)
    case None => Failure(ReadError(NoTerminator))
    case Some(k) =>
      var size := PadTo(k + 1);
      if |input| < size || !AllZero(input[k + 1..size]) then Failure(ReadError(BadPadding))
      else match StringValid(input[..k])
        case Fail(e) => Failure(e)
        case Pass => Success(Parsed(input[..k], size))
  }

  /** Round trip: a valid string followed by anything decodes to itself and
      leaves exactly what followed it. */
  lemma {:induction false} ParseEncString(s: seq<Byte>, rest: seq<Byte>)
    requires IsOscString(s)
    ensures ParseString(EncString(s) + rest) == Success(Parsed(s, |EncString(s)|))
  {
    var e := EncString(s);
    var input := e + rest;
    assert input[..|s|] == s;
    assert input[|s|] == e[|s|..][0] == Nul;
    assert NoNul(input[..|s|]);
    NulIndexAt(input, |s|);
    var size := PadTo(|s| + 1);
    assert size == |e|;
    assert input[|s| + 1..size] == e[|s|..][1..];
  }

  /** Only canonical encodings are accepted: what ParseString consumed is the
      encoding of what it returned. */
  lemma {:induction false} ParseStringCanonical(input: seq<Byte>)
    requires ParseString(input).Success?
    ensures var p := ParseString(input).value;
      input[..p.consumed] == EncString(p.value)
  {
    var k := NulIndex(input).value;
    var p := ParseString(input).value;
    var e := EncString(p.value);
    var taken := input[..p.consumed];
    assert p.value == input[..k] && p.consumed == PadTo(k + 1) == |e|;
    assert taken[..k] == e[..k];
    NulIndexAt(input, k);
    assert AllZero(input[k + 1..p.consumed]);
    assert AllZero(taken[k..]) by {
      forall i | 0 <= i < |taken[k..]| ensures taken[k..][i] == Nul {
        assert taken[k..][i] == input[k + i];
        if i > 0 {
          assert input[k + i] == input[k + 1..p.consumed][i - 1];
        }
      }
    }
    AllZeroEqual(taken[k..], e[k..]);
    SplitEqual(taken, e, k);
  }

  /** The padding errors: a NUL is found, but the input stops before the next
      multiple of four or has a non-NUL byte there. */
  lemma {:induction false} ParseStringBadPadding(input: seq<Byte>, k: nat, i: nat)
    requires k < |input| && input[k] == Nul && NoNul(input[..k])
    requires k < i < PadTo(k + 1)
    requires i >= |input| || input[i] != Nul
    ensures ParseString(input) == Failure(ReadError(BadPadding))
  {
    NulIndexAt(input, k);
    if PadTo(k + 1) <= |input| {
      assert input[k + 1..PadTo(k + 1)][i - k - 1] == input[i];
    }
  }

  /** The first of the padding bytes at offsets d up to `want` that is
      missing or not NUL, if there is one. */
  function PaddingFault(input: seq<Byte>, want: nat, d: nat): (r: Option<nat>)
    requires d <= want && d <= |input|
    decreases want - d
    ensures r.None? <==> want <= |input| && forall j | d <= j < want :: input[j] == Nul
    ensures r.Some? ==>
      && d <= r.value < want && r.value <= |input|
      && (r.value == |input| || input[r.value] != Nul)
      && forall j | d <= j < r.value :: input[j] == Nul
  {
    if d == want then None
    else if d == |input| || input[d] != Nul then Some(d)
    else PaddingFault(input, want, d + 1)
  }

  /** The bytes ReadOSCString's padding loop reads when `want` padding bytes
      are due: all of them when they are present and NUL; otherwise up to
      and including the first that is not NUL, or up to the end of input. */
  function PaddingRead(input: seq<Byte>, want: nat): (r: nat)
    ensures r <= |input| && r <= want
    ensures want <= |input| && AllZero(input[..want]) ==> r == want
  {
    assert want <= |input| ==> forall j | 0 <= j < want :: input[j] == input[..want][j];
    match PaddingFault(input, want, 0)
    case None => want
    case Some(d) => if d < |input| then d + 1 else d
  }

  /** What ReadOSCString returns and how many bytes it reads, whether or not
      it fails. */
  datatype StringRead = StringRead(value: seq<Byte>, err: Outcome, length: nat)

  /** ReadOSCString on `input`: without a NUL it reads everything and fails;
      otherwise it reads the string, its NUL and the padding up to the first
      byte that is missing or not NUL. With the padding wrong it fails with
      no string; with the padding in place the re-validation decides, and
      the bytes before the NUL are returned either way. */
  function ReadString(input: seq<Byte>): (r: StringRead)
    ensures |r.value| <= r.length <= |input| && r.value == input[..|r.value|]
    ensures r.err.Fail? && r.err.error.ReadError? ==> r.value == []
    ensures r.err == Fail(ReadError(NoTerminator)) <==> NulIndex(input).None?
    ensures NulIndex(input).None? ==> r.length == |input|
    ensures r.err == Fail(ReadError(BadPadding)) ==>
      NulIndex(input).Some? && NulIndex(input).value < r.length <= PadTo(NulIndex(input).value + 1)
  {
    match NulIndex(input)
    case None => StringRead([], Fail(ReadError(NoTerminator)), |input|)
    case Some(k) =>
      var want := PadTo(k + 1) - (k + 1);
      var rest := input[k + 1..];
      if want <= |rest| && AllZero(rest[..want]) then
        StringRead(input[..k], StringValid(input[..k]), PadTo(k + 1))
      else
        StringRead([], Fail(ReadError(BadPadding)), k + 1 + PaddingRead(rest, want))
  }

  /** ReadString on each of ReadOSCString's paths: no NUL; a NUL at k with
      the padding read as SkipPadding reports it. */
  lemma StringReadNoNul(input: seq<Byte>)
    requires NoNul(input)
    ensures ReadString(input) == StringRead([], Fail(ReadError(NoTerminator)), |input|)
  {
  }

  lemma StringReadFound(input: seq<Byte>, k: nat, padded: bool, read: nat)
    requires k < |input| && input[k] == Nul && NoNul(input[..k])
    requires var want := PadTo(k + 1) - (k + 1); var rest := input[k + 1..];
      && (padded <==> want <= |rest| && AllZero(rest[..want]))
      && read == PaddingRead(rest, want)
    ensures ReadString(input) == if padded then StringRead(input[..k], StringValid(input[..k]), k + 1 + read)
      else StringRead([], Fail(ReadError(BadPadding)), k + 1 + read)
  {
    NulIndexAt(input, k);
  }

  /** ReadOSCString agrees with ParseString: the same outcome; on success the
      parsed string and exactly its encoding read; after a read error no
      string; after a re-validation failure the bytes before the NUL, which
      the re-validation refuses, with all of the padding read. */
  lemma StringReadAgrees(input: seq<Byte>)
    ensures var r, p := ReadString(input), ParseString(input);
      && r.err == (if p.Success? then Pass else Fail(p.error))
      && (p.Success? ==> r.value == p.value.value && r.length == p.value.consumed)
      && (p.Failure? && p.error.ArgumentError? ==>
            && NulIndex(input) == Some(|r.value|)
            && StringValid(r.value) == r.err
            && r.length == PadTo(|r.value| + 1))
  {
    match NulIndex(input)
    case None =>
    case Some(k) =>
      var want := PadTo(k + 1) - (k + 1);
      var rest := input[k + 1..];
      if want <= |rest| {
        assert rest[..want] == input[k + 1..PadTo(k + 1)];
      }
  }

  // ---------------------------------------------------------------------
  // blob: int32 size, the bytes, zero padding to a multiple of four
  // ---------------------------------------------------------------------

  /** OSCBlob.WriteTo's bytes. The size goes through Go's int32 conversion. */
  function EncBlob(b: seq<Byte>): (r: seq<Byte>)
    ensures |r| == 4 + PadTo(|b|) && |r| % Alignment == 0
    ensures r[..4] == EncInt32(WrapInt32(|b|))
    ensures r[4..4 + |b|] == b && AllZero(r[4 + |b|..])
  {
    var size := EncInt32(WrapInt32(|b|));
    var padding := Zeros(PadTo(|b|) - |b|);
    var r := size + b + padding;
    AlignedSum(4, PadTo(|b|));
    assert r[..4] == size;
    assert r[4..4 + |b|] == b;
    assert r[4 + |b|..] == padding;
    r
  }

  /** A blob's bytes, piece by piece. */
  lemma EncBlobParts(b: seq<Byte>)
    ensures EncBlob(b) == EncInt32(WrapInt32(|b|)) + b + Zeros(PadTo(|b|) - |b|)
  {
    var r := EncBlob(b);
    assert r == r[..4] + r[4..4 + |b|] + r[4 + |b|..];
  }

  /** ReadOSCBlob's result on `input`: an int32 size, then exactly that many
      bytes. The padding is not consumed. A read of the payload at the very
      end of input reports end of input, even for a size of zero. */
  function ParseBlob(input: seq<Byte>): (r: Result<Parsed<seq<Byte>>>)
    ensures r.Success? ==>
      && r.value.consumed == 4 + |r.value.value| <= |input|
      && DecInt32(input[..4]) == |r.value.value| && r.value.value == input[4..r.value.consumed]
    ensures r.Failure? ==> r.error.ReadError?
    ensures |input| == 4 ==> r.Failure?
  {
    if |input| < 4 then Failure(ReadError(ShortRead))
    else
      var size := DecInt32(input[..4]);
      if size < 0 then Failure(ReadError(NegativeBlobSize))
      else if |input| == 4 then Failure(ReadError(BlobEndOfInput))
      else if |input| - 4 < size then Failure(ReadError(IncompleteBlob(|input| - 4, size)))
      else Success(Parsed(input[4..4 + size], 4 + size))
  }

  /** ParseBlob with the payload read skipped for an empty blob. */
  function ParseBlobCorrected(input: seq<Byte>): (r: Result<Parsed<seq<Byte>>>)
    ensures r.Success? ==>
      && r.value.consumed == 4 + |r.value.value| <= |input|
      && DecInt32(input[..4]) == |r.value.value| && r.value.value == input[4..r.value.consumed]
    ensures r.Failure? ==> r.error.ReadError?
    ensures |input| >= 4 && DecInt32(input[..4]) == 0 ==> r == Success(Parsed([], 4))
  {
    if |input| < 4 then Failure(ReadError(ShortRead))
    else
      var size := DecInt32(input[..4]);
      if size < 0 then Failure(ReadError(NegativeBlobSize))
      else if size > 0 && |input| == 4 then Failure(ReadError(BlobEndOfInput))
      else if |input| - 4 < size then Failure(ReadError(IncompleteBlob(|input| - 4, size)))
      else Success(Parsed(input[4..4 + size], 4 + size))
  }

  /** The bytes ReadOSCBlob reads from `input`, as written or corrected,
      whether or not it fails: the whole input when the size is short, the
      size alone when it is negative, and otherwise the size and as much of
      the payload as there is. */
  function BlobReadLength(input: seq<Byte>): (r: nat)
    ensures r <= |input|
    ensures ParseBlob(input).Success? ==> r == ParseBlob(input).value.consumed
    ensures ParseBlobCorrected(input).Success? ==> r == ParseBlobCorrected(input).value.consumed
    ensures ParseBlob(input).Failure? && ParseBlob(input).error != ReadError(NegativeBlobSize) ==> r == |input|
    ensures ParseBlob(input) == Failure(ReadError(NegativeBlobSize)) ==> r == 4
    ensures ParseBlobCorrected(input).Failure? && ParseBlobCorrected(input).error != ReadError(NegativeBlobSize) ==> r == |input|
  {
    if |input| < 4 then |input|
    else if DecInt32(input[..4]) < 0 then 4
    else Min(4 + DecInt32(input[..4]), |input|)
  }

  /** The size field of a blob shorter than 2^31 bytes decodes to its length. */
  lemma BlobSizeField(b: seq<Byte>)
    requires |b| < 0x8000_0000
    ensures DecInt32(EncBlob(b)[..4]) == |b|
  {
  }

  /** Round trip, as written: a blob decodes to itself, consuming the size
      and the payload but not the padding, unless it is an empty blob at the
      very end of the input. */
  lemma {:induction false} ParseEncBlob(b: seq<Byte>, rest: seq<Byte>)
    requires |b| < 0x8000_0000
    requires |b| > 0 || |rest| > 0
    ensures ParseBlob(EncBlob(b) + rest) == Success(Parsed(b, 4 + |b|))
  {
    var input := EncBlob(b) + rest;
    assert input[..4] == EncBlob(b)[..4];
    BlobSizeField(b);
    assert input[4..4 + |b|] == EncBlob(b)[4..4 + |b|];
  }

  /** Round trip of the corrected decoder, for every blob. */
  lemma {:induction false} ParseEncBlobCorrected(b: seq<Byte>, rest: seq<Byte>)
    requires |b| < 0x8000_0000
    ensures ParseBlobCorrected(EncBlob(b) + rest) == Success(Parsed(b, 4 + |b|))
  {
    var input := EncBlob(b) + rest;
    assert input[..4] == EncBlob(b)[..4];
    BlobSizeField(b);
    assert input[4..4 + |b|] == EncBlob(b)[4..4 + |b|];
  }

  /** The decoder as written refuses the encoding of the empty blob when
      nothing follows it. */
  lemma EmptyBlobAtEndRefused()
    ensures EncBlob([]) == [0, 0, 0, 0]
    ensures ParseBlob(EncBlob([])) == Failure(ReadError(BlobEndOfInput))
    ensures ParseBlobCorrected(EncBlob([])) == Success(Parsed([], 4))
  {
    assert EncBlob([]) == EncInt32(0);
    assert EncInt32(0) == [0, 0, 0, 0];
  }

  /** The two decoders differ only on input that is exactly four bytes long. */
  lemma ParseBlobCorrectedAgrees(input: seq<Byte>)
    requires |input| != 4
    ensures ParseBlob(input) == ParseBlobCorrected(input)
  {
  }

  // ---------------------------------------------------------------------
  // address pattern: an OSC-string starting with '/' and free of reserved
  // characters after it
  // ---------------------------------------------------------------------

  /** The characters an address pattern may not hold after its first byte:
      space # * , ? [ ] { } */
  const Reserved: seq<Byte> := [0x20, 0x23, 0x2a, 0x2c, 0x3f, 0x5b, 0x5d, 0x7b, 0x7d]

  predicate IsReserved(b: Byte) {
    b in Reserved
  }

  /** What OSCAddressPattern.Valid accepts. */
  predicate IsAddress(s: seq<Byte>) {
    && IsOscString(s)
    && |s| > 0 && s[0] == Slash
    && forall i | 1 <= i < |s| :: !IsReserved(s[i])
  }

  /** The first reserved character at or after i. */
  function ReservedFrom(s: seq<Byte>, i: nat): (r: Option<nat>)
    requires i <= |s|
    decreases |s| - i
    ensures r.Some? ==> i <= r.value < |s| && IsReserved(s[r.value])
    ensures r.Some? ==> forall j | i <= j < r.value :: !IsReserved(s[j])
    ensures r.None? ==> forall j | i <= j < |s| :: !IsReserved(s[j])
  {
    if i == |s| then None
    else if IsReserved(s[i]) then Some(i)
    else ReservedFrom(s, i + 1)
  }

  /** OSCAddressPattern.Valid: the string check first, then the leading
      slash, then the first reserved character after index 0. */
  function AddressValid(s: seq<Byte>): (r: Outcome)
    ensures r.Pass? <==> IsAddress(s)
    ensures !IsOscString(s) ==> r == StringValid(s)
    ensures IsOscString(s) && (|s| == 0 || s[0] != Slash) ==>
      r == Fail(ArgumentError(NoLeadingSlash))
    ensures IsOscString(s) && |s| > 0 && s[0] == Slash && r.Fail? ==>
      r.error.ArgumentError? && r.error.argument.Disallowed? &&
      var p := r.error.argument.position;
      1 <= p < |s| && IsReserved(s[p]) && forall j | 1 <= j < p :: !IsReserved(s[j])
  {
    var v := StringValid(s);
    if v.Fail? then v
    else if |s| == 0 || s[0] != Slash then Fail(ArgumentError(NoLeadingSlash))
    else match ReservedFrom(s, 1)
      case Some(p) => Fail(ArgumentError(Disallowed(p)))
      case None => Pass
  }

  /** Every valid address pattern is a valid OSC-string, so it is written and
      read back like one. */
  lemma AddressIsString(s: seq<Byte>)
    requires AddressValid(s).Pass?
    ensures StringValid(s).Pass?
  {
  }
}

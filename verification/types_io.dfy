/** The stream side of the atomic data types: each WriteTo encoder writes to a
    Sink, each Read decoder consumes a Source. Each method is proved against
    the byte-sequence functions of module Types. */
module TypesIO {
  import opened Wire
  import opened Types
  import opened Streams

  // ---------------------------------------------------------------------
  // int32 and float32
  // ---------------------------------------------------------------------

  /** binary.Write of a four-byte value: one write, its error returned. */
  method BinaryWrite(out: Sink, bytes: seq<Byte>) returns (err: Outcome)
    requires |bytes| == 4
    modifies out
    ensures out.data == old(out.data) + Prefix(bytes, old(out.room))
    ensures out.room == Sub(old(out.room), 4)
    ensures err == if old(out.room) >= 4 then Pass else Fail(SinkError)
  {
    var _, e := out.Write(bytes);
    err := e;
  }

  /** OSCInt32.WriteTo: reports 4 bytes whether or not the write went through. */
  method Int32WriteTo(x: Int32, out: Sink) returns (n: nat, err: Outcome)
    modifies out
    ensures out.data == old(out.data) + Prefix(EncInt32(x), old(out.room))
    ensures out.room == Sub(old(out.room), 4)
    ensures n == 4
    ensures err == if old(out.room) >= 4 then Pass else Fail(SinkError)
  {
    err := BinaryWrite(out, EncInt32(x));
    n := 4;
  }

  /** OSCFloat32.WriteTo, with the float given by its IEEE-754 bit pattern. */
  method Float32WriteTo(bits: Uint32, out: Sink) returns (n: nat, err: Outcome)
    modifies out
    ensures out.data == old(out.data) + Prefix(EncUint32(bits), old(out.room))
    ensures out.room == Sub(old(out.room), 4)
    ensures n == 4
    ensures err == if old(out.room) >= 4 then Pass else Fail(SinkError)
  {
    err := BinaryWrite(out, EncUint32(bits));
    n := 4;
  }

  /** ReadOSCInt32: four bytes, or a read error when fewer are left. */
  method ReadOSCInt32(src: Source) returns (r: Result<Int32>)
    requires src.Valid()
    modifies src
    ensures src.Valid()
    ensures var rest := old(src.Remaining());
      if |rest| >= 4 then r == Success(DecInt32(rest[..4])) && src.pos == old(src.pos) + 4
      else r == Failure(ReadError(ShortRead)) && src.pos == |src.input|
  {
    var bs, ok := src.ReadFull(4);
    if !ok {
      return Failure(ReadError(ShortRead));
    }
    r := Success(DecInt32(bs));
  }

  /** ReadOSCFloat32, giving the IEEE-754 bit pattern. */
  method ReadOSCFloat32(src: Source) returns (r: Result<Uint32>)
    requires src.Valid()
    modifies src
    ensures src.Valid()
    ensures var rest := old(src.Remaining());
      if |rest| >= 4 then r == Success(DecUint32(rest[..4])) && src.pos == old(src.pos) + 4
      else r == Failure(ReadError(ShortRead)) && src.pos == |src.input|
  {
    var bs, ok := src.ReadFull(4);
    if !ok {
      return Failure(ReadError(ShortRead));
    }
    r := Success(DecUint32(bs));
  }

  // ---------------------------------------------------------------------
  // OSC-string and address pattern
  // ---------------------------------------------------------------------

  /** OSCString.WriteTo: builds the terminated, padded bytes, then writes them
      in one call and returns that call's count and error. It does not
      validate the string. */
  method StringWriteTo(s: seq<Byte>, out: Sink) returns (n: nat, err: Outcome)
    modifies out
    ensures out.data == old(out.data) + Prefix(EncString(s), old(out.room))
    ensures out.room == Sub(old(out.room), |EncString(s)|)
    ensures n == Min(|EncString(s)|, old(out.room))
    ensures err == if old(out.room) >= |EncString(s)| then Pass else Fail(SinkError)
  {
    var data := s + [Nul];
    while |data| % Alignment != 0
      invariant |s| < |data| <= PadTo(|s| + 1)
      invariant data[..|s|] == s && AllZero(data[|s|..])
      decreases PadTo(|s| + 1) - |data|
    {
      data := data + [Nul];
    }
    PadToLeast(|s| + 1, |data|);
    assert data == EncString(s);
    n, err := out.Write(data);
  }

  /** OSCAddressPattern.WriteTo: byte for byte the string encoding. */
  method AddressWriteTo(s: seq<Byte>, out: Sink) returns (n: nat, err: Outcome)
    modifies out
    ensures out.data == old(out.data) + Prefix(EncString(s), old(out.room))
    ensures out.room == Sub(old(out.room), |EncString(s)|)
    ensures n == Min(|EncString(s)|, old(out.room))
    ensures err == if old(out.room) >= |EncString(s)| then Pass else Fail(SinkError)
  {
    n, err := StringWriteTo(s, out);
  }

  /** ReadOSCString: reads one byte at a time up to the NUL terminator, then
      reads and checks the padding one byte at a time, then validates.
      Returns the string and the error, as Go does: the string is empty when
      the terminator or the padding is wrong, and is the bytes read when only
      the validation fails. */
  method ReadOSCString(src: Source) returns (s: seq<Byte>, err: Outcome)
    requires src.Valid()
    modifies src
    ensures src.Valid()
    ensures var r := ReadString(old(src.Remaining()));
      s == r.value && err == r.err && src.pos == old(src.pos) + r.length
  {
    ghost var input := src.Remaining();
    var found;
    s, found := ReadToNul(src);
    if !found {
      StringReadNoNul(input);
      return [], Fail(ReadError(NoTerminator));
    }
    var k := |s|;
    assert input[k + 1..] == src.Remaining();
    ghost var pos1 := src.pos;
    var padded := SkipPadding(src, k + 1);
    StringReadFound(input, k, padded, src.pos - pos1);
    if !padded {
      return [], Fail(ReadError(BadPadding));
    }
    err := StringValid(s);
  }

  /** ReadOSCString's first loop: one byte at a time up to and including the
      first NUL. Reports whether a NUL was found before the end of input. */
  method ReadToNul(src: Source) returns (s: seq<Byte>, found: bool)
    requires src.Valid()
    modifies src
    ensures src.Valid()
    ensures var input := old(src.Remaining());
      && (found <==> !NoNul(input))
      && (found ==> |s| < |input| && input[|s|] == Nul && s == input[..|s|] && NoNul(s)
                    && src.pos == old(src.pos) + |s| + 1)
      && (!found ==> src.pos == |src.input|)
  {
    ghost var start := src.pos;
    ghost var input := src.Remaining();
    s := [];
    var chunk, eof := src.Read(1);
    while !eof
      invariant src.Valid() && start <= src.pos
      invariant input == src.input[start..]
      invariant |s| <= |input| && s == input[..|s|] && NoNul(s)
      invariant eof ==> chunk == [] && src.pos == |src.input| == start + |s|
      invariant !eof ==> |chunk| == 1 && src.pos == start + |s| + 1 && chunk[0] == input[|s|]
      decreases |src.input| - src.pos + (if eof then 0 else 1)
    {
      if chunk[0] == Nul {
        return s, true;
      }
      s := s + [chunk[0]];
      chunk, eof := src.Read(1);
    }
    assert s == input;
    found := false;
  }

  /** ReadOSCString's second loop: with `count` bytes read so far, one byte at
      a time until the count is a multiple of four. Fails at the first byte
      that is missing or is not NUL. */
  method SkipPadding(src: Source, count: nat) returns (ok: bool)
    requires src.Valid()
    modifies src
    ensures src.Valid() && old(src.pos) <= src.pos
    ensures var input := old(src.Remaining());
      var want := PadTo(count) - count;
      && (ok <==> want <= |input| && AllZero(input[..want]))
      && src.pos == old(src.pos) + PaddingRead(input, want)
  {
    ghost var start := src.pos;
    ghost var input := src.Remaining();
    ghost var want := PadTo(count) - count;
    var i := count;
    while i % Alignment != 0
      invariant src.Valid()
      invariant count <= i <= PadTo(count) && i - count <= |input|
      invariant src.pos == start + (i - count)
      invariant input == src.input[start..]
      invariant AllZero(input[..i - count])
      decreases PadTo(count) - i
    {
      var chunk, eof := src.Read(1);
      if |chunk| == 0 || chunk[0] != Nul {
        assert i - count < want;
        assert PaddingFault(input, want, 0) == Some(i - count);
        assert !(want <= |input| && AllZero(input[..want])) by {
          if want <= |input| {
            assert input[..want][i - count] == input[i - count];
          }
        }
        return false;
      }
      assert input[..i + 1 - count] == input[..i - count] + [input[i - count]];
      i := i + 1;
    }
    PadToLeast(count, i);
    ok := true;
  }

  // ---------------------------------------------------------------------
  // blob
  // ---------------------------------------------------------------------

  /** OSCBlob.WriteTo: the size as an int32, the bytes, then one zero byte per
      write until the count of bytes taken is a multiple of four. The errors
      of the padding writes are dropped, and the count includes padding the
      writer did not take. */
  method BlobWriteTo(b: seq<Byte>, out: Sink) returns (n: nat, err: Outcome)
    modifies out
    ensures out.data == old(out.data) + Prefix(EncBlob(b), old(out.room))
    ensures out.room == Sub(old(out.room), |EncBlob(b)|)
    ensures n == if old(out.room) < 4 then 4 else 4 + PadTo(Min(|b|, old(out.room) - 4))
    ensures err == if old(out.room) >= 4 + |b| then Pass else Fail(SinkError)
  {
    ghost var data0, room0 := out.data, out.room;
    ghost var head, body := EncInt32(WrapInt32(|b|)), b + Zeros(PadTo(|b|) - |b|);
    EncBlobParts(b);
    assert EncBlob(b) == head + body;
    var n0, e0 := Int32WriteTo(WrapInt32(|b|), out);
    if e0.Fail? {
      PrefixWithin(head, body, room0);
      return n0, e0;
    }
    PrefixAfter(head, body, room0);
    var k, e := BlobBodyWriteTo(b, out);
    n, err := 4 + k, e;
  }

  /** The payload and padding writes of OSCBlob.WriteTo: the bytes, then one
      zero byte per write until the count is a multiple of four. Only the
      payload write's error is kept, and the count includes every padding
      byte offered, taken or not. */
  method BlobBodyWriteTo(b: seq<Byte>, out: Sink) returns (k: nat, err: Outcome)
    modifies out
    ensures out.data == old(out.data) + Prefix(b + Zeros(PadTo(|b|) - |b|), old(out.room))
    ensures out.room == Sub(old(out.room), PadTo(|b|))
    ensures k == PadTo(Min(|b|, old(out.room)))
    ensures err == if old(out.room) >= |b| then Pass else Fail(SinkError)
  {
    ghost var data0, room0 := out.data, out.room;
    ghost var pad := PadTo(|b|) - |b|;
    var m, e := out.Write(b);
    ghost var taken := out.data;
    var padding := PadBlob(out, m);
    k, err := m + padding, e;
    if m == |b| {
      PrefixAfter(b, Zeros(pad), room0);
      assert Prefix(Zeros(pad), room0 - |b|) == Zeros(Min(pad, room0 - |b|));
    } else {
      PrefixWithin(b, Zeros(pad), room0);
      assert Zeros(0) == [];
    }
  }

  /** The padding loop of OSCBlob.WriteTo: with `k` payload bytes counted,
      one zero-byte write at a time until the count is a multiple of four,
      ignoring whether each write succeeded. Returns the count of writes. */
  method PadBlob(out: Sink, k: nat) returns (padding: nat)
    modifies out
    ensures padding == PadTo(k) - k
    ensures out.data == old(out.data) + Zeros(Min(padding, old(out.room)))
    ensures out.room == Sub(old(out.room), padding)
  {
    ghost var data0, room0 := out.data, out.room;
    padding := 0;
    while (k + padding) % Alignment != 0
      invariant k + padding <= PadTo(k)
      invariant out.data == data0 + Zeros(Min(padding, room0))
      invariant out.room == Sub(room0, padding)
      decreases PadTo(k) - padding - k
    {
      var _, _ := out.Write([Nul]);
      padding := padding + 1;
    }
    PadToLeast(k, k + padding);
  }

  /** OSCBlob.WriteTo with the padding writes checked: the count is what the
      writer took, and any failed write is reported. */
  method BlobWriteToCorrected(b: seq<Byte>, out: Sink) returns (n: nat, err: Outcome)
    modifies out
    ensures out.data == old(out.data) + Prefix(EncBlob(b), old(out.room))
    ensures out.room == Sub(old(out.room), |EncBlob(b)|)
    ensures n == Min(|EncBlob(b)|, old(out.room))
    ensures err == if old(out.room) >= |EncBlob(b)| then Pass else Fail(SinkError)
  {
    ghost var data0, room0 := out.data, out.room;
    ghost var head, body := EncInt32(WrapInt32(|b|)), b + Zeros(PadTo(|b|) - |b|);
    EncBlobParts(b);
    assert EncBlob(b) == head + body;
    var n0, e0 := out.Write(EncInt32(WrapInt32(|b|)));
    if e0.Fail? {
      PrefixWithin(head, body, room0);
      return n0, e0;
    }
    PrefixAfter(head, body, room0);
    var k, e := BlobBodyWriteToChecked(b, out);
    n, err := 4 + k, e;
  }

  /** The payload and padding writes with every write checked: stops at the
      first write the writer does not take whole. */
  method BlobBodyWriteToChecked(b: seq<Byte>, out: Sink) returns (k: nat, err: Outcome)
    modifies out
    ensures out.data == old(out.data) + Prefix(b + Zeros(PadTo(|b|) - |b|), old(out.room))
    ensures out.room == Sub(old(out.room), PadTo(|b|))
    ensures k == Min(PadTo(|b|), old(out.room))
    ensures err == if old(out.room) >= PadTo(|b|) then Pass else Fail(SinkError)
  {
    ghost var data0, room0 := out.data, out.room;
    ghost var pad := PadTo(|b|) - |b|;
    var m, e := out.Write(b);
    if e.Fail? {
      PrefixWithin(b, Zeros(pad), room0);
      return m, e;
    }
    var padding, e1 := PadBlobChecked(out, m);
    k, err := m + padding, e1;
    PrefixAfter(b, Zeros(pad), room0);
    assert Prefix(Zeros(pad), room0 - |b|) == Zeros(Min(pad, room0 - |b|));
  }

  /** The padding loop with each write checked: stops at the first write the
      writer refuses. Returns the count of zero bytes taken. */
  method PadBlobChecked(out: Sink, k: nat) returns (padding: nat, err: Outcome)
    modifies out
    ensures padding == Min(PadTo(k) - k, old(out.room))
    ensures err == if PadTo(k) - k <= old(out.room) then Pass else Fail(SinkError)
    ensures out.data == old(out.data) + Zeros(padding)
    ensures out.room == old(out.room) - padding
  {
    ghost var data0, room0 := out.data, out.room;
    padding := 0;
    while (k + padding) % Alignment != 0
      invariant k + padding <= PadTo(k) && padding <= room0
      invariant out.data == data0 + Zeros(padding)
      invariant out.room == room0 - padding
      decreases PadTo(k) - padding - k
    {
      var m, e := out.Write([Nul]);
      if e.Fail? {
        return padding, e;
      }
      padding := padding + 1;
    }
    PadToLeast(k, k + padding);
    err := Pass;
  }

  /** ReadOSCBlob: the size, then one read of that many bytes. A negative size
      is an error here; the source panics on it. */
  method ReadOSCBlob(src: Source) returns (r: Result<seq<Byte>>)
    requires src.Valid()
    modifies src
    ensures src.Valid()
    ensures src.pos == old(src.pos) + BlobReadLength(old(src.Remaining()))
    ensures var p := ParseBlob(old(src.Remaining()));
      r == if p.Success? then Success(p.value.value) else Failure(p.error)
  {
    ghost var input := src.Remaining();
    var size := ReadOSCInt32(src);
    if size.Failure? {
      return Failure(size.error);
    }
    if size.value < 0 {
      return Failure(ReadError(NegativeBlobSize));
    }
    assert src.Remaining() == input[4..];
    var buffer, eof := src.Read(size.value);
    if eof {
      return Failure(ReadError(BlobEndOfInput));
    }
    if |buffer| != size.value {
      return Failure(ReadError(IncompleteBlob(|buffer|, size.value)));
    }
    assert buffer == input[4..4 + size.value];
    r := Success(buffer);
  }

  /** ReadOSCBlob with the payload read skipped for an empty blob. */
  method ReadOSCBlobCorrected(src: Source) returns (r: Result<seq<Byte>>)
    requires src.Valid()
    modifies src
    ensures src.Valid()
    ensures src.pos == old(src.pos) + BlobReadLength(old(src.Remaining()))
    ensures var p := ParseBlobCorrected(old(src.Remaining()));
      r == if p.Success? then Success(p.value.value) else Failure(p.error)
  {
    ghost var input := src.Remaining();
    var size := ReadOSCInt32(src);
    if size.Failure? {
      return Failure(size.error);
    }
    if size.value < 0 {
      return Failure(ReadError(NegativeBlobSize));
    }
    assert src.Remaining() == input[4..];
    var buffer: seq<Byte> := [];
    if size.value > 0 {
      var eof;
      buffer, eof := src.Read(size.value);
      if eof {
        return Failure(ReadError(BlobEndOfInput));
      }
    }
    if |buffer| != size.value {
      return Failure(ReadError(IncompleteBlob(|buffer|, size.value)));
    }
    assert buffer == input[4..4 + size.value];
    r := Success(buffer);
  }
}

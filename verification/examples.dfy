/** Concrete byte vectors: the encodings the repository's own tests expect,
    derived here from the general definitions, and one witness per finding
    run through the stream methods. */
module Examples {
  import opened Wire
  import opened Types
  import opened Streams
  import opened TypesIO
  import opened Message
  import opened MessageIO

  const Something: seq<Byte> := [47, 115, 111, 109, 101, 116, 104, 105, 110, 103]  // "/something"
  const Foo: seq<Byte> := [102, 111, 111]                                           // "foo"
  const Bar: seq<Byte> := [98, 97, 114]                                             // "bar"
  const Fizz: seq<Byte> := [102, 105, 122, 122]                                     // "fizz"
  const Buzz: seq<Byte> := [98, 117, 122, 122]                                      // "buzz"
  const Testing: seq<Byte> := [116, 101, 115, 116, 105, 110, 103]                   // "testing"

  /** int32 vectors: zero, 42, a negative value and both extremes. */
  lemma Int32Vectors()
    ensures EncInt32(0) == [0, 0, 0, 0]
    ensures EncInt32(42) == [0, 0, 0, 0x2a]
    ensures EncInt32(-125135) == [0xff, 0xfe, 0x17, 0x31]
    ensures EncInt32(0x7fff_ffff) == [0x7f, 0xff, 0xff, 0xff]
    ensures EncInt32(-0x8000_0000) == [0x80, 0, 0, 0]
    ensures DecInt32([0, 0, 0, 0x2a]) == 42
  {
  }

  /** String vectors: the terminator is always written, and padding brings
      the length to the next multiple of four. */
  lemma StringVectors()
    ensures EncString(Testing) == Testing + [0]
    ensures EncString([]) == [0, 0, 0, 0]
    ensures EncString([49, 50, 51]) == [49, 50, 51, 0]
    ensures EncString([49, 50, 51, 52]) == [49, 50, 51, 52, 0, 0, 0, 0]
  {
    assert EncString(Testing) == Testing + Zeros(1);
    assert EncString([]) == [] + Zeros(4);
    assert EncString([49, 50, 51]) == [49, 50, 51] + Zeros(1);
    assert EncString([49, 50, 51, 52]) == [49, 50, 51, 52] + Zeros(4);
  }

  /** "tɘsting" in UTF-8: the second byte, 0xc9, is above 127 and is refused. */
  lemma NonAsciiStringRefused()
    ensures StringValid([116, 0xc9, 0x98, 115, 116, 105, 110, 103]) == Fail(ArgumentError(NonAscii(1)))
  {
  }

  /** Reading "testing" then "1234" from one input: each read consumes
      exactly its own encoding. */
  lemma ReadTwoStrings()
    ensures var input := Testing + [0] + [49, 50, 51, 52, 0, 0, 0, 0];
      && ParseString(input) == Success(Parsed(Testing, 8))
      && ParseString(input[8..]) == Success(Parsed([49, 50, 51, 52], 8))
  {
    var second: seq<Byte> := [49, 50, 51, 52, 0, 0, 0, 0];
    StringVectors();
    assert IsOscString(Testing) && IsOscString([49, 50, 51, 52]);
    ParseEncString(Testing, second);
    ParseEncString([49, 50, 51, 52], []);
    assert (Testing + [0] + second)[8..] == second;
    assert second == EncString([49, 50, 51, 52]) + [];
  }

  /** The size field of a blob shorter than 256 bytes. */
  lemma SmallSize(n: nat)
    requires n < 256
    ensures EncInt32(WrapInt32(n)) == [0, 0, 0, n]
  {
    assert WrapInt32(n) == n;
  }

  /** Blob vectors: the size, the bytes, then zero padding. */
  lemma BlobVectorOne()
    ensures EncBlob([1]) == [0, 0, 0, 1, 1, 0, 0, 0]
  {
    EncBlobParts([1]);
    SmallSize(1);
    assert PadTo(1) - 1 == 3 && Zeros(3) == [0, 0, 0];
  }

  lemma BlobVectorFive()
    ensures EncBlob([1, 2, 3, 4, 5]) == [0, 0, 0, 5, 1, 2, 3, 4, 5, 0, 0, 0]
  {
    EncBlobParts([1, 2, 3, 4, 5]);
    SmallSize(5);
    assert PadTo(5) - 5 == 3 && Zeros(3) == [0, 0, 0];
  }

  /** Reading the five-byte blob consumes its size and payload. */
  lemma ReadBlobVector()
    ensures ParseBlob([0, 0, 0, 5, 1, 2, 3, 4, 5, 0, 0, 0]) == Success(Parsed([1, 2, 3, 4, 5], 9))
  {
    BlobVectorFive();
    ParseEncBlob([1, 2, 3, 4, 5], []);
    assert EncBlob([1, 2, 3, 4, 5]) + [] == EncBlob([1, 2, 3, 4, 5]);
  }

  /** The three messages of the message tests: 16, 20 and 44 bytes. */
  lemma EmptyMessageVector()
    ensures EncodeMessage(Something, []) == Something + [0, 0] + [44, 0, 0, 0]
  {
    assert EncString(Something) == Something + [0, 0];
    assert TagString([]) == [Comma] && EncString([Comma]) == [44, 0, 0, 0];
  }

  lemma OneStringMessageVector()
    ensures EncodeMessage(Something, [Foo]) == Something + [0, 0] + [44, 115, 0, 0] + Foo + [0]
  {
    assert EncString(Something) == Something + [0, 0];
    assert TagString([Foo]) == [Comma, TypeString] && EncString([Comma, TypeString]) == [44, 115, 0, 0];
    assert EncString(Foo) == Foo + [0];
    assert EncArgs([Foo]) == EncString(Foo) + EncArgs([]);
  }

  const FourStrings: seq<seq<Byte>> := [Foo, Bar, Fizz, Buzz]

  /** The 44 bytes of "/something" with the strings "foo", "bar", "fizz" and
      "buzz", as the message tests write them and read them back. */
  const FourStringMessage: seq<Byte> := [
    47, 115, 111, 109, 101, 116, 104, 105, 110, 103, 0, 0,  // "/something"
    44, 115, 115, 115, 115, 0, 0, 0,                        // ",ssss"
    102, 111, 111, 0,                                       // "foo"
    98, 97, 114, 0,                                         // "bar"
    102, 105, 122, 122, 0, 0, 0, 0,                         // "fizz"
    98, 117, 122, 122, 0, 0, 0, 0]                          // "buzz"

  /** The 44 bytes, cut at the boundaries of the message's fields. */
  lemma FourStringMessageFields()
    ensures FourStringMessage
      == [47, 115, 111, 109, 101, 116, 104, 105, 110, 103, 0, 0]
       + [44, 115, 115, 115, 115, 0, 0, 0]
       + ([102, 111, 111, 0, 98, 97, 114, 0]
          + [102, 105, 122, 122, 0, 0, 0, 0, 98, 117, 122, 122, 0, 0, 0, 0])
  {
  }

  /** Each field is the encoding of its part. */
  lemma SomethingField()
    ensures EncString(Something) == [47, 115, 111, 109, 101, 116, 104, 105, 110, 103, 0, 0]
  {
    assert EncString(Something) == Something + Zeros(2);
  }

  lemma FourTagsField()
    ensures EncString(TagString(FourStrings)) == [44, 115, 115, 115, 115, 0, 0, 0]
  {
    assert TagString(FourStrings) == [44, 115, 115, 115, 115];
    assert EncString([44, 115, 115, 115, 115]) == [44, 115, 115, 115, 115] + Zeros(3);
  }

  lemma FooBarField()
    ensures EncArgs([Foo, Bar]) == [102, 111, 111, 0, 98, 97, 114, 0]
  {
    assert EncString(Foo) == Foo + Zeros(1) && EncString(Bar) == Bar + Zeros(1);
    EncArgsCons(Bar, []);
    assert [Bar] + [] == [Bar];
    EncArgsCons(Foo, [Bar]);
    assert [Foo] + [Bar] == [Foo, Bar];
  }

  lemma FizzBuzzField()
    ensures EncArgs([Fizz, Buzz]) == [102, 105, 122, 122, 0, 0, 0, 0, 98, 117, 122, 122, 0, 0, 0, 0]
  {
    assert EncString(Fizz) == Fizz + Zeros(4) && EncString(Buzz) == Buzz + Zeros(4);
    EncArgsCons(Buzz, []);
    assert [Buzz] + [] == [Buzz];
    EncArgsCons(Fizz, [Buzz]);
    assert [Fizz] + [Buzz] == [Fizz, Buzz];
  }

  /** WriteMessage's bytes for the multiple-string test are exactly the
      test's 44 bytes. */
  lemma FourStringMessageVector()
    ensures EncodeMessage(Something, FourStrings) == FourStringMessage
  {
    FourStringMessageFields();
    SomethingField();
    FourTagsField();
    FooBarField();
    FizzBuzzField();
    assert [Foo, Bar] + [Fizz, Buzz] == FourStrings;
    EncArgsAppend([Foo, Bar], [Fizz, Buzz]);
  }

  lemma SomethingIsAddress()
    ensures IsAddress(Something)
  {
    assert forall i | 0 <= i < |Something| :: 0 < Something[i] < 128;
    assert forall i | 1 <= i < |Something| :: Something[i] !in Reserved;
  }

  /** The 44 bytes decode to "/something" and its four strings, and all of
      them are read. */
  lemma ReadMessageVector()
    ensures DecodeMessage(FourStringMessage) == Decoded(Something, FourStrings, Pass, 44)
  {
    SomethingIsAddress();
    assert forall i | 0 <= i < |FourStrings| :: IsOscString(FourStrings[i]);
    FourStringMessageVector();
    DecodeEncodeMessage(Something, FourStrings, []);
    assert FourStringMessage + [] == FourStringMessage;
  }

  /** WriteMessage's count after a failed type-tag-string write: "/a" with no
      arguments to a writer with room for 5 bytes takes 5 bytes and reports
      1; the corrected writer reports 5. */
  method TagStringUndercountWitness() returns (n: nat, corrected: nat, sent: nat)
    ensures n == 1 && corrected == 5 && sent == 5
  {
    var address: seq<Byte> := [Slash, 0x61];
    TagStringFailureUndercounts();
    var out := new Sink(5);
    var e;
    n, e := WriteMessage(out, address, []);
    sent := |out.data|;
    var out2 := new Sink(5);
    corrected, e := WriteMessageCorrected(out2, address, []);
  }

  /** OSCBlob.WriteTo of [1] to a writer with room for 5 bytes: the writer
      takes 5 bytes, yet the count is 8 and no error is returned; the
      corrected writer reports 5 and the writer's error. */
  method BlobPaddingWitness() returns (n: nat, err: Outcome, sent: nat, corrected: nat, err2: Outcome)
    ensures n == 8 && err == Pass && sent == 5
    ensures corrected == 5 && err2 == Fail(SinkError)
  {
    var out := new Sink(5);
    n, err := BlobWriteTo([1], out);
    sent := |out.data|;
    var out2 := new Sink(5);
    corrected, err2 := BlobWriteToCorrected([1], out2);
  }

  /** ReadOSCBlob on the encoding of the empty blob and nothing after it: the
      decoder as written fails, the corrected one returns the empty blob. */
  method EmptyBlobWitness() returns (r: Result<seq<Byte>>, fixed: Result<seq<Byte>>)
    ensures r == Failure(ReadError(BlobEndOfInput))
    ensures fixed == Success([])
  {
    EmptyBlobAtEndRefused();
    var src := new Source([0, 0, 0, 0]);
    r := ReadOSCBlob(src);
    var src2 := new Source([0, 0, 0, 0]);
    fixed := ReadOSCBlobCorrected(src2);
  }
}

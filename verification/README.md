# gosc: the OSC 1.0 wire codec in Dafny

This project models the Open Sound Control 1.0 codec of the Go package
`gosc` (`types.go` and `message.go`). It covers three layers and proves
properties about each.

- **Argument codecs.** int32 is four big-endian two's-complement bytes.
  float32 is its 32-bit pattern. An OSC-string is ASCII bytes, one NUL, then
  NUL padding to a multiple of `OSC_BYTE_ALIGNMENT` (4). A blob is an int32
  size, the bytes, then zero padding.
- **Address-pattern validation.** An address pattern is an OSC-string that
  starts with `/` and holds none of ` #*,?[]{}` after its first byte.
- **Message framing.** `WriteMessage` validates the address and every
  argument, then writes the address, the type-tag string (`,` followed by
  one tag per argument) and the arguments. `ReadMessage` reads the address
  and the type-tag string, then one argument per tag. Only the string tag
  `s` is dispatched.

Modules:

- `Wire` (wire.dfy): bytes, 32-bit ranges, the alignment rule, the error
  kinds, and generic sequence facts.
- `Streams` (streams.dfy): the byte streams. A `Sink` is a writer with a
  bounded amount of room, so that any write can fail part-way. A `Source`
  is an in-memory reader whose position only advances; it behaves like Go's
  `bytes.Reader`, including reporting end of input on a read at the end
  even when nothing was asked for.
- `Types` (types.dfy): each encoding as a function on byte sequences, each
  decoder's result as a function of its input, the validity checks, and
  the round-trip and canonicity lemmas.
- `TypesIO` (types_io.dfy): the `WriteTo` and `Read…` operations as methods
  over `Sink` and `Source`, with the source's loops. Each is proved against
  the functions of `Types`.
- `Message` (message.dfy): the message encoding, the validation,
  `WriteMessage`'s returned count, and the message decoder as functions,
  with the round trip and the failure properties.
- `MessageIO` (message_io.dfy): `WriteMessage` and `ReadMessage` as
  methods, proved against `Message`.
- `Examples` (examples.dfy): the byte vectors of the package's tests,
  derived from the general definitions, and one witness method per finding.

Of the argument types, only `OSCString` implements the argument interface
(`Valid`, `Tag`, `WriteTo`). So a message carries strings only, and int32,
float32 and blob are standalone codecs. `ReadMessage` validates the address
it has read (message.go:61-64); when the address is invalid it returns an
empty address with the validation error.

Every reader is modelled on success and on failure alike: its result and
the number of bytes it has consumed from the source are functions of the
unread input (`ReadString`, `BlobReadLength`, `DecodeArgs`,
`DecodeMessage`). So the position after a failed read is part of each
reader's contract.

`OSCString.Tag` is the constant `Wire.TypeString`. `OSCString.Valid` ranges
over UTF-8 runes, and the model checks bytes. The two agree on whether a
string is valid, and on where its first offending rune starts.
`ReadMessage` re-validates the type-tag string it has just read
(message.go:73-75). The model keeps that check, although a string that
reads successfully is already valid, so the check never fails.

## Model

| member | source | states |
|---|---|---|
| Wire.PadTo | types.go:8 | The padded length is a multiple of four, at least n and less than n + 4. |
| Types.EncInt32 | types.go:65-67 | An int32 is four bytes, and decoding them gives the int32 back. |
| Types.EncInt32Sign | types.go:65-67 | Two's complement: an int32 is negative exactly when its first byte is 0x80 or more. |
| Types.EncDecInt32 | types.go:56-63 | Any four bytes decode to the one int32 whose encoding they are. |
| Types.EncUint32 | types.go:81-83 | A float32 bit pattern is four bytes whose big-endian value is the pattern. |
| Types.EncDecUint32 | types.go:72-79 | Any four bytes are the encoding of the bit pattern they decode to. |
| Types.WrapInt32 | types.go:192 | Go's int32 conversion of the blob length: the result differs from the length by a multiple of 2^32. |
| Types.StringValid | types.go:138-149 | Pass exactly when every byte is in 1..127. A failure is an argument error naming the first byte outside that range. |
| Types.EncString | types.go:151-163 | The string's bytes followed only by NULs, at least one. The length is a multiple of four, between len+1 and len+4. |
| Types.EncStringLength | types.go:158-160 | The encoded length is at least 4 and at most any multiple of four greater than the string's length. So it is the smallest such multiple. |
| Types.ParseString | types.go:94-132 | A missing-terminator error exactly when the input holds no NUL. Every other failure is bad padding or an argument error. On success the bytes consumed are a multiple of four and within the input, and the value is a valid OSC-string. |
| Types.ParseEncString | types.go:94-132 | Round trip: a valid string followed by anything decodes to itself and consumes exactly its encoding. |
| Types.ParseStringCanonical | types.go:94-132 | On success, the bytes consumed are exactly the encoding of the string returned. |
| Types.PaddingRead | types.go:120-128 | The padding bytes the loop reads: at most those due and at most the input. All of them when they are present and NUL. |
| Types.ReadString | types.go:94-132 | What ReadOSCString returns and reads, on every path. The string returned is a prefix of the input no longer than the bytes read, and after a read error it is empty. A missing terminator happens exactly when the input holds no NUL, and then the whole input is read. Bad padding stops after the NUL and within its padding. |
| Types.StringReadAgrees | types.go:94-132 | ReadString has ParseString's outcome. On success it returns the parsed string and reads exactly its bytes. On an argument error it returns the bytes before the NUL, which fail validation, and reads through the padding. |
| Types.ParseStringBadPadding | types.go:120-128 | A NUL followed by a padding byte that is missing or not NUL is a bad-padding error. |
| Types.ParseBlob | types.go:170-189 | On success: the size field decodes to the payload's length, the payload is the bytes after it, and size plus payload are consumed. Every failure is a read error. Input exactly four bytes long always fails. |
| Types.ParseBlobCorrected | types.go:170-189 | The same success and failure shape. A size of zero always gives the empty blob, consuming only the size. |
| Types.BlobReadLength | types.go:170-189 | The bytes a blob read consumes: within the input, exactly the consumed bytes on success, all of the input on any failure other than a negative size, and the 4 size bytes on a negative size. |
| Types.EncBlob | types.go:191-204 | The size field is the length as an int32, then the bytes, then zeros. The total is 4 plus the length rounded up to a multiple of four. |
| Types.BlobSizeField | types.go:192 | For a blob shorter than 2^31 bytes, the size field decodes to its length. |
| Types.ParseEncBlob | types.go:170-189 | Round trip as written: a blob decodes to itself and consumes its size and payload but not its padding. This holds unless it is an empty blob with nothing after it. |
| Types.EmptyBlobAtEndRefused | types.go:177-183 | The empty blob encodes as four zero bytes. With nothing after it, the decoder as written fails with end of input, and the corrected decoder returns the empty blob. |
| Types.ParseEncBlobCorrected | types.go:170-189 | The corrected decoder round-trips every blob. |
| Types.ParseBlobCorrectedAgrees | types.go:170-189 | The corrected decoder differs from the decoder as written only on input exactly four bytes long. |
| Types.ReservedFrom | types.go:224-230 | The first reserved character at or after a position, or none. |
| Types.AddressValid | types.go:209-233 | Pass exactly when the input is an address pattern. The checks apply in order: the string check's error first, then the leading-slash error, then the first reserved character after index 0. |
| Types.AddressIsString | types.go:209-213 | A valid address pattern is a valid OSC-string. |
| TypesIO.Int32WriteTo | types.go:65-67 | The sink takes as much of the four bytes as fits. The count is 4 whatever happened, and the error is the writer's. |
| TypesIO.Float32WriteTo | types.go:81-83 | The same as Int32WriteTo, for the bit pattern. |
| TypesIO.ReadOSCInt32 | types.go:56-63 | Four bytes are decoded and consumed. Fewer than four is a short-read error. |
| TypesIO.ReadOSCFloat32 | types.go:72-79 | The same as ReadOSCInt32, for the bit pattern. |
| TypesIO.StringWriteTo | types.go:151-163 | Its loop builds exactly EncString. One write of it follows, returning that write's count and error, and the sink takes what fits. |
| TypesIO.AddressWriteTo | types.go:235-237 | An address pattern is written byte for byte as a string. |
| TypesIO.ReadToNul | types.go:101-115 | The first loop: the NUL is found exactly when the input has one. The bytes before it are returned and the NUL is consumed; otherwise the input is used up. |
| TypesIO.SkipPadding | types.go:120-128 | The padding loop: succeeds exactly when the padding bytes are present and all NUL. On success and on failure it reads PaddingRead's bytes: the padding, or up to and including the first byte that is not NUL, or to the end of input. |
| TypesIO.ReadOSCString | types.go:94-132 | Returns ReadString's string and outcome for the unread input, including the string returned with a validation error, and advances by ReadString's length on every path. |
| TypesIO.BlobWriteTo | types.go:191-204 | As written: the sink holds as much of EncBlob as fits. The count is 4 plus the payload bytes taken rounded up to a multiple of four, or 4 if the size write failed. Only the size and payload writes' errors are reported. |
| TypesIO.BlobBodyWriteTo | types.go:196-203 | The payload and padding writes as written: the count includes every padding byte offered, and a padding failure is dropped. |
| TypesIO.PadBlob | types.go:198-201 | The padding loop as written: one zero byte per write until the count is a multiple of four, whether or not each write is taken. |
| TypesIO.BlobWriteToCorrected | types.go:191-204 | Corrected: the count is the number of bytes the sink took. The error is reported exactly when the blob did not fit. |
| TypesIO.BlobBodyWriteToChecked | types.go:196-203 | Corrected payload and padding writes: stops at the first write that fails and counts only bytes taken. |
| TypesIO.PadBlobChecked | types.go:198-201 | Corrected padding loop: the zero bytes taken, and the writer's error if it ran out of room. |
| TypesIO.ReadOSCBlob | types.go:170-189 | The result is ParseBlob of the unread input: a short size, a negative size, end of input at the payload read, or too few bytes, each its own error. The source advances by BlobReadLength: size and payload on success, 4 on a negative size, to the end of input otherwise. |
| TypesIO.ReadOSCBlobCorrected | types.go:170-189 | The same, against ParseBlobCorrected: an empty blob is read without a payload read. |
| Message.TagStringValid | message.go:16-26 | The type-tag string is ',' then one 's' per argument, and it is itself a valid OSC-string. |
| Message.EncArgs | message.go:42-48 | The arguments' encoding is a multiple of four bytes long, with at least four bytes per argument. |
| Message.EncodeMessage | message.go:28-50 | A message is a multiple of four bytes long, at least 8 plus 4 per argument. |
| Message.EncArgsAppend | message.go:42-48 | Encoding arguments distributes over concatenation of the argument lists. |
| Message.ArgsValid | message.go:20-24 | Pass exactly when every argument is a valid string. Otherwise the error is that of some argument, with all arguments before it valid. |
| Message.ArgsValidFirst | message.go:20-24 | The error reported is that of the first invalid argument. |
| Message.Validate | message.go:11-26 | Pass exactly when the address is an address pattern and every argument is valid. Any failure is an argument error. |
| Message.WriteMessageReport | message.go:11-51 | Invalid input reports 0 and the validation error. On valid input the error is reported exactly when the message did not fit, the count never exceeds the bytes the sink could take, and a message that fits is counted in full. |
| Message.WriteMessageReportCount | message.go:28-50 | Outside the type-tag-string window, the count is the bytes the sink took. The error is reported exactly when the message did not fit. |
| Message.TagStringFailureUndercounts | message.go:36-38 | Address "/a", no arguments, room for 5 bytes: the sink takes 5 bytes, and the count reported is 1. |
| Message.DecodeArgs | message.go:77-95 | Never more bytes are read than the input holds. On success there is one argument per tag after those decoded before. |
| Message.DecodeArgsCount | message.go:77-95 | On success there is one argument per tag, every tag is 's', and arguments decoded before are kept in front. |
| Message.DecodeArgsFailure | message.go:81-90 | An unsupported tag, which is not 's' and occurs in the tag string, leaves no arguments. Any other failure keeps the arguments decoded before it and fewer than one per tag. |
| Message.DecodeEncArgs | message.go:77-95 | Round trip of the argument loop: encoded valid strings under string tags decode to themselves, and nothing after them is consumed. |
| Message.DecodeArgsStrings | message.go:82-92 | Every argument the loop decodes is a valid OSC-string. |
| Message.DecodeArgsCanonical | message.go:77-95 | On success, the bytes consumed are exactly the encodings of the arguments decoded. |
| Message.DecodeEncodeMessage | message.go:55-96 | Round trip: an encoded message with a valid address and valid strings, followed by anything, decodes to that address and those strings. It consumes exactly the message. |
| Message.DecodeMessage | message.go:55-96 | Never more bytes are read than the input holds. The address returned is empty or a valid address pattern, so one that fails validation is never returned. On success it is not empty. |
| Message.DecodeMessageCanonical | message.go:55-96 | On success, the address and arguments are valid, and the bytes consumed are exactly their message encoding. |
| Message.DecodeMessageUnsupportedFirst | message.go:81-86 | A first tag other than 's' (such as 'i', 'f' or 'b') gives an unsupported-tag error naming it, no arguments, and the address read. |
| Message.DecodeMessageUnsupported | message.go:84-85 | Any unsupported tag leaves no arguments. |
| Message.DecodeMessageCount | message.go:77-95 | On success there is one argument per character after the comma. |
| MessageIO.ValidateAndTag | message.go:12-26 | The tag-array loop: its outcome is Validate's. On success the array filled is the type-tag string. |
| MessageIO.WriteArgs | message.go:42-48 | The argument loop: the sink holds as much of the arguments' encoding as fits. The count is the bytes taken, and the error is reported exactly when they did not all fit. |
| MessageIO.WriteMessage | message.go:11-51 | Invalid input leaves the sink unchanged. Otherwise the sink holds as much of the message encoding as fits, and the count and error are WriteMessageReport's, including the type-tag-string undercount. |
| MessageIO.WriteMessageCorrected | message.go:11-51 | Corrected: on valid input the count is always the number of bytes the sink took, including a failed type-tag-string write. |
| MessageIO.ReadArgs | message.go:77-95 | The argument loop's result is DecodeArgs of the unread input, and the source advances by DecodeArgs's count on success and on failure: nothing for an unsupported tag, the failed string's ReadString length after the strings before it. |
| MessageIO.ReadMessage | message.go:55-96 | The result is DecodeMessage of the unread input, and the source advances by DecodeMessage's count on every path: the failed read's length, or the address and the type-tag string read before the failure. |
| Examples.Int32Vectors | arg_serialization_test.go:13-53 | 0, 42, -125135 and both int32 extremes encode to the bytes the tests expect, and 00 00 00 2a decodes to 42. |
| Examples.StringVectors | arg_serialization_test.go:99-158 | "testing", "", "123" and "1234" encode to 8, 4, 4 and 8 bytes, with the expected NUL padding. |
| Examples.NonAsciiStringRefused | arg_serialization_test.go:114-117 | The UTF-8 bytes of "tɘsting" are refused at position 1 with an argument error. |
| Examples.ReadTwoStrings | arg_deserialization_test.go:82-99 | "testing" then "1234" decode in sequence from one input, each consuming 8 bytes. |
| Examples.BlobVectorOne | arg_serialization_test.go:160-207 | The blob [1] encodes to 00 00 00 01 01 00 00 00. |
| Examples.BlobVectorFive | arg_serialization_test.go:160-207 | The blob [1..5] encodes to its 12 test bytes. |
| Examples.ReadBlobVector | arg_deserialization_test.go:101-110 | Those 12 bytes decode to [1..5], consuming 9 bytes. |
| Examples.EmptyMessageVector | message_test.go:8-20 | "/something" with no arguments is the 16 test bytes. |
| Examples.OneStringMessageVector | message_test.go:22-35 | "/something" with "foo" is the 20 test bytes. |
| Examples.FourStringMessageVector | message_test.go:37-54 | "/something" with "foo", "bar", "fizz" and "buzz" encodes to exactly the test's 44 bytes. |
| Examples.ReadMessageVector | message_test.go:56-74 | The test's 44 bytes decode to "/something" and the four strings, with no error, consuming all 44. |
| Examples.TagStringUndercountWitness | message.go:36-38 | Through the stream methods: room for 5 bytes, "/a" and no arguments. The sink takes 5 bytes; WriteMessage reports 1 and the corrected method reports 5. |
| Examples.BlobPaddingWitness | types.go:196-203 | Through the stream methods: the blob [1] with room for 5 bytes. The sink takes 5 bytes; BlobWriteTo reports 8 and no error, and the corrected method reports 5 and the writer's error. |
| Examples.EmptyBlobWitness | types.go:177-183 | Through the stream methods: reading four zero bytes fails with end of input as written, and gives the empty blob when corrected. |

## Left out

- I/O errors other than end of input. The writer fails only by running out of room, and the reader only by running out of input. Go's reader and writer errors are not modelled beyond that.
- The single unlooped payload read of `ReadOSCBlob` (types.go:178). The reader delivers every available byte, as `bytes.Reader` does, so a short read happens only at the end of input.
- The stale-byte append in `ReadOSCString`'s first loop, which needs a read that returns no byte and no error (types.go:101-107). The reader never does that.
- Floating point: a float32 is its IEEE-754 bit pattern. The conversion between numbers and patterns is not modelled, so neither are the float test vectors.
- The extended type-tag constants (types.go:37-50), which have no behaviour. int32, float32 and blob arguments in messages are left out too: the code gives those types no `Valid` or `Tag`, so they cannot be message arguments.
- MessageIO.ReadMessage: like the Go code, it drops the string that ReadOSCString returns with an error. Such an address comes back empty, and such an argument is not added to the arguments returned.
- TypesIO.ReadOSCBlob: a negative size, on which Go panics in `make`, is a `NegativeBlobSize` read error.
- Error messages and their formatting. Errors are kinds (argument error, read error, writer error) with the cause and position; the text is not modelled.
- The stub `WriteMessage` in gosc.go and the command-line tool in codes/main.go are not part of this model.

## Findings

| source | as written | input that shows it | evidently intended | confidence | as-written member | corrected member |
|---|---|---|---|---|---|---|
| message.go:36-38 | When the type-tag-string write fails, `WriteMessage` returns that write's `sent` alone. The bytes of the address already sent are not counted. | Address "/a", no arguments, a writer with room for 5 bytes: 5 bytes are sent and 1 is reported. | Return `total + sent`, as the argument loop does. The comment at message.go:8-10 promises the total bytes sent whether or not an error occurs. | not executed | Message.TagStringFailureUndercounts | MessageIO.WriteMessageCorrected |
| types.go:196-203 | `OSCBlob.WriteTo` drops the errors of its padding writes. It counts each padding byte as sent whether or not the writer took it. | The blob [1] to a writer with room for 5 bytes: 5 bytes are sent, and 8 is returned with no error. | Count only the bytes the writer took, and report the failure of any write. | not executed | TypesIO.BlobWriteTo | TypesIO.BlobWriteToCorrected |
| types.go:177-183 | `ReadOSCBlob` always reads the payload, even for a size of zero. At the end of input a `bytes.Reader` reports end of input for that read, so the empty blob fails. (A `bytes.Buffer` returns no error for an empty read at the end, so it does not show this.) | The bytes 00 00 00 00 with nothing after them, which are the encoding of the empty blob. | Skip the payload read for an empty blob, so that every encoded blob decodes. | not executed | Types.EmptyBlobAtEndRefused | Types.ParseEncBlobCorrected |

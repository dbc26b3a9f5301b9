/** OSC message framing as byte sequences: what WriteMessage emits and
    reports, and what ReadMessage returns, as functions of their inputs.

    In this code base the only argument type that implements OSCArg (it has
    Tag, Valid and WriteTo) is OSCString, so a message's arguments are
    strings: the type-tag string is ',' followed by one 's' per argument. */
module Message {
  import opened Wire
  import opened Types

  // ---------------------------------------------------------------------
  // encoding
  // ---------------------------------------------------------------------

  /** ',' then one string tag per argument. */
  function TagString(args: seq<seq<Byte>>): seq<Byte> {
    [Comma] + seq(|args|, _ => TypeString)
  }

  /** The arguments' encodings, in argument order. Every field is a whole
      number of four-byte words, at least one word long. */
  function EncArgs(args: seq<seq<Byte>>): (r: seq<Byte>)
    ensures |r| % Alignment == 0
    ensures |r| >= Alignment * |args|
  {
    if |args| == 0 then []
    else
      var first, others := EncString(args[0]), EncArgs(args[1..]);
      AlignedSum(|first|, |others|);
      first + others
  }

  /** The full message: address, type-tag string, arguments. It is a whole
      number of four-byte words: one at least for the address, one for the
      type-tag string, one per argument. */
  function EncodeMessage(address: seq<Byte>, args: seq<seq<Byte>>): (r: seq<Byte>)
    ensures |r| % Alignment == 0
    ensures |r| >= 8 + Alignment * |args|
  {
    var head, tags, body := EncString(address), EncString(TagString(args)), EncArgs(args);
    AlignedSum(|head|, |tags|);
    AlignedSum(|head| + |tags|, |body|);
    head + tags + body
  }

  lemma {:induction false} EncArgsAppend(a: seq<seq<Byte>>, b: seq<seq<Byte>>)
    ensures EncArgs(a + b) == EncArgs(a) + EncArgs(b)
  {
    if |a| == 0 {
      assert a + b == b;
    } else {
      assert (a + b)[1..] == a[1..] + b;
      EncArgsAppend(a[1..], b);
    }
  }

  lemma EncArgsCons(x: seq<Byte>, xs: seq<seq<Byte>>)
    ensures EncArgs([x] + xs) == EncString(x) + EncArgs(xs)
  {
    ConsDrop(x, xs);
  }

  /** The type-tag string is itself a valid OSC-string. */
  lemma TagStringValid(args: seq<seq<Byte>>)
    ensures IsOscString(TagString(args))
    ensures |TagString(args)| == |args| + 1 && TagString(args)[0] == Comma
  {
  }

  // ---------------------------------------------------------------------
  // validation and the write report
  // ---------------------------------------------------------------------

  /** The arguments' Valid checks in order: the first failure, or Pass. */
  function ArgsValid(args: seq<seq<Byte>>): (r: Outcome)
    ensures r.Pass? <==> forall i | 0 <= i < |args| :: IsOscString(args[i])
    ensures r.Fail? ==> exists k | 0 <= k < |args| ::
      r == StringValid(args[k]) && forall j | 0 <= j < k :: IsOscString(args[j])
  {
    if |args| == 0 then Pass
    else
      var v := StringValid(args[0]);
      if v.Fail? then v
      else
        var rest := ArgsValid(args[1..]);
        assert rest.Fail? ==> exists k | 0 <= k < |args| ::
          rest == StringValid(args[k]) && forall j | 0 <= j < k :: IsOscString(args[j]) by {
          if rest.Fail? {
            var k :| 0 <= k < |args[1..]| && rest == StringValid(args[1..][k])
              && forall j | 0 <= j < k :: IsOscString(args[1..][j]);
            assert rest == StringValid(args[k + 1]);
            assert forall j | 0 <= j < k + 1 :: IsOscString(args[j]) by {
              forall j | 0 <= j < k + 1 ensures IsOscString(args[j]) {
                if j > 0 { assert args[j] == args[1..][j - 1]; }
              }
            }
          }
        }
        rest
  }

  /** The argument checks report the first argument that fails. */
  lemma {:induction false} ArgsValidFirst(args: seq<seq<Byte>>, k: nat)
    requires k < |args| && !IsOscString(args[k])
    requires forall j | 0 <= j < k :: IsOscString(args[j])
    ensures ArgsValid(args) == StringValid(args[k])
  {
    if k > 0 {
      ArgsValidFirst(args[1..], k - 1);
    }
  }

  /** What WriteMessage checks before writing: the address, then each argument. */
  function Validate(address: seq<Byte>, args: seq<seq<Byte>>): (r: Outcome)
    ensures r.Pass? <==> IsAddress(address) && forall i | 0 <= i < |args| :: IsOscString(args[i])
    ensures r.Fail? ==> r.error.ArgumentError?
  {
    if AddressValid(address).Fail? then AddressValid(address) else ArgsValid(args)
  }

  /** A count and an error, as WriteMessage returns them. */
  datatype Written = Written(count: nat, err: Outcome)

  /** WriteMessage's return on a sink with `room` bytes of room, as the code
      is written. Invalid input writes nothing and returns 0. Otherwise the
      count is the bytes the sink took, except when the type-tag string is the
      write that fails: then only that write's own count is returned. */
  function WriteMessageReport(address: seq<Byte>, args: seq<seq<Byte>>, room: nat): (r: Written)
    ensures Validate(address, args).Fail? ==> r == Written(0, Validate(address, args))
    ensures Validate(address, args).Pass? ==>
      var full := |EncodeMessage(address, args)|;
      && r.err == (if full <= room then Pass else Fail(SinkError))
      && r.count <= Min(full, room)
      && (full <= room ==> r.count == full)
  {
    var v := Validate(address, args);
    if v.Fail? then Written(0, v)
    else
      var full := |EncodeMessage(address, args)|;
      var head := |EncString(address)|;
      var tags := |EncString(TagString(args))|;
      if full <= room then Written(full, Pass)
      else if head <= room < head + tags then Written(room - head, Fail(SinkError))
      else Written(room, Fail(SinkError))
  }

  /** Outside the type-tag-string window the count is the bytes sent, and the
      error is reported exactly when the message did not fit. */
  lemma WriteMessageReportCount(address: seq<Byte>, args: seq<seq<Byte>>, room: nat)
    requires Validate(address, args).Pass?
    requires room < |EncString(address)| || room >= |EncString(address)| + |EncString(TagString(args))|
    ensures WriteMessageReport(address, args, room) ==
      Written(Min(|EncodeMessage(address, args)|, room),
              if room >= |EncodeMessage(address, args)| then Pass else Fail(SinkError))
  {
  }

  /** The discrepancy with "returns the total number of bytes sent in either
      case": address "/a", no arguments, a sink with room for 5 bytes. The
      sink takes the 4-byte address and 1 byte of the tag string, and the
      count returned is 1. */
  lemma TagStringFailureUndercounts()
    ensures var address := [Slash, 0x61];
      && Validate(address, []).Pass?
      && |Prefix(EncodeMessage(address, []), 5)| == 5
      && WriteMessageReport(address, [], 5) == Written(1, Fail(SinkError))
  {
    var address: seq<Byte> := [Slash, 0x61];
    assert AddressValid(address).Pass?;
    assert |EncString(address)| == 4;
    assert TagString([]) == [Comma];
    assert |EncString([Comma])| == 4;
  }

  // ---------------------------------------------------------------------
  // decoding
  // ---------------------------------------------------------------------

  /** Decoded arguments, the error that stopped decoding, and the bytes
      read from the input, on success and on failure alike. */
  datatype ArgsDecoded = ArgsDecoded(args: seq<seq<Byte>>, err: Outcome, consumed: nat)

  /** ReadMessage's argument loop over `tags` (the type-tag string after its
      comma), with `done` the arguments decoded before. A string tag reads an
      OSC-string; any other tag stops with an unsupported-tag error and no
      arguments, reading nothing more; a failed string read stops with the
      arguments read so far, after the bytes that string read took. */
  function DecodeArgs(tags: seq<Byte>, input: seq<Byte>, done: seq<seq<Byte>>): (r: ArgsDecoded)
    decreases |tags|
    ensures r.consumed <= |input|
    ensures r.err.Pass? ==> |r.args| == |done| + |tags|
  {
    if |tags| == 0 then ArgsDecoded(done, Pass, 0)
    else if tags[0] != TypeString then
      ArgsDecoded([], Fail(ReadError(UnsupportedTag(tags[0]))), 0)
    else match ParseString(input)
      case Failure(e) => ArgsDecoded(done, Fail(e), ReadString(input).length)
      case Success(p) =>
        var r := DecodeArgs(tags[1..], input[p.consumed..], done + [p.value]);
        ArgsDecoded(r.args, r.err, p.consumed + r.consumed)
  }

  /** An address, the arguments, the error, and the bytes read from the
      input, on success and on failure alike. */
  datatype Decoded = Decoded(address: seq<Byte>, args: seq<seq<Byte>>, err: Outcome, consumed: nat)

  /** ReadMessage's result on `input`. An address that does not read or does
      not validate gives an empty address; after that the address is always
      returned. A returned address is therefore empty or a valid address
      pattern, and never more bytes are read than the input holds. */
  function DecodeMessage(input: seq<Byte>): (r: Decoded)
    ensures r.consumed <= |input|
    ensures r.address == [] || IsAddress(r.address)
    ensures r.err.Pass? ==> r.address != []
  {
    match ParseString(input)
    case Failure(e) => Decoded([], [], Fail(e), ReadString(input).length)
    case Success(a) =>
      var valid := AddressValid(a.value);
      if valid.Fail? then Decoded([], [], valid, a.consumed)
      else
        var rest := input[a.consumed..];
        match ParseString(rest)
        case Failure(e) => Decoded(a.value, [], Fail(e), a.consumed + ReadString(rest).length)
        case Success(t) =>
          var tagString := t.value;
          if |tagString| == 0 || tagString[0] != Comma then
            Decoded(a.value, [], Fail(ReadError(NoComma)), a.consumed + t.consumed)
          else if StringValid(tagString).Fail? then
            Decoded(a.value, [], StringValid(tagString), a.consumed + t.consumed)
          else
            var r := DecodeArgs(tagString[1..], rest[t.consumed..], []);
            Decoded(a.value, r.args, r.err, a.consumed + t.consumed + r.consumed)
  }

  /** On success there is one argument per tag, every tag is a string tag,
      and the arguments decoded before come first. */
  lemma {:induction false} DecodeArgsCount(tags: seq<Byte>, input: seq<Byte>, done: seq<seq<Byte>>)
    requires DecodeArgs(tags, input, done).err.Pass?
    ensures var r := DecodeArgs(tags, input, done);
      |r.args| == |done| + |tags| && r.args[..|done|] == done
    ensures forall i | 0 <= i < |tags| :: tags[i] == TypeString
  {
    if |tags| > 0 {
      var p := ParseString(input).value;
      DecodeArgsCount(tags[1..], input[p.consumed..], done + [p.value]);
      var r := DecodeArgs(tags, input, done);
      TakeTake(r.args, |done|, |done| + 1);
      forall i | 0 <= i < |tags| ensures tags[i] == TypeString {
        if i > 0 { assert tags[i] == tags[1..][i - 1]; }
      }
    }
  }

  /** An unsupported tag discards every argument, including those decoded
      before it. Any other failure keeps the arguments decoded before it. */
  lemma {:induction false} DecodeArgsFailure(tags: seq<Byte>, input: seq<Byte>, done: seq<seq<Byte>>)
    requires DecodeArgs(tags, input, done).err.Fail?
    ensures var r := DecodeArgs(tags, input, done);
      if r.err.error.ReadError? && r.err.error.read.UnsupportedTag? then
        r.args == [] && r.err.error.read.tag != TypeString && r.err.error.read.tag in tags
      else
        |done| <= |r.args| < |done| + |tags| && r.args[..|done|] == done
  {
    if tags[0] == TypeString {
      match ParseString(input)
      case Failure(e) =>
      case Success(p) =>
        var done' := done + [p.value];
        var q := DecodeArgs(tags[1..], input[p.consumed..], done');
        DecodeArgsFailure(tags[1..], input[p.consumed..], done');
        assert DecodeArgs(tags, input, done).args == q.args;
        assert DecodeArgs(tags, input, done).err == q.err;
        if !(q.err.error.ReadError? && q.err.error.read.UnsupportedTag?) {
          TakeTake(q.args, |done|, |done'|);
        } else {
          assert q.err.error.read.tag in tags;
        }
    }
  }

  /** Round trip of the argument loop: the encodings of valid strings, read
      under their string tags, give back the strings, and nothing after
      them is consumed. */
  lemma {:induction false} DecodeEncArgs(args: seq<seq<Byte>>, rest: seq<Byte>, done: seq<seq<Byte>>)
    requires forall i | 0 <= i < |args| :: IsOscString(args[i])
    ensures DecodeArgs(TagString(args)[1..], EncArgs(args) + rest, done)
      == ArgsDecoded(done + args, Pass, |EncArgs(args)|)
  {
    var tags := TagString(args)[1..];
    if |args| == 0 {
      assert done + args == done;
    } else {
      var first, others := EncString(args[0]), EncArgs(args[1..]) + rest;
      AppendAssoc(first, EncArgs(args[1..]), rest);
      ParseEncString(args[0], others);
      DropAppended(first, others);
      assert tags[1..] == TagString(args[1..])[1..];
      DecodeEncArgs(args[1..], rest, done + [args[0]]);
      ConsTail(args[0], done, args);
    }
  }

  /** Every argument the loop decodes is a valid string. */
  lemma {:induction false} DecodeArgsStrings(tags: seq<Byte>, input: seq<Byte>, done: seq<seq<Byte>>)
    requires DecodeArgs(tags, input, done).err.Pass?
    ensures var r := DecodeArgs(tags, input, done);
      forall i | |done| <= i < |r.args| :: IsOscString(r.args[i])
  {
    if |tags| > 0 {
      var p := ParseString(input).value;
      var done' := done + [p.value];
      DecodeArgsStrings(tags[1..], input[p.consumed..], done');
      DecodeArgsCount(tags[1..], input[p.consumed..], done');
      var q := DecodeArgs(tags[1..], input[p.consumed..], done');
      assert DecodeArgs(tags, input, done).args == q.args;
      assert q.args[|done|] == p.value by {
        TakeTake(q.args, |done|, |done'|);
        assert q.args[..|done'|][|done|] == q.args[|done|];
      }
      forall i | |done| <= i < |q.args| ensures IsOscString(q.args[i]) {
        if i == |done| {
          assert IsOscString(p.value);
        }
      }
    }
  }

  /** Only canonical encodings are accepted by the argument loop: the bytes
      consumed are the encodings of the arguments it added. */
  lemma {:induction false} DecodeArgsCanonical(tags: seq<Byte>, input: seq<Byte>, done: seq<seq<Byte>>)
    requires DecodeArgs(tags, input, done).err.Pass?
    ensures var r := DecodeArgs(tags, input, done);
      && |done| <= |r.args| && r.consumed <= |input|
      && input[..r.consumed] == EncArgs(r.args[|done|..])
  {
    DecodeArgsCount(tags, input, done);
    var r := DecodeArgs(tags, input, done);
    if |tags| == 0 {
      assert r.args[|done|..] == [];
    } else {
      var p := ParseString(input).value;
      var tail := input[p.consumed..];
      var done' := done + [p.value];
      var q := DecodeArgs(tags[1..], tail, done');
      assert r.args == q.args && r.consumed == p.consumed + q.consumed;
      DecodeArgsCanonical(tags[1..], tail, done');
      DecodeArgsCount(tags[1..], tail, done');
      ParseStringCanonical(input);
      EncArgsAfter(q.args, done, p.value);
      TakeSplit(input, p.consumed, q.consumed);
    }
  }

  /** The arguments after `done`, when the first of them is `x`, encode as
      `x` followed by the rest. */
  lemma EncArgsAfter(args: seq<seq<Byte>>, done: seq<seq<Byte>>, x: seq<Byte>)
    requires |done| + 1 <= |args| && args[..|done| + 1] == done + [x]
    ensures EncArgs(args[|done|..]) == EncString(x) + EncArgs(args[|done| + 1..])
  {
    assert args[|done|] == x by {
      assert args[..|done| + 1][|done|] == args[|done|];
    }
    DropOne(args, |done|);
    EncArgsCons(x, args[|done| + 1..]);
  }

  /** Round trip of a string-only message: whatever follows it is left unread. */
  lemma {:induction false} DecodeEncodeMessage(address: seq<Byte>, args: seq<seq<Byte>>, rest: seq<Byte>)
    requires IsAddress(address)
    requires forall i | 0 <= i < |args| :: IsOscString(args[i])
    ensures DecodeMessage(EncodeMessage(address, args) + rest)
      == Decoded(address, args, Pass, |EncodeMessage(address, args)|)
  {
    var head, tags, body := EncString(address), TagString(args), EncArgs(args);
    var afterTags := body + rest;
    var afterAddress := EncString(tags) + afterTags;
    AppendAssoc(head + EncString(tags), body, rest);
    AppendAssoc(head, EncString(tags), afterTags);
    ParseEncString(address, afterAddress);
    DropAppended(head, afterAddress);
    TagStringValid(args);
    ParseEncString(tags, afterTags);
    DropAppended(EncString(tags), afterTags);
    DecodeEncArgs(args, rest, []);
    EmptyAppend(args);
  }

  /** Only canonical encodings are accepted: on success the address is valid,
      every argument is a valid string, and the bytes consumed are exactly
      the encoding of what was returned. */
  lemma {:induction false} DecodeMessageCanonical(input: seq<Byte>)
    requires DecodeMessage(input).err.Pass?
    ensures var d := DecodeMessage(input);
      && IsAddress(d.address)
      && (forall i | 0 <= i < |d.args| :: IsOscString(d.args[i]))
      && d.consumed <= |input|
      && input[..d.consumed] == EncodeMessage(d.address, d.args)
  {
    DecodedParts(input);
    var a := ParseString(input).value;
    ParseStringCanonical(input);
    var rest := input[a.consumed..];
    var t := ParseString(rest).value;
    ParseStringCanonical(rest);
    var tail := rest[t.consumed..];
    var r := DecodeArgs(t.value[1..], tail, []);
    DecodedTags(t.value, tail);
    TakeThree(input, a.consumed, t.consumed, r.consumed);
  }

  /** A message that decodes: the address, the type-tag string with its
      comma, and the arguments after it each decode in turn. */
  lemma DecodedParts(input: seq<Byte>)
    requires DecodeMessage(input).err.Pass?
    ensures ParseString(input).Success?
    ensures var a := ParseString(input).value;
      && IsAddress(a.value)
      && ParseString(input[a.consumed..]).Success?
      && var t := ParseString(input[a.consumed..]).value;
      && |t.value| > 0 && t.value[0] == Comma
      && var r := DecodeArgs(t.value[1..], input[a.consumed..][t.consumed..], []);
      && r.err.Pass?
      && DecodeMessage(input) == Decoded(a.value, r.args, Pass, a.consumed + t.consumed + r.consumed)
  {
  }

  /** The argument loop after a type-tag string: on success the type-tag
      string is the one the arguments read give, each of them is a valid
      string, and the bytes read are their encodings. */
  lemma DecodedTags(tagString: seq<Byte>, tail: seq<Byte>)
    requires |tagString| > 0 && tagString[0] == Comma
    requires DecodeArgs(tagString[1..], tail, []).err.Pass?
    ensures var r := DecodeArgs(tagString[1..], tail, []);
      && tagString == TagString(r.args)
      && (forall i | 0 <= i < |r.args| :: IsOscString(r.args[i]))
      && r.consumed <= |tail| && tail[..r.consumed] == EncArgs(r.args)
  {
    DecodeArgsCanonical(tagString[1..], tail, []);
    DecodeArgsStrings(tagString[1..], tail, []);
    DecodeArgsCount(tagString[1..], tail, []);
    var r := DecodeArgs(tagString[1..], tail, []);
    assert r.args[0..] == r.args;
    TagStringOf(tagString, r.args);
  }

  /** A type-tag string of string tags only is the one TagString builds. */
  lemma TagStringOf(tagString: seq<Byte>, args: seq<seq<Byte>>)
    requires |tagString| == |args| + 1 && tagString[0] == Comma
    requires forall i | 0 <= i < |tagString| - 1 :: tagString[1..][i] == TypeString
    ensures tagString == TagString(args)
  {
    forall i | 0 <= i < |tagString| ensures tagString[i] == TagString(args)[i] {
      if i > 0 { assert tagString[i] == tagString[1..][i - 1]; }
    }
  }

  /** A message whose first type tag is not 's' (including 'i', 'f' and 'b')
      fails with an unsupported-tag error and no arguments, before any
      argument is read. */
  lemma DecodeMessageUnsupportedFirst(input: seq<Byte>)
    requires ParseString(input).Success?
    requires IsAddress(ParseString(input).value.value)
    requires var rest := input[ParseString(input).value.consumed..];
      && ParseString(rest).Success?
      && var tagString := ParseString(rest).value.value;
      && |tagString| >= 2 && tagString[0] == Comma && tagString[1] != TypeString
    ensures var d := DecodeMessage(input);
      var tagString := ParseString(input[ParseString(input).value.consumed..]).value.value;
      && d.address == ParseString(input).value.value && d.args == []
      && d.err == Fail(ReadError(UnsupportedTag(tagString[1])))
  {
    var rest := input[ParseString(input).value.consumed..];
    var tagString := ParseString(rest).value.value;
    assert StringValid(tagString).Pass?;
    assert tagString[1..][0] == tagString[1];
  }

  /** Any unsupported tag, wherever it stands, leaves no arguments. */
  lemma DecodeMessageUnsupported(input: seq<Byte>)
    requires var d := DecodeMessage(input);
      d.err.Fail? && d.err.error.ReadError? && d.err.error.read.UnsupportedTag?
    ensures DecodeMessage(input).args == []
  {
    var a := ParseString(input).value;
    var rest := input[a.consumed..];
    var t := ParseString(rest).value;
    DecodeArgsFailure(t.value[1..], rest[t.consumed..], []);
  }

  /** On success there is one argument per character after the comma. */
  lemma DecodeMessageCount(input: seq<Byte>)
    requires DecodeMessage(input).err.Pass?
    ensures var a := ParseString(input).value;
      var t := ParseString(input[a.consumed..]).value;
      |DecodeMessage(input).args| == |t.value| - 1
  {
    var a := ParseString(input).value;
    var rest := input[a.consumed..];
    var t := ParseString(rest).value;
    DecodeArgsCount(t.value[1..], rest[t.consumed..], []);
  }
}

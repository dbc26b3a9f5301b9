/** WriteMessage and ReadMessage over the streams, each proved against the
    functions of module Message. */
module MessageIO {
  import opened Wire
  import opened Types
  import opened Streams
  import opened TypesIO
  import opened Message

  /** WriteMessage's checks: the address first, then each argument in turn,
      filling the type-tag string as it goes. Nothing is written. */
  method ValidateAndTag(address: seq<Byte>, args: seq<seq<Byte>>) returns (v: Outcome, tags: seq<Byte>)
    ensures v == Validate(address, args)
    ensures v.Pass? ==> tags == TagString(args)
  {
    v := AddressValid(address);
    if v.Fail? {
      return v, [];
    }
    var tagArray := new Byte[|args| + 1];
    tagArray[0] := Comma;
    for i := 0 to |args|
      invariant forall j | 0 <= j < i :: IsOscString(args[j])
      invariant tagArray[0] == Comma
      invariant forall j | 1 <= j <= i :: tagArray[j] == TypeString
    {
      var e := StringValid(args[i]);
      if e.Fail? {
        ArgsValidFirst(args, i);
        return e, [];
      }
      tagArray[i + 1] := TypeString;
    }
    tags := tagArray[..];
    assert tags == TagString(args);
  }

  /** WriteMessage's argument loop: each argument's encoding in turn,
      stopping at the first write that fails. The count is every byte the
      writer took. */
  method WriteArgs(out: Sink, args: seq<seq<Byte>>) returns (n: nat, err: Outcome)
    modifies out
    ensures out.data == old(out.data) + Prefix(EncArgs(args), old(out.room))
    ensures out.room == Sub(old(out.room), |EncArgs(args)|)
    ensures n == Min(|EncArgs(args)|, old(out.room))
    ensures err == if old(out.room) >= |EncArgs(args)| then Pass else Fail(SinkError)
  {
    ghost var data0, room0 := out.data, out.room;
    n := 0;
    for i := 0 to |args|
      invariant n == |EncArgs(args[..i])| <= room0
      invariant out.data == data0 + EncArgs(args[..i])
      invariant out.room == room0 - n
    {
      var sent, e := StringWriteTo(args[i], out);
      if e.Fail? {
        ArgsPrefixWithin(args, i, room0);
        AppendAssoc(data0, EncArgs(args[..i]), Prefix(EncString(args[i]), room0 - n));
        return n + sent, e;
      }
      EncArgsSplit(args, i);
      AppendAssoc(data0, EncArgs(args[..i]), EncString(args[i]));
      n := n + sent;
    }
    TakeAll(args);
    PrefixAll(EncArgs(args), room0);
    err := Pass;
  }

  /** Splitting the arguments at one of them. */
  lemma EncArgsSplit(args: seq<seq<Byte>>, i: nat)
    requires i < |args|
    ensures EncArgs(args[..i + 1]) == EncArgs(args[..i]) + EncString(args[i])
    ensures EncArgs(args) == EncArgs(args[..i]) + EncString(args[i]) + EncArgs(args[i + 1..])
  {
    var one := [args[i]];
    assert EncArgs(one) == EncString(args[i]) by {
      assert one[1..] == [];
    }
    TakeOneMore(args, i);
    EncArgsAppend(args[..i], one);
    TakeDrop(args, i + 1);
    EncArgsAppend(args[..i + 1], args[i + 1..]);
  }

  /** The arguments a writer takes when it runs out of room inside argument i. */
  lemma ArgsPrefixWithin(args: seq<seq<Byte>>, i: nat, room: nat)
    requires i < |args|
    requires |EncArgs(args[..i])| <= room < |EncArgs(args[..i])| + |EncString(args[i])|
    ensures room < |EncArgs(args)|
    ensures Prefix(EncArgs(args), room)
      == EncArgs(args[..i]) + Prefix(EncString(args[i]), room - |EncArgs(args[..i])|)
  {
    var front, here, back := EncArgs(args[..i]), EncString(args[i]), EncArgs(args[i + 1..]);
    EncArgsSplit(args, i);
    AppendAssoc(front, here, back);
    PrefixAfter(front, here + back, room);
    PrefixWithin(here, back, room - |front|);
  }

  /** What a writer with `room` bytes of room takes of a message, by the
      field in which it runs out. */
  lemma MessagePrefix(address: seq<Byte>, args: seq<seq<Byte>>, room: nat)
    ensures var head, tags := EncString(address), EncString(TagString(args));
      && (room < |head| ==> Prefix(EncodeMessage(address, args), room) == Prefix(head, room))
      && (|head| <= room < |head| + |tags| ==>
            Prefix(EncodeMessage(address, args), room) == head + Prefix(tags, room - |head|))
      && (|head| + |tags| <= room ==>
            Prefix(EncodeMessage(address, args), room)
              == head + tags + Prefix(EncArgs(args), room - |head| - |tags|))
  {
    var head, tags, rest := EncString(address), EncString(TagString(args)), EncArgs(args);
    assert EncodeMessage(address, args) == head + (tags + rest);
    if room < |head| {
      PrefixWithin(head, tags + rest, room);
    } else {
      PrefixAfter(head, tags + rest, room);
      if room < |head| + |tags| {
        PrefixWithin(tags, rest, room - |head|);
      } else {
        PrefixAfter(tags, rest, room - |head|);
      }
    }
  }

  /** WriteMessage as written. Invalid input writes nothing; otherwise the
      sink holds as much of the message as it had room for, and the count and
      error are those of WriteMessageReport, which undercounts when the
      type-tag string is the write that fails. */
  method WriteMessage(out: Sink, address: seq<Byte>, args: seq<seq<Byte>>) returns (n: nat, err: Outcome)
    modifies out
    ensures Written(n, err) == WriteMessageReport(address, args, old(out.room))
    ensures Validate(address, args).Fail? ==> out.data == old(out.data) && out.room == old(out.room)
    ensures Validate(address, args).Pass? ==>
      && out.data == old(out.data) + Prefix(EncodeMessage(address, args), old(out.room))
      && out.room == Sub(old(out.room), |EncodeMessage(address, args)|)
  {
    ghost var data0, room0 := out.data, out.room;
    var v, tags := ValidateAndTag(address, args);
    if v.Fail? {
      return 0, v;
    }
    ghost var m := EncodeMessage(address, args);
    ghost var head, tagEnc, body := EncString(address), EncString(tags), EncArgs(args);
    MessagePrefix(address, args, room0);
    assert m == head + tagEnc + body && |m| == |head| + |tagEnc| + |body|;
    var total := 0;
    var sent, e := AddressWriteTo(address, out);
    if e.Fail? {
      assert out.data == data0 + Prefix(m, room0) && out.room == Sub(room0, |m|);
      return sent, e;
    }
    total := total + sent;
    PrefixAll(head, room0);
    ghost var data1, room1 := out.data, out.room;
    assert data1 == data0 + head && room1 == room0 - |head|;
    sent, e := StringWriteTo(tags, out);
    if e.Fail? {
      AppendAssoc(data0, head, Prefix(tagEnc, room1));
      assert out.data == data0 + Prefix(m, room0) && out.room == Sub(room0, |m|);
      assert WriteMessageReport(address, args, room0) == Written(room1, Fail(SinkError));
      return sent, e;
    }
    total := total + sent;
    PrefixAll(tagEnc, room1);
    ghost var data2, room2 := out.data, out.room;
    assert data2 == data0 + head + tagEnc && room2 == room0 - |head| - |tagEnc|;
    sent, e := WriteArgs(out, args);
    AppendAssoc(data0, head, tagEnc);
    AppendAssoc(data0, head + tagEnc, Prefix(body, room2));
    n, err := total + sent, e;
  }

  /** WriteMessage with the count of the failed type-tag-string write added to
      the bytes already sent, as its documentation promises: the count is
      always the number of bytes the writer took. */
  method WriteMessageCorrected(out: Sink, address: seq<Byte>, args: seq<seq<Byte>>) returns (n: nat, err: Outcome)
    modifies out
    ensures Validate(address, args).Fail? ==>
      n == 0 && err == Validate(address, args) && out.data == old(out.data) && out.room == old(out.room)
    ensures Validate(address, args).Pass? ==>
      && out.data == old(out.data) + Prefix(EncodeMessage(address, args), old(out.room))
      && out.room == Sub(old(out.room), |EncodeMessage(address, args)|)
      && n == |out.data| - |old(out.data)|
      && err == if old(out.room) >= |EncodeMessage(address, args)| then Pass else Fail(SinkError)
  {
    ghost var data0, room0 := out.data, out.room;
    var v, tags := ValidateAndTag(address, args);
    if v.Fail? {
      return 0, v;
    }
    ghost var m := EncodeMessage(address, args);
    ghost var head, tagEnc, body := EncString(address), EncString(tags), EncArgs(args);
    MessagePrefix(address, args, room0);
    assert m == head + tagEnc + body && |m| == |head| + |tagEnc| + |body|;
    var total := 0;
    var sent, e := AddressWriteTo(address, out);
    if e.Fail? {
      assert out.data == data0 + Prefix(m, room0) && out.room == Sub(room0, |m|);
      return sent, e;
    }
    total := total + sent;
    PrefixAll(head, room0);
    ghost var data1, room1 := out.data, out.room;
    assert data1 == data0 + head && room1 == room0 - |head|;
    sent, e := StringWriteTo(tags, out);
    if e.Fail? {
      AppendAssoc(data0, head, Prefix(tagEnc, room1));
      assert out.data == data0 + Prefix(m, room0) && out.room == Sub(room0, |m|);
      return total + sent, e;
    }
    total := total + sent;
    PrefixAll(tagEnc, room1);
    ghost var data2, room2 := out.data, out.room;
    assert data2 == data0 + head + tagEnc && room2 == room0 - |head| - |tagEnc|;
    sent, e := WriteArgs(out, args);
    AppendAssoc(data0, head, tagEnc);
    AppendAssoc(data0, head + tagEnc, Prefix(body, room2));
    n, err := total + sent, e;
  }

  /** ReadMessage: the address, which must validate; the type-tag string,
      which must start with ','; then one argument per tag. Returns what
      DecodeMessage gives for the unread input, and leaves the source after
      the bytes DecodeMessage counts as read, whether it succeeds or fails. */
  method ReadMessage(src: Source) returns (address: seq<Byte>, args: seq<seq<Byte>>, err: Outcome)
    requires src.Valid()
    modifies src
    ensures src.Valid()
    ensures var d := DecodeMessage(old(src.Remaining()));
      && address == d.address && args == d.args && err == d.err
      && src.pos == old(src.pos) + d.consumed
  {
    ghost var input := src.Remaining();
    StringReadAgrees(input);
    var a, ae := ReadOSCString(src);
    if ae.Fail? {
      return [], [], ae;
    }
    var v := AddressValid(a);
    if v.Fail? {
      return [], [], v;
    }
    address := a;
    ghost var rest := src.Remaining();
    assert rest == input[ParseString(input).value.consumed..];
    StringReadAgrees(rest);
    var tagString, te := ReadOSCString(src);
    if te.Fail? {
      return address, [], te;
    }
    if |tagString| == 0 || tagString[0] != Comma {
      return address, [], Fail(ReadError(NoComma));
    }
    var tv := StringValid(tagString);
    if tv.Fail? {
      return address, [], tv;
    }
    assert src.Remaining() == rest[ParseString(rest).value.consumed..];
    args, err := ReadArgs(src, tagString[1..]);
  }

  /** ReadMessage's argument loop over the type tags after the comma: a
      string per 's' tag; any other tag ends the read with an
      unsupported-tag error and no arguments; a string that fails to read
      ends it with the arguments read before. The source is left after the
      bytes DecodeArgs counts as read, on success and on failure. */
  method ReadArgs(src: Source, tags: seq<Byte>) returns (args: seq<seq<Byte>>, err: Outcome)
    requires src.Valid()
    modifies src
    ensures src.Valid()
    ensures var r := DecodeArgs(tags, old(src.Remaining()), []);
      && args == r.args && err == r.err
      && src.pos == old(src.pos) + r.consumed
  {
    ghost var pos0 := src.pos;
    ghost var target := DecodeArgs(tags, src.Remaining(), []);
    args := [];
    assert tags[0..] == tags;
    for i := 0 to |tags|
      invariant src.Valid()
      invariant var cur := DecodeArgs(tags[i..], src.Remaining(), args);
        && cur.args == target.args && cur.err == target.err
        && pos0 + target.consumed == src.pos + cur.consumed
    {
      var tag := tags[i];
      assert tags[i..][0] == tag && tags[i..][1..] == tags[i + 1..];
      if tag != TypeString {
        return [], Fail(ReadError(UnsupportedTag(tag)));
      }
      ghost var before := src.Remaining();
      StringReadAgrees(before);
      var s, e := ReadOSCString(src);
      if e.Fail? {
        return args, e;
      }
      assert src.Remaining() == before[ParseString(before).value.consumed..];
      args := args + [s];
    }
    err := Pass;
  }
}

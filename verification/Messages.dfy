/** The two messages of api.proto: what Unmarshal computes, what Marshal spells, and the laws between them. */
module Messages {
  import opened Bits
  import opened Varint
  import opened Wire
  import opened Grammar

  /** A Go string or Raw is a sequence of bytes. */
  datatype Message =
    | Request(command: seq<byte>)
    | Response(reply: int32, item: seq<byte>, items: seq<seq<byte>>)

  /** One field decoded, or the error it returns with the message as it was left. */
  datatype Step = Taken(msg: Message, count: nat) | Bad(msg: Message, error: Error)

  datatype Decoding = Decoded(msg: Message) | Broken(msg: Message, error: Error)

  /** The same kind of message, freshly allocated. */
  function Fresh(m: Message): Message {
    if m.Request? then Request([]) else Response(0, [], [])
  }

  predicate Known(m: Message, num: int32) {
    num == 1 || (m.Response? && (num == 2 || num == 3))
  }

  /** The wire type that the switch of Unmarshal asks of a known field. */
  function TypeOf(m: Message, num: int32): nat {
    if m.Response? && num == 1 then 0 else 2
  }

  /** A payload arriving for field `num`. Raw.Unmarshal ignores an empty payload. */
  function Store(m: Message, num: int32, bytes: seq<byte>): Message {
    match m
    case Request(_) => if bytes == [] then m else Request(bytes)
    case Response(reply, item, items) =>
      if num == 2 then Response(reply, bytes, items) else Response(reply, item, items + [bytes])
  }

  /** The loop of field Reply writes into the message as it reads: an error leaves the bits read so far. */
  function DecodeReply(m: Message, s: seq<byte>): Step
    requires m.Response?
  {
    var scan := ScanVarint(s);
    var next := m.(reply := Int32(Val(s[..scan.count])));
    match scan.status
    case Done => Taken(next, scan.count)
    case Overflow => Bad(next, IntOverflow)
    case Eof => Bad(next, UnexpectedEOF)
  }

  /** The body of a known field, after its tag. */
  function DecodeKnown(m: Message, num: int32, wireType: nat, s: seq<byte>): Step
    requires Known(m, num)
  {
    if wireType != TypeOf(m, num) then Bad(m, WrongWireType(wireType, num))
    else if wireType == 0 then DecodeReply(m, s)
    else
      var chunk := ReadChunk(s);
      if chunk.NoBytes? then Bad(m, chunk.error) else Taken(Store(m, num, chunk.bytes), chunk.count)
  }

  function DecodeUnknown(m: Message, s: seq<byte>): Step {
    var skip := Skip(s);
    if skip.Stuck? then Bad(m, skip.error)
    else if skip.count > |s| then Bad(m, UnexpectedEOF)
    else Taken(m, skip.count)
  }

  function Advance(r: Step, n: nat): Step {
    if r.Taken? then Taken(r.msg, n + r.count) else r
  }

  /** One round of Unmarshal at the head of `s`. */
  function DecodeField(m: Message, s: seq<byte>): (r: Step)
    ensures r.Taken? ==> 1 <= r.count <= |s|
    ensures r.msg.Request? <==> m.Request?
  {
    var tag := ReadUint(s);
    if tag.Failed? then Bad(m, tag.error) else
    var num, wireType := FieldNum(tag.value), WireType(tag.value);
    if wireType == 4 then Bad(m, EndGroup)
    else if num <= 0 then Bad(m, IllegalTag(num, tag.value))
    else if Known(m, num) then Advance(DecodeKnown(m, num, wireType, s[tag.count..]), tag.count)
    else DecodeUnknown(m, s)
  }

  /** Unmarshal of `s` into m. */
  function Decode(m: Message, s: seq<byte>): (r: Decoding)
    ensures r.msg.Request? <==> m.Request?
    decreases |s|
  {
    if s == [] then Decoded(m) else
    var f := DecodeField(m, s);
    if f.Bad? then Broken(f.msg, f.error) else Decode(f.msg, s[f.count..])
  }

  // ---------- Decoding is a merge homomorphism ----------

  lemma DecodeKnownStable(m: Message, num: int32, wireType: nat, a: seq<byte>, b: seq<byte>)
    requires Known(m, num)
    requires var r := DecodeKnown(m, num, wireType, a); r.Bad? ==> r.error != UnexpectedEOF
    ensures DecodeKnown(m, num, wireType, a + b) == DecodeKnown(m, num, wireType, a)
  {
    if wireType == TypeOf(m, num) {
      if wireType == 0 {
        ScanStable(a, b, 0);
        var n := ScanVarint(a).count;
        assert (a + b)[..n] == a[..n];
      } else {
        ReadChunkStable(a, b);
      }
    }
  }

  /** A field, decoded or rejected for any reason but a premature end, does not depend on what follows. */
  lemma DecodeFieldStable(m: Message, a: seq<byte>, b: seq<byte>)
    requires var r := DecodeField(m, a); r.Bad? ==> r.error != UnexpectedEOF
    ensures DecodeField(m, a + b) == DecodeField(m, a)
  {
    ReadUintStable(a, b);
    var tag := ReadUint(a);
    if tag.Got? && WireType(tag.value) != 4 && FieldNum(tag.value) > 0 {
      if Known(m, FieldNum(tag.value)) {
        DecodeKnownStable(m, FieldNum(tag.value), WireType(tag.value), a[tag.count..], b);
      } else {
        SkipStable(a, b);
      }
    }
  }

  lemma DecodeFirst(m: Message, head: seq<byte>, tail: seq<byte>)
    requires head != []
    ensures DecodeField(m, head + tail).Taken? && DecodeField(m, head + tail).count == |head| ==>
      Decode(m, head + tail) == Decode(DecodeField(m, head + tail).msg, tail)
  {
    assert (head + tail)[|head|..] == tail;
  }

  lemma DecodeHead(m: Message, a: seq<byte>, b: seq<byte>)
    requires a != [] && DecodeField(m, a).Taken?
    ensures var f := DecodeField(m, a);
            Decode(m, a) == Decode(f.msg, a[f.count..]) && Decode(m, a + b) == Decode(f.msg, a[f.count..] + b)
  {
    hide DecodeField;
    var n := DecodeField(m, a).count;
    DecodeFieldStable(m, a, b);
    assert a + b == a[..n] + (a[n..] + b);
    DecodeFirst(m, a[..n], a[n..] + b);
  }

  /** Unmarshalling a concatenation is unmarshalling its parts one after the other into the same message. */
  lemma {:induction false} DecodeConcat(m: Message, a: seq<byte>, b: seq<byte>)
    requires Decode(m, a).Decoded?
    ensures Decode(m, a + b) == Decode(Decode(m, a).msg, b)
    decreases |a|
  {
    if a == [] {
      assert a + b == b;
    } else {
      DecodeHead(m, a, b);
      DecodeConcat(DecodeField(m, a).msg, a[DecodeField(m, a).count..], b);
    }
  }

  /** Any error but a premature end is final: no continuation changes it, nor the message it leaves. */
  lemma {:induction false} DecodeErrorFinal(m: Message, a: seq<byte>, b: seq<byte>)
    requires Decode(m, a).Broken? && Decode(m, a).error != UnexpectedEOF
    ensures Decode(m, a + b) == Decode(m, a)
    decreases |a|
  {
    if DecodeField(m, a).Taken? {
      DecodeHead(m, a, b);
      DecodeErrorFinal(DecodeField(m, a).msg, a[DecodeField(m, a).count..], b);
    } else {
      DecodeFieldStable(m, a, b);
    }
  }

  /** Cutting a decodable message anywhere leaves a decodable message or a premature end, never another error. */
  lemma DecodeTruncated(m: Message, a: seq<byte>, b: seq<byte>)
    requires Decode(m, a + b).Decoded?
    ensures Decode(m, a).Decoded? || Decode(m, a).error == UnexpectedEOF
  {
    if Decode(m, a).Broken? && Decode(m, a).error != UnexpectedEOF {
      DecodeErrorFinal(m, a, b);
    }
  }

  // ---------- Unmarshal against the grammar ----------

  function NumberOf(f: Field): int32 {
    FieldNum(Val(f.tag))
  }

  /** A field of the grammar that Unmarshal accepts: a legal number, and the expected type if it is known. */
  predicate Accepts(m: Message, f: Field) {
    Valid(f) && NumberOf(f) > 0 && (Known(m, NumberOf(f)) ==> BodyType(f.body) == TypeOf(m, NumberOf(f)))
  }

  predicate AcceptsAll(m: Message, fs: seq<Field>) {
    fs == [] || (Accepts(m, fs[0]) && AcceptsAll(m, fs[1..]))
  }

  /** What a field means. */
  function Apply(m: Message, f: Field): (r: Message)
    ensures r.Request? <==> m.Request?
  {
    if !Known(m, NumberOf(f)) then m
    else match f.body
      case Number(bytes) => if m.Response? then m.(reply := Int32(Val(bytes))) else m
      case Delimited(_, payload) => Store(m, NumberOf(f), payload)
      case _ => m
  }

  function ApplyAll(m: Message, fs: seq<Field>): (r: Message)
    ensures r.Request? <==> m.Request?
    decreases |fs|
  {
    if fs == [] then m else ApplyAll(Apply(m, fs[0]), fs[1..])
  }

  lemma ReadSpelledChunk(len: seq<byte>, payload: seq<byte>, rest: seq<byte>)
    requires IsVarint(len) && Val(len) == |payload| < TWO63
    ensures ReadChunk(len + payload + rest) == Bytes(|len + payload|, payload)
  {
    var s := len + payload + rest;
    assert s == len + (payload + rest);
    ReadVarintPrefix(len, payload + rest);
    assert s[|len|..|len| + |payload|] == payload;
  }

  lemma DecodeSpelledKnown(m: Message, f: Field, rest: seq<byte>)
    requires Accepts(m, f) && Known(m, NumberOf(f))
    ensures DecodeKnown(m, NumberOf(f), BodyType(f.body), SpellBody(f.body) + rest)
         == Taken(Apply(m, f), |SpellBody(f.body)|)
  {
    assert ValidBody(f.body);
    if f.body.Number? {
      VarintPrefix(f.body.bytes, rest);
    } else {
      ReadSpelledChunk(f.body.len, f.body.payload, rest);
    }
  }

  /** Unmarshal of one accepted field, whatever follows it. */
  lemma DecodeSpelled(m: Message, f: Field, rest: seq<byte>)
    requires Accepts(m, f)
    ensures DecodeField(m, Spell(f) + rest) == Taken(Apply(m, f), |Spell(f)|)
  {
    SplitTag(f, rest);
    if Known(m, NumberOf(f)) {
      DecodeSpelledKnown(m, f, rest);
    } else {
      SkipField(f, rest);
    }
  }

  lemma TagNonEmpty(f: Field)
    requires IsVarint(f.tag)
    ensures Spell(f) != []
  {}

  lemma DecodeSpelledFirst(m: Message, f: Field, tail: seq<byte>)
    requires Accepts(m, f)
    ensures Decode(m, Spell(f) + tail) == Decode(Apply(m, f), tail)
  {
    DecodeSpelled(m, f, tail);
    TagNonEmpty(f);
    DecodeFirst(m, Spell(f), tail);
  }

  lemma {:induction false} AcceptsAllKind(m: Message, n: Message, fs: seq<Field>)
    requires AcceptsAll(m, fs) && (m.Request? <==> n.Request?)
    ensures AcceptsAll(n, fs)
  {
    if fs != [] {
      AcceptsAllKind(m, n, fs[1..]);
    }
  }

  /** Accepted fields decode to the fold of what they mean. */
  lemma {:induction false} DecodeSpelledAll(m: Message, fs: seq<Field>)
    requires AcceptsAll(m, fs)
    ensures Decode(m, SpellAll(fs)) == Decoded(ApplyAll(m, fs))
    decreases |fs|
  {
    if fs != [] {
      var next := Apply(m, fs[0]);
      DecodeSpelledFirst(m, fs[0], SpellAll(fs[1..]));
      AcceptsAllKind(m, next, fs[1..]);
      DecodeSpelledAll(next, fs[1..]);
    }
  }

  lemma DecodedReply(m: Message, s: seq<byte>) returns (b: Body)
    requires m.Response? && DecodeReply(m, s).Taken?
    ensures ValidBody(b) && b.Number? && SpellBody(b) == s[..DecodeReply(m, s).count]
    ensures DecodeReply(m, s).msg == m.(reply := Int32(Val(b.bytes)))
  {
    ScanConsumed(s, 0);
    b := Body.Number(s[..ScanVarint(s).count]);
  }

  lemma DecodedChunk(s: seq<byte>) returns (b: Body)
    requires ReadChunk(s).Bytes?
    ensures ValidBody(b) && b.Delimited? && SpellBody(b) == s[..ReadChunk(s).count]
    ensures b.payload == ReadChunk(s).bytes
  {
    ReadUintConsumed(s);
    var k, n := ReadUint(s).count, ReadChunk(s).count;
    b := Delimited(s[..k], s[k..n]);
    assert s[..k] + s[k..n] == s[..n];
  }

  lemma DecodedKnown(m: Message, num: int32, wireType: nat, s: seq<byte>) returns (b: Body)
    requires Known(m, num) && DecodeKnown(m, num, wireType, s).Taken?
    ensures ValidBody(b) && BodyType(b) == wireType == TypeOf(m, num)
    ensures DecodeKnown(m, num, wireType, s).count <= |s|
    ensures SpellBody(b) == s[..DecodeKnown(m, num, wireType, s).count]
    ensures b.Number? || b.Delimited?
    ensures b.Number? ==> m.Response? && DecodeKnown(m, num, wireType, s).msg == m.(reply := Int32(Val(b.bytes)))
    ensures b.Delimited? ==> DecodeKnown(m, num, wireType, s).msg == Store(m, num, b.payload)
  {
    if wireType == 0 {
      b := DecodedReply(m, s);
    } else {
      b := DecodedChunk(s);
    }
  }

  lemma DecodedAsKnown(m: Message, s: seq<byte>) returns (f: Field)
    requires DecodeField(m, s).Taken? && Known(m, FieldNum(ReadUint(s).value))
    ensures Accepts(m, f) && Spell(f) == s[..DecodeField(m, s).count] && Apply(m, f) == DecodeField(m, s).msg
  {
    var tag := ReadUint(s);
    var rest := s[tag.count..];
    var b := DecodedKnown(m, FieldNum(tag.value), WireType(tag.value), rest);
    AssembledField(s, b, DecodeKnown(m, FieldNum(tag.value), WireType(tag.value), rest).count);
    ReadUintConsumed(s);
    f := Field(s[..tag.count], b);
  }

  lemma DecodedAsUnknown(m: Message, s: seq<byte>) returns (f: Field)
    requires DecodeField(m, s).Taken? && !Known(m, FieldNum(ReadUint(s).value))
    ensures Accepts(m, f) && Spell(f) == s[..DecodeField(m, s).count] && Apply(m, f) == DecodeField(m, s).msg
  {
    hide Skip, Spell, Val, Groups, ScanVarint, SpellBody;
    f := SkippedField(s);
    var n := Skip(s).count;
    SplitTag(f, s[n..]);
    assert s == s[..n] + s[n..];
  }

  /** Whatever one round of Unmarshal takes is an accepted field of the grammar. */
  lemma DecodedField(m: Message, s: seq<byte>) returns (f: Field)
    requires DecodeField(m, s).Taken?
    ensures Accepts(m, f) && Spell(f) == s[..DecodeField(m, s).count] && Apply(m, f) == DecodeField(m, s).msg
  {
    if Known(m, FieldNum(ReadUint(s).value)) {
      f := DecodedAsKnown(m, s);
    } else {
      f := DecodedAsUnknown(m, s);
    }
  }

  lemma {:induction false} DecodedAll(m: Message, s: seq<byte>) returns (fs: seq<Field>)
    requires Decode(m, s).Decoded?
    ensures AcceptsAll(m, fs) && SpellAll(fs) == s && ApplyAll(m, fs) == Decode(m, s).msg
    decreases |s|
  {
    if s == [] {
      fs := [];
    } else {
      var f := DecodedField(m, s);
      var n := DecodeField(m, s).count;
      var rest := DecodedAll(Apply(m, f), s[n..]);
      AcceptsAllKind(Apply(m, f), m, rest);
      fs := [f] + rest;
      assert fs[1..] == rest;
      assert s == s[..n] + s[n..];
    }
  }

  /** Unmarshal succeeds exactly on spellings of accepted fields, and then computes what they mean in turn. */
  lemma DecodeExact(m: Message, s: seq<byte>, result: Message)
    ensures Decode(m, s) == Decoded(result)
       <==> exists fs :: AcceptsAll(m, fs) && SpellAll(fs) == s && ApplyAll(m, fs) == result
  {
    if Decode(m, s) == Decoded(result) {
      var fs := DecodedAll(m, s);
      assert AcceptsAll(m, fs) && SpellAll(fs) == s && ApplyAll(m, fs) == result;
    } else {
      forall fs | AcceptsAll(m, fs) && SpellAll(fs) == s && ApplyAll(m, fs) == result ensures false {
        DecodeSpelledAll(m, fs);
      }
    }
  }

  /** A field of unknown number may be inserted at any field boundary, with the same outcome, good or bad: the number
      of a tag is what is above its low three bits, cut to 32 bits; a request knows 1, a response 1, 2 and 3. */
  lemma UnknownFieldIgnored(m: Message, before: seq<byte>, f: Field, after: seq<byte>)
    requires Decode(m, before).Decoded? && Valid(f)
    requires var n := Val(f.tag) / 8 % 0x1_0000_0000; 1 < n < 0x8000_0000 && (m.Response? ==> n > 3)
    ensures Decode(m, before + Spell(f) + after) == Decode(m, before + after)
  {
    TagNumber(Val(f.tag));
    hide Val, Decode, Spell, Valid, FieldNum, WireType;
    var mid := Decode(m, before).msg;
    assert before + Spell(f) + after == before + (Spell(f) + after);
    DecodeConcat(m, before, Spell(f) + after);
    DecodeConcat(m, before, after);
    DecodeSpelledFirst(mid, f, after);
    assert Apply(mid, f) == mid;
  }
}

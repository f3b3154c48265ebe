/** What field numbers, wire types and lengths on the wire mean, in the numbers of the Protocol Buffers Encoding
    specification: the low three bits of a tag are the wire type, the rest is the field number, cut to an int32. */
module Fields {
  import opened Bits
  import opened Varint
  import opened Wire
  import opened Grammar
  import opened Messages
  import opened Marshal

  function TypeIn(tag: seq<byte>): nat {
    Val(tag) % 8
  }

  /** The low 32 bits of the number; those from 2^31 on are negative as an int32, and illegal. */
  function NumberIn(tag: seq<byte>): nat {
    Val(tag) / 8 % 0x1_0000_0000
  }

  predicate Legal(n: nat) {
    1 <= n < 0x8000_0000
  }

  lemma LegalNumber(f: Field)
    ensures NumberOf(f) > 0 <==> Legal(NumberIn(f.tag))
    ensures Legal(NumberIn(f.tag)) ==> NumberOf(f) == NumberIn(f.tag)
  {
    hide Val;
    TagNumber(Val(f.tag));
  }

  /** Unmarshal accepts a field of the grammar exactly if its number is legal and, where it is known, its type is that
      of api.proto. */
  lemma AcceptedByNumber(m: Message, f: Field)
    ensures Accepts(m, f) <==>
      var n, t := NumberIn(f.tag), TypeIn(f.tag);
      && Valid(f) && Legal(n)
      && (m.Request? && n == 1 ==> t == 2)
      && (m.Response? && n == 1 ==> t == 0)
      && (m.Response? && (n == 2 || n == 3) ==> t == 2)
  {
    hide Val;
    LegalNumber(f);
    TagNumber(Val(f.tag));
  }

  /** What an accepted field does: command 1 of a request; reply 1, item 2, items 3 of a response; else nothing. */
  lemma MeaningByNumber(m: Message, f: Field)
    requires Accepts(m, f)
    ensures var n := NumberIn(f.tag);
      && (m.Request? && n != 1 ==> Apply(m, f) == m)
      && (m.Request? && n == 1 ==> f.body.Delimited?)
      && (m.Request? && n == 1 ==> Apply(m, f) == if f.body.payload == [] then m else Request(f.body.payload))
      && (m.Response? && (n == 0 || n > 3) ==> Apply(m, f) == m)
      && (m.Response? && n == 1 ==> f.body.Number? && Apply(m, f) == m.(reply := Int32(Val(f.body.bytes))))
      && (m.Response? && n == 2 ==> f.body.Delimited? && Apply(m, f) == m.(item := f.body.payload))
      && (m.Response? && n == 3 ==> f.body.Delimited? && Apply(m, f) == m.(items := m.items + [f.body.payload]))
  {
    hide Val;
    LegalNumber(f);
    AcceptedByNumber(m, f);
    TagNumber(Val(f.tag));
  }

  /** Unknown fields with their tag as encodeVarintApi writes it, number n times eight plus the type: in a request any
      legal number but 1, in a response any but 1, 2 and 3. */
  lemma UnknownTagIgnored(m: Message, before: seq<byte>, n: nat, body: Body, after: seq<byte>)
    requires Decode(m, before).Decoded? && ValidBody(body) && Legal(n)
    requires n != 1 && (m.Response? ==> n != 2 && n != 3)
    ensures Decode(m, before + (EncodeVarint(8 * n + BodyType(body)) + SpellBody(body)) + after)
         == Decode(m, before + after)
  {
    hide Decode, SpellBody, ValidBody, EncodeVarint;
    var f := Field(EncodeVarint(8 * n + BodyType(body)), body);
    VarintRoundTrip(8 * n + BodyType(body), []);
    TagParts(n, BodyType(body));
    assert Valid(f) && Val(f.tag) == 8 * n + BodyType(body);
    hide Val, IsVarint;
    UnknownFieldIgnored(m, before, f, after);
  }

  // ---------- What is rejected, and how ----------

  lemma TagRead(tag: seq<byte>, rest: seq<byte>)
    requires IsVarint(tag)
    ensures tag != [] && ReadUint(tag + rest) == Got(|tag|, Val(tag)) && (tag + rest)[|tag|..] == rest
  {
    ReadVarintPrefix(tag, rest);
  }

  /** The errors that a tag alone decides, at any field boundary and whatever follows. */
  lemma TagRejected(m: Message, tag: seq<byte>, rest: seq<byte>)
    requires IsVarint(tag)
    ensures var n, t, r := NumberIn(tag), TypeIn(tag), Decode(m, tag + rest);
      && (t == 4 ==> r == Broken(m, EndGroup))
      && (t != 4 && !Legal(n) ==> r.Broken? && r.msg == m && r.error.IllegalTag?)
      && (t != 2 && t != 4 && m.Request? && n == 1 ==> r == Broken(m, WrongWireType(t, 1)))
      && (t != 0 && t != 4 && m.Response? && n == 1 ==> r == Broken(m, WrongWireType(t, 1)))
      && (t != 2 && t != 4 && m.Response? && (n == 2 || n == 3) ==> r == Broken(m, WrongWireType(t, n)))
      && ((t == 6 || t == 7) && Legal(n) && n != 1 && (m.Request? || n > 3) ==> r == Broken(m, IllegalWireType(t)))
  {
    hide Val, IsVarint, ReadUint;
    TagRead(tag, rest);
    TagNumber(Val(tag));
    SkipWidths(tag, rest);
  }

  /** The field widths of the specification, as the skipper passes over them: eight bytes for type 1, four for type 5,
      the length and what it announces for type 2; types 6 and 7 do not exist. */
  lemma SkipWidths(tag: seq<byte>, rest: seq<byte>)
    requires IsVarint(tag)
    ensures var t, r := TypeIn(tag), Skip(tag + rest);
      && (t == 1 ==> r == Past(|tag| + 8))
      && (t == 5 ==> r == Past(|tag| + 4))
      && (t == 4 ==> r == Past(|tag|))
      && (t == 6 || t == 7 ==> r == Stuck(IllegalWireType(t)))
  {
    hide Val, IsVarint, ReadUint, SkipGroup, ReadLength;
    TagRead(tag, rest);
    TagNumber(Val(tag));
  }

  /** Bodies whose width they tell themselves: a varint, and a length with what it announces, which may lie beyond the
      input; a length from 2^63 on is negative. */
  lemma SkipSpelled(tag: seq<byte>, v: seq<byte>, rest: seq<byte>)
    requires IsVarint(tag) && IsVarint(v)
    ensures var t, r := TypeIn(tag), Skip(tag + (v + rest));
      && (t == 0 ==> r == Past(|tag| + |v|))
      && (t == 2 && Val(v) < 0x8000_0000_0000_0000 ==> r == Past(|tag| + |v| + Val(v)))
      && (t == 2 && Val(v) >= 0x8000_0000_0000_0000 ==> r == Stuck(InvalidLength))
  {
    hide Val, IsVarint, ReadUint, SkipGroup;
    TagRead(tag, v + rest);
    TagRead(v, rest);
    TagNumber(Val(tag));
  }

  /** A group: fields up to the first tag of type 4, whatever its number. */
  lemma SkipSpelledGroup(tag: seq<byte>, fs: seq<Field>, end: seq<byte>, rest: seq<byte>)
    requires IsVarint(tag) && TypeIn(tag) == 3 && ValidAll(fs) && IsVarint(end) && TypeIn(end) == 4
    ensures Skip(tag + (SpellAll(fs) + (end + rest))) == Past(|tag| + |SpellAll(fs)| + |end|)
  {
    hide Val, IsVarint, ReadUint, SkipGroup, SpellAll, ValidAll;
    TagRead(tag, SpellAll(fs) + (end + rest));
    TagNumber(Val(tag));
    TagNumber(Val(end));
    SkipFields(fs, end, rest);
  }

  lemma LengthRead(len: seq<byte>, rest: seq<byte>)
    requires IsVarint(len)
    ensures Val(len) >= 0x8000_0000_0000_0000 ==> ReadChunk(len + rest) == NoBytes(InvalidLength)
    ensures |rest| < Val(len) < 0x8000_0000_0000_0000 ==> ReadChunk(len + rest) == NoBytes(UnexpectedEOF)
    ensures Val(len) <= |rest| && Val(len) < 0x8000_0000_0000_0000 ==>
      ReadChunk(len + rest) == Bytes(|len| + Val(len), rest[..Val(len)])
  {
    TagRead(len, rest);
    hide Val, IsVarint, ReadUint;
    if Val(len) <= |rest| {
      assert (len + rest)[|len|..|len| + Val(len)] == rest[..Val(len)];
    }
  }

  /** Lengths of a known field: from 2^63 on they are negative, and otherwise the payload must be all there. */
  lemma LengthRejected(m: Message, tag: seq<byte>, len: seq<byte>, rest: seq<byte>)
    requires IsVarint(tag) && IsVarint(len) && TypeIn(tag) == 2
    requires if m.Request? then NumberIn(tag) == 1 else NumberIn(tag) == 2 || NumberIn(tag) == 3
    ensures Val(len) >= 0x8000_0000_0000_0000 ==> Decode(m, tag + (len + rest)) == Broken(m, InvalidLength)
    ensures |rest| < Val(len) < 0x8000_0000_0000_0000 ==> Decode(m, tag + (len + rest)) == Broken(m, UnexpectedEOF)
  {
    hide Val, IsVarint, ReadUint, ReadChunk;
    TagRead(tag, len + rest);
    TagNumber(Val(tag));
    LengthRead(len, rest);
  }

  lemma {:induction false} ScanGoesOn(bs: seq<byte>, rest: seq<byte>, k: nat)
    requires (forall b :: b in bs ==> b >= 0x80) && |bs| + k <= 10
    ensures |bs| + k < 10 ==> ScanVarint(bs, k) == Scan(|bs|, Eof)
    ensures |bs| + k == 10 ==> ScanVarint(bs + rest, k) == Scan(|bs|, Overflow)
  {
    if bs != [] {
      assert bs[0] in bs && forall b :: b in bs[1..] ==> b in bs;
      assert (bs + rest)[1..] == bs[1..] + rest;
      ScanGoesOn(bs[1..], rest, k + 1);
    }
  }

  /** A reply that is cut off, or that does not end within ten bytes, leaves the bits read so far in the message. */
  lemma ReplyRejected(m: Message, tag: seq<byte>, bs: seq<byte>, rest: seq<byte>)
    requires m.Response? && IsVarint(tag) && TypeIn(tag) == 0 && NumberIn(tag) == 1
    requires |bs| <= 10 && forall b :: b in bs ==> b >= 0x80
    ensures |bs| < 10 ==> Decode(m, tag + bs) == Broken(m.(reply := Int32(Val(bs))), UnexpectedEOF)
    ensures |bs| == 10 ==> Decode(m, tag + (bs + rest)) == Broken(m.(reply := Int32(Val(bs))), IntOverflow)
  {
    hide Val, IsVarint, ReadUint, ScanVarint;
    TagRead(tag, bs);
    TagRead(tag, bs + rest);
    TagNumber(Val(tag));
    ScanGoesOn(bs, rest, 0);
    assert bs[..|bs|] == bs && (bs + rest)[..|bs|] == bs;
  }

  // ---------- What Marshal writes ----------

  function Numbers(fs: seq<Field>): seq<nat> {
    if fs == [] then [] else [NumberIn(fs[0].tag)] + Numbers(fs[1..])
  }

  function Threes(n: nat): seq<nat> {
    if n == 0 then [] else [3] + Threes(n - 1)
  }

  /** The fields that a message has: its command even if empty; what differs from the default; every item. */
  function FieldsOf(m: Message): seq<nat> {
    match m
    case Request(_) => [1]
    case Response(reply, item, items) =>
      (if reply == 0 then [] else [1]) + (if item == [] then [] else [2]) + Threes(|items|)
  }

  lemma {:induction false} NumbersConcat(fs: seq<Field>, gs: seq<Field>)
    ensures Numbers(fs + gs) == Numbers(fs) + Numbers(gs)
  {
    if fs == [] {
      assert fs + gs == gs;
    } else {
      assert (fs + gs)[1..] == fs[1..] + gs;
      NumbersConcat(fs[1..], gs);
    }
  }

  lemma {:induction false} SpellConcat(fs: seq<Field>, gs: seq<Field>)
    ensures SpellAll(fs + gs) == SpellAll(fs) + SpellAll(gs)
  {
    if fs == [] {
      assert fs + gs == gs;
    } else {
      assert (fs + gs)[1..] == fs[1..] + gs;
      SpellConcat(fs[1..], gs);
    }
  }

  lemma OneField(f: Field)
    ensures SpellAll([f]) == Spell(f) && Numbers([f]) == [NumberIn(f.tag)]
    ensures Valid(f) ==> ValidAll([f])
  {
    assert [f][1..] == [];
  }

  lemma PrefixedField(tag: byte, bytes: seq<byte>) returns (f: Field)
    requires |bytes| < TWO63 && tag < 0x80 && tag % 8 == 2
    ensures Valid(f) && Spell(f) == Prefixed(tag, bytes) && NumberIn(f.tag) == tag / 8
  {
    OneByteTag(tag);
    VarintRoundTrip(|bytes|, []);
    hide EncodeVarint, Val, IsVarint;
    f := Field([tag], Delimited(EncodeVarint(|bytes|), bytes));
    assert ValidBody(f.body) && WireType(tag) == 2;
  }

  lemma {:induction false} ItemFields(items: seq<seq<byte>>) returns (fs: seq<Field>)
    requires AllSized(items)
    ensures ValidAll(fs) && SpellAll(fs) == SpellItems(items) && Numbers(fs) == Threes(|items|)
  {
    if items == [] {
      fs := [];
    } else {
      var f := PrefixedField(0x1A, items[0]);
      var rest := ItemFields(items[1..]);
      fs := [f] + rest;
      assert fs[1..] == rest;
    }
  }

  lemma ReplyField(v: uint64) returns (f: Field)
    ensures Valid(f) && Spell(f) == [0x8] + EncodeVarint(v) && NumberIn(f.tag) == 1
  {
    OneByteTag(8);
    VarintRoundTrip(v, []);
    hide EncodeVarint, Val, IsVarint;
    f := Field([8], Body.Number(EncodeVarint(v)));
    assert ValidBody(f.body) && WireType(8) == 0;
  }

  lemma ReplyFields(reply: int32) returns (fs: seq<Field>)
    ensures ValidAll(fs) && SpellAll(fs) == SpellReply(reply) && Numbers(fs) == if reply == 0 then [] else [1]
  {
    fs := [];
    if reply != 0 {
      var f := ReplyField(SignExtend(reply));
      OneField(f);
      hide Spell, Valid, EncodeVarint, NumberIn, SpellAll, ValidAll, Numbers;
      fs := [f];
    }
  }

  lemma ItemField(item: seq<byte>) returns (fs: seq<Field>)
    requires |item| < TWO63
    ensures ValidAll(fs) && SpellAll(fs) == SpellItem(item) && Numbers(fs) == if item == [] then [] else [2]
  {
    fs := [];
    if item != [] {
      var f := PrefixedField(0x12, item);
      OneField(f);
      hide Spell, Valid, Prefixed, NumberIn, SpellAll, ValidAll, Numbers;
      fs := [f];
    }
  }

  lemma {:induction false} ValidConcat(fs: seq<Field>, gs: seq<Field>)
    requires ValidAll(fs) && ValidAll(gs)
    ensures ValidAll(fs + gs)
  {
    if fs == [] {
      assert fs + gs == gs;
    } else {
      assert (fs + gs)[1..] == fs[1..] + gs;
      ValidConcat(fs[1..], gs);
    }
  }

  lemma JoinFields(fs: seq<Field>, gs: seq<Field>)
    requires ValidAll(fs) && ValidAll(gs)
    ensures ValidAll(fs + gs) && SpellAll(fs + gs) == SpellAll(fs) + SpellAll(gs)
    ensures Numbers(fs + gs) == Numbers(fs) + Numbers(gs)
  {
    ValidConcat(fs, gs);
    SpellConcat(fs, gs);
    NumbersConcat(fs, gs);
  }

  /** What Marshal writes is a sequence of fields, in the order of their numbers: exactly those the message has. */
  lemma SpelledFields(m: Message) returns (fs: seq<Field>)
    requires GoSized(m)
    ensures ValidAll(fs) && SpellAll(fs) == Spelling(m) && Numbers(fs) == FieldsOf(m)
  {
    match m {
      case Request(command) =>
        var f := PrefixedField(0xA, command);
        OneField(f);
        fs := [f];
      case Response(reply, item, items) =>
        var a := ReplyFields(reply);
        var b := ItemField(item);
        var c := ItemFields(items);
        JoinFields(a, b);
        JoinFields(a + b, c);
        fs := a + b + c;
    }
  }

  /** A request always carries its command: at least its tag and a length, empty or not. */
  lemma RequestNeverEmpty(command: seq<byte>)
    ensures var s := Spelling(Request(command));
      |s| >= 2 + |command| && s[0] == 0x0A && s[|s| - |command|..] == command
    ensures command == [] ==> Spelling(Request(command)) == [0x0A, 0x00]
    ensures Spelling(Response(0, [], [])) == []
  {
    var s := Spelling(Request(command));
    assert s[1 + |EncodeVarint(|command|)|..] == command;
  }

  // ---------- Lengths of varints ----------

  /** A varint takes as many bytes as it has groups of seven bits. */
  lemma {:induction false} VarintLength(v: nat, k: nat)
    requires k >= 1
    ensures |EncodeVarint(v)| <= k <==> v < Pow2(7 * k)
  {
    PowSeven(7 * (k - 1));
    if k == 1 {
      assert Pow2(7 * (k - 1)) == 1;
    } else if v >= 0x80 {
      VarintLength(v / 0x80, k - 1);
    } else {
      PowPositive(7 * (k - 1));
    }
  }

  lemma PowPositive(n: nat)
    ensures Pow2(n) >= 1
  {}

  /** uint64 read as int64. */
  function Signed64(v: uint64): int {
    if v < 0x8000_0000_0000_0000 then v else v - 0x1_0000_0000_0000_0000
  }

  /** A reply is written as the 64-bit number it is: a negative one takes ten bytes, any other at most five. */
  lemma ReplySpelled(reply: int32, z: nat)
    requires z == 0
    ensures Signed64(SignExtend(reply)) == reply
    ensures reply < 0 ==> |SpellReply(reply)| == 1 + 10
    ensures reply > 0 ==> 1 + 1 <= |SpellReply(reply)| <= 1 + 5
  {
    hide Pow2, EncodeVarint;
    PowersLow(z);
    PowersHigh(z);
    PowMonotone(z + 32, z + 35);
    PowMonotone(z + 64, z + 70);
    VarintLength(SignExtend(reply), z + 5);
    VarintLength(SignExtend(reply), z + 9);
    VarintLength(SignExtend(reply), z + 10);
  }
}

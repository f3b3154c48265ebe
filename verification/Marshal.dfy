/** What Marshal writes, and that Unmarshal takes it back. */
module Marshal {
  import opened Bits
  import opened Varint
  import opened Wire
  import opened Grammar
  import opened Messages

  function Prefixed(tag: byte, bytes: seq<byte>): seq<byte> {
    [tag] + EncodeVarint(|bytes|) + bytes
  }

  function SpellItems(items: seq<seq<byte>>): seq<byte> {
    if items == [] then [] else Prefixed(0x1A, items[0]) + SpellItems(items[1..])
  }

  function SpellReply(reply: int32): seq<byte> {
    if reply != 0 then [0x8] + EncodeVarint(SignExtend(reply)) else []
  }

  function SpellItem(item: seq<byte>): seq<byte> {
    if item != [] then Prefixed(0x12, item) else []
  }

  /** The bytes of Marshal: a request always carries its command, a response only what differs from zero. */
  function Spelling(m: Message): seq<byte> {
    match m
    case Request(command) => Prefixed(0xA, command)
    case Response(reply, item, items) => SpellReply(reply) + SpellItem(item) + SpellItems(items)
  }

  predicate AllSized(items: seq<seq<byte>>) {
    items == [] || (|items[0]| < TWO63 && AllSized(items[1..]))
  }

  /** Go's len is an int. */
  predicate GoSized(m: Message) {
    match m
    case Request(command) => |command| < TWO63
    case Response(_, item, items) => |item| < TWO63 && AllSized(items)
  }

  /** What unmarshalling the spelling of m adds to n. */
  function MergeInto(n: Message, m: Message): Message
    requires n.Request? <==> m.Request?
  {
    match m
    case Request(command) => if command == [] then n else m
    case Response(reply, item, items) =>
      Response(if reply != 0 then reply else n.reply, if item != [] then item else n.item, n.items + items)
  }

  lemma OneByteTag(tag: byte)
    requires tag < 0x80
    ensures IsVarint([tag]) && Val([tag]) == tag
  {
    GroupsCons(tag, []);
    assert [tag] + [] == [tag];
  }

  lemma DecodePrefixed(n: Message, tag: byte, bytes: seq<byte>, rest: seq<byte>)
    requires |bytes| < TWO63
    requires (n.Request? && tag == 0xA) || (n.Response? && (tag == 0x12 || tag == 0x1A))
    ensures Decode(n, Prefixed(tag, bytes) + rest) == Decode(Store(n, tag / 8, bytes), rest)
  {
    hide Decode, Groups, EncodeVarint, Skip;
    OneByteTag(tag);
    VarintRoundTrip(|bytes|, []);
    var f := Field([tag], Delimited(EncodeVarint(|bytes|), bytes));
    assert Valid(f) by { assert ValidBody(f.body); }
    assert Spell(f) == Prefixed(tag, bytes);
    DecodeSpelledFirst(n, f, rest);
  }

  lemma DecodeSpelledReply(n: Message, reply: int32, rest: seq<byte>)
    requires n.Response?
    ensures Decode(n, SpellReply(reply) + rest)
         == Decode(n.(reply := if reply != 0 then reply else n.reply), rest)
  {
    if reply != 0 {
      OneByteTag(8);
      VarintRoundTrip(SignExtend(reply), []);
      Int32OfSignExtend(reply);
      var f := Field([8], Body.Number(EncodeVarint(SignExtend(reply))));
      assert Valid(f) by { assert ValidBody(f.body); }
      assert Spell(f) == SpellReply(reply);
      DecodeSpelledFirst(n, f, rest);
    } else {
      assert SpellReply(reply) + rest == rest;
    }
  }

  lemma DecodeSpelledItem(n: Message, item: seq<byte>, rest: seq<byte>)
    requires n.Response? && |item| < TWO63
    ensures Decode(n, SpellItem(item) + rest) == Decode(n.(item := if item != [] then item else n.item), rest)
  {
    if item != [] {
      DecodePrefixed(n, 0x12, item, rest);
    } else {
      assert SpellItem(item) + rest == rest;
    }
  }

  lemma DecodeFirstItem(n: Message, items: seq<seq<byte>>)
    requires n.Response? && items != [] && AllSized(items)
    ensures Decode(n, SpellItems(items))
         == Decode(Response(n.reply, n.item, n.items + [items[0]]), SpellItems(items[1..]))
  {
    DecodePrefixed(n, 0x1A, items[0], SpellItems(items[1..]));
  }

  lemma {:induction false} DecodeSpelledItems(n: Message, items: seq<seq<byte>>, all: seq<seq<byte>>)
    requires n.Response? && AllSized(items) && all == n.items + items
    ensures Decode(n, SpellItems(items)) == Decoded(Response(n.reply, n.item, all))
    decreases |items|
  {
    if items == [] {
      assert all == n.items;
    } else {
      var next := n.items + [items[0]];
      assert all == next + items[1..];
      DecodeSpelledItems(Response(n.reply, n.item, next), items[1..], all);
      DecodeFirstItem(n, items);
    }
  }

  /** Unmarshal of a marshalled message into any message of its kind merges it, field by field. */
  lemma DecodeSpelling(n: Message, m: Message)
    requires GoSized(m) && (n.Request? <==> m.Request?)
    ensures Decode(n, Spelling(m)) == Decoded(MergeInto(n, m))
  {
    match m {
      case Request(command) =>
        DecodePrefixed(n, 0xA, command, []);
        assert Prefixed(0xA, command) + [] == Prefixed(0xA, command);
      case Response(reply, item, items) =>
        var n1 := n.(reply := if reply != 0 then reply else n.reply);
        var n2 := n1.(item := if item != [] then item else n1.item);
        assert Spelling(m) == SpellReply(reply) + (SpellItem(item) + SpellItems(items));
        DecodeSpelledReply(n, reply, SpellItem(item) + SpellItems(items));
        DecodeSpelledItem(n1, item, SpellItems(items));
        DecodeSpelledItems(n2, items, n.items + items);
    }
  }

  /** Every message survives Marshal and Unmarshal: negative replies, empty items and the empty command included. */
  lemma MarshalRoundTrip(m: Message)
    requires GoSized(m)
    ensures Decode(Fresh(m), Spelling(m)) == Decoded(m)
  {
    DecodeSpelling(Fresh(m), m);
    if m.Response? {
      assert [] + m.items == m.items;
    }
  }

  lemma MarshalInjective(m: Message, n: Message)
    requires GoSized(m) && GoSized(n) && (m.Request? <==> n.Request?)
    requires Spelling(m) == Spelling(n)
    ensures m == n
  {
    MarshalRoundTrip(m);
    MarshalRoundTrip(n);
  }

  /** Concatenating marshalled messages is merging them. */
  lemma MarshalConcat(m: Message, n: Message)
    requires GoSized(m) && GoSized(n) && (m.Request? <==> n.Request?)
    ensures Decode(Fresh(m), Spelling(m) + Spelling(n)) == Decoded(MergeInto(m, n))
  {
    MarshalRoundTrip(m);
    DecodeConcat(Fresh(m), Spelling(m), Spelling(n));
    DecodeSpelling(m, n);
  }

  // ---------- Last one wins ----------

  predicate Lacks(fs: seq<Field>, num: int32) {
    forall f :: f in fs ==> NumberOf(f) != num
  }

  lemma {:induction false} ApplyAllConcat(m: Message, fs: seq<Field>, gs: seq<Field>)
    ensures ApplyAll(m, fs + gs) == ApplyAll(ApplyAll(m, fs), gs)
    decreases |fs|
  {
    if fs == [] {
      assert fs + gs == gs;
    } else {
      assert (fs + gs)[1..] == fs[1..] + gs;
      ApplyAllConcat(Apply(m, fs[0]), fs[1..], gs);
    }
  }

  lemma {:induction false} ApplyAllKeeps(m: Message, fs: seq<Field>)
    requires AcceptsAll(m, fs)
    ensures m.Response? && Lacks(fs, 1) ==> ApplyAll(m, fs).reply == m.reply
    ensures m.Response? && Lacks(fs, 2) ==> ApplyAll(m, fs).item == m.item
    ensures m.Request? && Lacks(fs, 1) ==> ApplyAll(m, fs) == m
    decreases |fs|
  {
    if fs != [] {
      AcceptsAllKind(m, Apply(m, fs[0]), fs[1..]);
      ApplyAllKeeps(Apply(m, fs[0]), fs[1..]);
    }
  }

  /** "Last one wins" on the wire: of several occurrences of a singular field the last decides, for both fields
      of a response; for the command of a request, exactly unless the last is empty and an earlier value is not. */
  lemma LastOneWins(m: Message, before: seq<Field>, f: Field, after: seq<Field>)
    requires AcceptsAll(m, before) && Accepts(m, f) && AcceptsAll(m, after)
    requires Known(m, NumberOf(f)) && Lacks(after, NumberOf(f))
    ensures var r := ApplyAll(m, before + ([f] + after));
      && (m.Response? && NumberOf(f) == 1 ==> f.body.Number? && r.reply == Int32(Val(f.body.bytes)))
      && (m.Response? && NumberOf(f) == 2 ==> f.body.Delimited? && r.item == f.body.payload)
    ensures m.Request? ==> f.body.Delimited?
    ensures m.Request? ==>
      (ApplyAll(m, before + ([f] + after)).command == f.body.payload
       <==> (f.body.payload != [] || ApplyAll(m, before).command == []))
  {
    var mid := ApplyAll(m, before);
    ApplyAllConcat(m, before, [f] + after);
    assert ([f] + after)[1..] == after;
    AcceptsAllKind(m, Apply(mid, f), after);
    ApplyAllKeeps(Apply(mid, f), after);
  }

  /** The exception: an empty command on the wire does not replace the one before it. */
  lemma EmptyCommandLoses()
    ensures Decode(Request([]), Spelling(Request([0x41])) + Spelling(Request([]))) == Decoded(Request([0x41]))
  {
    MarshalConcat(Request([0x41]), Request([]));
  }
}

/** The generated methods of api/api.pb.go and the custom type raw.Raw, writing into buffers and fields in place. */
module Api {
  import opened Bits
  import opened Varint
  import opened Wire
  import opened Grammar
  import opened Messages
  import opened Marshal

  /** Go's error result. */
  datatype Status = Success | Failure(error: Error)

  /** A buffer whose first i bytes have been overwritten with `done`, and nothing else. */
  ghost predicate Wrote(after: seq<byte>, before: seq<byte>, done: seq<byte>, i: nat) {
    i == |done| <= |before| && after == Splice(before, 0, done)
  }

  /** Writing q right behind p is writing p + q. */
  lemma WroteMore(before: seq<byte>, p: seq<byte>, q: seq<byte>)
    requires |p| + |q| <= |before|
    ensures Wrote(Splice(Splice(before, 0, p), |p|, q), before, p + q, |p| + |q|)
  {
    var t := Splice(before, 0, p);
    assert t[..|p|] == p;
    assert t[|p| + |q|..] == before[|p| + |q|..];
  }

  lemma WroteAll(before: seq<byte>, p: seq<byte>)
    requires |p| <= |before|
    ensures Splice(before, 0, p)[..|p|] == p
  {}

  /** Go's copy(dst[lo:], src): as many bytes as fit. */
  method Copy(dst: array<byte>, lo: nat, src: seq<byte>) returns (n: nat)
    requires lo <= dst.Length
    modifies dst
    ensures n == if |src| <= dst.Length - lo then |src| else dst.Length - lo
    ensures dst[..] == Splice(old(dst[..]), lo, src[..n])
  {
    n := if |src| <= dst.Length - lo then |src| else dst.Length - lo;
    forall k | 0 <= k < n {
      dst[lo + k] := src[k];
    }
  }

  /** A one-byte tag and a varint, as every branch of MarshalTo starts. */
  method PutVarint(dAtA: array<byte>, i: nat, tag: byte, v: uint64, ghost before: seq<byte>, ghost done: seq<byte>)
    returns (end: nat)
    requires Wrote(dAtA[..], before, done, i) && i + 1 + |EncodeVarint(v)| <= dAtA.Length
    modifies dAtA
    ensures Wrote(dAtA[..], before, done + ([tag] + EncodeVarint(v)), end)
  {
    WroteMore(before, done, [tag]);
    WroteMore(before, done + [tag], EncodeVarint(v));
    assert done + ([tag] + EncodeVarint(v)) == done + [tag] + EncodeVarint(v);
    dAtA[i] := tag;
    assert dAtA[..] == Splice(Splice(before, 0, done), |done|, [tag]);
    end := EncodeVarintApi(dAtA, i + 1, v);
  }

  // ---------- raw.Raw ----------

  /** Raw.MarshalTo on data[lo:] answers the length of that slice, not the number of bytes copied. */
  method RawMarshalTo(r: seq<byte>, data: array<byte>, lo: nat) returns (n: nat)
    requires lo <= data.Length
    modifies data
    ensures n == if r == [] then 0 else data.Length - lo
    ensures data[..] == Splice(old(data[..]), lo, if |r| <= data.Length - lo then r else r[..data.Length - lo])
  {
    if |r| == 0 {
      return 0;
    }
    var copied := Copy(data, lo, r);
    assert r[..|r|] == r;
    n := data.Length - lo;
  }

  /** Raw.Unmarshal: an empty payload only clears the local pointer. */
  method RawUnmarshal(r: seq<byte>, data: seq<byte>) returns (next: seq<byte>)
    ensures Request(next) == Store(Request(r), 1, data)
  {
    next := if |data| == 0 then r else data;
  }

  // ---------- ExecuteRequest ----------

  class ExecuteRequest {
    var Command: seq<byte>

    function Msg(): Message
      reads this
    {
      Request(Command)
    }

    constructor ()
      ensures Msg() == Request([])
    {
      Command := [];
    }

    method Size() returns (n: nat)
      requires GoSized(Msg())
      ensures n == |Spelling(Msg())|
    {
      var l := SovApi(|Command|);
      n := 1 + |Command| + l;
    }

    /** Into a buffer at least Size() long. The answer is the whole length of the buffer unless the command is
        empty; it is the number of bytes written when the buffer is exactly Size() long, as Marshal makes it. */
    method MarshalTo(dAtA: array<byte>) returns (n: nat)
      requires GoSized(Msg()) && |Spelling(Msg())| <= dAtA.Length
      modifies dAtA
      ensures dAtA[..] == Splice(old(dAtA[..]), 0, Spelling(Msg()))
      ensures n == if Command == [] then |Spelling(Msg())| else dAtA.Length
    {
      ghost var before := dAtA[..];
      ghost var head := [0xA] + EncodeVarint(|Command|);
      assert [] + head == head;
      WroteMore(before, head, Command);
      var i := PutVarint(dAtA, 0, 0xA, |Command|, before, []);
      var n1 := RawMarshalTo(Command, dAtA, i);
      n := i + n1;
    }

    /** Marshal is exact: a buffer of Size() bytes, filled to the last one. */
    method Marshal() returns (bytes: seq<byte>)
      requires GoSized(Msg())
      ensures bytes == Spelling(Msg())
    {
      var size := Size();
      var dAtA := new byte[size];
      WroteAll(dAtA[..], Spelling(Msg()));
      var n := MarshalTo(dAtA);
      bytes := dAtA[..n];
    }

    /** One round of the loop of Unmarshal. */
    method UnmarshalField(dAtA: seq<byte>, preIndex: nat) returns (end: nat, err: Status)
      requires preIndex < |dAtA|
      modifies this
      ensures preIndex <= end
      ensures DecodeField(old(Msg()), dAtA[preIndex..]) ==
              if err.Success? then Taken(Msg(), end - preIndex) else Bad(Msg(), err.error)
    {
      var wire := ReadUintAt(dAtA, preIndex);
      if wire.Failed? {
        return preIndex, Failure(wire.error);
      }
      var iNdEx := preIndex + wire.count;
      var fieldNum, wireType := TakeTag(wire.value);
      if wireType == 4 {
        return iNdEx, Failure(EndGroup);
      }
      if fieldNum <= 0 {
        return iNdEx, Failure(IllegalTag(fieldNum, wire.value));
      }
      if fieldNum == 1 {
        if wireType != 2 {
          return iNdEx, Failure(WrongWireType(wireType, 1));
        }
        assert dAtA[preIndex..][wire.count..] == dAtA[iNdEx..];
        var payload := ReadPayload(dAtA, iNdEx);
        if payload.NoBytes? {
          return iNdEx, Failure(payload.error);
        }
        Command := RawUnmarshal(Command, payload.bytes);
        return iNdEx + payload.count, Success;
      }
      end, err := SkipUnknown(dAtA, preIndex, Msg());
    }

    method Unmarshal(dAtA: seq<byte>) returns (err: Status)
      modifies this
      ensures Decode(old(Msg()), dAtA) == if err.Success? then Decoded(Msg()) else Broken(Msg(), err.error)
    {
      hide DecodeField;
      var iNdEx := 0;
      assert dAtA[0..] == dAtA;
      while iNdEx < |dAtA|
        invariant iNdEx <= |dAtA|
        invariant Decode(old(Msg()), dAtA) == Decode(Msg(), dAtA[iNdEx..])
      {
        var start := iNdEx;
        iNdEx, err := UnmarshalField(dAtA, start);
        if err.Failure? {
          return;
        }
        assert dAtA[start..][iNdEx - start..] == dAtA[iNdEx..];
      }
      err := Success;
    }
  }

  /** The length loop and bounds checks that every length-delimited field repeats. */
  method ReadPayload(dAtA: seq<byte>, iNdEx: nat) returns (r: Chunk)
    requires iNdEx <= |dAtA|
    ensures r == ReadChunk(dAtA[iNdEx..])
  {
    var len := ReadUintAt(dAtA, iNdEx);
    if len.Failed? {
      return NoBytes(len.error);
    }
    if len.value >= TWO63 {
      return NoBytes(InvalidLength);
    }
    var start := iNdEx + len.count;
    var postIndex := start + len.value;
    if postIndex > |dAtA| {
      return NoBytes(UnexpectedEOF);
    }
    assert dAtA[iNdEx..][len.count..len.count + len.value] == dAtA[start..postIndex];
    r := Bytes(len.count + len.value, dAtA[start..postIndex]);
  }

  /** The default branch of both switches. */
  method SkipUnknown(dAtA: seq<byte>, preIndex: nat, ghost m: Message) returns (end: nat, err: Status)
    requires preIndex < |dAtA|
    ensures preIndex <= end <= |dAtA|
    ensures DecodeUnknown(m, dAtA[preIndex..]) ==
            if err.Success? then Taken(m, end - preIndex) else Bad(m, err.error)
  {
    var skippy := SkipApi(dAtA[preIndex..]);
    if skippy.Stuck? {
      return preIndex, Failure(skippy.error);
    }
    if preIndex + skippy.count > |dAtA| {
      return preIndex, Failure(UnexpectedEOF);
    }
    return preIndex + skippy.count, Success;
  }

  // ---------- ExecuteCommandResponse ----------

  lemma {:induction false} SpellItemsSnoc(items: seq<seq<byte>>, s: seq<byte>)
    ensures SpellItems(items + [s]) == SpellItems(items) + Prefixed(0x1A, s)
  {
    if items == [] {
      assert [] + [s] == [s] && [s][1..] == [];
    } else {
      assert (items + [s])[1..] == items[1..] + [s];
      SpellItemsSnoc(items[1..], s);
    }
  }

  lemma {:induction false} SpellItemsPrefix(items: seq<seq<byte>>, k: nat)
    requires k < |items|
    ensures SpellItems(items[..k + 1]) == SpellItems(items[..k]) + Prefixed(0x1A, items[k])
    ensures |SpellItems(items[..k + 1])| <= |SpellItems(items)|
    decreases |items| - k
  {
    assert items[..k + 1] == items[..k] + [items[k]];
    SpellItemsSnoc(items[..k], items[k]);
    if k + 1 == |items| {
      assert items[..k + 1] == items;
    } else {
      SpellItemsPrefix(items, k + 1);
    }
  }

  lemma {:induction false} AllSizedAt(items: seq<seq<byte>>, k: nat)
    requires AllSized(items) && k < |items|
    ensures |items[k]| < TWO63
  {
    if k > 0 {
      AllSizedAt(items[1..], k - 1);
    }
  }

  /** DecodeReply at an index whose varint is known to end, well or badly, at index i. */
  lemma DecodeReplyAt(m: Message, s: seq<byte>, start: nat, i: nat)
    requires m.Response? && start <= i <= |s|
    ensures var scan, next := ScanVarint(s[start..]), m.(reply := Int32(Val(s[start..i])));
      scan.count == i - start ==>
        DecodeReply(m, s[start..]) ==
          if scan.status.Done? then Taken(next, i - start)
          else Bad(next, if scan.status.Overflow? then IntOverflow else UnexpectedEOF)
  {
    assert s[start..][..i - start] == s[start..i];
  }

  lemma ReplyEnd(m: Message, s: seq<byte>, start: nat, i: nat, shift: nat)
    requires m.Response? && MidVarint(s, start, i, shift)
    ensures shift >= 64 || i >= |s| ==>
      DecodeReply(m, s[start..]) ==
        Bad(m.(reply := Int32(Val(s[start..i]))), if shift >= 64 then IntOverflow else UnexpectedEOF)
  {
    hide Val, Groups, DecodeReply;
    DecodeReplyAt(m, s, start, i);
  }

  lemma ReplyRound(m: Message, s: seq<byte>, start: nat, i: nat, shift: nat)
    requires m.Response? && MidVarint(s, start, i, shift) && i < |s| && shift < 64
    ensures s[start..i + 1] == s[start..i] + [s[i]]
    ensures if s[i] < 0x80 then
              DecodeReply(m, s[start..]) == Taken(m.(reply := Int32(Val(s[start..i + 1]))), i + 1 - start)
            else MidVarint(s, start, i + 1, shift + 7)
  {
    hide Val, Groups, DecodeReply;
    MidVarintStep(s, start, i, shift);
    DecodeReplyAt(m, s, start, i + 1);
  }

  class ExecuteCommandResponse {
    var Reply: int32
    var Item: seq<byte>
    var Items: seq<seq<byte>>

    function Msg(): Message
      reads this
    {
      Response(Reply, Item, Items)
    }

    constructor ()
      ensures Msg() == Response(0, [], [])
    {
      Reply, Item, Items := 0, [], [];
    }

    method Size() returns (n: nat)
      requires GoSized(Msg())
      ensures n == |Spelling(Msg())|
    {
      n := 0;
      if Reply != 0 {
        var l := SovApi(SignExtend(Reply));
        n := n + 1 + l;
      }
      if |Item| > 0 {
        var l := SovApi(|Item|);
        n := n + 1 + |Item| + l;
      }
      assert Items[..0] == [];
      for k := 0 to |Items|
        invariant n == |SpellReply(Reply)| + |SpellItem(Item)| + |SpellItems(Items[..k])|
      {
        AllSizedAt(Items, k);
        var l := SovApi(|Items[k]|);
        n := n + 1 + |Items[k]| + l;
        SpellItemsPrefix(Items, k);
      }
      assert Items[..|Items|] == Items;
    }

    method MarshalTo(dAtA: array<byte>) returns (i: nat)
      requires GoSized(Msg()) && |Spelling(Msg())| <= dAtA.Length
      modifies dAtA
      ensures i == |Spelling(Msg())|
      ensures dAtA[..] == Splice(old(dAtA[..]), 0, Spelling(Msg()))
    {
      ghost var before := dAtA[..];
      i := PutReply(dAtA, before);
      i := PutItem(dAtA, i, before, SpellReply(Reply));
      i := PutItems(dAtA, i, before, SpellReply(Reply) + SpellItem(Item));
    }

    method PutReply(dAtA: array<byte>, ghost before: seq<byte>) returns (i: nat)
      requires |SpellReply(Reply)| <= dAtA.Length && before == dAtA[..]
      modifies dAtA
      ensures Wrote(dAtA[..], before, SpellReply(Reply), i)
    {
      i := 0;
      if Reply != 0 {
        assert [] + SpellReply(Reply) == SpellReply(Reply);
        i := PutVarint(dAtA, 0, 0x8, SignExtend(Reply), before, []);
      }
    }

    method PutItem(dAtA: array<byte>, start: nat, ghost before: seq<byte>, ghost done: seq<byte>)
      returns (i: nat)
      requires |Item| < TWO63
      requires Wrote(dAtA[..], before, done, start) && start + |SpellItem(Item)| <= dAtA.Length
      modifies dAtA
      ensures Wrote(dAtA[..], before, done + SpellItem(Item), i)
    {
      i := start;
      if |Item| > 0 {
        i := PutString(dAtA, start, 0x12, Item, before, done);
      } else {
        assert done + SpellItem(Item) == done;
      }
    }

    method PutItems(dAtA: array<byte>, start: nat, ghost before: seq<byte>, ghost done: seq<byte>)
      returns (i: nat)
      requires AllSized(Items)
      requires Wrote(dAtA[..], before, done, start) && start + |SpellItems(Items)| <= dAtA.Length
      modifies dAtA
      ensures Wrote(dAtA[..], before, done + SpellItems(Items), i)
    {
      assert Items[..0] == [] && done + SpellItems([]) == done;
      i := start;
      for k := 0 to |Items|
        invariant Wrote(dAtA[..], before, done + SpellItems(Items[..k]), i)
      {
        AllSizedAt(Items, k);
        SpellItemsPrefix(Items, k);
        ghost var part := SpellItems(Items[..k]);
        assert done + part + Prefixed(0x1A, Items[k]) == done + SpellItems(Items[..k + 1]);
        i := PutInline(dAtA, i, 0x1A, Items[k], before, done + part);
      }
      assert Items[..|Items|] == Items;
    }

    /** Marshal is exact: Size() bytes are allocated, and MarshalTo writes every one of them. */
    method Marshal() returns (bytes: seq<byte>)
      requires GoSized(Msg())
      ensures bytes == Spelling(Msg())
    {
      var size := Size();
      var dAtA := new byte[size];
      WroteAll(dAtA[..], Spelling(Msg()));
      var n := MarshalTo(dAtA);
      bytes := dAtA[..n];
    }

    /** One byte of field Reply, and whether it is the last. */
    method MergeReply(dAtA: seq<byte>, start: nat, i: nat, shift: nat, ghost m: Message) returns (last: bool)
      requires m.Response? && MidVarint(dAtA, start, i, shift) && i < |dAtA| && shift < 64
      requires Reply == Int32(Val(dAtA[start..i]))
      modifies this`Reply
      ensures Reply == Int32(Val(dAtA[start..i + 1]))
      ensures if last then DecodeReply(m, dAtA[start..]) == Taken(m.(reply := Reply), i + 1 - start)
              else MidVarint(dAtA, start, i + 1, shift + 7)
    {
      hide Val, ScanVarint, DecodeReply, Int32;
      var b := dAtA[i];
      ReplyRound(m, dAtA, start, i, shift);
      Reply := MergeGroup32(Reply, b, shift, dAtA[start..i]);
      last := b < 0x80;
    }

    /** The loop of field Reply clears the field and merges every byte into it as it reads. */
    method UnmarshalReply(dAtA: seq<byte>, start: nat) returns (iNdEx: nat, err: Status)
      requires start <= |dAtA|
      modifies this`Reply
      ensures start <= iNdEx
      ensures DecodeReply(old(Msg()), dAtA[start..]) ==
              if err.Success? then Taken(Msg(), iNdEx - start) else Bad(Msg(), err.error)
    {
      Reply := 0;
      iNdEx := start;
      var shift := 0;
      assert Int32(Val(dAtA[start..start])) == 0;
      hide Val, Int32, ScanVarint, DecodeReply;
      while true
        invariant MidVarint(dAtA, start, iNdEx, shift)
        invariant Reply == Int32(Val(dAtA[start..iNdEx]))
        decreases |dAtA| - iNdEx
      {
        ReplyEnd(old(Msg()), dAtA, start, iNdEx, shift);
        if shift >= 64 {
          return iNdEx, Failure(IntOverflow);
        }
        if iNdEx >= |dAtA| {
          return iNdEx, Failure(UnexpectedEOF);
        }
        var last := MergeReply(dAtA, start, iNdEx, shift, old(Msg()));
        iNdEx := iNdEx + 1;
        if last {
          return iNdEx, Success;
        }
        shift := shift + 7;
      }
    }

    /** One round of the loop of Unmarshal. */
    method UnmarshalField(dAtA: seq<byte>, preIndex: nat) returns (end: nat, err: Status)
      requires preIndex < |dAtA|
      modifies this
      ensures preIndex <= end
      ensures DecodeField(old(Msg()), dAtA[preIndex..]) ==
              if err.Success? then Taken(Msg(), end - preIndex) else Bad(Msg(), err.error)
    {
      var wire := ReadUintAt(dAtA, preIndex);
      if wire.Failed? {
        return preIndex, Failure(wire.error);
      }
      var iNdEx := preIndex + wire.count;
      var fieldNum, wireType := TakeTag(wire.value);
      if wireType == 4 {
        return iNdEx, Failure(EndGroup);
      }
      if fieldNum <= 0 {
        return iNdEx, Failure(IllegalTag(fieldNum, wire.value));
      }
      if !(1 <= fieldNum <= 3) {
        end, err := SkipUnknown(dAtA, preIndex, Msg());
        return;
      }
      assert dAtA[preIndex..][wire.count..] == dAtA[iNdEx..];
      end, err := UnmarshalKnown(dAtA, iNdEx, fieldNum, wireType);
    }

    /** The cases of the switch. */
    method UnmarshalKnown(dAtA: seq<byte>, iNdEx: nat, fieldNum: int32, wireType: nat)
      returns (end: nat, err: Status)
      requires iNdEx <= |dAtA| && 1 <= fieldNum <= 3
      modifies this
      ensures iNdEx <= end
      ensures DecodeKnown(old(Msg()), fieldNum, wireType, dAtA[iNdEx..]) ==
              if err.Success? then Taken(Msg(), end - iNdEx) else Bad(Msg(), err.error)
    {
      if fieldNum == 1 {
        if wireType != 0 {
          return iNdEx, Failure(WrongWireType(wireType, 1));
        }
        end, err := UnmarshalReply(dAtA, iNdEx);
        return;
      }
      if wireType != 2 {
        return iNdEx, Failure(WrongWireType(wireType, fieldNum));
      }
      var payload := ReadPayload(dAtA, iNdEx);
      if payload.NoBytes? {
        return iNdEx, Failure(payload.error);
      }
      if fieldNum == 2 {
        Item := payload.bytes;
      } else {
        Items := Items + [payload.bytes];
      }
      return iNdEx + payload.count, Success;
    }

    method Unmarshal(dAtA: seq<byte>) returns (err: Status)
      modifies this
      ensures Decode(old(Msg()), dAtA) == if err.Success? then Decoded(Msg()) else Broken(Msg(), err.error)
    {
      hide DecodeField;
      var iNdEx := 0;
      assert dAtA[0..] == dAtA;
      while iNdEx < |dAtA|
        invariant iNdEx <= |dAtA|
        invariant Decode(old(Msg()), dAtA) == Decode(Msg(), dAtA[iNdEx..])
      {
        var start := iNdEx;
        iNdEx, err := UnmarshalField(dAtA, start);
        if err.Failure? {
          return;
        }
        assert dAtA[start..][iNdEx - start..] == dAtA[iNdEx..];
      }
      err := Success;
    }
  }

  /** A tagged string behind its length, as the Item branch writes it. */
  method PutString(dAtA: array<byte>, i: nat, tag: byte, s: seq<byte>, ghost before: seq<byte>, ghost done: seq<byte>)
    returns (end: nat)
    requires |s| < TWO63
    requires Wrote(dAtA[..], before, done, i) && i + |Prefixed(tag, s)| <= dAtA.Length
    modifies dAtA
    ensures Wrote(dAtA[..], before, done + Prefixed(tag, s), end)
  {
    end := PutVarint(dAtA, i, tag, |s|, before, done);
    end := PutCopy(dAtA, end, s, before, done + ([tag] + EncodeVarint(|s|)));
    assert done + ([tag] + EncodeVarint(|s|)) + s == done + Prefixed(tag, s);
  }

  method PutCopy(dAtA: array<byte>, i: nat, s: seq<byte>, ghost before: seq<byte>, ghost done: seq<byte>)
    returns (end: nat)
    requires Wrote(dAtA[..], before, done, i) && i + |s| <= dAtA.Length
    modifies dAtA
    ensures Wrote(dAtA[..], before, done + s, end)
  {
    WroteMore(before, done, s);
    var n := Copy(dAtA, i, s);
    assert s[..|s|] == s;
    end := i + n;
  }

  /** The length loop that the Items branch has of its own, on an int. */
  method InlineLength(dAtA: array<byte>, i: nat, l: nat) returns (end: nat)
    requires i + |EncodeVarint(l)| <= dAtA.Length
    modifies dAtA
    ensures end == i + |EncodeVarint(l)|
    ensures dAtA[..] == Splice(old(dAtA[..]), i, EncodeVarint(l))
  {
    hide EncodeVarint, Splice;
    ghost var enc, before := EncodeVarint(l), dAtA[..];
    EncodingStart(before, i, l);
    end := i;
    var x := l;
    while x >= 0x80
      invariant i <= end
      invariant Encoding(dAtA[..], before, i, enc, end - i, x)
    {
      x := PutGroup(dAtA, i, end - i, x, before, enc);
      end := end + 1;
    }
    PutLast(dAtA, i, end - i, x, before, enc);
    end := end + 1;
  }

  /** The same bytes as PutString, as the Items branch writes them. */
  method PutInline(dAtA: array<byte>, i: nat, tag: byte, s: seq<byte>, ghost before: seq<byte>, ghost done: seq<byte>)
    returns (end: nat)
    requires |s| < TWO63
    requires Wrote(dAtA[..], before, done, i) && i + |Prefixed(tag, s)| <= dAtA.Length
    modifies dAtA
    ensures Wrote(dAtA[..], before, done + Prefixed(tag, s), end)
  {
    WroteMore(before, done, [tag]);
    WroteMore(before, done + [tag], EncodeVarint(|s|));
    dAtA[i] := tag;
    assert dAtA[..] == Splice(Splice(before, 0, done), |done|, [tag]);
    end := InlineLength(dAtA, i + 1, |s|);
    end := PutCopy(dAtA, end, s, before, done + [tag] + EncodeVarint(|s|));
    assert done + [tag] + EncodeVarint(|s|) + s == done + Prefixed(tag, s);
  }
}

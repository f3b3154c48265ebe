/** Base 128 varints: the loops of api/api.pb.go against a specification by framing and value. */
module Varint {
  import opened Bits

  /** How a varint loop ends: on a byte below 0x80, after ten continuation bytes, or at the end of input. */
  datatype Status = Done | Overflow | Eof

  datatype Scan = Scan(count: nat, status: Status)

  /** Framing: what the loop consumes from `s` when it has already consumed `k` bytes. */
  function ScanVarint(s: seq<byte>, k: nat := 0): (r: Scan)
    requires k <= 10
    ensures r.count <= |s| && r.count <= 10 - k
    ensures r.status.Done? ==> 1 <= r.count && s[r.count - 1] < 0x80
    ensures r.status.Eof? ==> r.count == |s|
    ensures r.status.Overflow? ==> r.count == 10 - k
  {
    if k == 10 then Scan(0, Overflow)
    else if s == [] then Scan(0, Eof)
    else if s[0] < 0x80 then Scan(1, Done)
    else
      var r := ScanVarint(s[1..], k + 1);
      Scan(r.count + 1, r.status)
  }

  /** The little-endian number that groups of seven bits spell, before truncation. */
  function Groups(bs: seq<byte>): nat {
    if bs == [] then 0 else bs[0] % 0x80 + 0x80 * Groups(bs[1..])
  }

  /** The uint64 that a varint denotes. */
  function Val(bs: seq<byte>): uint64 {
    Mod64(Groups(bs))
  }

  /** A complete varint: the loop stops exactly at its end. */
  predicate IsVarint(bs: seq<byte>) {
    ScanVarint(bs) == Scan(|bs|, Done)
  }

  function EncodeVarint(v: nat): (r: seq<byte>)
    ensures |r| >= 1
  {
    if v < 0x80 then [v] else [v % 0x80 + 0x80] + EncodeVarint(v / 0x80)
  }

  // ---------- Framing ----------

  /** More input changes the outcome of a scan only if the scan hit the end. */
  lemma {:induction false} ScanStable(a: seq<byte>, b: seq<byte>, k: nat)
    requires k <= 10
    requires !ScanVarint(a, k).status.Eof?
    ensures ScanVarint(a + b, k) == ScanVarint(a, k)
  {
    if k < 10 && a != [] && a[0] >= 0x80 {
      assert (a + b)[1..] == a[1..] + b;
      ScanStable(a[1..], b, k + 1);
    }
  }

  /** A scan that is done depends on nothing but the bytes it consumed. */
  lemma {:induction false} ScanConsumed(s: seq<byte>, k: nat)
    requires k <= 10
    requires ScanVarint(s, k).status.Done?
    ensures ScanVarint(s[..ScanVarint(s, k).count], k) == ScanVarint(s, k)
  {
    var n := ScanVarint(s, k).count;
    if s[0] >= 0x80 {
      assert s[..n][1..] == s[1..][..n - 1];
      ScanConsumed(s[1..], k + 1);
    }
  }

  /** A varint is recognised in front of any continuation. */
  lemma VarintPrefix(v: seq<byte>, rest: seq<byte>)
    requires IsVarint(v)
    ensures ScanVarint(v + rest) == Scan(|v|, Done)
    ensures (v + rest)[..|v|] == v && (v + rest)[|v|..] == rest
  {
    ScanStable(v, rest, 0);
  }

  lemma {:induction false} EncodeScans(v: nat, k: nat)
    requires k < 10 && v < Pow2(7 * (10 - k))
    ensures ScanVarint(EncodeVarint(v), k) == Scan(|EncodeVarint(v)|, Done)
  {
    if v >= 0x80 {
      PowSeven(7 * (10 - k) - 7);
      assert k < 9 by { assert Pow2(0) == 1; }
      assert EncodeVarint(v)[1..] == EncodeVarint(v / 0x80);
      EncodeScans(v / 0x80, k + 1);
    }
  }

  // ---------- Values ----------

  lemma GroupsCons(b: byte, bs: seq<byte>)
    ensures Groups([b] + bs) == b % 0x80 + 0x80 * Groups(bs)
  {
    assert ([b] + bs)[1..] == bs;
  }

  lemma {:induction false} EncodeGroups(v: nat)
    ensures Groups(EncodeVarint(v)) == v
  {
    if v < 0x80 {
      GroupsCons(v, []);
      assert [v] + [] == [v];
    } else {
      EncodeGroups(v / 0x80);
      GroupsCons(v % 0x80 + 0x80, EncodeVarint(v / 0x80));
    }
  }

  /** Every uint64 survives encodeVarintApi followed by the decoding loop, whatever follows it. */
  lemma VarintRoundTrip(v: uint64, rest: seq<byte>)
    ensures IsVarint(EncodeVarint(v)) && Val(EncodeVarint(v)) == v
    ensures ScanVarint(EncodeVarint(v) + rest) == Scan(|EncodeVarint(v)|, Done)
  {
    EncodedIsVarint(v, 0);
    EncodeGroups(v);
    VarintPrefix(EncodeVarint(v), rest);
  }

  lemma EncodedIsVarint(v: uint64, z: nat)
    requires z == 0
    ensures IsVarint(EncodeVarint(v))
  {
    PowersHigh(z);
    PowMonotone(z + 64, z + 70);
    EncodeScans(v, z);
  }

  /** encodeVarintApi never writes more bytes than any other spelling of the same number. */
  lemma {:induction false} EncodeShortest(v: nat, bs: seq<byte>)
    requires Groups(bs) == v && bs != []
    ensures |EncodeVarint(v)| <= |bs|
  {
    if v >= 0x80 {
      assert Groups(bs[1..]) == v / 0x80;
      EncodeShortest(v / 0x80, bs[1..]);
    }
  }

  lemma {:induction false} GroupsSnoc(bs: seq<byte>, b: byte)
    ensures Groups(bs + [b]) == Groups(bs) + ShlGroup(b, 7 * |bs|)
  {
    if bs == [] {
      assert [] + [b] == [b] + [];
      GroupsCons(b, []);
    } else {
      assert bs + [b] == [bs[0]] + (bs[1..] + [b]);
      GroupsCons(bs[0], bs[1..] + [b]);
      GroupsSnoc(bs[1..], b);
      ShlSeven(b % 0x80, 7 * |bs[1..]|);
    }
  }

  lemma {:induction false} GroupsBound(bs: seq<byte>)
    ensures Groups(bs) < Pow2(7 * |bs|)
  {
    if bs != [] {
      GroupsBound(bs[1..]);
      PowSeven(7 * |bs[1..]|);
    }
  }

  /** The accumulator has only bits below the shift, so that the bitwise merge of a round adds the next group. */
  lemma AccumulatorBelowShift(bs: seq<byte>)
    requires |bs| <= 9
    ensures Val(bs) < Pow2(7 * |bs|) && Pattern32(Int32(Val(bs))) < Pow2(7 * |bs|)
  {
    GroupsBound(bs);
    PatternOfInt32(Val(bs));
  }

  /** One more round of the accumulation loop adds a group... */
  lemma ValSum(bs: seq<byte>, b: byte)
    ensures Val(bs + [b]) == Mod64(Val(bs) + ShlGroup(b, 7 * |bs|))
  {
    hide Groups, ShlGroup;
    GroupsSnoc(bs, b);
    ModOfSum(Groups(bs), ShlGroup(b, 7 * |bs|));
  }

  lemma ModOfSum(a: nat, b: nat)
    ensures Mod64(a + b) == Mod64(Mod64(a) + b)
  {}

  /** ...in the bitwise expression of the source. */
  lemma ValSnoc(bs: seq<byte>, b: byte)
    requires |bs| <= 9
    ensures Val(bs + [b]) == Or(Val(bs), Shl64(And(b, 0x7F), 7 * |bs|))
  {
    hide And, Or, Shl, Shl64, ShlGroup, Pow2, Groups;
    ValSum(bs, b);
    AccumulatorBelowShift(bs);
    MergeIsOr(Val(bs), b, 7 * |bs|);
  }

  lemma LowHalfOfSum(g: nat, y: nat)
    ensures Int32(Mod64(g + y)) == Int32(Pattern32(Int32(Mod64(g))) + y)
  {
    LowHalf(g);
    LowHalf(g + y);
    PatternOfInt32(Mod64(g));
    LowHalf32(g, y);
  }

  lemma LowHalf(g: nat)
    ensures Mod64(g) % TWO32 == g % TWO32
  {}

  lemma LowHalf32(a: nat, b: nat)
    ensures (a + b) % TWO32 == (a % TWO32 + b) % TWO32
  {}

  /** The same round on an int32 accumulator keeps the low half of the value. */
  lemma Int32Sum(bs: seq<byte>, b: byte)
    ensures Int32(Val(bs + [b])) == Int32(Pattern32(Int32(Val(bs))) + ShlGroup(b, 7 * |bs|))
  {
    hide Groups, ShlGroup, Pattern32;
    GroupsSnoc(bs, b);
    LowHalfOfSum(Groups(bs), ShlGroup(b, 7 * |bs|));
  }

  lemma Int32Mod(v: nat)
    ensures Int32(v % TWO32) == Int32(v)
  {}

  lemma Int32Snoc(bs: seq<byte>, b: byte)
    requires |bs| <= 9
    ensures Int32(Val(bs + [b])) == Int32(Or(Pattern32(Int32(Val(bs))), Shl32(And(b, 0x7F), 7 * |bs|)))
  {
    hide And, Or, Shl, Shl32, ShlGroup, Pow2, Groups, Val;
    Int32Sum(bs, b);
    Int32Mod(Pattern32(Int32(Val(bs))) + ShlGroup(b, 7 * |bs|));
    AccumulatorBelowShift(bs);
    MergeIsOr32(Pattern32(Int32(Val(bs))), b, 7 * |bs|);
  }

  // ---------- The loops ----------

  /** `before` with `bytes` written at `offset`. */
  function Splice(before: seq<byte>, offset: nat, bytes: seq<byte>): (after: seq<byte>)
    requires offset + |bytes| <= |before|
  {
    before[..offset] + bytes + before[offset + |bytes|..]
  }

  lemma EncodeStep(enc: seq<byte>, x: nat, k: nat)
    requires k < |enc| && EncodeVarint(x) == enc[k..]
    ensures enc[k] == if x < 0x80 then x else x % 0x80 + 0x80
    ensures if x < 0x80 then k + 1 == |enc| else k + 1 < |enc| && EncodeVarint(x / 0x80) == enc[k + 1..]
  {
    assert enc[k] == enc[k..][0];
    assert enc[k..][1..] == enc[k + 1..];
  }

  /** `v & 0x7F | 0x80` and `v >>= 7`: a byte of a varint that goes on, and what is left to write. */
  method SplitGroup(v: nat) returns (b: byte, rest: nat)
    ensures b == v % 0x80 + 0x80 && rest == v / 0x80
  {
    hide And, Or;
    GroupBits(v);
    b := Or(And(v, 0x7F), 0x80);
    rest := DropGroup(v);
  }

  /** `v >>= 7` */
  method DropGroup(v: nat) returns (rest: nat)
    ensures rest == v / 0x80
  {
    ShiftRight(v);
    rest := Shr(v, 7);
  }

  /** `v |= (uint64(b) & 0x7F) << shift`, behind the bytes `bs` of a varint. */
  method MergeGroup(v: uint64, b: byte, shift: nat, ghost bs: seq<byte>) returns (next: uint64)
    requires v == Val(bs) && |bs| <= 9 && shift == 7 * |bs|
    ensures next == Val(bs + [b])
  {
    hide Val, Groups, And, Or, Shl, Shl64;
    ValSnoc(bs, b);
    next := Or(v, Shl64(And(b, 0x7F), shift));
  }

  /** The same on the pattern of an int32. */
  method MergeGroup32(v: int32, b: byte, shift: nat, ghost bs: seq<byte>) returns (next: int32)
    requires v == Int32(Val(bs)) && |bs| <= 9 && shift == 7 * |bs|
    ensures next == Int32(Val(bs + [b]))
  {
    hide Val, Groups, And, Or, Shl, Shl32, Pattern32;
    Int32Snoc(bs, b);
    next := Int32(Or(Pattern32(v), Shl32(And(b, 0x7F), shift)));
  }

  /** Writing a varint: its first k bytes are in place, and x is what is left to encode. */
  ghost predicate Encoding(after: seq<byte>, before: seq<byte>, offset: nat, enc: seq<byte>, k: nat, x: nat) {
    && k < |enc| && offset + |enc| <= |before|
    && EncodeVarint(x) == enc[k..] && after == Splice(before, offset, enc[..k])
  }

  lemma SpliceNext(before: seq<byte>, offset: nat, bytes: seq<byte>, k: nat)
    requires k < |bytes| && offset + |bytes| <= |before|
    ensures Splice(before, offset, bytes[..k])[offset + k := bytes[k]] == Splice(before, offset, bytes[..k + 1])
  {
    assert bytes[..k + 1] == bytes[..k] + [bytes[k]];
  }

  /** One byte of a varint that goes on. */
  method PutGroup(dAtA: array<byte>, offset: nat, k: nat, x: nat, ghost before: seq<byte>, ghost enc: seq<byte>)
    returns (rest: nat)
    requires Encoding(dAtA[..], before, offset, enc, k, x) && x >= 0x80
    modifies dAtA
    ensures Encoding(dAtA[..], before, offset, enc, k + 1, rest) && rest < x
  {
    EncodeStep(enc, x, k);
    SpliceNext(before, offset, enc, k);
    var b;
    b, rest := SplitGroup(x);
    dAtA[offset + k] := b;
  }

  /** The last byte. */
  method PutLast(dAtA: array<byte>, offset: nat, k: nat, x: byte, ghost before: seq<byte>, ghost enc: seq<byte>)
    requires Encoding(dAtA[..], before, offset, enc, k, x) && x < 0x80
    modifies dAtA
    ensures k + 1 == |enc| && dAtA[..] == Splice(before, offset, enc)
  {
    EncodeStep(enc, x, k);
    SpliceNext(before, offset, enc, k);
    dAtA[offset + k] := x;
    assert enc[..|enc|] == enc;
  }

  lemma EncodingStart(before: seq<byte>, offset: nat, v: nat)
    requires offset + |EncodeVarint(v)| <= |before|
    ensures Encoding(before, before, offset, EncodeVarint(v), 0, v)
  {
    assert before[..offset] + [] + before[offset..] == before;
  }

  method EncodeVarintApi(dAtA: array<byte>, offset: nat, v: uint64) returns (end: nat)
    requires offset + |EncodeVarint(v)| <= dAtA.Length
    modifies dAtA
    ensures end == offset + |EncodeVarint(v)|
    ensures dAtA[..] == Splice(old(dAtA[..]), offset, EncodeVarint(v))
  {
    hide EncodeVarint, Splice;
    ghost var enc, before := EncodeVarint(v), dAtA[..];
    EncodingStart(before, offset, v);
    end := offset;
    var x: nat := v;
    while x >= 0x80
      invariant offset <= end
      invariant Encoding(dAtA[..], before, offset, enc, end - offset, x)
    {
      x := PutGroup(dAtA, offset, end - offset, x, before, enc);
      end := end + 1;
    }
    PutLast(dAtA, offset, end - offset, x, before, enc);
    end := end + 1;
  }

  /** sovApi: the number of bytes a varint takes. */
  method SovApi(v: uint64) returns (n: nat)
    ensures n == |EncodeVarint(v)|
  {
    n := 1;
    var x := DropGroup(v);
    while x != 0
      invariant |EncodeVarint(v)| == if x == 0 then n else n + |EncodeVarint(x)|
    {
      n := n + 1;
      x := DropGroup(x);
    }
  }

  /** The state of the decoding loop before it looks at s[i]. */
  ghost predicate MidVarint(s: seq<byte>, start: nat, i: nat, shift: nat) {
    && start <= i <= |s| && i - start <= 10
    && shift == 7 * (i - start)
    && var r := ScanVarint(s[i..], i - start);
       ScanVarint(s[start..]) == Scan(r.count + (i - start), r.status)
  }

  lemma MidVarintStep(s: seq<byte>, start: nat, i: nat, shift: nat)
    requires MidVarint(s, start, i, shift) && i < |s| && shift < 64
    ensures if s[i] < 0x80 then ScanVarint(s[start..]) == Scan(i + 1 - start, Done)
            else MidVarint(s, start, i + 1, shift + 7)
    ensures s[start..i + 1] == s[start..i] + [s[i]]
  {
    assert s[i..][1..] == s[i + 1..];
  }

  /** Ten bytes that all go on, or the end of the input. */
  lemma MidVarintEnd(s: seq<byte>, start: nat, i: nat, shift: nat)
    requires MidVarint(s, start, i, shift)
    ensures shift >= 64 || i >= |s| ==>
      ScanVarint(s[start..]) == Scan(i - start, if shift >= 64 then Overflow else Eof)
  {}

  /** One byte of a varint, and whether it is the last. */
  method ReadGroup(dAtA: seq<byte>, start: nat, i: nat, shift: nat, value: uint64) returns (next: uint64, last: bool)
    requires MidVarint(dAtA, start, i, shift) && i < |dAtA| && shift < 64 && value == Val(dAtA[start..i])
    ensures next == Val(dAtA[start..i + 1])
    ensures if last then ScanVarint(dAtA[start..]) == Scan(i + 1 - start, Done)
            else MidVarint(dAtA, start, i + 1, shift + 7)
  {
    hide Val, ScanVarint;
    var b := dAtA[i];
    MidVarintStep(dAtA, start, i, shift);
    next := MergeGroup(value, b, shift, dAtA[start..i]);
    last := b < 0x80;
  }

  /** The varint loop that every decoder repeats, with its two errors. */
  method ReadVarint(dAtA: seq<byte>, start: nat) returns (value: uint64, end: nat, status: Status)
    requires start <= |dAtA|
    ensures start <= end <= |dAtA| && value == Val(dAtA[start..end])
    ensures Scan(end - start, status) == ScanVarint(dAtA[start..])
  {
    end, value, status := start, 0, Eof;
    var shift := 0;
    assert Val(dAtA[start..start]) == 0;
    hide Val, ScanVarint;
    while true
      invariant MidVarint(dAtA, start, end, shift)
      invariant value == Val(dAtA[start..end])
      decreases |dAtA| - end
    {
      MidVarintEnd(dAtA, start, end, shift);
      if shift >= 64 {
        status := Overflow;
        return;
      }
      if end >= |dAtA| {
        status := Eof;
        return;
      }
      var last;
      value, last := ReadGroup(dAtA, start, end, shift, value);
      end := end + 1;
      if last {
        status := Done;
        return;
      }
      shift := shift + 7;
    }
  }
}

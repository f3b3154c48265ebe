/** Fields on the wire: reading tags and lengths, and skipApi against the grammar of fields it skips. */
module Wire {
  import opened Bits
  import opened Varint

  datatype Error =
    | IntOverflow
    | UnexpectedEOF
    | InvalidLength
    | IllegalWireType(wireType: nat)
    | EndGroup
    | IllegalTag(num: int32, wire: uint64)
    | WrongWireType(wireType: nat, field: nat)

  /** A number read: how many bytes it took, and the uint64 they denote. */
  datatype Read = Got(count: nat, value: uint64) | Failed(error: Error)

  /** A payload read: how many bytes it took with its length prefix, and the payload. */
  datatype Chunk = Bytes(count: nat, bytes: seq<byte>) | NoBytes(error: Error)

  /** skipApi's answer. */
  datatype Skipped = Past(count: nat) | Stuck(error: Error)

  /** A varint loop, with the errors it returns. */
  function ReadUint(s: seq<byte>): (r: Read)
    ensures r.Got? ==> 1 <= r.count <= |s| && r.value == Val(s[..r.count])
  {
    var scan := ScanVarint(s);
    match scan.status
    case Done => Got(scan.count, Val(s[..scan.count]))
    case Overflow => Failed(IntOverflow)
    case Eof => Failed(UnexpectedEOF)
  }

  function WireType(wire: uint64): (t: nat)
    ensures t < 8
  {
    wire % 8
  }

  /** fieldNum := int32(wire >> 3) */
  function FieldNum(wire: uint64): int32 {
    Int32(wire / 8)
  }

  /** A tag is a number times eight plus a type: for every number that an int32 holds, and every type. */
  lemma TagParts(n: nat, t: nat)
    requires n < 0x8000_0000 && t < 8
    ensures FieldNum(8 * n + t) == n && WireType(8 * n + t) == t
  {
    assert (8 * n + t) / 8 == n;
  }

  /** For every tag: the number is the int32 of the same low 32 bits as the rest of the tag. */
  lemma TagNumber(wire: uint64)
    ensures WireType(wire) == wire % 8 && (FieldNum(wire) - wire / 8) % 0x1_0000_0000 == 0
    ensures var n := wire / 8 % 0x1_0000_0000; FieldNum(wire) == if n < 0x8000_0000 then n else n - 0x1_0000_0000
  {}

  /** A length prefix, checked for sign. */
  function ReadLength(s: seq<byte>): (r: Read)
    ensures r.Got? ==> 1 <= r.count <= |s| && r.value < TWO63
  {
    var len := ReadUint(s);
    if len.Got? && len.value >= TWO63 then Failed(InvalidLength) else len
  }

  /** A length-delimited payload, all of whose bytes must be present. */
  function ReadChunk(s: seq<byte>): (r: Chunk)
    ensures r.Bytes? ==> 1 <= r.count <= |s|
  {
    var len := ReadLength(s);
    if len.Failed? then NoBytes(len.error)
    else if len.count + len.value > |s| then NoBytes(UnexpectedEOF)
    else Bytes(len.count + len.value, s[len.count..len.count + len.value])
  }

  // ---------- skipApi ----------

  function Shift(r: Skipped, n: nat): Skipped {
    if r.Past? then Past(n + r.count) else r
  }

  /** The bodies that skipApi passes over without recursion. */
  function SkipFlat(wireType: nat, s: seq<byte>): (r: Skipped) {
    match wireType
    case 0 =>
      var v := ReadUint(s);
      if v.Failed? then Stuck(v.error) else Past(v.count)
    case 1 => Past(8)
    case 2 =>
      var len := ReadLength(s);
      if len.Failed? then Stuck(len.error) else Past(len.count + len.value)
    case 4 => Past(0)
    case 5 => Past(4)
    case t => Stuck(IllegalWireType(t))
  }

  /** What skipApi answers: the length of the field at the head of `s`, which may exceed |s|. */
  function Skip(s: seq<byte>): (r: Skipped)
    ensures r.Past? ==> r.count >= 1
    decreases |s|, 0
  {
    var tag := ReadUint(s);
    if tag.Failed? then Stuck(tag.error) else
    var rest := s[tag.count..];
    var body := if WireType(tag.value) == 3 then SkipGroup(rest) else SkipFlat(WireType(tag.value), rest);
    Shift(body, tag.count)
  }

  /** The loop of wire type 3: fields up to and including an end-group tag. */
  function SkipGroup(s: seq<byte>): (r: Skipped)
    ensures r.Past? ==> 1 <= r.count <= |s|
    decreases |s|, 1
  {
    var tag := ReadUint(s);
    if tag.Failed? then Stuck(tag.error)
    else if WireType(tag.value) == 4 then Past(tag.count)
    else
      var next := Skip(s);
      if next.Stuck? then next
      else if next.count > |s| then Stuck(UnexpectedEOF)
      else Shift(SkipGroup(s[next.count..]), next.count)
  }

  /** The varint loop at an index, with the errors its caller returns. */
  method ReadUintAt(dAtA: seq<byte>, iNdEx: nat) returns (r: Read)
    requires iNdEx <= |dAtA|
    ensures r == ReadUint(dAtA[iNdEx..])
  {
    var value, end, status := ReadVarint(dAtA, iNdEx);
    assert dAtA[iNdEx..][..end - iNdEx] == dAtA[iNdEx..end];
    match status {
      case Done => r := Got(end - iNdEx, value);
      case Overflow => r := Failed(IntOverflow);
      case Eof => r := Failed(UnexpectedEOF);
    }
  }

  /** `int32(wire >> 3)` and `int(wire & 0x7)` */
  method TakeTag(wire: uint64) returns (fieldNum: int32, wireType: nat)
    ensures fieldNum == FieldNum(wire) && wireType == WireType(wire)
  {
    hide Shr, And;
    ShiftRight(wire);
    LowThree(wire);
    fieldNum, wireType := Int32(Shr(wire, 3)), And(wire, 0x7);
  }

  /** skipApi as it walks indices. Every run over a non-empty slice returns from the first round of its
      outer loop, so the panic after that loop is dead code: callers never pass an empty slice. */
  method SkipApi(dAtA: seq<byte>) returns (r: Skipped)
    requires dAtA != []
    ensures r == Skip(dAtA)
    decreases |dAtA|, 0
  {
    assert dAtA[0..] == dAtA;
    var tag := ReadUintAt(dAtA, 0);
    if tag.Failed? {
      return Stuck(tag.error);
    }
    var iNdEx := tag.count;
    var _, wireType := TakeTag(tag.value);
    match wireType {
      case 0 =>
        var v := ReadUintAt(dAtA, iNdEx);
        r := if v.Failed? then Stuck(v.error) else Past(iNdEx + v.count);
      case 1 =>
        r := Past(iNdEx + 8);
      case 2 =>
        var len := ReadUintAt(dAtA, iNdEx);
        r := if len.Failed? then Stuck(len.error)
             else if len.value >= TWO63 then Stuck(InvalidLength)
             else Past(iNdEx + len.count + len.value);
      case 3 =>
        r := SkipGroupApi(dAtA, iNdEx);
      case 4 =>
        r := Past(iNdEx);
      case 5 =>
        r := Past(iNdEx + 4);
      case t =>
        r := Stuck(IllegalWireType(t));
    }
  }

  /** The answer that the loop over a group still has to find when it stands at index i. */
  function GroupFrom(s: seq<byte>, i: nat): Skipped {
    if i > |s| then Stuck(UnexpectedEOF) else Shift(SkipGroup(s[i..]), i)
  }

  lemma GroupRound(s: seq<byte>, i: nat)
    requires i < |s| && ReadUint(s[i..]).Got? && WireType(ReadUint(s[i..]).value) != 4
    ensures Skip(s[i..]).Stuck? ==> GroupFrom(s, i) == Skip(s[i..])
    ensures Skip(s[i..]).Past? ==> GroupFrom(s, i) == GroupFrom(s, i + Skip(s[i..]).count)
  {
    if Skip(s[i..]).Past? && i + Skip(s[i..]).count <= |s| {
      assert s[i..][Skip(s[i..]).count..] == s[i + Skip(s[i..]).count..];
    }
  }

  lemma GroupEnd(s: seq<byte>, i: nat)
    requires i < |s|
    ensures ReadUint(s[i..]).Failed? ==> GroupFrom(s, i) == Stuck(ReadUint(s[i..]).error)
    ensures ReadUint(s[i..]).Got? && WireType(ReadUint(s[i..]).value) == 4 ==>
      GroupFrom(s, i) == Past(i + ReadUint(s[i..]).count)
  {}

  /** One round of the inner loop of wire type 3 at index `start`: either the answer, or where to go on. */
  method InnerField(dAtA: seq<byte>, start: nat) returns (done: bool, r: Skipped)
    requires 1 <= start < |dAtA|
    ensures done ==> r == GroupFrom(dAtA, start)
    ensures !done ==> r.Past? && r.count > start && GroupFrom(dAtA, r.count) == GroupFrom(dAtA, start)
    decreases |dAtA| - 1, 1
  {
    hide ReadUint, Skip, SkipGroup, GroupFrom, WireType;
    var inner := ReadUintAt(dAtA, start);
    GroupEnd(dAtA, start);
    if inner.Failed? {
      return true, Stuck(inner.error);
    }
    var _, innerWireType := TakeTag(inner.value);
    if innerWireType == 4 {
      return true, Past(start + inner.count);
    }
    GroupRound(dAtA, start);
    var next := SkipApi(dAtA[start..]);
    done, r := next.Stuck?, Shift(next, start);
  }

  /** The inner loop of wire type 3, from index `group`. A nested field may end beyond the slice;
      the next read then fails. */
  method SkipGroupApi(dAtA: seq<byte>, group: nat) returns (r: Skipped)
    requires 1 <= group <= |dAtA|
    ensures r == GroupFrom(dAtA, group)
    decreases |dAtA| - 1, 2
  {
    var iNdEx := group;
    while true
      invariant group <= iNdEx && GroupFrom(dAtA, group) == GroupFrom(dAtA, iNdEx)
      decreases |dAtA| - iNdEx
    {
      if iNdEx >= |dAtA| {
        return Stuck(UnexpectedEOF);
      }
      var done, next := InnerField(dAtA, iNdEx);
      if done {
        return next;
      }
      iNdEx := next.count;
    }
  }
}

/** The grammar of fields on the wire, and skipApi as an exact recogniser of it:
    it passes over a field if and only if the grammar derives one there, nested groups included,
    and what it answers never depends on the bytes beyond what it consumed. */
module Grammar {
  import opened Bits
  import opened Varint
  import opened Wire

  // ---------- More input matters only after an unexpected end ----------

  lemma ReadUintStable(a: seq<byte>, b: seq<byte>)
    requires ReadUint(a) != Failed(UnexpectedEOF)
    ensures ReadUint(a + b) == ReadUint(a)
    ensures ReadUint(a).Got? ==> (a + b)[ReadUint(a).count..] == a[ReadUint(a).count..] + b
  {
    ScanStable(a, b, 0);
    if ReadUint(a).Got? {
      assert (a + b)[..ReadUint(a).count] == a[..ReadUint(a).count];
    }
  }

  lemma ReadChunkStable(a: seq<byte>, b: seq<byte>)
    requires ReadChunk(a) != NoBytes(UnexpectedEOF)
    ensures ReadChunk(a + b) == ReadChunk(a)
  {
    ReadUintStable(a, b);
    var c := ReadChunk(a);
    if c.Bytes? {
      var n := ReadUint(a).count;
      assert (a + b)[n..c.count] == a[n..c.count];
    }
  }

  lemma SkipFlatStable(wireType: nat, a: seq<byte>, b: seq<byte>)
    requires SkipFlat(wireType, a) != Stuck(UnexpectedEOF)
    ensures SkipFlat(wireType, a + b) == SkipFlat(wireType, a)
  {
    if wireType == 0 || wireType == 2 {
      ReadUintStable(a, b);
    }
  }

  lemma {:induction false} SkipStable(a: seq<byte>, b: seq<byte>)
    requires Skip(a) != Stuck(UnexpectedEOF)
    ensures Skip(a + b) == Skip(a)
    decreases |a|, 0
  {
    ReadUintStable(a, b);
    var tag := ReadUint(a);
    if tag.Got? {
      if WireType(tag.value) == 3 {
        SkipGroupStable(a[tag.count..], b);
      } else {
        SkipFlatStable(WireType(tag.value), a[tag.count..], b);
      }
    }
  }

  lemma {:induction false} SkipGroupStable(a: seq<byte>, b: seq<byte>)
    requires SkipGroup(a) != Stuck(UnexpectedEOF)
    ensures SkipGroup(a + b) == SkipGroup(a)
    decreases |a|, 1
  {
    hide ReadUint, WireType, Val, Skip;
    ReadUintStable(a, b);
    var tag := ReadUint(a);
    if tag.Got? && WireType(tag.value) != 4 {
      SkipStable(a, b);
      var next := Skip(a);
      if next.Past? {
        assert (a + b)[next.count..] == a[next.count..] + b;
        SkipGroupStable(a[next.count..], b);
      }
    }
  }

  // ---------- The grammar ----------

  /** A field: its tag varint as spelled, and its body. A group carries its end tag. */
  datatype Field = Field(tag: seq<byte>, body: Body)

  datatype Body =
    | Number(bytes: seq<byte>)
    | Fixed64(bytes: seq<byte>)
    | Delimited(len: seq<byte>, payload: seq<byte>)
    | Group(fields: seq<Field>, end: seq<byte>)
    | Fixed32(bytes: seq<byte>)

  function BodyType(b: Body): nat {
    match b
    case Number(_) => 0
    case Fixed64(_) => 1
    case Delimited(_, _) => 2
    case Group(_, _) => 3
    case Fixed32(_) => 5
  }

  predicate Valid(f: Field)
    decreases f
  {
    IsVarint(f.tag) && WireType(Val(f.tag)) == BodyType(f.body) && ValidBody(f.body)
  }

  predicate ValidBody(b: Body)
    decreases b
  {
    match b
    case Number(bytes) => IsVarint(bytes)
    case Fixed64(bytes) => |bytes| == 8
    case Delimited(len, payload) => IsVarint(len) && Val(len) == |payload| < TWO63
    case Group(fields, end) => ValidAll(fields) && IsVarint(end) && WireType(Val(end)) == 4
    case Fixed32(bytes) => |bytes| == 4
  }

  predicate ValidAll(fs: seq<Field>)
    decreases fs
  {
    fs == [] || (Valid(fs[0]) && ValidAll(fs[1..]))
  }

  function Spell(f: Field): seq<byte>
    decreases f
  {
    f.tag + SpellBody(f.body)
  }

  function SpellBody(b: Body): seq<byte>
    decreases b
  {
    match b
    case Number(bytes) => bytes
    case Fixed64(bytes) => bytes
    case Delimited(len, payload) => len + payload
    case Group(fields, end) => SpellAll(fields) + end
    case Fixed32(bytes) => bytes
  }

  function SpellAll(fs: seq<Field>): seq<byte>
    decreases fs
  {
    if fs == [] then [] else Spell(fs[0]) + SpellAll(fs[1..])
  }

  lemma ReadVarintPrefix(v: seq<byte>, rest: seq<byte>)
    requires IsVarint(v)
    ensures ReadUint(v + rest) == Got(|v|, Val(v)) && (v + rest)[|v|..] == rest
  {
    VarintPrefix(v, rest);
  }

  lemma SplitTag(f: Field, rest: seq<byte>)
    requires IsVarint(f.tag)
    ensures ReadUint(Spell(f) + rest) == Got(|f.tag|, Val(f.tag))
    ensures (Spell(f) + rest)[|f.tag|..] == SpellBody(f.body) + rest
  {
    assert Spell(f) + rest == f.tag + (SpellBody(f.body) + rest);
    ReadVarintPrefix(f.tag, SpellBody(f.body) + rest);
  }

  lemma SkipFlatBody(b: Body, rest: seq<byte>)
    requires ValidBody(b) && !b.Group?
    ensures SkipFlat(BodyType(b), SpellBody(b) + rest) == Past(|SpellBody(b)|)
  {
    if b.Number? {
      ReadVarintPrefix(b.bytes, rest);
    } else if b.Delimited? {
      assert SpellBody(b) + rest == b.len + (b.payload + rest);
      ReadVarintPrefix(b.len, b.payload + rest);
    }
  }

  /** Soundness: skipApi passes exactly over any field of the grammar, whatever follows it. */
  lemma {:induction false} SkipField(f: Field, rest: seq<byte>)
    requires Valid(f)
    ensures Skip(Spell(f) + rest) == Past(|Spell(f)|)
    decreases f
  {
    SplitTag(f, rest);
    if f.body.Group? {
      assert SpellBody(f.body) + rest == SpellAll(f.body.fields) + (f.body.end + rest);
      SkipFields(f.body.fields, f.body.end, rest);
    } else {
      SkipFlatBody(f.body, rest);
    }
  }

  lemma {:induction false} SkipFields(fs: seq<Field>, end: seq<byte>, rest: seq<byte>)
    requires ValidAll(fs) && IsVarint(end) && WireType(Val(end)) == 4
    ensures SkipGroup(SpellAll(fs) + (end + rest)) == Past(|SpellAll(fs) + end|)
    decreases fs
  {
    hide Skip, ReadUint, Val, Groups, ScanVarint, WireType;
    if fs == [] {
      assert SpellAll(fs) + (end + rest) == end + rest;
      ReadVarintPrefix(end, rest);
    } else {
      var tail := SpellAll(fs[1..]) + (end + rest);
      assert SpellAll(fs) + (end + rest) == Spell(fs[0]) + tail;
      SplitTag(fs[0], tail);
      SkipField(fs[0], tail);
      assert (Spell(fs[0]) + tail)[|Spell(fs[0])|..] == tail;
      SkipFields(fs[1..], end, rest);
    }
  }

  lemma ReadUintConsumed(s: seq<byte>)
    requires ReadUint(s).Got?
    ensures IsVarint(s[..ReadUint(s).count]) && Val(s[..ReadUint(s).count]) == ReadUint(s).value
  {
    ScanConsumed(s, 0);
  }

  lemma SkippedFlat(wireType: nat, s: seq<byte>) returns (b: Body)
    requires wireType != 3 && wireType != 4
    requires SkipFlat(wireType, s).Past? && SkipFlat(wireType, s).count <= |s|
    ensures ValidBody(b) && !b.Group? && BodyType(b) == wireType
    ensures SpellBody(b) == s[..SkipFlat(wireType, s).count]
  {
    var n := SkipFlat(wireType, s).count;
    if wireType == 0 {
      ReadUintConsumed(s);
      b := Number(s[..n]);
    } else if wireType == 1 {
      b := Fixed64(s[..n]);
    } else if wireType == 2 {
      ReadUintConsumed(s);
      var k := ReadUint(s).count;
      b := Delimited(s[..k], s[k..n]);
      assert s[..k] + s[k..n] == s[..n];
    } else {
      b := Fixed32(s[..n]);
    }
  }

  lemma AssembledField(s: seq<byte>, b: Body, m: nat)
    requires ReadUint(s).Got? && WireType(ReadUint(s).value) == BodyType(b) && ValidBody(b)
    requires m <= |s| - ReadUint(s).count && SpellBody(b) == s[ReadUint(s).count..][..m]
    ensures Valid(Field(s[..ReadUint(s).count], b))
    ensures Spell(Field(s[..ReadUint(s).count], b)) == s[..ReadUint(s).count + m]
  {
    ReadUintConsumed(s);
    var n := ReadUint(s).count;
    assert s[..n + m] == s[..n] + s[n..][..m];
  }

  /** Completeness: whatever skipApi passes over inside the input is a field of the grammar,
      unless the input starts with an end-group tag (which every caller has already rejected). */
  lemma {:induction false} SkippedField(s: seq<byte>) returns (f: Field)
    requires Skip(s).Past? && Skip(s).count <= |s|
    requires WireType(ReadUint(s).value) != 4
    ensures Valid(f) && Spell(f) == s[..Skip(s).count]
    decreases |s|, 0
  {
    hide Val, Groups, ScanVarint, ReadUint, WireType, SkipGroup, SkipFlat, Spell, Valid;
    var n := ReadUint(s).count;
    var b: Body;
    if WireType(ReadUint(s).value) == 3 {
      var fs, e := SkippedFields(s[n..]);
      b := Group(fs, e);
    } else {
      b := SkippedFlat(WireType(ReadUint(s).value), s[n..]);
    }
    AssembledField(s, b, Skip(s).count - n);
    f := Field(s[..n], b);
  }

  lemma AssembledFields(s: seq<byte>, f: Field, fs: seq<Field>, end: seq<byte>, n: nat, m: nat)
    requires n <= |s| && m <= |s| - n
    requires Valid(f) && Spell(f) == s[..n]
    requires ValidAll(fs) && SpellAll(fs) + end == s[n..][..m]
    ensures ValidAll([f] + fs) && SpellAll([f] + fs) + end == s[..n + m]
  {
    assert ([f] + fs)[1..] == fs;
    assert s[..n + m] == s[..n] + s[n..][..m];
    assert Spell(f) + SpellAll(fs) + end == Spell(f) + (SpellAll(fs) + end);
  }

  lemma GroupHead(s: seq<byte>)
    requires SkipGroup(s).Past? && WireType(ReadUint(s).value) != 4
    ensures Skip(s).Past? && Skip(s).count <= |s| && SkipGroup(s[Skip(s).count..]).Past?
    ensures SkipGroup(s).count == Skip(s).count + SkipGroup(s[Skip(s).count..]).count
  {}

  lemma {:induction false} SkippedFields(s: seq<byte>) returns (fs: seq<Field>, end: seq<byte>)
    requires SkipGroup(s).Past?
    ensures ValidAll(fs) && IsVarint(end) && WireType(Val(end)) == 4
    ensures SpellAll(fs) + end == s[..SkipGroup(s).count]
    decreases |s|, 1
  {
    if WireType(ReadUint(s).value) == 4 {
      ReadUintConsumed(s);
      fs, end := [], s[..ReadUint(s).count];
    } else {
      GroupHead(s);
      var f := SkippedField(s);
      var n := Skip(s).count;
      var rest;
      rest, end := SkippedFields(s[n..]);
      AssembledFields(s, f, rest, end, n, SkipGroup(s[n..]).count);
      fs := [f] + rest;
    }
  }

  lemma SkipAtPrefix(s: seq<byte>, n: nat, f: Field)
    requires n <= |s| && Valid(f) && Spell(f) == s[..n]
    ensures Skip(s) == Past(n)
  {
    hide Skip, Spell, Valid;
    SkipField(f, s[n..]);
    assert s == s[..n] + s[n..];
  }

  /** skipApi recognises exactly the grammar: for every input and every length within it. */
  lemma SkipExact(s: seq<byte>, n: nat)
    requires n <= |s| && (ReadUint(s).Got? ==> WireType(ReadUint(s).value) != 4)
    ensures Skip(s) == Past(n) <==> exists f :: Valid(f) && Spell(f) == s[..n]
  {
    if Skip(s) == Past(n) {
      var f := SkippedField(s);
      assert Valid(f) && Spell(f) == s[..n];
    } else {
      forall f | Valid(f) && Spell(f) == s[..n] ensures false {
        SkipAtPrefix(s, n, f);
      }
    }
  }
}

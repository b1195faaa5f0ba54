/**
 Protocol Buffers wire format, as far as common/proto/framing.proto and common/proto/chat.proto
 use it: sections "Base 128 Varints", "Message Structure", "Length-Delimited Records" and
 "Non-varint Numbers" of the Protocol Buffers "Encoding" specification.
 */
module Wire {
  import opened Basics

  // ---------------------------------------------------------------- Base 128 varints

  function EncodeVarint(n: nat): (s: Bytes)
    ensures |s| >= 1
  {
    if n < 128 then [n] else [128 + n % 128] + EncodeVarint(n / 128)
  }

  /** Reads one varint of at most `max` bytes; yields its value and what follows it. */
  function ReadVarint(s: Bytes, max: nat): (r: Option<(nat, Bytes)>)
    ensures r.Some? ==> |r.value.1| < |s|
  {
    if s == [] || max == 0 then None
    else if s[0] < 128 then Some((s[0], s[1..]))
    else match ReadVarint(s[1..], max - 1)
      case None => None
      case Some((v, rest)) => Some((s[0] - 128 + 128 * v, rest))
  }

  /** A varint: digits in base 128, all but the last with the top bit set. */
  predicate IsVarint(s: Bytes) {
    s != [] && s[|s| - 1] < 128 && forall i :: 0 <= i < |s| - 1 ==> s[i] >= 128
  }

  /** Its value: the low seven bits of the bytes, least significant first. */
  function Value128(s: Bytes): nat {
    if s == [] then 0 else s[0] % 128 + 128 * Value128(s[1..])
  }

  lemma VarintTail(s: Bytes)
    requires |s| >= 2
    ensures IsVarint(s) <==> s[0] >= 128 && IsVarint(s[1..])
  {
    if s[0] >= 128 && IsVarint(s[1..]) {
      forall i | 0 <= i < |s| - 1 ensures s[i] >= 128 {
        if i > 0 { assert s[i] == s[1..][i - 1]; }
      }
    }
  }

  /** The shortest varint with a given value: the one without a last digit of 0, except for 0 itself. */
  lemma {:induction false} VarintExactly(n: nat, s: Bytes)
    ensures s == EncodeVarint(n) <==> IsVarint(s) && Value128(s) == n && (|s| > 1 ==> s[|s| - 1] != 0)
    decreases |s| + n
  {
    if |s| >= 2 {
      VarintTail(s);
      VarintExactly(n / 128, s[1..]);
      assert s == [s[0]] + s[1..];
      if n < 128 { ValueGrows(s[1..]); }
    } else if |s| == 1 {
      assert s[1..] == [];
    }
  }

  /** Without leading zeros a number is at least 1. */
  lemma {:induction false} ValueGrows(s: Bytes)
    ensures IsVarint(s) && s[|s| - 1] != 0 ==> Value128(s) >= 1
  {
    if |s| >= 2 {
      VarintTail(s);
      ValueGrows(s[1..]);
    }
  }

  /** Reading takes any varint of at most `max` bytes, the shortest or not, and yields its value. */
  lemma {:induction false} ReadsVarint(t: Bytes, rest: Bytes, max: nat)
    requires IsVarint(t) && |t| <= max
    ensures ReadVarint(t + rest, max) == Some((Value128(t), rest))
    decreases |t|
  {
    if |t| == 1 {
      assert (t + rest)[1..] == rest && t[1..] == [];
    } else {
      VarintTail(t);
      ReadsVarint(t[1..], rest, max - 1);
      assert (t + rest)[1..] == t[1..] + rest;
    }
  }

  /** And it takes nothing else. */
  lemma {:induction false} ReadIsVarint(s: Bytes, max: nat)
    requires ReadVarint(s, max).Some?
    ensures var (v, rest) := ReadVarint(s, max).value; var k := |s| - |rest|;
      k <= max && IsVarint(s[..k]) && v == Value128(s[..k]) && s == s[..k] + rest
    decreases max
  {
    if s[0] >= 128 {
      ReadIsVarint(s[1..], max - 1);
      var k := |s| - |ReadVarint(s, max).value.1|;
      assert s[..k][1..] == s[1..][..k - 1];
      VarintTail(s[..k]);
    } else {
      assert s[..1][1..] == [];
    }
  }

  lemma VarintRoundTrip(n: nat, max: nat, rest: Bytes)
    requires |EncodeVarint(n)| <= max
    ensures ReadVarint(EncodeVarint(n) + rest, max) == Some((n, rest))
  {
    VarintExactly(n, EncodeVarint(n));
    ReadsVarint(EncodeVarint(n), rest, max);
  }

  /** The number of bytes the library reserves for a 64-bit varint. */
  function VarintSize(n: nat): nat
    requires n < TWO64
  {
    if n < 0x80 then 1
    else if n < 0x4000 then 2
    else if n < 0x20_0000 then 3
    else if n < 0x1000_0000 then 4
    else if n < 0x8_0000_0000 then 5
    else if n < 0x400_0000_0000 then 6
    else if n < 0x2_0000_0000_0000 then 7
    else if n < 0x100_0000_0000_0000 then 8
    else if n < 0x8000_0000_0000_0000 then 9
    else 10
  }

  lemma {:induction false} VarintSizeIsLength(n: nat)
    requires n < TWO64
    ensures |EncodeVarint(n)| == VarintSize(n)
  {
    if n >= 128 {
      VarintSizeIsLength(n / 128);
    }
  }

  // ---------------------------------------------------------------- fixed32

  function LittleEndian32(v: U32): (s: Bytes)
    ensures |s| == 4
  {
    [v % 256, v / 256 % 256, v / 0x1_0000 % 256, v / 0x100_0000]
  }

  function ValueOf32(s: Bytes): U32
    requires |s| == 4
  {
    s[0] as int + 256 * s[1] as int + 0x1_0000 * s[2] as int + 0x100_0000 * s[3] as int
  }

  /** Four bytes, the least significant first, in both directions. */
  lemma LittleEndianExactly(v: U32, s: Bytes)
    requires |s| == 4
    ensures s == LittleEndian32(v) <==>
      v == s[0] as int + 0x100 * s[1] as int + 0x1_0000 * s[2] as int + 0x100_0000 * s[3] as int
    ensures s == LittleEndian32(v) <==> ValueOf32(s) == v
  {
    assert v / 0x1_0000 == v / 256 / 256 && v / 0x100_0000 == v / 256 / 256 / 256;
    if ValueOf32(s) == v {
      LowByte(s[0], s[1] as int + 0x100 * s[2] as int + 0x1_0000 * s[3] as int);
      LowByte(s[1], s[2] as int + 0x100 * s[3] as int);
      LowByte(s[2], s[3]);
    }
  }

  lemma LowByte(low: Byte, high: nat)
    ensures (low as int + 256 * high) % 256 == low && (low as int + 256 * high) / 256 == high
  {
  }

  // ---------------------------------------------------------------- records

  /** One record of a message: a field number and a value in one of the four flat wire types. */
  datatype Field =
    | Varint(num: nat, v: nat)
    | Fixed64(num: nat, raw: Bytes)
    | Delimited(num: nat, payload: Bytes)
    | Fixed32(num: nat, v32: U32)

  /** What a length varint of five bytes can announce. */
  const MAX_DELIMITED: int := 0x8_0000_0000

  predicate FieldOk(f: Field) {
    && 1 <= f.num < 0x2000_0000
    && (f.Varint? ==> f.v < TWO64)
    && (f.Fixed64? ==> |f.raw| == 8)
    && (f.Delimited? ==> |f.payload| < MAX_DELIMITED)
  }

  function WireType(f: Field): nat {
    match f
    case Varint(_, _) => 0
    case Fixed64(_, _) => 1
    case Delimited(_, _) => 2
    case Fixed32(_, _) => 5
  }

  function EncodeValue(f: Field): Bytes {
    match f
    case Varint(_, v) => EncodeVarint(v)
    case Fixed64(_, raw) => raw
    case Delimited(_, payload) => EncodeVarint(|payload|) + payload
    case Fixed32(_, v32) => LittleEndian32(v32)
  }

  function EncodeField(f: Field): (s: Bytes)
    ensures |s| >= 1
  {
    EncodeVarint(8 * f.num + WireType(f)) + EncodeValue(f)
  }

  function EncodeFields(fs: seq<Field>): Bytes {
    if fs == [] then [] else EncodeField(fs[0]) + EncodeFields(fs[1..])
  }

  /** Tags and lengths are varints of at most five bytes, varint values of at most ten. */
  function ReadField(s: Bytes): (r: Option<(Field, Bytes)>)
    ensures r.Some? ==> |r.value.1| < |s|
  {
    match ReadVarint(s, 5)
    case None => None
    case Some((rawTag, rest)) =>
      var tag := rawTag % TWO32;
      if tag / 8 == 0 then None else ReadValue(tag / 8, tag % 8, rest)
  }

  function ReadValue(num: nat, wireType: nat, s: Bytes): (r: Option<(Field, Bytes)>)
    ensures r.Some? ==> |r.value.1| <= |s|
  {
    if wireType == 0 then
      match ReadVarint(s, 10) {
        case None => None
        case Some((v, rest)) => Some((Varint(num, v % TWO64), rest))
      }
    else if wireType == 1 then
      if |s| < 8 then None else Some((Fixed64(num, s[..8]), s[8..]))
    else if wireType == 2 then
      match ReadVarint(s, 5) {
        case None => None
        case Some((n, rest)) =>
          if n > |rest| then None else Some((Delimited(num, rest[..n]), rest[n..]))
      }
    else if wireType == 5 then
      if |s| < 4 then None else Some((Fixed32(num, ValueOf32(s[..4])), s[4..]))
    else None
  }

  function ReadFields(s: Bytes): Option<seq<Field>>
    decreases |s|
  {
    if s == [] then Some([])
    else match ReadField(s)
      case None => None
      case Some((f, rest)) =>
        match ReadFields(rest)
        case None => None
        case Some(fs) => Some([f] + fs)
  }

  // ---------------------------------------------------------------- what the reader accepts

  /** `s` is a value of wire type `wireType` that a record `f` may hold. */
  ghost predicate IsValue(wireType: int, s: Bytes, f: Field) {
    match f
    case Varint(_, v) => wireType == 0 && IsVarint(s) && |s| <= 10 && v == Value128(s) % TWO64
    case Fixed64(_, raw) => wireType == 1 && |s| == 8 && raw == s
    case Delimited(_, payload) => wireType == 2 && exists k: nat :: IsDelimited(s, k, payload)
    case Fixed32(_, v32) =>
      && wireType == 5 && |s| == 4
      && v32 == s[0] as int + 0x100 * s[1] as int + 0x1_0000 * s[2] as int + 0x100_0000 * s[3] as int
  }

  /** A length of `k` bytes, then that many bytes. */
  ghost predicate IsDelimited(s: Bytes, k: nat, payload: Bytes) {
    k <= |s| && k <= 5 && IsVarint(s[..k]) && Value128(s[..k]) == |payload| && s[k..] == payload
  }

  /** `s` is the record `f`: a tag of `k` bytes with a number other than 0, then the value. */
  ghost predicate IsRecordAt(s: Bytes, k: nat, f: Field) {
    && k <= |s| && k <= 5 && IsVarint(s[..k])
    && var tag := Value128(s[..k]) % TWO32;
    f.num >= 1 && tag / 8 == f.num && IsValue(tag % 8, s[k..], f)
  }

  ghost predicate IsRecord(s: Bytes, f: Field) { exists k: nat :: IsRecordAt(s, k, f) }

  /** `s` is the records `fs` one after another. Varints in it need not be the shortest. */
  ghost predicate AreRecords(s: Bytes, fs: seq<Field>)
    decreases |fs|
  {
    if fs == [] then s == []
    else exists k :: 0 <= k <= |s| && IsRecord(s[..k], fs[0]) && AreRecords(s[k..], fs[1..])
  }

  lemma ReadsValue(wireType: nat, s: Bytes, f: Field, rest: Bytes)
    requires IsValue(wireType, s, f)
    ensures ReadValue(f.num, wireType, s + rest) == Some((f, rest))
  {
    hide ReadVarint, IsVarint, Value128;
    match f
    case Varint(_, _) =>
      ReadsVarint(s, rest, 10);
    case Fixed64(_, _) =>
      assert (s + rest)[..8] == s && (s + rest)[8..] == rest;
    case Delimited(_, payload) =>
      var k: nat :| IsDelimited(s, k, payload);
      assert s + rest == s[..k] + (payload + rest);
      ReadsVarint(s[..k], payload + rest, 5);
      assert (payload + rest)[..|payload|] == payload && (payload + rest)[|payload|..] == rest;
    case Fixed32(_, v32) =>
      assert (s + rest)[..4] == s && (s + rest)[4..] == rest;
      LittleEndianExactly(v32, s);
  }

  lemma ReadsRecord(s: Bytes, f: Field, rest: Bytes)
    requires IsRecord(s, f)
    ensures ReadField(s + rest) == Some((f, rest))
  {
    hide ReadVarint, IsVarint, Value128, ReadValue, IsValue;
    var k: nat :| IsRecordAt(s, k, f);
    assert s + rest == s[..k] + (s[k..] + rest);
    ReadsVarint(s[..k], s[k..] + rest, 5);
    ReadsValue(Value128(s[..k]) % TWO32 % 8, s[k..], f, rest);
  }

  lemma DelimitedAt(s: Bytes, n: nat, after: Bytes, payload: Bytes, rest: Bytes)
    requires n <= |s| && n <= 5 && IsVarint(s[..n]) && Value128(s[..n]) == |payload|
    requires s == s[..n] + after && after == payload + rest
    ensures IsDelimited(s[..n + |payload|], n, payload) && s == s[..n + |payload|] + rest
  {
    hide IsVarint, Value128;
    assert s[..n + |payload|] == s[..n] + payload;
    assert s[..n + |payload|][..n] == s[..n];
  }

  lemma ReadIsValue(num: nat, wireType: nat, s: Bytes)
    requires ReadValue(num, wireType, s).Some?
    ensures var (f, rest) := ReadValue(num, wireType, s).value; var k := |s| - |rest|;
      f.num == num && IsValue(wireType, s[..k], f) && s == s[..k] + rest
  {
    hide ReadVarint, IsVarint, Value128;
    var (f, rest) := ReadValue(num, wireType, s).value;
    var k := |s| - |rest|;
    match f
    case Varint(_, _) =>
      ReadIsVarint(s, 10);
    case Fixed64(_, _) =>
    case Delimited(_, payload) =>
      ReadIsVarint(s, 5);
      var after := ReadVarint(s, 5).value.1;
      DelimitedAt(s, |s| - |after|, after, payload, rest);
    case Fixed32(_, v32) =>
      LittleEndianExactly(v32, s[..4]);
  }

  lemma ReadIsRecord(s: Bytes)
    requires ReadField(s).Some?
    ensures var (f, rest) := ReadField(s).value; var k := |s| - |rest|;
      IsRecord(s[..k], f) && s == s[..k] + rest
  {
    hide ReadVarint, IsVarint, Value128, ReadValue, IsValue;
    ReadIsVarint(s, 5);
    var (rawTag, after) := ReadVarint(s, 5).value;
    var n := |s| - |after|;
    ReadIsValue(rawTag % TWO32 / 8, rawTag % TWO32 % 8, after);
    var (f, rest) := ReadField(s).value;
    var k := |s| - |rest|;
    assert s[..k][..n] == s[..n] && s[..k][n..] == after[..k - n];
    assert IsRecordAt(s[..k], n, f);
  }

  lemma {:induction false} RecordsAreRead(s: Bytes, fs: seq<Field>)
    requires AreRecords(s, fs)
    ensures ReadFields(s) == Some(fs)
    decreases |fs|
  {
    hide ReadField, IsRecord;
    if fs != [] {
      var k :| 0 <= k <= |s| && IsRecord(s[..k], fs[0]) && AreRecords(s[k..], fs[1..]);
      ReadsRecord(s[..k], fs[0], s[k..]);
      RecordsAreRead(s[k..], fs[1..]);
      assert s == s[..k] + s[k..] && fs == [fs[0]] + fs[1..];
    }
  }

  lemma {:induction false} ReadAreRecords(s: Bytes)
    requires ReadFields(s).Some?
    ensures AreRecords(s, ReadFields(s).value)
    decreases |s|
  {
    hide ReadField, IsRecord;
    if s != [] {
      var (f, rest) := ReadField(s).value;
      ReadIsRecord(s);
      ReadAreRecords(rest);
      var fs := ReadFields(s).value;
      assert fs[0] == f && fs[1..] == ReadFields(rest).value && s[|s| - |rest|..] == rest;
    }
  }

  /** The reader accepts exactly the byte strings that are records, and yields those records. */
  lemma ReadsExactlyRecords(s: Bytes, fs: seq<Field>)
    ensures ReadFields(s) == Some(fs) <==> AreRecords(s, fs)
  {
    hide ReadFields, AreRecords;
    if ReadFields(s).Some? { ReadAreRecords(s); }
    if AreRecords(s, fs) { RecordsAreRead(s, fs); }
  }

  // ---------------------------------------------------------------- round trip

  lemma EncodedIsValue(f: Field)
    requires FieldOk(f)
    ensures IsValue(WireType(f), EncodeValue(f), f)
  {
    hide EncodeVarint, IsVarint, Value128;
    var s := EncodeValue(f);
    match f
    case Varint(_, v) =>
      VarintSizeIsLength(v);
      VarintExactly(v, s);
    case Fixed64(_, _) =>
    case Delimited(_, payload) =>
      var n := EncodeVarint(|payload|);
      VarintSizeIsLength(|payload|);
      VarintExactly(|payload|, n);
      assert s[..|n|] == n && s[|n|..] == payload;
      assert IsDelimited(s, |n|, payload);
    case Fixed32(_, v32) =>
      LittleEndianExactly(v32, s);
  }

  lemma EncodedIsRecord(f: Field)
    requires FieldOk(f)
    ensures IsRecord(EncodeField(f), f)
  {
    hide EncodeVarint, IsVarint, Value128, EncodeValue, IsValue;
    var number := 8 * f.num + WireType(f);
    var tag := EncodeVarint(number);
    VarintSizeIsLength(number);
    VarintExactly(number, tag);
    EncodedIsValue(f);
    var s := EncodeField(f);
    assert s[..|tag|] == tag && s[|tag|..] == EncodeValue(f);
    assert number % TWO32 == number && number / 8 == f.num && number % 8 == WireType(f);
    assert IsRecordAt(s, |tag|, f);
  }

  /** Any list of records survives encoding, whatever their numbers and order. */
  lemma {:induction false} FieldsRoundTrip(fs: seq<Field>)
    requires forall f :: f in fs ==> FieldOk(f)
    ensures ReadFields(EncodeFields(fs)) == Some(fs)
  {
    hide ReadField, EncodeField, FieldOk, IsRecord;
    if fs != [] {
      EncodedIsRecord(fs[0]);
      ReadsRecord(EncodeField(fs[0]), fs[0], EncodeFields(fs[1..]));
      FieldsRoundTrip(fs[1..]);
      assert fs == [fs[0]] + fs[1..];
    }
  }

  // ---------------------------------------------------------------- what a record costs on the wire

  lemma {:induction false} VarintLengthGrows(a: nat, b: nat)
    requires a <= b
    ensures |EncodeVarint(a)| <= |EncodeVarint(b)|
    decreases b
  {
    if a >= 128 {
      VarintLengthGrows(a / 128, b / 128);
    }
  }

  /** However a varint was written, it took at least as many bytes as its canonical encoding. */
  lemma {:induction false} VarintCost(s: Bytes, max: nat)
    ensures ReadVarint(s, max).Some? ==>
      |EncodeVarint(ReadVarint(s, max).value.0)| + |ReadVarint(s, max).value.1| <= |s|
    decreases max
  {
    if s != [] && max > 0 && s[0] >= 128 && ReadVarint(s[1..], max - 1).Some? {
      VarintCost(s[1..], max - 1);
      var v := ReadVarint(s[1..], max - 1).value.0;
      var w := s[0] - 128 + 128 * v;
      assert w / 128 == v;
    }
  }

  /** A lower bound on the bytes of a record: one for the tag, then the value. */
  function FieldCost(f: Field): nat {
    match f
    case Varint(_, v) => 1 + |EncodeVarint(v)|
    case Delimited(_, payload) => 1 + |EncodeVarint(|payload|)| + |payload|
    case _ => 1
  }

  lemma ValueCost(num: nat, wireType: nat, s: Bytes)
    ensures ReadValue(num, wireType, s).Some? ==>
      FieldCost(ReadValue(num, wireType, s).value.0) + |ReadValue(num, wireType, s).value.1| <= |s| + 1
  {
    if wireType == 0 && ReadVarint(s, 10).Some? {
      var v := ReadVarint(s, 10).value.0;
      VarintCost(s, 10);
      VarintLengthGrows(v % TWO64, v);
    } else if wireType == 2 {
      VarintCost(s, 5);
    }
  }

  lemma ReadCost(s: Bytes)
    ensures ReadField(s).Some? ==> FieldCost(ReadField(s).value.0) + |ReadField(s).value.1| <= |s|
  {
    hide FieldCost, ReadValue;
    if ReadVarint(s, 5).Some? {
      var (rawTag, rest) := ReadVarint(s, 5).value;
      var tag := rawTag % TWO32;
      ValueCost(tag / 8, tag % 8, rest);
    }
  }
}

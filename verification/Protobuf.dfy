/** The hand-written protobuf reader of the MEXC adapter.  A message is specified as the list of its
    fields (`ParseFields`); the cursor class reads and interprets in a single pass and refines that.
    Wire format: Protocol Buffers Encoding, sections "Base 128 Varints", "Message Structure" and
    "Length-Delimited Records". */
module Protobuf {
  import opened Common

  const TWO_63: int := 0x8000_0000_0000_0000
  const TWO_64: int := 0x1_0000_0000_0000_0000
  const TWO_32: int := 0x1_0000_0000
  const MAX_VARINT_BYTES := 10

  type Bytes = seq<byte>

  // ---- Varints -------------------------------------------------------------------------------

  function Pow128(k: nat): (p: nat)
    ensures p > 0
  {
    if k == 0 then 1 else 128 * Pow128(k - 1)
  }

  /** The low seven bits of the byte at position `k` of a varint, at their place in a `u64`:
      shifting drops whatever leaves the word. */
  function Group(b: byte, k: nat): int {
    ((b % 128) * Pow128(k)) % TWO_64
  }

  /** A value and how many bytes it took. */
  datatype Read<T> = Read(value: T, size: nat)

  /** The varint that starts at the front of `b`, seen from its byte number `k` on: what the groups
      from there on contribute, and where the varint ends. */
  function VarintAt(b: Bytes, k: nat): (r: Option<Read<int>>)
    requires k < MAX_VARINT_BYTES
    ensures r.Some? ==> k < r.value.size <= |b| && r.value.size <= MAX_VARINT_BYTES && r.value.value >= 0
    decreases MAX_VARINT_BYTES - k
  {
    if k >= |b| then None
    else if b[k] < 128 then Some(Read(Group(b[k], k), k + 1))
    else if k == MAX_VARINT_BYTES - 1 then None
    else Plus(Group(b[k], k), VarintAt(b, k + 1))
  }

  /** The groups read so far added to those still to come. */
  function Plus(soFar: int, rest: Option<Read<int>>): Option<Read<int>> {
    if rest.Some? then Some(Read(soFar + rest.value.value, rest.value.size)) else None
  }

  function Varint(b: Bytes): (r: Option<Read<int>>)
    ensures r.Some? ==> 0 < r.value.size <= |b| && r.value.value >= 0
  {
    VarintAt(b, 0)
  }

  function PutVarint(v: nat): (b: Bytes)
    ensures b != []
  {
    if v < 128 then [v] else [v % 128 + 128] + PutVarint(v / 128)
  }

  lemma {:induction false} VarintRoundTripAt(v: nat, k: nat, b: Bytes)
    requires k < MAX_VARINT_BYTES && v * Pow128(k) < TWO_64
    requires k <= |b| && PutVarint(v) <= b[k..]
    ensures VarintAt(b, k) == Some(Read(v * Pow128(k), k + |PutVarint(v)|))
    decreases v
  {
    var code := PutVarint(v);
    assert b[k] == b[k..][0] == code[0];
    GroupOf(v, k, b[k]);
    if v >= 128 {
      Distribute(v % 128, v / 128, Pow128(k));
      MulMonotone(0, v % 128, Pow128(k));
      LastByte(v, k);
      assert code[1..] == PutVarint(v / 128) && b[k..][1..] == b[k + 1..];
      VarintRoundTripAt(v / 128, k + 1, b);
    }
  }

  /** The first group of an encoded value lands at its place in the word. */
  lemma GroupOf(v: nat, k: nat, b: byte)
    requires b % 128 == v % 128 && v * Pow128(k) < TWO_64
    ensures Group(b, k) == (v % 128) * Pow128(k)
  {
    MulMonotone(v % 128, v, Pow128(k));
    MulMonotone(0, v % 128, Pow128(k));
  }

  lemma Distribute(r: int, q: int, p: int)
    ensures (r + 128 * q) * p == r * p + q * (128 * p)
  {
  }

  /** Ten groups of seven bits cover a `u64`, so a continuation never follows the tenth byte. */
  lemma LastByte(v: nat, k: nat)
    requires k < MAX_VARINT_BYTES && v * Pow128(k) < TWO_64 && v >= 128
    ensures k < MAX_VARINT_BYTES - 1
  {
    if k == MAX_VARINT_BYTES - 1 {
      assert Pow128(9) == TWO_63 by {
        assert Pow128(3) == 0x20_0000;
        assert Pow128(6) == 0x400_0000_0000;
      }
      MulMonotone(128, v, TWO_63);
      assert false;
    }
  }

  /** Every `u64` is read back from its varint, whatever follows it. */
  lemma VarintRoundTrip(v: int, rest: Bytes)
    requires 0 <= v < TWO_64
    ensures Varint(PutVarint(v) + rest) == Some(Read(v, |PutVarint(v)|))
  {
    var b := PutVarint(v) + rest;
    assert b[0..] == b;
    VarintRoundTripAt(v, 0, b);
  }

  // ---- Fields --------------------------------------------------------------------------------

  datatype Value =
    | VarintValue(n: int)
    | Fixed64(bytes: Bytes)
    | Delimited(bytes: Bytes)
    | Fixed32(bytes: Bytes)

  datatype Field = Field(number: int, value: Value)

  /** A field number is the upper bits of the key, cut to 32; 0 is not a field. */
  function FieldNumber(key: int): int
    requires key >= 0
  {
    (key / 8) % TWO_32
  }

  function DelimitedValue(b: Bytes): (r: Option<Read<Bytes>>)
    ensures r.Some? ==> 0 < r.value.size <= |b| && |r.value.value| < r.value.size
  {
    match Varint(b)
    case None => None
    case Some(len) =>
      if len.size + len.value > |b| then None
      else Some(Read(b[len.size..len.size + len.value], len.size + len.value))
  }

  function ParseValue(wire: int, b: Bytes): (r: Option<Read<Value>>)
    ensures r.Some? ==> 0 < r.value.size <= |b|
  {
    match wire
    case 0 => (match Varint(b) case None => None case Some(v) => Some(Read(VarintValue(v.value), v.size)))
    case 1 => if |b| < 8 then None else Some(Read(Fixed64(b[..8]), 8))
    case 2 => (match DelimitedValue(b) case None => None case Some(d) => Some(Read(Delimited(d.value), d.size)))
    case 5 => if |b| < 4 then None else Some(Read(Fixed32(b[..4]), 4))
    case _ => None
  }

  /** The field at the front of `b` once its key has been read. */
  function Keyed(key: Read<int>, b: Bytes): (r: Option<Read<Field>>)
    requires 0 < key.size <= |b| && key.value >= 0
    ensures r.Some? ==> 0 < r.value.size <= |b|
  {
    if FieldNumber(key.value) == 0 then None
    else
      match ParseValue(key.value % 8, b[key.size..])
      case None => None
      case Some(v) => Some(Read(Field(FieldNumber(key.value), v.value), key.size + v.size))
  }

  function ParseField(b: Bytes): (r: Option<Read<Field>>)
    ensures r.Some? ==> 0 < r.value.size <= |b|
  {
    match Varint(b)
    case None => None
    case Some(key) => Keyed(key, b)
  }

  /** A whole message as its list of fields; None if any field is malformed or cut off. */
  function ParseFields(b: Bytes): Option<seq<Field>> {
    if b == [] then Some([])
    else
      match ParseField(b)
      case None => None
      case Some(f) =>
        Cons(f.value, ParseFields(b[f.size..]))
  }

  function Wire(v: Value): nat {
    match v
    case VarintValue(_) => 0
    case Fixed64(_) => 1
    case Delimited(_) => 2
    case Fixed32(_) => 5
  }

  function PutValue(v: Value): Bytes
    requires v.VarintValue? ==> v.n >= 0
  {
    match v
    case VarintValue(n) => PutVarint(n)
    case Fixed64(bytes) => bytes
    case Delimited(bytes) => PutVarint(|bytes|) + bytes
    case Fixed32(bytes) => bytes
  }

  /** Field numbers and values the wire format can carry. */
  predicate Encodable(f: Field) {
    && 0 < f.number < TWO_32
    && match f.value
       case VarintValue(n) => 0 <= n < TWO_64
       case Fixed64(bytes) => |bytes| == 8
       case Delimited(bytes) => |bytes| < TWO_64
       case Fixed32(bytes) => |bytes| == 4
  }

  function PutField(f: Field): (b: Bytes)
    requires Encodable(f)
    ensures b != []
  {
    PutVarint(8 * f.number + Wire(f.value)) + PutValue(f.value)
  }

  function PutFields(fs: seq<Field>): Bytes
    requires forall f :: f in fs ==> Encodable(f)
  {
    if fs == [] then [] else PutField(fs[0]) + PutFields(fs[1..])
  }

  lemma KeyParts(number: int, wire: int)
    requires 0 < number < TWO_32 && 0 <= wire < 8
    ensures 0 <= 8 * number + wire < TWO_64
    ensures FieldNumber(8 * number + wire) == number && (8 * number + wire) % 8 == wire
  {
  }

  /** A field whose key and whose value have been recognised. */
  lemma FieldFromParts(f: Field, key: int, b: Bytes, keySize: nat, tail: Bytes, valueSize: nat)
    requires Varint(b) == Some(Read(key, keySize)) && key >= 0 && b[keySize..] == tail
    requires FieldNumber(key) == f.number != 0 && key % 8 == Wire(f.value)
    requires ParseValue(Wire(f.value), tail) == Some(Read(f.value, valueSize))
    ensures ParseField(b) == Some(Read(f, keySize + valueSize))
  {
  }

  lemma DelimitedFromParts(b: Bytes, size: nat, bytes: Bytes)
    requires Varint(b) == Some(Read(|bytes|, size)) && size + |bytes| <= |b| && b[size..size + |bytes|] == bytes
    ensures DelimitedValue(b) == Some(Read(bytes, size + |bytes|))
  {
  }

  /** Three pieces put together, and taken apart again. */
  lemma Pieces(x: Bytes, y: Bytes, z: Bytes)
    ensures (x + y) + z == x + (y + z)
    ensures |x + y| == |x| + |y| && (x + (y + z))[|x|..] == y + z && (x + (y + z))[|x|..|x| + |y|] == y
  {
  }

  lemma DelimitedRoundTrip(bytes: Bytes, rest: Bytes, len: Bytes, b: Bytes)
    requires b == len + (bytes + rest) && Varint(b) == Some(Read(|bytes|, |len|))
    ensures DelimitedValue(b) == Some(Read(bytes, |len| + |bytes|))
  {
    Pieces(len, bytes, rest);
    DelimitedFromParts(b, |len|, bytes);
  }

  lemma ValueRoundTrip(v: Value, rest: Bytes)
    requires Encodable(Field(1, v))
    ensures ParseValue(Wire(v), PutValue(v) + rest) == Some(Read(v, |PutValue(v)|))
  {
    match v
    case VarintValue(n) => VarintRoundTrip(n, rest);
    case Delimited(bytes) =>
      var len := PutVarint(|bytes|);
      VarintRoundTrip(|bytes|, bytes + rest);
      Pieces(len, bytes, rest);
      DelimitedRoundTrip(bytes, rest, len, len + (bytes + rest));
    case Fixed64(bytes) => assert (bytes + rest)[..8] == bytes;
    case Fixed32(bytes) => assert (bytes + rest)[..4] == bytes;
  }

  lemma FieldRoundTrip(f: Field, rest: Bytes)
    requires Encodable(f)
    ensures ParseField(PutField(f) + rest) == Some(Read(f, |PutField(f)|))
  {
    var n := 8 * f.number + Wire(f.value);
    KeyParts(f.number, Wire(f.value));
    ValueRoundTrip(f.value, rest);
    KeyedRoundTrip(f, n, PutVarint(n), PutValue(f.value), rest);
  }

  lemma KeyedRoundTrip(f: Field, n: int, key: Bytes, value: Bytes, rest: Bytes)
    requires 0 <= n < TWO_64 && FieldNumber(n) == f.number != 0 && n % 8 == Wire(f.value) && key == PutVarint(n)
    requires ParseValue(Wire(f.value), value + rest) == Some(Read(f.value, |value|))
    ensures ParseField((key + value) + rest) == Some(Read(f, |key + value|))
  {
    Pieces(key, value, rest);
    VarintRoundTrip(n, value + rest);
    FieldFromParts(f, n, key + (value + rest), |key|, value + rest, |value|);
  }

  /** Decoding inverts encoding for every list of fields. */
  lemma {:induction false} FieldsRoundTrip(fs: seq<Field>)
    requires forall f :: f in fs ==> Encodable(f)
    ensures ParseFields(PutFields(fs)) == Some(fs)
  {
    if fs != [] {
      FieldRoundTrip(fs[0], PutFields(fs[1..]));
      FieldsRoundTrip(fs[1..]);
      assert PutFields(fs)[|PutField(fs[0])|..] == PutFields(fs[1..]);
      assert [fs[0]] + fs[1..] == fs;
    }
  }

  // ---- Concatenation -------------------------------------------------------------------------

  lemma {:induction false} VarintPrefix(b: Bytes, rest: Bytes, k: nat)
    requires k < MAX_VARINT_BYTES && VarintAt(b, k).Some?
    ensures VarintAt(b + rest, k) == VarintAt(b, k)
    decreases MAX_VARINT_BYTES - k
  {
    if b[k] >= 128 {
      VarintPrefix(b, rest, k + 1);
    }
  }

  lemma ValuePrefix(wire: int, b: Bytes, rest: Bytes)
    requires ParseValue(wire, b).Some?
    ensures ParseValue(wire, b + rest) == ParseValue(wire, b)
  {
    match wire
    case 0 => VarintPrefix(b, rest, 0);
    case 1 => assert (b + rest)[..8] == b[..8];
    case 2 =>
      VarintPrefix(b, rest, 0);
      var len := Varint(b).value;
      assert (b + rest)[len.size..len.size + len.value] == b[len.size..len.size + len.value];
    case _ => assert (b + rest)[..4] == b[..4];
  }

  /** What follows a well-formed field does not change how the field is read. */
  lemma FieldPrefix(b: Bytes, rest: Bytes)
    requires ParseField(b).Some?
    ensures ParseField(b + rest) == ParseField(b)
  {
    VarintPrefix(b, rest, 0);
    KeyedPrefix(Varint(b).value, b, rest);
  }

  lemma KeyedPrefix(key: Read<int>, b: Bytes, rest: Bytes)
    requires 0 < key.size <= |b| && key.value >= 0 && Keyed(key, b).Some?
    ensures Keyed(key, b + rest) == Keyed(key, b)
  {
    var tail := b[key.size..];
    ValuePrefix(key.value % 8, tail, rest);
    assert (b + rest)[key.size..] == tail + rest;
  }

  /** `fs`, if any, with one more field in front. */
  function Cons(f: Field, fs: Option<seq<Field>>): Option<seq<Field>> {
    if fs.Some? then Some([f] + fs.value) else None
  }

  /** `fs` followed by the fields of a later part, if that part is well-formed. */
  function Append(fs: seq<Field>, more: Option<seq<Field>>): Option<seq<Field>> {
    if more.Some? then Some(fs + more.value) else None
  }

  lemma ConsAppend(f: Field, fs: seq<Field>, more: Option<seq<Field>>)
    ensures Cons(f, Append(fs, more)) == Append([f] + fs, more)
  {
    if more.Some? {
      assert [f] + (fs + more.value) == ([f] + fs) + more.value;
    }
  }

  /** A message is read field by field: well-formed bytes followed by any bytes parse as the fields
      of the former followed by the fields of the latter. */
  lemma {:induction false} FieldsConcat(b: Bytes, rest: Bytes)
    requires ParseFields(b).Some?
    ensures ParseFields(b + rest) == Append(ParseFields(b).value, ParseFields(rest))
    decreases |b|
  {
    if b == [] {
      assert b + rest == rest;
      assert ParseFields(rest).Some? ==> [] + ParseFields(rest).value == ParseFields(rest).value;
    } else {
      var f := ParseField(b).value;
      FieldPrefix(b, rest);
      assert (b + rest)[f.size..] == b[f.size..] + rest;
      FieldsConcat(b[f.size..], rest);
      ConsAppend(f.value, ParseFields(b[f.size..]).value, ParseFields(rest));
    }
  }
}

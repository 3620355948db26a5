/** The wire format byte by byte, and what the MEXC decoders make of repeated, malformed and foreign fields. */
module MexcWire {
  import opened Common
  import opened Protobuf
  import opened ProtobufReader
  import opened MexcDecoder

  // ---- Varints ---------------------------------------------------------------------------------------

  /** The low seven bits of the first `n` bytes, the first byte's lowest, without any limit. */
  function LowBits(b: Bytes, n: nat): nat
    requires n <= |b|
  {
    if n == 0 then 0
    else
      MulMonotone(0, b[n - 1] % 128, Pow128(n - 1));
      LowBits(b, n - 1) + (b[n - 1] % 128) * Pow128(n - 1)
  }

  /** Byte `n` is the first one without the continuation bit. */
  predicate EndsAt(b: Bytes, n: nat) {
    n < |b| && b[n] < 128 && forall i :: 0 <= i < n ==> b[i] >= 128
  }

  lemma {:induction false} LowBitsBelow(b: Bytes, n: nat)
    requires n <= |b|
    ensures LowBits(b, n) < Pow128(n)
  {
    if n > 0 {
      LowBitsBelow(b, n - 1);
      MulMonotone(b[n - 1] % 128, 127, Pow128(n - 1));
    }
  }

  lemma {:induction false} Pow128Grows(m: nat, n: nat)
    requires m <= n
    ensures Pow128(m) <= Pow128(n)
  {
    if m < n {
      Pow128Grows(m, n - 1);
    }
  }

  lemma TopPlace()
    ensures Pow128(9) == TWO_63
  {
    assert Pow128(3) == 0x20_0000;
    assert Pow128(6) == 0x400_0000_0000;
  }

  lemma UncutGroup(b: byte, k: nat)
    requires k < 9
    ensures Group(b, k) == (b % 128) * Pow128(k)
  {
    MulMonotone(0, b % 128, Pow128(k));
    MulMonotone(b % 128, 127, Pow128(k));
    Pow128Grows(k + 1, 9);
    TopPlace();
  }

  /** The groups before byte `k` and what is still to come make up the whole. */
  lemma {:induction false} SoFar(b: Bytes, k: nat)
    requires k <= 9 && k <= |b| && forall i :: 0 <= i < k ==> b[i] >= 128
    ensures Varint(b) == Plus(LowBits(b, k), VarintAt(b, k))
  {
    if k > 0 {
      SoFar(b, k - 1);
      UncutGroup(b[k - 1], k - 1);
    }
  }

  lemma LastGroup(b: Bytes, n: nat)
    requires n < 10 && n < |b|
    ensures LowBits(b, n) + Group(b[n], n) == LowBits(b, n + 1) % TWO_64
  {
    LowBitsBelow(b, n);
    TopPlace();
    if n < 9 {
      UncutGroup(b[n], n);
      LowBitsBelow(b, n + 1);
      Pow128Grows(n + 1, 9);
    } else {
      TopGroup(LowBits(b, 9), b[9] % 128);
    }
  }

  lemma TopGroup(x: nat, g: nat)
    requires x < TWO_63
    ensures (x + g * TWO_63) % TWO_64 == x + (g * TWO_63) % TWO_64
  {
    var q, r := g / 2, g % 2;
    assert g * TWO_63 == q * TWO_64 + r * TWO_63;
    DivUnique(g * TWO_63, TWO_64, q, r * TWO_63);
    DivUnique(x + g * TWO_63, TWO_64, q, x + r * TWO_63);
  }

  lemma {:induction false} SomeEnds(b: Bytes, k: nat)
    requires k < 10 && VarintAt(b, k).Some?
    ensures var n := VarintAt(b, k).value.size - 1;
            k <= n < 10 && n < |b| && b[n] < 128 && forall i :: k <= i < n ==> b[i] >= 128
    decreases 10 - k
  {
    if b[k] >= 128 {
      SomeEnds(b, k + 1);
    }
  }

  /** Ten bytes at most: a number is read exactly if one of the first ten has no continuation bit, and then it is
      what the bytes up to there hold, cut to 64 bits. */
  lemma VarintMeaning(b: Bytes)
    ensures Varint(b).Some? <==> exists n: nat :: n < 10 && EndsAt(b, n)
    ensures forall n: nat :: n < 10 && EndsAt(b, n) ==> Varint(b) == Some(Read(LowBits(b, n + 1) % TWO_64, n + 1))
  {
    forall n: nat | n < 10 && EndsAt(b, n)
      ensures Varint(b) == Some(Read(LowBits(b, n + 1) % TWO_64, n + 1))
    {
      SoFar(b, n);
      LastGroup(b, n);
    }
    if Varint(b).Some? {
      SomeEnds(b, 0);
      assert EndsAt(b, Varint(b).value.size - 1);
    }
  }

  // ---- Fields ----------------------------------------------------------------------------------------

  /** What a value of each wire type needs of the bytes that follow the key. */
  predicate WellFormed(wire: int, rest: Bytes) {
    match wire
    case 0 => Varint(rest).Some?
    case 1 => |rest| >= 8
    case 2 => Varint(rest).Some? && Varint(rest).value.size + Varint(rest).value.value <= |rest|
    case 5 => |rest| >= 4
    case _ => false
  }

  function ValueAt(wire: int, rest: Bytes): Value
    requires WellFormed(wire, rest)
  {
    match wire
    case 0 => VarintValue(Varint(rest).value.value)
    case 1 => Fixed64(rest[..8])
    case 2 =>
      var len := Varint(rest).value;
      Delimited(rest[len.size..len.size + len.value])
    case _ => Fixed32(rest[..4])
  }

  /** A field is read exactly if its number, cut to 32 bits, is not 0 and its value is complete; groups and
      unassigned wire types are refused. */
  lemma FieldAccepted(number: int, wire: int, rest: Bytes)
    requires 0 <= number && 0 <= wire < 8 && 8 * number + wire < TWO_64
    ensures var f := ParseField(PutVarint(8 * number + wire) + rest);
            && (f.Some? <==> number % TWO_32 != 0 && WellFormed(wire, rest))
            && (f.Some? ==> f.value.value == Field(number % TWO_32, ValueAt(wire, rest)))
  {
    var key := 8 * number + wire;
    VarintRoundTrip(key, rest);
    assert (PutVarint(key) + rest)[|PutVarint(key)|..] == rest;
    KeySplits(number, wire);
  }

  lemma KeySplits(number: int, wire: int)
    requires 0 <= number && 0 <= wire < 8
    ensures (8 * number + wire) / 8 == number && (8 * number + wire) % 8 == wire
    ensures FieldNumber(8 * number + wire) == number % TWO_32
  {
  }

  /** A message that does not split into fields is refused whole. */
  lemma MalformedRefused(b: Bytes, utf8: Bytes -> bool)
    requires ParseFields(b).None?
    ensures WrapperOf(b, utf8).None? && DealOf(b, utf8).None? && DealsOf(b, utf8).None?
  {
  }

  // ---- Texts -----------------------------------------------------------------------------------------

  /** A deal needs a price, and both texts must be valid. */
  lemma DealAccepted(d: Deal, utf8: Bytes -> bool)
    requires EncodableDeal(d)
    ensures DealOf(PutDeal(d), utf8)
            == if utf8(d.price) && utf8(d.quantity) && d.price != [] then Some(d) else None
  {
    if utf8(d.price) && utf8(d.quantity) {
      DealRoundTrip(d, utf8);
    } else {
      var fs, step := DealFields(d), DealStep(utf8);
      FieldsRoundTrip(fs);
      if utf8(d.price) {
        FoldStep(fs, NO_DEAL, NO_DEAL.(price := d.price), step);
      }
    }
  }

  lemma WrapperAccepted(w: Wrapper, bodyField: int, utf8: Bytes -> bool)
    requires 301 <= bodyField <= 399 && |w.channel| < TWO_64 && |w.body| < TWO_64
    ensures WrapperOf(PutWrapper(w, bodyField), utf8)
            == if utf8(w.channel) && w.channel != [] then Some(w) else None
  {
    if utf8(w.channel) {
      WrapperRoundTrip(w, bodyField, utf8);
    } else {
      FieldsRoundTrip([Field(1, Delimited(w.channel)), Field(bodyField, Delimited(w.body))]);
    }
  }

  // ---- Repeated fields -------------------------------------------------------------------------------

  lemma DealFolds(d: Deal, acc: Deal, utf8: Bytes -> bool)
    requires EncodableDeal(d) && utf8(d.price) && utf8(d.quantity)
    ensures Fold(DealFields(d), acc, DealStep(utf8)) == Some(d)
  {
    var fs, step := DealFields(d), DealStep(utf8);
    SignExtension(d.tradeType);
    SignExtension(d.time);
    var d1 := acc.(price := d.price);
    var d2 := d1.(quantity := d.quantity);
    var d3 := d2.(tradeType := d.tradeType);
    FoldStep(fs, acc, d1, step);
    FoldStep(fs[1..], d1, d2, step);
    FoldStep(fs[2..], d2, d3, step);
    FoldStep(fs[3..], d3, d, step);
    assert fs[1..][1..] == fs[2..] && fs[2..][1..] == fs[3..] && fs[3..][1..] == [];
  }

  /** Of repeated fields the last one counts, in a deal and in an envelope. */
  lemma LastDealCounts(d: Deal, d': Deal, utf8: Bytes -> bool)
    requires EncodableDeal(d) && utf8(d.price) && utf8(d.quantity)
    requires EncodableDeal(d') && utf8(d'.price) && utf8(d'.quantity)
    ensures DealOf(PutDeal(d) + PutDeal(d'), utf8) == if d'.price == [] then None else Some(d')
  {
    var fs, gs := DealFields(d), DealFields(d');
    FieldsRoundTrip(fs);
    FieldsRoundTrip(gs);
    FieldsConcat(PutDeal(d), PutDeal(d'));
    FoldConcat(fs, gs, NO_DEAL, DealStep(utf8));
    DealFolds(d, NO_DEAL, utf8);
    DealFolds(d', d, utf8);
  }

  lemma WrapperFolds(w: Wrapper, bodyField: int, acc: Wrapper, utf8: Bytes -> bool)
    requires 301 <= bodyField <= 399 && utf8(w.channel)
    ensures Fold([Field(1, Delimited(w.channel)), Field(bodyField, Delimited(w.body))], acc, WrapperStep(utf8))
            == Some(w)
  {
    var fs := [Field(1, Delimited(w.channel)), Field(bodyField, Delimited(w.body))];
    var w1 := acc.(channel := w.channel);
    FoldStep(fs, acc, w1, WrapperStep(utf8));
    FoldStep(fs[1..], w1, w, WrapperStep(utf8));
    assert fs[1..][1..] == [];
  }

  lemma LastWrapperCounts(w: Wrapper, bodyField: int, w': Wrapper, bodyField': int, utf8: Bytes -> bool)
    requires 301 <= bodyField <= 399 && |w.channel| < TWO_64 && |w.body| < TWO_64 && utf8(w.channel)
    requires 301 <= bodyField' <= 399 && |w'.channel| < TWO_64 && |w'.body| < TWO_64 && utf8(w'.channel)
    ensures WrapperOf(PutWrapper(w, bodyField) + PutWrapper(w', bodyField'), utf8)
            == if w'.channel == [] then None else Some(w')
  {
    var fs := [Field(1, Delimited(w.channel)), Field(bodyField, Delimited(w.body))];
    var gs := [Field(1, Delimited(w'.channel)), Field(bodyField', Delimited(w'.body))];
    FieldsRoundTrip(fs);
    FieldsRoundTrip(gs);
    FieldsConcat(PutFields(fs), PutFields(gs));
    FoldConcat(fs, gs, NO_WRAPPER, WrapperStep(utf8));
    WrapperFolds(w, bodyField, NO_WRAPPER, utf8);
    WrapperFolds(w', bodyField', w, utf8);
  }

  // ---- Lists with bad entries ------------------------------------------------------------------------

  /** A list of deals with any bytes as its entries. */
  function EntryFields(entries: seq<Bytes>): (fs: seq<Field>)
    requires forall e :: e in entries ==> |e| < TWO_64
    ensures forall f :: f in fs ==> Encodable(f)
  {
    if entries == [] then [] else [Field(1, Delimited(entries[0]))] + EntryFields(entries[1..])
  }

  /** The deal an entry is, if it is one. */
  function AsDeals(entry: Bytes, utf8: Bytes -> bool): seq<Deal> {
    match DealOf(entry, utf8) case None => [] case Some(d) => [d]
  }

  /** The deals of the entries that are deals. */
  function Readable(entries: seq<Bytes>, utf8: Bytes -> bool): seq<Deal> {
    if entries == [] then [] else AsDeals(entries[0], utf8) + Readable(entries[1..], utf8)
  }

  lemma EntryStep(entry: Bytes, acc: seq<Deal>, utf8: Bytes -> bool)
    ensures DealsStep(utf8)(acc, Field(1, Delimited(entry))) == Some(acc + AsDeals(entry, utf8))
  {
    assert acc + [] == acc;
  }

  lemma EntriesTail(entries: seq<Bytes>)
    requires entries != [] && forall e :: e in entries ==> |e| < TWO_64
    ensures EntryFields(entries)[0] == Field(1, Delimited(entries[0]))
    ensures EntryFields(entries)[1..] == EntryFields(entries[1..])
  {
  }

  lemma {:induction false} EntriesFold(entries: seq<Bytes>, acc: seq<Deal>, utf8: Bytes -> bool)
    requires forall e :: e in entries ==> |e| < TWO_64
    ensures Fold(EntryFields(entries), acc, DealsStep(utf8)) == Some(acc + Readable(entries, utf8))
  {
    hide DealOf, AsDeals, DealsStep;
    if entries == [] {
      assert acc + [] == acc;
    } else {
      var next := acc + AsDeals(entries[0], utf8);
      EntriesFold(entries[1..], next, utf8);
      EntriesTail(entries);
      EntryStep(entries[0], acc, utf8);
      FoldStep(EntryFields(entries), acc, next, DealsStep(utf8));
      assert next + Readable(entries[1..], utf8) == acc + Readable(entries, utf8);
    }
  }

  /** An entry that is no deal is left out; the others stay, in order. */
  lemma BadEntriesLeftOut(entries: seq<Bytes>, utf8: Bytes -> bool)
    requires forall e :: e in entries ==> |e| < TWO_64
    ensures DealsOf(PutFields(EntryFields(entries)), utf8) == Some(Readable(entries, utf8))
  {
    FieldsRoundTrip(EntryFields(entries));
    EntriesFold(entries, [], utf8);
    assert [] + Readable(entries, utf8) == Readable(entries, utf8);
  }
}

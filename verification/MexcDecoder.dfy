/** The three decoders of the MEXC adapter, single-pass over the cursor, against a reference that
    first splits a message into fields and then interprets the fields one by one. */
module MexcDecoder {
  import opened Common
  import opened Protobuf
  import opened ProtobufReader

  datatype Wrapper = Wrapper(channel: Bytes, body: Bytes)

  datatype Deal = Deal(price: Bytes, quantity: Bytes, tradeType: int, time: int)

  const NO_WRAPPER := Wrapper([], [])
  const NO_DEAL := Deal([], [], 0, 0)

  // ---- Reference -----------------------------------------------------------------------------

  /** Interpret fields from left to right; None as soon as one of them is rejected. */
  function Fold<A>(fs: seq<Field>, acc: A, step: (A, Field) -> Option<A>): Option<A> {
    if fs == [] then Some(acc)
    else
      match step(acc, fs[0])
      case None => None
      case Some(next) => Fold(fs[1..], next, step)
  }

  /** Split the whole message first, then interpret it. */
  function Interpret<A>(b: Bytes, acc: A, step: (A, Field) -> Option<A>): Option<A> {
    match ParseFields(b)
    case None => None
    case Some(fs) => Fold(fs, acc, step)
  }

  /** `as i32` and `as i64`: the low bits, read as two's complement. */
  function ToI32(v: int): int {
    var low := v % TWO_32;
    if low < 0x8000_0000 then low else low - TWO_32
  }

  function ToI64(v: int): int {
    var low := v % TWO_64;
    if low < TWO_63 then low else low - TWO_64
  }

  function WrapperStep(utf8: Bytes -> bool): (Wrapper, Field) -> Option<Wrapper> {
    (w: Wrapper, f: Field) =>
      if f.number == 1 && f.value.Delimited? then
        if utf8(f.value.bytes) then Some(w.(channel := f.value.bytes)) else None
      else if 301 <= f.number <= 399 && f.value.Delimited? then Some(w.(body := f.value.bytes))
      else Some(w)
  }

  function WrapperOf(b: Bytes, utf8: Bytes -> bool): Option<Wrapper> {
    match Interpret(b, NO_WRAPPER, WrapperStep(utf8))
    case None => None
    case Some(w) => if w.channel == [] then None else Some(w)
  }

  function DealStep(utf8: Bytes -> bool): (Deal, Field) -> Option<Deal> {
    (d: Deal, f: Field) =>
      if f.number == 1 && f.value.Delimited? then
        if utf8(f.value.bytes) then Some(d.(price := f.value.bytes)) else None
      else if f.number == 2 && f.value.Delimited? then
        if utf8(f.value.bytes) then Some(d.(quantity := f.value.bytes)) else None
      else if f.number == 3 && f.value.VarintValue? then Some(d.(tradeType := ToI32(f.value.n)))
      else if f.number == 4 && f.value.VarintValue? then Some(d.(time := ToI64(f.value.n)))
      else Some(d)
  }

  function DealOf(b: Bytes, utf8: Bytes -> bool): Option<Deal> {
    match Interpret(b, NO_DEAL, DealStep(utf8))
    case None => None
    case Some(d) => if d.price == [] then None else Some(d)
  }

  /** An undecodable deal is left out; the rest of the list survives. */
  function DealsStep(utf8: Bytes -> bool): (seq<Deal>, Field) -> Option<seq<Deal>> {
    (ds: seq<Deal>, f: Field) =>
      if f.number == 1 && f.value.Delimited? && DealOf(f.value.bytes, utf8).Some?
      then Some(ds + [DealOf(f.value.bytes, utf8).value])
      else Some(ds)
  }

  function DealsOf(b: Bytes, utf8: Bytes -> bool): Option<seq<Deal>> {
    Interpret(b, [], DealsStep(utf8))
  }

  // ---- The decoders --------------------------------------------------------------------------

  /** Reading one field at a time and interpreting it at once is interpreting the message. */
  lemma InterpretStep<A>(b: Bytes, acc: A, step: (A, Field) -> Option<A>)
    requires b != []
    ensures Interpret(b, acc, step)
            == match ParseField(b)
               case None => None
               case Some(f) =>
                 match step(acc, f.value)
                 case None => None
                 case Some(next) => Interpret(b[f.size..], next, step)
  {
    if ParseField(b).Some? {
      var f := ParseField(b).value;
      var rest := ParseFields(b[f.size..]);
      if rest.Some? {
        assert ([f.value] + rest.value)[1..] == rest.value;
      }
    }
  }

  /** What one pass of a decoding loop does to the cursor and to the accumulated value. */
  ghost predicate ReadsOneField<A>(rest: Bytes, acc: A, step: (A, Field) -> Option<A>, size: int, r: Option<A>) {
    match ParseField(rest)
    case None => r.None?
    case Some(f) => r == step(acc, f.value) && (r.Some? ==> size == f.size)
  }

  /** The field after a tag is the value that follows it. */
  lemma TagThenValue(rest: Bytes, key: Read<int>)
    requires Varint(rest) == Some(key) && FieldNumber(key.value) != 0
    ensures ParseField(rest)
            == match ParseValue(key.value % 8, rest[key.size..])
               case None => None
               case Some(v) => Some(Read(Field(FieldNumber(key.value), v.value), key.size + v.size))
  {
  }

  method WrapperField(pb: Pb, w: Wrapper, utf8: Bytes -> bool) returns (r: Option<Wrapper>)
    requires pb.Inside()
    modifies pb
    ensures r.Some? ==> old(pb.pos) < pb.pos && pb.Inside()
    ensures ReadsOneField(old(pb.Rest()), w, WrapperStep(utf8), pb.pos - old(pb.pos), r)
  {
    ghost var rest := pb.Rest();
    var tag := pb.ReadTag();
    if tag.None? {
      return None;
    }
    TagThenValue(rest, Varint(rest).value);
    assert pb.Rest() == rest[Varint(rest).value.size..];
    var (field, wire) := tag.value;
    if field == 1 && wire == 2 {
      var s := pb.ReadStr(utf8);
      if s.None? {
        return None;
      }
      return Some(w.(channel := s.value));
    } else if 301 <= field <= 399 && wire == 2 {
      var bytes := pb.ReadBytes();
      if bytes.None? {
        return None;
      }
      return Some(w.(body := bytes.value));
    } else {
      var ok := pb.Skip(wire);
      if !ok {
        return None;
      }
      return Some(w);
    }
  }

  method DecodeWrapper(buf: Bytes, utf8: Bytes -> bool) returns (r: Option<Wrapper>)
    ensures r == WrapperOf(buf, utf8)
  {
    var pb := new Pb(buf);
    var w := NO_WRAPPER;
    ghost var step := WrapperStep(utf8);
    while pb.pos < |buf|
      invariant pb.buf == buf && pb.Inside()
      invariant Interpret(buf, NO_WRAPPER, step) == Interpret(pb.Rest(), w, step)
      decreases |buf| - pb.pos
    {
      InterpretStep(pb.Rest(), w, step);
      ghost var rest := pb.Rest();
      var next := WrapperField(pb, w, utf8);
      if next.None? {
        return None;
      }
      assert pb.Rest() == rest[ParseField(rest).value.size..];
      w := next.value;
    }
    if w.channel == [] {
      return None;
    }
    return Some(w);
  }

  method DealField(pb: Pb, d: Deal, utf8: Bytes -> bool) returns (r: Option<Deal>)
    requires pb.Inside()
    modifies pb
    ensures r.Some? ==> old(pb.pos) < pb.pos && pb.Inside()
    ensures ReadsOneField(old(pb.Rest()), d, DealStep(utf8), pb.pos - old(pb.pos), r)
  {
    ghost var rest := pb.Rest();
    var tag := pb.ReadTag();
    if tag.None? {
      return None;
    }
    TagThenValue(rest, Varint(rest).value);
    assert pb.Rest() == rest[Varint(rest).value.size..];
    var (field, wire) := tag.value;
    if (field == 1 || field == 2) && wire == 2 {
      var s := pb.ReadStr(utf8);
      if s.None? {
        return None;
      }
      return Some(if field == 1 then d.(price := s.value) else d.(quantity := s.value));
    } else if (field == 3 || field == 4) && wire == 0 {
      var v := pb.ReadVarint();
      if v.None? {
        return None;
      }
      return Some(if field == 3 then d.(tradeType := ToI32(v.value)) else d.(time := ToI64(v.value)));
    } else {
      var ok := pb.Skip(wire);
      if !ok {
        return None;
      }
      return Some(d);
    }
  }

  method DecodeDeal(buf: Bytes, utf8: Bytes -> bool) returns (r: Option<Deal>)
    ensures r == DealOf(buf, utf8)
  {
    var pb := new Pb(buf);
    var d := NO_DEAL;
    ghost var step := DealStep(utf8);
    while pb.pos < |buf|
      invariant pb.buf == buf && pb.Inside()
      invariant Interpret(buf, NO_DEAL, step) == Interpret(pb.Rest(), d, step)
      decreases |buf| - pb.pos
    {
      InterpretStep(pb.Rest(), d, step);
      ghost var rest := pb.Rest();
      var next := DealField(pb, d, utf8);
      if next.None? {
        return None;
      }
      assert pb.Rest() == rest[ParseField(rest).value.size..];
      d := next.value;
    }
    if d.price == [] {
      return None;
    }
    return Some(d);
  }

  method DealsField(pb: Pb, ds: seq<Deal>, utf8: Bytes -> bool) returns (r: Option<seq<Deal>>)
    requires pb.Inside()
    modifies pb
    ensures r.Some? ==> old(pb.pos) < pb.pos && pb.Inside()
    ensures ReadsOneField(old(pb.Rest()), ds, DealsStep(utf8), pb.pos - old(pb.pos), r)
  {
    ghost var rest := pb.Rest();
    var tag := pb.ReadTag();
    if tag.None? {
      return None;
    }
    TagThenValue(rest, Varint(rest).value);
    assert pb.Rest() == rest[Varint(rest).value.size..];
    var (field, wire) := tag.value;
    if field == 1 && wire == 2 {
      var bytes := pb.ReadBytes();
      if bytes.None? {
        return None;
      }
      var d := DecodeDeal(bytes.value, utf8);
      return Some(if d.Some? then ds + [d.value] else ds);
    } else {
      var ok := pb.Skip(wire);
      if !ok {
        return None;
      }
      return Some(ds);
    }
  }

  method DecodeDeals(buf: Bytes, utf8: Bytes -> bool) returns (r: Option<seq<Deal>>)
    ensures r == DealsOf(buf, utf8)
  {
    var pb := new Pb(buf);
    var ds: seq<Deal> := [];
    ghost var step := DealsStep(utf8);
    while pb.pos < |buf|
      invariant pb.buf == buf && pb.Inside()
      invariant Interpret(buf, [], step) == Interpret(pb.Rest(), ds, step)
      decreases |buf| - pb.pos
    {
      InterpretStep(pb.Rest(), ds, step);
      ghost var rest := pb.Rest();
      var next := DealsField(pb, ds, utf8);
      if next.None? {
        return None;
      }
      assert pb.Rest() == rest[ParseField(rest).value.size..];
      ds := next.value;
    }
    return Some(ds);
  }

  // ---- Encoders ------------------------------------------------------------------------------

  function FromI64(x: int): int
    requires I64_MIN <= x <= I64_MAX
  {
    if x >= 0 then x else x + TWO_64
  }

  predicate EncodableDeal(d: Deal) {
    && |d.price| < TWO_64 && |d.quantity| < TWO_64
    && -0x8000_0000 <= d.tradeType < 0x8000_0000
    && I64_MIN <= d.time <= I64_MAX
  }

  /** A deal as the feed encodes it; negative numbers are sign-extended to ten bytes. */
  function DealFields(d: Deal): (fs: seq<Field>)
    requires EncodableDeal(d)
    ensures forall f :: f in fs ==> Encodable(f)
  {
    [Field(1, Delimited(d.price)), Field(2, Delimited(d.quantity)),
     Field(3, VarintValue(FromI64(d.tradeType))), Field(4, VarintValue(FromI64(d.time)))]
  }

  function PutDeal(d: Deal): Bytes
    requires EncodableDeal(d)
  {
    PutFields(DealFields(d))
  }

  predicate EncodableDeals(ds: seq<Deal>) {
    forall d :: d in ds ==> EncodableDeal(d) && |PutDeal(d)| < TWO_64
  }

  function DealsFields(ds: seq<Deal>): (fs: seq<Field>)
    requires EncodableDeals(ds)
    ensures |fs| == |ds| && forall f :: f in fs ==> Encodable(f)
    ensures forall i :: 0 <= i < |ds| ==> fs[i] == Field(1, Delimited(PutDeal(ds[i])))
  {
    if ds == [] then [] else [Field(1, Delimited(PutDeal(ds[0])))] + DealsFields(ds[1..])
  }

  function PutDeals(ds: seq<Deal>): Bytes
    requires EncodableDeals(ds)
  {
    PutFields(DealsFields(ds))
  }

  /** A wrapper envelope with its body in the given field of the oneof. */
  function PutWrapper(w: Wrapper, bodyField: int): Bytes
    requires 301 <= bodyField <= 399 && |w.channel| < TWO_64 && |w.body| < TWO_64
  {
    PutFields([Field(1, Delimited(w.channel)), Field(bodyField, Delimited(w.body))])
  }

  lemma SignExtension(x: int)
    requires I64_MIN <= x <= I64_MAX
    ensures 0 <= FromI64(x) < TWO_64 && ToI64(FromI64(x)) == x
    ensures -0x8000_0000 <= x < 0x8000_0000 ==> ToI32(FromI64(x)) == x
  {
  }

  lemma DealRoundTrip(d: Deal, utf8: Bytes -> bool)
    requires EncodableDeal(d) && utf8(d.price) && utf8(d.quantity)
    ensures DealOf(PutDeal(d), utf8) == if d.price == [] then None else Some(d)
  {
    var fs, step := DealFields(d), DealStep(utf8);
    FieldsRoundTrip(fs);
    SignExtension(d.tradeType);
    SignExtension(d.time);
    var d1 := NO_DEAL.(price := d.price);
    var d2 := d1.(quantity := d.quantity);
    var d3 := d2.(tradeType := d.tradeType);
    FoldStep(fs, NO_DEAL, d1, step);
    FoldStep(fs[1..], d1, d2, step);
    FoldStep(fs[2..], d2, d3, step);
    FoldStep(fs[3..], d3, d, step);
    assert fs[1..][1..] == fs[2..] && fs[2..][1..] == fs[3..] && fs[3..][1..] == [];
  }

  lemma FoldStep<A>(fs: seq<Field>, acc: A, next: A, step: (A, Field) -> Option<A>)
    requires fs != [] && step(acc, fs[0]) == Some(next)
    ensures Fold(fs, acc, step) == Fold(fs[1..], next, step)
  {
  }

  function Priced(ds: seq<Deal>): seq<Deal> {
    if ds == [] then [] else if ds[0].price == [] then Priced(ds[1..]) else [ds[0]] + Priced(ds[1..])
  }

  lemma {:induction false} DealsFold(ds: seq<Deal>, acc: seq<Deal>, utf8: Bytes -> bool)
    requires EncodableDeals(ds)
    requires forall d :: d in ds ==> utf8(d.price) && utf8(d.quantity)
    ensures Fold(DealsFields(ds), acc, DealsStep(utf8)) == Some(acc + Priced(ds))
  {
    if ds == [] {
      assert acc + [] == acc;
    } else {
      DealRoundTrip(ds[0], utf8);
      var next := if ds[0].price == [] then acc else acc + [ds[0]];
      DealsFold(ds[1..], next, utf8);
      assert DealsFields(ds)[1..] == DealsFields(ds[1..]);
      FoldStep(DealsFields(ds), acc, next, DealsStep(utf8));
      assert next + Priced(ds[1..]) == acc + Priced(ds);
    }
  }

  /** Decoding a deals message returns exactly the encoded deals that have a price. */
  lemma DealsRoundTrip(ds: seq<Deal>, utf8: Bytes -> bool)
    requires EncodableDeals(ds)
    requires forall d :: d in ds ==> utf8(d.price) && utf8(d.quantity)
    ensures DealsOf(PutDeals(ds), utf8) == Some(Priced(ds))
  {
    FieldsRoundTrip(DealsFields(ds));
    DealsFold(ds, [], utf8);
    assert [] + Priced(ds) == Priced(ds);
  }

  lemma WrapperRoundTrip(w: Wrapper, bodyField: int, utf8: Bytes -> bool)
    requires 301 <= bodyField <= 399 && |w.channel| < TWO_64 && |w.body| < TWO_64 && utf8(w.channel)
    ensures WrapperOf(PutWrapper(w, bodyField), utf8) == if w.channel == [] then None else Some(w)
  {
    var fs := [Field(1, Delimited(w.channel)), Field(bodyField, Delimited(w.body))];
    var step := WrapperStep(utf8);
    FieldsRoundTrip(fs);
    var w1 := NO_WRAPPER.(channel := w.channel);
    FoldStep(fs, NO_WRAPPER, w1, step);
    FoldStep(fs[1..], w1, w, step);
    assert fs[1..][1..] == [];
  }

  /** The whole envelope: any channel and any deals, through both decoders and back. */
  lemma EnvelopeRoundTrip(channel: Bytes, bodyField: int, ds: seq<Deal>, utf8: Bytes -> bool)
    requires 301 <= bodyField <= 399 && 0 < |channel| < TWO_64 && utf8(channel)
    requires EncodableDeals(ds) && |PutDeals(ds)| < TWO_64
    requires forall d :: d in ds ==> d.price != [] && utf8(d.price) && utf8(d.quantity)
    ensures var w := WrapperOf(PutWrapper(Wrapper(channel, PutDeals(ds)), bodyField), utf8);
            && w == Some(Wrapper(channel, PutDeals(ds)))
            && DealsOf(w.value.body, utf8) == Some(ds)
  {
    WrapperRoundTrip(Wrapper(channel, PutDeals(ds)), bodyField, utf8);
    DealsRoundTrip(ds, utf8);
    AllPriced(ds);
  }

  lemma {:induction false} AllPriced(ds: seq<Deal>)
    requires forall d :: d in ds ==> d.price != []
    ensures Priced(ds) == ds
  {
    if ds != [] {
      AllPriced(ds[1..]);
      assert [ds[0]] + ds[1..] == ds;
    }
  }

  // ---- Unknown fields --------------------------------------------------------------------------

  lemma {:induction false} FoldConcat<A>(fs: seq<Field>, gs: seq<Field>, acc: A, step: (A, Field) -> Option<A>)
    ensures Fold(fs + gs, acc, step)
            == match Fold(fs, acc, step)
               case None => None
               case Some(a) => Fold(gs, a, step)
  {
    if fs == [] {
      assert fs + gs == gs;
    } else {
      assert (fs + gs)[1..] == fs[1..] + gs;
      if step(acc, fs[0]).Some? {
        FoldConcat(fs[1..], gs, step(acc, fs[0]).value, step);
      }
    }
  }

  /** Bytes that parse as fields a decoder ignores can stand between any two fields of a message
      without changing what it decodes to, even when they are not minimally encoded. */
  lemma UnknownFieldsIgnored<A(!new)>(before: Bytes, unknown: Bytes, after: Bytes, acc: A, step: (A,
                               Field) -> Option<A>)
    requires ParseFields(before).Some? && ParseFields(unknown).Some?
    requires forall f, a :: f in ParseFields(unknown).value ==> step(a, f) == Some(a)
    ensures Interpret(before + unknown + after, acc, step) == Interpret(before + after, acc, step)
  {
    var xs, us := ParseFields(before).value, ParseFields(unknown).value;
    FieldsConcat(before, unknown);
    FieldsConcat(before + unknown, after);
    FieldsConcat(before, after);
    if ParseFields(after).Some? {
      var ys := ParseFields(after).value;
      FoldConcat(xs + us, ys, acc, step);
      FoldConcat(xs, us, acc, step);
      FoldConcat(xs, ys, acc, step);
      if Fold(xs, acc, step).Some? {
        FoldIgnores(us, Fold(xs, acc, step).value, step);
      }
    }
  }

  lemma {:induction false} FoldIgnores<A(!new)>(us: seq<Field>, acc: A, step: (A, Field) -> Option<A>)
    requires forall f, a :: f in us ==> step(a, f) == Some(a)
    ensures Fold(us, acc, step) == Some(acc)
  {
    if us != [] {
      FoldIgnores(us[1..], acc, step);
    }
  }

  /** For the envelope: fields other than the channel and the 301..399 bodies are ignored. */
  lemma WrapperIgnoresUnknown(before: Bytes, unknown: Bytes, after: Bytes, utf8: Bytes -> bool)
    requires ParseFields(before).Some? && ParseFields(unknown).Some?
    requires forall f :: f in ParseFields(unknown).value ==>
               !f.value.Delimited? || !(f.number == 1 || 301 <= f.number <= 399)
    ensures WrapperOf(before + unknown + after, utf8) == WrapperOf(before + after, utf8)
  {
    UnknownFieldsIgnored(before, unknown, after, NO_WRAPPER, WrapperStep(utf8));
  }

  lemma DealIgnoresUnknown(before: Bytes, unknown: Bytes, after: Bytes, utf8: Bytes -> bool)
    requires ParseFields(before).Some? && ParseFields(unknown).Some?
    requires forall f :: f in ParseFields(unknown).value ==>
               && !(f.value.Delimited? && 1 <= f.number <= 2)
               && !(f.value.VarintValue? && 3 <= f.number <= 4)
    ensures DealOf(before + unknown + after, utf8) == DealOf(before + after, utf8)
  {
    UnknownFieldsIgnored(before, unknown, after, NO_DEAL, DealStep(utf8));
  }

  lemma DealsIgnoreUnknown(before: Bytes, unknown: Bytes, after: Bytes, utf8: Bytes -> bool)
    requires ParseFields(before).Some? && ParseFields(unknown).Some?
    requires forall f :: f in ParseFields(unknown).value ==> !f.value.Delimited? || f.number != 1
    ensures DealsOf(before + unknown + after, utf8) == DealsOf(before + after, utf8)
  {
    UnknownFieldsIgnored(before, unknown, after, [], DealsStep(utf8));
  }
}

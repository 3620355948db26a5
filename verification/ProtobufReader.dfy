/** The cursor over a received frame, and the three decoders built on it.  Strings are the bytes the
    source borrows; `utf8` stands for the standard library's validity check. */
module ProtobufReader {
  import opened Common
  import opened Protobuf

  // ---- The word a varint is assembled in --------------------------------------------------------

  function Pow2(n: nat): (p: nat)
    ensures p > 0
  {
    if n == 0 then 1 else 2 * Pow2(n - 1)
  }

  /** Bitwise or of two natural numbers. */
  function BitOr(x: nat, y: nat): nat
    decreases x
  {
    if x == 0 then y else Max(x % 2, y % 2) + 2 * BitOr(x / 2, y / 2)
  }

  /** Oring bits into the part of a word that is still zero is adding them. */
  lemma {:induction false} DisjointOr(x: nat, c: nat, n: nat)
    requires x < Pow2(n)
    ensures BitOr(x, c * Pow2(n)) == x + c * Pow2(n)
    decreases n
  {
    if x != 0 {
      var half := c * Pow2(n - 1);
      assert c * Pow2(n) == 2 * half;
      DisjointOr(x / 2, c, n - 1);
      OrOfEven(x, half);
    }
  }

  lemma OrOfEven(x: nat, half: nat)
    requires x != 0
    ensures BitOr(x, 2 * half) == x % 2 + 2 * BitOr(x / 2, half)
  {
    assert (2 * half) % 2 == 0 && (2 * half) / 2 == half;
  }

  lemma {:induction false} Pow2Adds(m: nat, n: nat)
    ensures Pow2(m + n) == Pow2(m) * Pow2(n)
  {
    if m != 0 {
      Pow2Adds(m - 1, n);
    }
  }

  lemma {:induction false} Pow128IsPow2(k: nat)
    ensures Pow128(k) == Pow2(7 * k)
  {
    if k != 0 {
      Pow128IsPow2(k - 1);
      Pow2Adds(7, 7 * (k - 1));
      assert Pow2(7) == 128;
    }
  }

  lemma Pow2Double(n: nat, v: nat)
    requires Pow2(n) == v
    ensures Pow2(n + n) == v * v
  {
    Pow2Adds(n, n);
  }

  lemma WordSize(n: nat)
    requires n == 64
    ensures Pow2(n) == TWO_64
  {
    Pow2Double(8, 0x100);
    Pow2Double(16, 0x1_0000);
    Pow2Double(32, 0x1_0000_0000);
  }

  lemma WordSplits(k: nat)
    requires k < MAX_VARINT_BYTES
    ensures Pow2(64 - 7 * k) * Pow2(7 * k) == TWO_64
  {
    WordSize(64);
    Pow2Adds(64 - 7 * k, 7 * k);
  }

  lemma CutMultiple(g: nat, above: nat, place: nat, word: nat)
    requires above > 0 && place > 0 && above * place == word
    ensures (g * place) % word == (g % above) * place
  {
    var c := g % above;
    Expand(g / above, above, c, place);
    MulMonotone(0, c, place);
    MulMonotone(c + 1, above, place);
    Expand(1, c, 1, place);
    DivUnique(g * place, word, g / above, c * place);
  }

  /** A group of seven bits, cut to the word, is still a multiple of its place value. */
  lemma GroupPlace(b: byte, k: nat) returns (c: nat)
    requires k < MAX_VARINT_BYTES
    ensures Group(b, k) == c * Pow2(7 * k)
  {
    Pow128IsPow2(k);
    WordSplits(k);
    CutMultiple(b % 128, Pow2(64 - 7 * k), Pow2(7 * k), TWO_64);
    c := (b % 128) % Pow2(64 - 7 * k);
  }

  /** The groups before number `k` fill only the bits below its place. */
  predicate InWord(result: int, k: nat) {
    0 <= result < Pow2(7 * k)
  }

  lemma OrGroup(result: int, b: byte, k: nat)
    requires k < MAX_VARINT_BYTES && InWord(result, k)
    ensures BitOr(result, Group(b, k)) == result + Group(b, k) >= 0
    ensures k + 1 < MAX_VARINT_BYTES ==> InWord(result + Group(b, k), k + 1)
  {
    var c := GroupPlace(b, k);
    DisjointOr(result, c, 7 * k);
    if k + 1 < MAX_VARINT_BYTES {
      WordGrows(result, b, k);
    }
  }

  lemma NextGroup(s: Bytes, k: nat, result: int)
    requires k < |s| && k < MAX_VARINT_BYTES
    ensures var next := result + Group(s[k], k);
            Plus(result, VarintAt(s, k))
            == if s[k] < 128 then Some(Read(next, k + 1))
               else if k == MAX_VARINT_BYTES - 1 then None
               else Plus(next, VarintAt(s, k + 1))
  {
  }

  lemma WordGrows(result: nat, b: byte, k: nat)
    requires k + 1 < MAX_VARINT_BYTES && result < Pow2(7 * k)
    ensures result + Group(b, k) < Pow2(7 * (k + 1))
  {
    Pow128IsPow2(k);
    Pow128IsPow2(k + 1);
    MulMonotone(b % 128, 127, Pow128(k));
    MulMonotone(0, b % 128, Pow128(k));
    assert Group(b, k) <= (b % 128) * Pow128(k);
  }

  // ---- The cursor ------------------------------------------------------------------------------

  class Pb {
    const buf: Bytes
    var pos: nat

    constructor (buf: Bytes)
      ensures this.buf == buf && pos == 0
    {
      this.buf := buf;
      pos := 0;
    }

    predicate Inside()
      reads this
    {
      pos <= |buf|
    }

    /** What is still to be read. */
    function Rest(): Bytes
      requires Inside()
      reads this
    {
      buf[pos..]
    }

    method ReadVarint() returns (r: Option<int>)
      requires Inside()
      modifies this
      ensures Inside()
      ensures match Varint(old(Rest()))
              case None => r.None?
              case Some(v) => r == Some(v.value) && pos == old(pos) + v.size
    {
      ghost var s, k, whole := Rest(), 0, Varint(Rest());
      var result, shift := 0, 0;
      while true
        invariant 0 <= k < MAX_VARINT_BYTES && shift == 7 * k
        invariant pos == old(pos) + k <= |buf|
        invariant InWord(result, k)
        invariant whole == Plus(result, VarintAt(s, k))
        decreases MAX_VARINT_BYTES - k
      {
        if pos == |buf| {
          return None;
        }
        var b := buf[pos];
        NextGroup(s, k, result);
        pos := pos + 1;
        result := OrInto(result, b, shift, k);
        if b < 128 {
          return Some(result);
        }
        shift := shift + 7;
        if shift >= 64 {
          return None;
        }
        k := k + 1;
      }
    }

    /** `result |= ((byte & 0x7F) as u64) << shift` */
    static method OrInto(result: int, b: byte, shift: nat, ghost k: nat) returns (next: int)
      requires k < MAX_VARINT_BYTES && shift == 7 * k && InWord(result, k)
      ensures next == result + Group(b, k)
      ensures k + 1 < MAX_VARINT_BYTES ==> InWord(next, k + 1)
    {
      assert shift / 7 == k;
      OrGroup(result, b, k);
      next := BitOr(result, Group(b, shift / 7));
    }

    method ReadTag() returns (r: Option<(int, int)>)
      requires Inside()
      modifies this
      ensures Inside()
      ensures match Varint(old(Rest()))
              case None => r.None?
              case Some(key) =>
                if FieldNumber(key.value) == 0 then r.None?
                else r == Some((FieldNumber(key.value), key.value % 8)) && pos == old(pos) + key.size
    {
      var key := ReadVarint();
      if key.None? {
        return None;
      }
      var field := (key.value / 8) % TWO_32;
      var wire := key.value % 8;
      if field == 0 {
        return None;
      }
      return Some((field, wire));
    }

    /** A returned slice lies inside the buffer, right after its length. */
    method ReadBytes() returns (r: Option<Bytes>)
      requires Inside()
      modifies this
      ensures Inside()
      ensures match DelimitedValue(old(Rest()))
              case None => r.None?
              case Some(d) => r == Some(d.value) && pos == old(pos) + d.size && buf[pos - |d.value|..pos] == d.value
    {
      var len := ReadVarint();
      if len.None? {
        return None;
      }
      var end := pos + len.value;
      if end > |buf| {
        return None;
      }
      assert old(Rest())[pos - old(pos)..end - old(pos)] == buf[pos..end];
      r := Some(buf[pos..end]);
      pos := end;
    }

    method ReadStr(utf8: Bytes -> bool) returns (r: Option<Bytes>)
      requires Inside()
      modifies this
      ensures Inside()
      ensures match DelimitedValue(old(Rest()))
              case None => r.None?
              case Some(d) => if utf8(d.value) then r == Some(d.value) && pos == old(pos) + d.size else r.None?
    {
      r := ReadBytes();
      if r.Some? && !utf8(r.value) {
        r := None;
      }
    }

    /** A failed skip may leave the cursor beyond the buffer; every caller then gives up. */
    method Skip(wire: int) returns (ok: bool)
      requires Inside()
      modifies this
      ensures ok <==> ParseValue(wire, old(Rest())).Some?
      ensures ok ==> Inside() && pos == old(pos) + ParseValue(wire, old(Rest())).value.size
    {
      match wire {
        case 0 =>
          var v := ReadVarint();
          ok := v.Some?;
        case 1 =>
          pos := pos + 8;
          ok := pos <= |buf|;
        case 2 =>
          var bytes := ReadBytes();
          ok := bytes.Some?;
        case 5 =>
          pos := pos + 4;
          ok := pos <= |buf|;
        case _ =>
          ok := false;
      }
    }
  }
}

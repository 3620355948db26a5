/** The write-ahead log: framing, replay up to the first torn frame, and recovery from a crash at any
    byte.  `crc` stands for CRC-32; nothing is assumed of it. */
module Wal {
  import opened Common

  type Bytes = seq<byte>
  type u32 = x: int | 0 <= x < 0x1_0000_0000
  type Checksum = Bytes -> u32

  const FRAME_HEADER_LEN := 8
  const MAX_FRAME_LEN := 64 * 1024 * 1024

  function ToLe(n: u32): (b: Bytes)
    ensures |b| == 4
  {
    [n % 0x100, n / 0x100 % 0x100, n / 0x1_0000 % 0x100, n / 0x100_0000]
  }

  function FromLe(b: Bytes): u32
    requires |b| == 4
  {
    b[0] as int + 0x100 * (b[1] as int) + 0x1_0000 * (b[2] as int) + 0x100_0000 * (b[3] as int)
  }

  lemma LeRoundTrip(n: u32)
    ensures FromLe(ToLe(n)) == n
  {
    var q1 := n / 0x100;
    var q2 := q1 / 0x100;
    assert n / 0x1_0000 == q2 && n / 0x100_0000 == q2 / 0x100;
  }

  /** Length, checksum, payload. */
  function Frame(crc: Checksum, payload: Bytes): (b: Bytes)
    requires |payload| <= MAX_FRAME_LEN
    ensures |b| == FRAME_HEADER_LEN + |payload|
  {
    ToLe(|payload|) + ToLe(crc(payload)) + payload
  }

  /** What the bytes from some offset on begin with. */
  datatype Next =
    | Payload(bytes: Bytes)
    | EndOfFile
    | TooLarge(len: int)
    | Truncated(need: int, have: int)
    | CrcMismatch(got: int, expected: int)

  function NextFrame(crc: Checksum, b: Bytes): (r: Next)
    ensures r.Payload? ==> FRAME_HEADER_LEN + |r.bytes| <= |b|
  {
    if |b| < FRAME_HEADER_LEN then EndOfFile
    else
      var len := FromLe(b[..4]);
      var expected := FromLe(b[4..8]);
      if len > MAX_FRAME_LEN then TooLarge(len)
      else if |b| < FRAME_HEADER_LEN + len then Truncated(len, |b| - FRAME_HEADER_LEN)
      else
        var payload := b[FRAME_HEADER_LEN..FRAME_HEADER_LEN + len];
        if crc(payload) != expected then CrcMismatch(crc(payload), expected) else Payload(payload)
  }

  /** How much of the file a read takes: all that is left if a header or a payload is incomplete, the header
      alone if it announces too much, else the frame, also when its checksum does not match. */
  function Consumed(crc: Checksum, b: Bytes): (n: nat)
    ensures n <= |b|
  {
    match NextFrame(crc, b)
    case EndOfFile => |b|
    case Truncated(_, _) => |b|
    case TooLarge(_) => FRAME_HEADER_LEN
    case _ => FRAME_HEADER_LEN + FromLe(b[..4])
  }

  /** What a reader reports whose offset is `lag` bytes behind the file position. */
  function SeenFrom(next: Next, lag: nat): Next {
    if next.Truncated? then Truncated(next.need, next.have + lag) else next
  }

  lemma SliceBehind(b: Bytes, offset: nat, lo: nat, hi: nat)
    requires lo <= hi && offset + hi <= |b|
    ensures b[offset..][lo..hi] == b[offset + lo..offset + hi]
  {
  }

  // ---- The writer and the reader ---------------------------------------------------------------

  class WalWriter {
    const crc: Checksum
    var file: Bytes
    var bytesWritten: nat

    ghost predicate Valid()
      reads this
    {
      bytesWritten == |file|
    }

    /** Opening appends to whatever the file holds. */
    constructor (crc: Checksum, existing: Bytes)
      ensures Valid() && this.crc == crc && file == existing
    {
      this.crc := crc;
      file := existing;
      bytesWritten := |existing|;
    }

    /** An oversized payload is refused and leaves the file as it was. */
    method Append(payload: Bytes) returns (ok: bool)
      requires Valid()
      modifies this
      ensures Valid() && ok == (|payload| <= MAX_FRAME_LEN)
      ensures file == if ok then old(file) + Frame(crc, payload) else old(file)
    {
      if |payload| > 0xFFFF_FFFF {
        return false;
      }
      if |payload| > MAX_FRAME_LEN {
        return false;
      }
      var header := ToLe(|payload|) + ToLe(crc(payload));
      file := file + header;
      file := file + payload;
      bytesWritten := bytesWritten + FRAME_HEADER_LEN + |payload|;
      assert file == old(file) + (header + payload);
      return true;
    }
  }

  class WalReader {
    const crc: Checksum
    const file: Bytes
    var position: nat
    var offset: nat

    ghost predicate Valid()
      reads this
    {
      offset <= position <= |file|
    }

    /** Every frame so far was intact: the next read starts at the reported offset. */
    ghost predicate InStep()
      reads this
    {
      position == offset <= |file|
    }

    constructor (crc: Checksum, file: Bytes)
      ensures InStep() && this.crc == crc && this.file == file && offset == 0
    {
      this.crc := crc;
      this.file := file;
      position := 0;
      offset := 0;
    }

    /** `read_exact`: at end of file it consumes what is left and fails. */
    method ReadExact(n: nat) returns (bytes: Option<Bytes>)
      requires position <= |file|
      modifies this`position
      ensures position <= |file|
      ensures old(position) + n <= |file|
              ==> position == old(position) + n && bytes == Some(file[old(position)..position])
      ensures old(position) + n > |file| ==> bytes.None? && position == |file|
    {
      if position + n <= |file| {
        bytes := Some(file[position..position + n]);
        position := position + n;
      } else {
        bytes := None;
        position := |file|;
      }
    }

    /** What is at the file position, which after a failed read lies behind the offset reported: the offset
        stays at the first frame that was not intact, and the shortfall of a torn frame is counted from there. */
    method Read() returns (r: Next)
      requires Valid()
      modifies this
      ensures Valid()
      ensures r == SeenFrom(NextFrame(crc, file[old(position)..]), old(position) - old(offset))
      ensures position == old(position) + Consumed(crc, file[old(position)..])
      ensures offset == old(offset) + if r.Payload? then FRAME_HEADER_LEN + |r.bytes| else 0
      ensures r.EndOfFile? || r.Truncated? ==> position == |file|
      ensures r.Truncated? ==> r.have == |file| - old(offset) - 8
      ensures r.TooLarge? ==> position == old(position) + 8
      ensures old(InStep()) ==> r == NextFrame(crc, file[old(offset)..]) && (r.Payload? ==> InStep())
    {
      ghost var rest, start := file[position..], position;
      var header := ReadExact(FRAME_HEADER_LEN);
      if header.None? {
        return EndOfFile;
      }
      var len := FromLe(header.value[..4]);
      var expected := FromLe(header.value[4..8]);
      SliceBehind(file, start, 0, FRAME_HEADER_LEN);
      assert header.value[..4] == rest[..4] && header.value[4..8] == rest[4..8];
      if len > MAX_FRAME_LEN {
        return TooLarge(len);
      }
      var payload := ReadExact(len);
      if payload.None? {
        return Truncated(len, position - offset - FRAME_HEADER_LEN);
      }
      SliceBehind(file, start, FRAME_HEADER_LEN, FRAME_HEADER_LEN + len);
      var got := crc(payload.value);
      if got != expected {
        return CrcMismatch(got, expected);
      }
      offset := offset + FRAME_HEADER_LEN + len;
      return Payload(payload.value);
    }
  }

  // ---- Replay --------------------------------------------------------------------------------

  /** Every frame up to the first one that is not intact, how far they reach, and what ended it. */
  datatype Replayed = Replayed(payloads: seq<Bytes>, offset: nat, stop: Next)

  function Replay(crc: Checksum, b: Bytes): (r: Replayed)
    ensures r.offset <= |b|
    decreases |b|
  {
    var next := NextFrame(crc, b);
    if next.Payload? then
      var size := FRAME_HEADER_LEN + |next.bytes|;
      var rest := Replay(crc, b[size..]);
      Replayed([next.bytes] + rest.payloads, size + rest.offset, rest.stop)
    else Replayed([], 0, next)
  }

  /** Frames already replayed, put in front of what is still to be replayed. */
  function After(payloads: seq<Bytes>, offset: nat, rest: Replayed): Replayed {
    Replayed(payloads + rest.payloads, offset + rest.offset, rest.stop)
  }

  /** `payloads` are the frames up to `offset`. */
  ghost predicate Replaying(crc: Checksum, file: Bytes, payloads: seq<Bytes>, offset: nat) {
    offset <= |file| && After(payloads, offset, Replay(crc, file[offset..])) == Replay(crc, file)
  }

  lemma ReplayStart(crc: Checksum, file: Bytes)
    ensures Replaying(crc, file, [], 0)
  {
    assert file[0..] == file && [] + Replay(crc, file).payloads == Replay(crc, file).payloads;
  }

  lemma ReplayStep(crc: Checksum, file: Bytes, payloads: seq<Bytes>, offset: nat, next: Next)
    requires Replaying(crc, file, payloads, offset) && next == NextFrame(crc, file[offset..])
    ensures if next.Payload?
            then Replaying(crc, file, payloads + [next.bytes], offset + FRAME_HEADER_LEN + |next.bytes|)
            else Replay(crc, file) == Replayed(payloads, offset, next)
  {
    if next.Payload? {
      var tail := Replay(crc, file[offset + FRAME_HEADER_LEN + |next.bytes|..]);
      SliceBehind(file, offset, FRAME_HEADER_LEN + |next.bytes|, |file| - offset);
      assert file[offset..][FRAME_HEADER_LEN + |next.bytes|..] == file[offset + FRAME_HEADER_LEN + |next.bytes|..];
      assert payloads + ([next.bytes] + tail.payloads) == (payloads + [next.bytes]) + tail.payloads;
    } else {
      assert payloads + [] == payloads;
    }
  }

  /** Recovery as the reader is meant to be used: read until something other than a frame. */
  method Recover(crc: Checksum, file: Bytes) returns (r: Replayed)
    ensures r == Replay(crc, file)
  {
    hide Consumed, SeenFrom, NextFrame, Replay;
    var reader := new WalReader(crc, file);
    var payloads: seq<Bytes> := [];
    ReplayStart(crc, file);
    while true
      invariant reader.crc == crc && reader.file == file && reader.InStep()
      invariant Replaying(crc, file, payloads, reader.offset)
      decreases |file| - reader.offset
    {
      ghost var start := reader.offset;
      var next := reader.Read();
      ReplayStep(crc, file, payloads, start, next);
      if !next.Payload? {
        return Replayed(payloads, reader.offset, next);
      }
      payloads := payloads + [next.bytes];
    }
  }

  // ---- Crash recovery --------------------------------------------------------------------------

  /** A payload the writer accepts. */
  type Accepted = p: Bytes | |p| <= MAX_FRAME_LEN

  /** What a writer has put into a fresh file after appending `ps`. */
  function Log(crc: Checksum, ps: seq<Accepted>): Bytes {
    if ps == [] then [] else Frame(crc, ps[0]) + Log(crc, ps[1..])
  }

  /** How many of the frames lie completely within the first `n` bytes. */
  function FramesWithin(ps: seq<Accepted>, n: nat): (k: nat)
    ensures k <= |ps|
  {
    if ps == [] || n < FRAME_HEADER_LEN + |ps[0]| then 0
    else 1 + FramesWithin(ps[1..], n - FRAME_HEADER_LEN - |ps[0]|)
  }

  lemma FrameRead(crc: Checksum, p: Accepted, rest: Bytes)
    ensures NextFrame(crc, Frame(crc, p) + rest) == Payload(p)
  {
    var b := Frame(crc, p) + rest;
    assert b[..4] == ToLe(|p|) && b[4..8] == ToLe(crc(p));
    LeRoundTrip(|p|);
    LeRoundTrip(crc(p));
    assert b[FRAME_HEADER_LEN..FRAME_HEADER_LEN + |p|] == p;
  }

  /** A frame cut short is recognised as the end of the file or as truncated, never as anything else. */
  lemma TornFrame(crc: Checksum, p: Accepted, n: nat)
    requires n < FRAME_HEADER_LEN + |p|
    ensures NextFrame(crc, Frame(crc, p)[..n])
            == if n < FRAME_HEADER_LEN then EndOfFile else Truncated(|p|, n - FRAME_HEADER_LEN)
  {
    var b := Frame(crc, p)[..n];
    if n >= FRAME_HEADER_LEN {
      assert b[..4] == ToLe(|p|);
      LeRoundTrip(|p|);
    }
  }

  lemma ReplayFrame(crc: Checksum, p: Accepted, rest: Bytes)
    ensures Replay(crc, Frame(crc, p) + rest) == After([p], FRAME_HEADER_LEN + |p|, Replay(crc, rest))
  {
    FrameRead(crc, p, rest);
    assert (Frame(crc, p) + rest)[FRAME_HEADER_LEN + |p|..] == rest;
  }

  /** How replay ends when `n` bytes of the log survive. */
  function TornStop(crc: Checksum, ps: seq<Accepted>, n: nat): Next
    decreases |ps|
  {
    if ps == [] then EndOfFile
    else if n >= FRAME_HEADER_LEN + |ps[0]| then TornStop(crc, ps[1..], n - FRAME_HEADER_LEN - |ps[0]|)
    else if n < FRAME_HEADER_LEN then EndOfFile
    else Truncated(|ps[0]|, n - FRAME_HEADER_LEN)
  }

  lemma TakeOneMore(ps: seq<Accepted>, k: nat)
    requires k < |ps|
    ensures ps[..k + 1] == [ps[0]] + ps[1..][..k] && ps[..k + 1][1..] == ps[1..][..k]
  {
  }

  lemma LogOfTaken(crc: Checksum, ps: seq<Accepted>, k: nat)
    requires k < |ps|
    ensures |Log(crc, ps[..k + 1])| == FRAME_HEADER_LEN + |ps[0]| + |Log(crc, ps[1..][..k])|
  {
    TakeOneMore(ps, k);
  }

  lemma ReplayBehindFrame(crc: Checksum, p: Accepted, tail: Bytes, m: nat)
    requires m <= |tail|
    ensures Replay(crc, (Frame(crc, p) + tail)[..FRAME_HEADER_LEN + |p| + m])
            == After([p], FRAME_HEADER_LEN + |p|, Replay(crc, tail[..m]))
  {
    assert (Frame(crc, p) + tail)[..FRAME_HEADER_LEN + |p| + m] == Frame(crc, p) + tail[..m];
    ReplayFrame(crc, p, tail[..m]);
  }

  lemma CrashInFirst(crc: Checksum, ps: seq<Accepted>, n: nat)
    requires ps != [] && n < FRAME_HEADER_LEN + |ps[0]|
    ensures n <= |Log(crc, ps)| && FramesWithin(ps, n) == 0
    ensures Replay(crc, Log(crc, ps)[..n]) == Replayed([], 0, TornStop(crc, ps, n))
  {
    assert Log(crc, ps)[..n] == Frame(crc, ps[0])[..n];
    TornFrame(crc, ps[0], n);
  }

  lemma CrashBehindFirst(crc: Checksum, ps: seq<Accepted>, m: nat, k: nat, stop: Next)
    requires ps != [] && m <= |Log(crc, ps[1..])| && k < |ps|
    requires Replay(crc, Log(crc, ps[1..])[..m]) == Replayed(ps[1..][..k], |Log(crc, ps[1..][..k])|, stop)
    ensures Replay(crc, Log(crc, ps)[..FRAME_HEADER_LEN + |ps[0]| + m])
            == Replayed(ps[..k + 1], |Log(crc, ps[..k + 1])|, stop)
  {
    hide Replay, NextFrame, Frame;
    TakeOneMore(ps, k);
    ReplayBehindFrame(crc, ps[0], Log(crc, ps[1..]), m);
    LogOfTaken(crc, ps, k);
  }

  /** Whatever prefix of the file survives a crash, replay returns exactly the payloads whose frames
      end inside it, stops at their total length, and reports a clean end or the torn frame. */
  lemma {:induction false} CrashReplay(crc: Checksum, ps: seq<Accepted>, n: nat)
    requires n <= |Log(crc, ps)|
    ensures var k := FramesWithin(ps, n);
            Replay(crc, Log(crc, ps)[..n]) == Replayed(ps[..k], |Log(crc, ps[..k])|, TornStop(crc, ps, n))
    decreases |ps|
  {
    if ps == [] {
    } else if n < FRAME_HEADER_LEN + |ps[0]| {
      CrashInFirst(crc, ps, n);
    } else {
      var m, tail := n - FRAME_HEADER_LEN - |ps[0]|, ps[1..];
      var k, stop := FramesWithin(tail, m), TornStop(crc, tail, m);
      CrashReplay(crc, tail, m);
      CrashBehindFirst(crc, ps, m, k, stop);
      assert FramesWithin(ps, n) == k + 1 && TornStop(crc, ps, n) == stop;
      assert Replay(crc, Log(crc, ps)[..n]) == Replayed(ps[..k + 1], |Log(crc, ps[..k + 1])|, stop);
    }
  }

  lemma {:induction false} LogPrefix(crc: Checksum, ps: seq<Accepted>, k: nat)
    requires k <= |ps|
    ensures |Log(crc, ps[..k])| <= |Log(crc, ps)|
    ensures Log(crc, ps[..k]) == Log(crc, ps)[..|Log(crc, ps[..k])|]
  {
    LogConcat(crc, ps[..k], ps[k..]);
    assert ps[..k] + ps[k..] == ps;
  }

  /** The stop and the leftover bytes fit together: fewer than a header left over is a clean end. */
  lemma {:induction false} StopMeaning(crc: Checksum, ps: seq<Accepted>, n: nat)
    requires n <= |Log(crc, ps)|
    ensures var k := FramesWithin(ps, n);
            var left := n - |Log(crc, ps[..k])|;
            TornStop(crc, ps, n)
            == if left < FRAME_HEADER_LEN then EndOfFile
               else Truncated(if k < |ps| then |ps[k]| else 0, left - FRAME_HEADER_LEN)
    decreases |ps|
  {
    if ps != [] && n >= FRAME_HEADER_LEN + |ps[0]| {
      var m := n - FRAME_HEADER_LEN - |ps[0]|;
      StopMeaning(crc, ps[1..], m);
      TakeOneMore(ps, FramesWithin(ps[1..], m));
    }
  }

  /** The recovered frames are as many as fit: one more would reach past the surviving bytes. */
  lemma {:induction false} RecoversAllThatFits(crc: Checksum, ps: seq<Accepted>, n: nat)
    requires n <= |Log(crc, ps)|
    ensures var k := FramesWithin(ps, n);
            && |Log(crc, ps[..k])| <= n
            && (k < |ps| ==> n < |Log(crc, ps[..k])| + FRAME_HEADER_LEN + |ps[k]|)
    decreases |ps|
  {
    if ps != [] && n >= FRAME_HEADER_LEN + |ps[0]| {
      var k := FramesWithin(ps[1..], n - FRAME_HEADER_LEN - |ps[0]|);
      RecoversAllThatFits(crc, ps[1..], n - FRAME_HEADER_LEN - |ps[0]|);
      TakeOneMore(ps, k);
    }
  }

  lemma Associative(a: Bytes, b: Bytes, c: Bytes)
    ensures (a + b) + c == a + (b + c)
  {
  }

  lemma {:induction false} LogConcat(crc: Checksum, ps: seq<Accepted>, qs: seq<Accepted>)
    ensures Log(crc, ps + qs) == Log(crc, ps) + Log(crc, qs)
  {
    if ps == [] {
      assert ps + qs == qs;
    } else {
      LogConcat(crc, ps[1..], qs);
      assert (ps + qs)[1..] == ps[1..] + qs;
      Associative(Frame(crc, ps[0]), Log(crc, ps[1..]), Log(crc, qs));
    }
  }

  /** A writer's file stays the log of what was appended: appending a payload appends its frame. */
  lemma LogGrows(crc: Checksum, ps: seq<Accepted>, p: Accepted)
    ensures Log(crc, ps + [p]) == Log(crc, ps) + Frame(crc, p)
  {
    LogConcat(crc, ps, [p]);
    assert Log(crc, [p]) == Frame(crc, p) + [];
  }

  /** A file without a torn tail is replayed whole. */
  lemma IntactReplay(crc: Checksum, ps: seq<Accepted>)
    ensures Replay(crc, Log(crc, ps)) == Replayed(ps, |Log(crc, ps)|, EndOfFile)
  {
    var file := Log(crc, ps);
    assert file[..|file|] == file;
    AllWithin(crc, ps);
    CrashReplay(crc, ps, |file|);
    StopMeaning(crc, ps, |file|);
    assert ps[..|ps|] == ps;
  }

  lemma {:induction false} AllWithin(crc: Checksum, ps: seq<Accepted>)
    ensures FramesWithin(ps, |Log(crc, ps)|) == |ps|
  {
    if ps != [] {
      AllWithin(crc, ps[1..]);
    }
  }

  /** Crash at any byte, truncate at the reported offset, append more: replay then returns the old
      intact frames followed by the new ones, and ends cleanly. */
  lemma TruncateAndContinue(crc: Checksum, ps: seq<Accepted>, n: nat, qs: seq<Accepted>)
    requires n <= |Log(crc, ps)|
    ensures var survived := Log(crc, ps)[..n];
            var resumed := survived[..Replay(crc, survived).offset] + Log(crc, qs);
            Replay(crc, resumed) == Replayed(ps[..FramesWithin(ps, n)] + qs, |resumed|, EndOfFile)
  {
    var k := FramesWithin(ps, n);
    var survived := Log(crc, ps)[..n];
    var offset := Replay(crc, survived).offset;
    CrashReplay(crc, ps, n);
    assert survived[..offset] == Log(crc, ps[..k]) by {
      LogPrefix(crc, ps, k);
      assert survived[..offset] == Log(crc, ps)[..offset];
    }
    LogConcat(crc, ps[..k], qs);
    IntactReplay(crc, ps[..k] + qs);
  }

  // ---- The bytes of a frame, and of any file ----------------------------------------------------

  /** Four bytes as a number, the lowest first. */
  function LowFirst(b0: byte, b1: byte, b2: byte, b3: byte): int {
    b0 as int + 256 * (b1 as int) + 65_536 * (b2 as int) + 16_777_216 * (b3 as int)
  }

  lemma LittleEndian(n: u32)
    ensures var b := ToLe(n); LowFirst(b[0], b[1], b[2], b[3]) == n
  {
    LeRoundTrip(n);
  }

  /** A frame is the length and then the checksum, four bytes each, the lowest first, and then the payload. */
  lemma FrameLayout(crc: Checksum, p: Accepted)
    ensures var f := Frame(crc, p);
            && |f| == 8 + |p|
            && LowFirst(f[0], f[1], f[2], f[3]) == |p|
            && LowFirst(f[4], f[5], f[6], f[7]) == crc(p)
            && f[8..] == p
  {
    LittleEndian(|p|);
    LittleEndian(crc(p));
  }

  lemma LeInverse(b: Bytes)
    requires |b| == 4
    ensures ToLe(FromLe(b)) == b
  {
    var n := FromLe(b);
    DivUnique(n, 0x100, b[1] as int + 0x100 * (b[2] as int) + 0x1_0000 * (b[3] as int), b[0] as int);
    DivUnique(n / 0x100, 0x100, b[2] as int + 0x100 * (b[3] as int), b[1] as int);
    DivUnique(n / 0x1_0000, 0x100, b[3] as int, b[2] as int);
  }

  /** What is read as a payload is preceded by its own frame, whatever the bytes are: a frame with a wrong
      checksum, an excessive length or missing bytes is never returned, and an intact one always is. */
  lemma OnlyIntactFrames(crc: Checksum, b: Bytes, p: Bytes)
    ensures NextFrame(crc, b) == Payload(p) <==> |p| <= MAX_FRAME_LEN && Frame(crc, p) <= b
  {
    if NextFrame(crc, b) == Payload(p) {
      LeInverse(b[..4]);
      LeInverse(b[4..8]);
      assert b[..8 + |p|] == b[..4] + b[4..8] + b[8..8 + |p|];
      assert Frame(crc, p) == b[..8 + |p|];
    }
    if |p| <= MAX_FRAME_LEN && Frame(crc, p) <= b {
      var rest := b[FRAME_HEADER_LEN + |p|..];
      FrameRead(crc, p, rest);
      assert b == Frame(crc, p) + rest;
    }
  }

  /** A header that announces more than 64 MiB is reported as such, whatever follows it. */
  lemma ExcessiveLength(crc: Checksum, b: Bytes)
    requires |b| >= 8
    ensures NextFrame(crc, b).TooLarge? <==> LowFirst(b[0], b[1], b[2], b[3]) > 67_108_864
    ensures NextFrame(crc, b).TooLarge? ==> NextFrame(crc, b).len == LowFirst(b[0], b[1], b[2], b[3])
  {
  }

  /** No frame starts here. */
  ghost predicate NoFrame(crc: Checksum, b: Bytes) {
    forall p: Bytes :: |p| <= MAX_FRAME_LEN ==> !(Frame(crc, p) <= b)
  }

  lemma NoneIsNoFrame(crc: Checksum, b: Bytes)
    requires !NextFrame(crc, b).Payload?
    ensures NoFrame(crc, b)
  {
    forall p: Bytes | |p| <= MAX_FRAME_LEN
      ensures !(Frame(crc, p) <= b)
    {
      OnlyIntactFrames(crc, b, p);
    }
  }

  /** Whatever a file holds, replay returns the frames it begins with, all of them, and stops where none starts. */
  lemma {:induction false} ReplayOfAnyFile(crc: Checksum, b: Bytes) returns (tail: Bytes)
    ensures var r := Replay(crc, b);
            && b == FramesInRow(crc, r.payloads) + tail && r.offset == |b| - |tail|
            && NoFrame(crc, tail) && r.stop == NextFrame(crc, tail)
    ensures forall p :: p in Replay(crc, b).payloads ==> |p| <= MAX_FRAME_LEN
    decreases |b|
  {
    hide NoFrame, Frame;
    var next := NextFrame(crc, b);
    if next.Payload? {
      var front := Frame(crc, next.bytes);
      OnlyIntactFrames(crc, b, next.bytes);
      assert b == front + b[|front|..];
      tail := ReplayOfAnyFile(crc, b[|front|..]);
      OneInFront(crc, next.bytes, Replay(crc, b[|front|..]).payloads);
      Associative(front, FramesInRow(crc, Replay(crc, b[|front|..]).payloads), tail);
    } else {
      tail := b;
      NoneIsNoFrame(crc, b);
      assert [] + b == b;
    }
  }

  lemma OneInFront(crc: Checksum, p: Bytes, ps: seq<Bytes>)
    requires |p| <= MAX_FRAME_LEN
    ensures FramesInRow(crc, [p] + ps) == Frame(crc, p) + FramesInRow(crc, ps)
  {
    assert ([p] + ps)[1..] == ps;
  }

  function FramesInRow(crc: Checksum, ps: seq<Bytes>): Bytes {
    if ps == [] then []
    else (if |ps[0]| <= MAX_FRAME_LEN then Frame(crc, ps[0]) else []) + FramesInRow(crc, ps[1..])
  }
}

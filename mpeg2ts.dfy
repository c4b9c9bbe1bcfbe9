/**
 * MPEG-2 transport-stream framing and time-based segmenting.
 *
 * `Packetizer` rebuilds 188-byte transport packets from an arbitrarily chunked
 * byte stream; `TimeBasedChunkifier` groups packets into chunks at Program Clock
 * Reference (PCR) boundaries. Times are compared in 27 MHz ticks: a PCR of
 * (hi, lo) is hi*300 + lo ticks, a boundary of t seconds is t*27000000 ticks.
 */
module Mpeg2ts {
  import opened Util

  type byte = x: int | 0 <= x < 256

  type Packet = seq<byte>

  const PacketLength: nat := 188

  const TicksPerSecond: nat := 27_000_000

  const TwoTo31: nat := 0x8000_0000
  const TwoTo32: nat := 0x1_0000_0000

  // ---------------------------------------------------------------------------
  // Framing: the packets a buffer yields and the bytes it keeps back

  /** The packets the write loop cuts from the front of `b`. The loop runs while
      MORE than one packet's worth remains, so a remainder of exactly 188 bytes
      is kept back. */
  function Frames(b: seq<byte>): (r: seq<Packet>)
    ensures forall p | p in r :: |p| == PacketLength
    decreases |b|
  {
    if |b| > PacketLength then [b[..PacketLength]] + Frames(b[PacketLength..]) else []
  }

  /** The bytes the write loop leaves in `partial`. */
  function Carry(b: seq<byte>): (r: seq<byte>)
    ensures |r| <= PacketLength
    ensures |b| > 0 ==> |r| > 0
    decreases |b|
  {
    if |b| > PacketLength then Carry(b[PacketLength..]) else b
  }

  /** Conservation: the packets cut from `b`, followed by what is kept back, are `b`. */
  lemma {:induction false} FramesConserve(b: seq<byte>)
    ensures Concat(Frames(b)) + Carry(b) == b
    decreases |b|
  {
    if |b| > PacketLength {
      var rest := b[PacketLength..];
      FramesConserve(rest);
      var f := Frames(b);
      assert f[0] == b[..PacketLength] && f[1..] == Frames(rest);
      assert Concat(f) == b[..PacketLength] + Concat(Frames(rest));
      assert b == b[..PacketLength] + rest;
    }
  }

  /** How many packets a buffer of |b| bytes yields, and how many bytes stay. */
  lemma {:induction false} FramesCount(b: seq<byte>)
    ensures |Frames(b)| == if |b| == 0 then 0 else (|b| - 1) / PacketLength
    ensures |Carry(b)| == |b| - PacketLength * |Frames(b)|
    decreases |b|
  {
    if |b| > PacketLength {
      FramesCount(b[PacketLength..]);
    }
  }

  /** The i-th packet is bytes [188*i, 188*(i+1)) of the buffer: packets are cut
      in order and contiguously. */
  lemma {:induction false} FramesAt(b: seq<byte>, i: nat)
    requires i < |Frames(b)|
    ensures PacketLength * (i + 1) <= |b|
    ensures Frames(b)[i] == b[PacketLength * i .. PacketLength * (i + 1)]
    decreases |b|
  {
    var rest := b[PacketLength..];
    if i > 0 {
      FramesAt(rest, i - 1);
      assert Frames(b)[i] == Frames(rest)[i - 1];
    }
  }

  /** A buffer whose length is a positive multiple of 188 keeps its last full
      packet back, because the loop test is a strict `>`. */
  lemma ExactPacketHeldBack(b: seq<byte>)
    requires |b| > 0 && |b| % PacketLength == 0
    ensures Carry(b) == b[|b| - PacketLength..]
    ensures |Frames(b)| == |b| / PacketLength - 1
  {
    FramesCount(b);
  }

  /** Writing `a` then `d` cuts the same packets, and keeps the same bytes,
      as writing `a + d` at once: the packet stream does not depend on how the
      input was chunked. */
  lemma {:induction false} FramesSplit(a: seq<byte>, d: seq<byte>)
    ensures Frames(a + d) == Frames(a) + Frames(Carry(a) + d)
    ensures Carry(a + d) == Carry(Carry(a) + d)
    decreases |a|
  {
    if |a| > PacketLength {
      var rest := a[PacketLength..];
      assert (a + d)[..PacketLength] == a[..PacketLength];
      assert (a + d)[PacketLength..] == rest + d;
      FramesSplit(rest, d);
    }
  }

  /** Carry-over buffer: packets are emitted from the front as soon as more than
      one packet's worth of bytes is buffered. */
  class Packetizer {
    var partial: seq<byte>

    ghost predicate Valid()
      reads this
    {
      |partial| <= PacketLength
    }

    constructor ()
      ensures Valid() && partial == []
    {
      partial := [];
    }

    /** Appends `data` to the carry-over buffer and returns, in order, the
        packets the 'packet' event would fire for. */
    method Write(data: seq<byte>) returns (packets: seq<Packet>)
      requires Valid()
      modifies this
      ensures Valid()
      ensures packets == Frames(old(partial) + data)
      ensures partial == Carry(old(partial) + data)
      ensures Concat(packets) + partial == old(partial) + data
      ensures |data| == 0 ==> packets == [] && partial == old(partial)
    {
      partial := partial + data;
      ghost var buffered := partial;
      packets := [];
      while |partial| > PacketLength
        invariant packets + Frames(partial) == Frames(buffered)
        invariant Carry(partial) == Carry(buffered)
        decreases |partial|
      {
        packets := packets + [partial[..PacketLength]];
        partial := partial[PacketLength..];
      }
      assert packets == Frames(buffered) && partial == Carry(buffered);
      FramesConserve(buffered);
    }
  }

  // ---------------------------------------------------------------------------
  // Big-endian field access

  function ReadUInt16BE(p: seq<byte>, i: nat): (v: nat)
    requires i + 2 <= |p|
    ensures v < 0x1_0000
  {
    p[i] as int * 0x100 + p[i + 1] as int
  }

  function ReadUInt32BE(p: seq<byte>, i: nat): (v: nat)
    requires i + 4 <= |p|
    ensures v < TwoTo32
  {
    ((p[i] as int * 0x100 + p[i + 1] as int) * 0x100 + p[i + 2] as int) * 0x100 + p[i + 3] as int
  }

  /** `writeUInt32BE(v, i)`: replaces bytes i..i+3 by v, most significant first. */
  function WriteUInt32BE(p: seq<byte>, i: nat, v: nat): (q: seq<byte>)
    requires i + 4 <= |p| && v < TwoTo32
    ensures |q| == |p|
    ensures q[..i] == p[..i] && q[i + 4..] == p[i + 4..]
  {
    p[..i] + [v / 0x100_0000, (v / 0x1_0000) % 0x100, (v / 0x100) % 0x100, v % 0x100] + p[i + 4..]
  }

  lemma WriteReadUInt32BE(p: seq<byte>, i: nat, v: nat)
    requires i + 4 <= |p| && v < TwoTo32
    ensures ReadUInt32BE(WriteUInt32BE(p, i, v), i) == v
  {
    var q := WriteUInt32BE(p, i, v);
    assert q[i] == v / 0x100_0000 && q[i + 1] == (v / 0x1_0000) % 0x100;
    assert q[i + 2] == (v / 0x100) % 0x100 && q[i + 3] == v % 0x100;
    assert q[i] as int * 0x100 + q[i + 1] as int == v / 0x1_0000;
    assert (v / 0x1_0000) * 0x100 + q[i + 2] == v / 0x100;
    assert (v / 0x100) * 0x100 + q[i + 3] == v;
  }

  // ---------------------------------------------------------------------------
  // Program Clock Reference

  /** The adaptation field is present (byte 3 & 0x20) and carries a PCR
      (byte 5 & 0x10). */
  predicate HasPcr(p: Packet): (r: bool)
    requires |p| >= 6
    ensures r <==> (p[3] as bv8 & 0x20 != 0 && p[5] as bv8 & 0x10 != 0)
  {
    (p[3] / 0x20) % 2 == 1 && (p[5] / 0x10) % 2 == 1
  }

  /** The decoded clock: `hi` is the base counted at 90 kHz with its top (33rd)
      bit dropped, `lo` the extension masked to its low 6 bits. */
  datatype Pcr = Pcr(hi: nat, lo: nat)

  function DecodePcr(p: Packet): (c: Pcr)
    requires |p| >= 12
    ensures c.hi < TwoTo32 && c.lo < 0x40
  {
    var pcr0 := ReadUInt32BE(p, 6);
    var pcr1 := ReadUInt16BE(p, 10);
    Pcr((pcr0 % TwoTo31) * 2 + pcr1 / 0x8000, pcr1 % 0x40)
  }

  /** The top PCR bit the decoder reads and ignores. */
  function PcrReallyHi(p: Packet): nat
    requires |p| >= 12
  {
    ReadUInt32BE(p, 6) / TwoTo31
  }

  /** The 33-bit base and 9-bit extension as ISO/IEC 13818-1, section 2.4.3.5,
      lays them out in the six bytes after the adaptation-field flags: 33 bits of
      base, 6 reserved bits, 9 bits of extension. */
  function StandardPcrBase(p: Packet): nat
    requires |p| >= 12
  {
    p[6] as int * 0x200_0000 + p[7] as int * 0x2_0000 + p[8] as int * 0x200 + p[9] as int * 2 + p[10] as int / 0x80
  }

  function StandardPcrExtension(p: Packet): nat
    requires |p| >= 12
  {
    (p[10] as int % 2) * 0x100 + p[11] as int
  }

  /** The decoder agrees with the standard up to its two deliberate
      departures: `hi` is the base without its top bit, `lo` only the
      extension's low 6 bits. */
  lemma PcrMatchesStandard(p: Packet)
    requires |p| >= 12
    ensures DecodePcr(p).hi == StandardPcrBase(p) % TwoTo32
    ensures StandardPcrBase(p) == PcrReallyHi(p) * TwoTo32 + DecodePcr(p).hi
    ensures DecodePcr(p).lo == StandardPcrExtension(p) % 0x40
  {
    PcrFieldArithmetic(p[6], p[7], p[8], p[9], p[10], p[11]);
  }

  /** The same facts on the six field bytes b6..b11. */
  lemma PcrFieldArithmetic(b6: byte, b7: byte, b8: byte, b9: byte, b10: byte, b11: byte)
    ensures var pcr0 := ((b6 as int * 0x100 + b7 as int) * 0x100 + b8 as int) * 0x100 + b9 as int;
      var pcr1 := b10 as int * 0x100 + b11 as int;
      var hi := (pcr0 % TwoTo31) * 2 + pcr1 / 0x8000;
      var base := b6 as int * 0x200_0000 + b7 as int * 0x2_0000 + b8 as int * 0x200 + b9 as int * 2 + b10 as int / 0x80;
      && hi < TwoTo32
      && base == (pcr0 / TwoTo31) * TwoTo32 + hi
      && hi == base % TwoTo32
      && pcr1 % 0x40 == ((b10 as int % 2) * 0x100 + b11 as int) % 0x40
  {
    var low24 := b7 as int * 0x1_0000 + b8 as int * 0x100 + b9 as int;
    var pcr0 := b6 as int * 0x100_0000 + low24;
    assert pcr0 == (b6 / 0x80) * TwoTo31 + ((b6 % 0x80) * 0x100_0000 + low24);
    assert pcr0 / TwoTo31 == b6 / 0x80;
    assert pcr0 % TwoTo31 == (b6 % 0x80) * 0x100_0000 + low24;
    assert (b10 * 0x100 + b11) / 0x8000 == b10 / 0x80;
  }

  /** The PCR in 27 MHz ticks. */
  function Ticks(c: Pcr): nat
  {
    c.hi * 300 + c.lo
  }

  /** The source compares floating seconds, hi/90000 + lo/27000000, with the
      boundary in seconds; over exact rationals that is the tick comparison. */
  lemma SecondsVersusTicks(c: Pcr, boundary: nat)
    ensures (c.hi as real / 90000.0 + c.lo as real / 27000000.0 > boundary as real)
            <==> Ticks(c) > boundary * TicksPerSecond
  {
    var secs := c.hi as real / 90000.0 + c.lo as real / 27000000.0;
    assert secs * 27000000.0 == Ticks(c) as real;
  }

  /** Whether writing `p` while the boundary is `boundary` seconds cuts a chunk. */
  predicate CutsChunk(p: Packet, boundary: nat): (r: bool)
    requires |p| >= 12
    ensures r <==> HasPcr(p) && DecodePcr(p).hi as real / 90000.0 + DecodePcr(p).lo as real / 27000000.0 > boundary as real
  {
    SecondsVersusTicks(DecodePcr(p), boundary);
    HasPcr(p) && Ticks(DecodePcr(p)) > boundary * TicksPerSecond
  }

  /** The packet as it is stored once the `pcr_offset` write-back has run:
      None when the shifted field does not fit the four bytes, where
      `writeUInt32BE` throws. */
  function WithPcrOffset(p: Packet, offset: int): (r: Option<Packet>)
    requires |p| >= 12
    ensures r.Some? ==> |r.value| == |p| && r.value[..6] == p[..6] && r.value[10..] == p[10..]
    ensures !HasPcr(p) || offset == 0 ==> r == Some(p)
    ensures r.Some? && HasPcr(p) && offset != 0 ==> ReadUInt32BE(r.value, 6) == ReadUInt32BE(p, 6) + offset
    ensures HasPcr(p) && offset != 0 ==> (r.Some? <==> 0 <= ReadUInt32BE(p, 6) + offset < TwoTo32)
  {
    if !HasPcr(p) || offset == 0 then Some(p)
    else
      var v := ReadUInt32BE(p, 6) + offset;
      if 0 <= v < TwoTo32 then
        WriteReadUInt32BE(p, 6, v);
        Some(WriteUInt32BE(p, 6, v))
      else None
  }

  /** What one `writePacket` call emits. */
  datatype Emission = NoChunk | ChunkReady(packets: seq<Packet>) | OffsetOutOfRange

  /** Accumulates packets and emits them as a chunk when the PCR passes the
      next boundary. The time origin is zero: the first boundary is
      `chunkSeconds` itself, not the first PCR plus `chunkSeconds`. */
  class TimeBasedChunkifier {
    var packets: seq<Packet>
    const chunkSeconds: nat
    var nextChunkTime: nat
    /** `pcr_offset`: 0 stands for unset (the source tests it for truthiness). */
    var pcrOffset: int
    /** Every packet stored, and every packet handed out in a chunk. */
    ghost var written: seq<Packet>
    ghost var delivered: seq<Packet>

    ghost predicate Valid()
      reads this
    {
      delivered + packets == written
    }

    constructor (chunkSeconds: nat)
      ensures Valid()
      ensures this.chunkSeconds == chunkSeconds && nextChunkTime == chunkSeconds
      ensures packets == [] && pcrOffset == 0 && written == []
    {
      packets := [];
      this.chunkSeconds := chunkSeconds;
      nextChunkTime := chunkSeconds;
      pcrOffset := 0;
      written := [];
      delivered := [];
    }

    method WritePacket(packet: Packet) returns (e: Emission)
      requires Valid() && |packet| >= 12
      modifies this`packets, this`nextChunkTime, this`written, this`delivered
      ensures Valid()
      // the write-back throws: the packet was already pushed, nothing else moves
      ensures WithPcrOffset(packet, pcrOffset).None? ==>
        && e == OffsetOutOfRange
        && packets == old(packets) + [packet] && written == old(written) + [packet]
        && nextChunkTime == old(nextChunkTime)
      ensures WithPcrOffset(packet, pcrOffset).Some? ==>
        var stored := WithPcrOffset(packet, pcrOffset).value;
        && written == old(written) + [stored]
        && (CutsChunk(packet, old(nextChunkTime)) ==>
              && e == ChunkReady(old(packets) + [stored])
              && packets == []
              && nextChunkTime == old(nextChunkTime) + chunkSeconds)
        && (!CutsChunk(packet, old(nextChunkTime)) ==>
              && e == NoChunk
              && packets == old(packets) + [stored]
              && nextChunkTime == old(nextChunkTime))
      // a packet without both flags never cuts a chunk nor moves the boundary
      ensures !HasPcr(packet) ==> e == NoChunk && nextChunkTime == old(nextChunkTime)
    {
      // The pushed packet is the very buffer the write-back rewrites, so what
      // ends up stored is the rewritten packet.
      var stored := WithPcrOffset(packet, pcrOffset);
      if stored.None? {
        packets := packets + [packet];
        written := written + [packet];
        return OffsetOutOfRange;
      }
      packets := packets + [stored.value];
      written := written + [stored.value];
      if HasPcr(packet) && Ticks(DecodePcr(packet)) > nextChunkTime * TicksPerSecond {
        e := ChunkReady(packets);
        delivered := delivered + packets;
        packets := [];
        nextChunkTime := nextChunkTime + chunkSeconds;
      } else {
        e := NoChunk;
      }
    }

    /** Emits what has accumulated, if anything; afterwards nothing is held, so
        a second `Flush` in a row emits nothing. */
    method Flush() returns (chunk: Option<seq<Packet>>)
      requires Valid()
      modifies this`packets, this`delivered
      ensures Valid()
      ensures chunk == if old(packets) == [] then None else Some(old(packets))
      ensures packets == [] && delivered == old(delivered) + old(packets)
    {
      if |packets| > 0 {
        chunk := Some(packets);
        delivered := delivered + packets;
        packets := [];
      } else {
        chunk := None;
      }
    }
  }

  // ---------------------------------------------------------------------------
  // The high half of the base as the source computes it

  /** JavaScript's ToInt32 on a value in [0, 2^32): the 32-bit pattern read
      as a signed integer. */
  function ToInt32(u: nat): (v: int)
    requires u < TwoTo32
    ensures -(TwoTo31 as int) <= v < TwoTo31
    ensures v % TwoTo32 == u
  {
    if u >= TwoTo31 then u - TwoTo32 else u
  }

  /** `(pcr_0 & 0x7fffffff) << 1 | bit` with JavaScript's 32-bit operators:
      the mask keeps the low 31 bits, `<<` doubles modulo 2^32 and reads the
      result as signed, and `|` sets the low bit, which the shift left clear. */
  function PcrHiAsWritten(p: Packet): (v: int)
    requires |p| >= 12
    ensures v == if DecodePcr(p).hi < TwoTo31 then DecodePcr(p).hi else DecodePcr(p).hi - TwoTo32
  {
    var pcr0 := ReadUInt32BE(p, 6);
    var bit := if ReadUInt16BE(p, 10) / 0x8000 == 1 then 1 else 0;
    ToInt32((pcr0 % TwoTo31) * 2 % TwoTo32 + bit)
  }

  /** The cut test of the source as written, on the signed `pcr_hi`. */
  predicate CutsChunkAsWritten(p: Packet, boundary: nat)
    requires |p| >= 12
  {
    HasPcr(p) && PcrHiAsWritten(p) * 300 + DecodePcr(p).lo > boundary * TicksPerSecond
  }

  /** The chunkifier's cut test agrees with the source's as written while the
      low 32 bits of the PCR base are below 2^31; from 2^31 up to 2^32 the
      source as written never cuts a chunk. */
  lemma CutTestsAgree(p: Packet, boundary: nat)
    requires |p| >= 12
    ensures DecodePcr(p).hi < TwoTo31 ==> (CutsChunkAsWritten(p, boundary) <==> CutsChunk(p, boundary))
    ensures DecodePcr(p).hi >= TwoTo31 ==> !CutsChunkAsWritten(p, boundary)
  {
  }

  /** The signed time the source reads never exceeds 2^31/90000 seconds,
      about 23860.9 s. Once the boundary has reached 23861 s, which happens
      in a stream whose clock starts near zero before `pcr_hi` turns
      negative, the test as written never cuts a chunk again, whatever PCR
      follows, a wrapped one included. */
  lemma NeverResumes(p: Packet, boundary: nat)
    requires |p| >= 12 && boundary >= 23861
    ensures !CutsChunkAsWritten(p, boundary)
  {
    assert PcrHiAsWritten(p) * 300 + DecodePcr(p).lo < TwoTo31 * 300 + 64;
  }

  /** A packet whose PCR base is exactly 2^31 (about 6.6 hours at 90 kHz). */
  function BaseAt2To31(): (p: Packet)
    ensures |p| == PacketLength
  {
    [0x47, 0, 0, 0x20, 0xb7, 0x10, 0x40, 0, 0, 0, 0, 0] + seq(PacketLength - 12, _ => 0xff)
  }

  /** As written, the signed shift turns a base of 2^31 into -2^31 ticks, so the
      decoded time is negative and no boundary is crossed, where the unsigned
      reading is 2^31 and crosses a 5-second boundary. */
  lemma SignedShiftCounterexample()
    ensures var p := BaseAt2To31();
      && HasPcr(p)
      && StandardPcrBase(p) == TwoTo31
      && PcrHiAsWritten(p) == -(TwoTo31 as int)
      && !CutsChunkAsWritten(p, 5)
      && DecodePcr(p).hi == TwoTo31
      && CutsChunk(p, 5)
  {
    var p := BaseAt2To31();
    assert p[..12] == [0x47, 0, 0, 0x20, 0xb7, 0x10, 0x40, 0, 0, 0, 0, 0];
    assert ReadUInt32BE(p, 6) == 0x4000_0000;
    assert ReadUInt16BE(p, 10) == 0;
  }
}

/** The 2ping responder: answers an inbound datagram that requests a reply
    with a reply built in a fixed 128-byte buffer, and can draw its message
    ids from the Mersenne Twister when the platform has no other source of
    randomness. */
module TwoPing {
  import opened Bytes
  import opened Checksum
  import opened Mersenne

  // ---------------------------------------------------------------------
  // Big-endian integers, as `struct` packs and unpacks them.

  /** `struct.pack('!H', x)`. */
  function Pack16(x: nat): (r: seq<byte>)
    requires x < 0x10000
    ensures |r| == 2
  {
    [x / 0x100, x % 0x100]
  }

  /** `struct.unpack_from('!H', s, off)[0]`. */
  function Unpack16(s: seq<byte>, off: nat): (x: nat)
    requires off + 2 <= |s|
    ensures x < 0x10000
  {
    s[off] as int * 0x100 + s[off + 1]
  }

  /** `struct.pack('!I', x)`: the high half, then the low half. */
  function Pack32(x: nat): (r: seq<byte>)
    requires x < TwoTo32
    ensures |r| == 4
  {
    Pack16(x / 0x1_0000) + Pack16(x % 0x1_0000)
  }

  /** The value four big-endian bytes stand for. */
  function Unpack32(s: seq<byte>): nat
    requires |s| == 4
  {
    ((s[0] as int * 0x100 + s[1]) * 0x100 + s[2]) * 0x100 + s[3]
  }

  /** Unpacking undoes packing, 16-bit. */
  lemma Pack16RoundTrip(x: nat)
    requires x < 0x10000
    ensures Unpack16(Pack16(x), 0) == x
  {
  }

  /** Unpacking undoes packing, 32-bit. */
  lemma Pack32RoundTrip(x: nat)
    requires x < TwoTo32
    ensures Unpack32(Pack32(x)) == x
  {
    var hi, lo := x / 0x1_0000, x % 0x1_0000;
    var r := Pack32(x);
    assert r[0] as int * 0x100 + r[1] == hi;
    assert r[2] as int * 0x100 + r[3] == lo;
  }

  /** The tails that mturandom writes for a remainder of 2 and 1 are the low
      two bytes and the low byte of the 32-bit packing. */
  lemma PackLowBytes(x: nat)
    requires x < TwoTo32
    ensures Pack16(x % 0x10000) == Pack32(x)[2..]
    ensures [x % 0x100] == Pack32(x)[3..]
  {
    var lo := x % 0x1_0000;
    assert Pack32(x)[2..] == Pack16(lo);
    assert lo % 0x100 == x % 0x100 by {
      assert x == 0x100 * (0x100 * (x / 0x1_0000) + lo / 0x100) + lo % 0x100;
    }
  }

  // ---------------------------------------------------------------------
  // mturandom.

  /** The first n outputs of the generator started in st, each packed
      big-endian, one after another. */
  ghost function Stream(st: GenState, n: nat): (r: seq<byte>)
    requires ValidState(st)
    ensures |r| == 4 * n
  {
    if n == 0 then [] else Stream(st, n - 1) + Pack32(Draw(st, n - 1))
  }

  /** The b bytes mturandom returns from generator state st: b / 4 packed
      outputs, then the low b % 4 bytes of one more output when b is not a
      multiple of four. */
  ghost function RandomBytes(st: GenState, b: nat): (r: seq<byte>)
    requires ValidState(st)
    ensures |r| == b
  {
    Stream(st, b / 4) + (if b % 4 == 0 then [] else Pack32(Draw(st, b / 4))[4 - b % 4..])
  }

  /** RandomBytes as the packing loop and the tail produce it. */
  lemma RandomBytesSplit(st: GenState, b: nat)
    requires ValidState(st)
    ensures var q, r := b / 4, b % 4;
            4 * q + r == b && (b + 3) / 4 == (if r == 0 then q else q + 1) &&
            RandomBytes(st, b) == if r == 0 then Stream(st, q) + Zeros(0)
                                  else Stream(st, q) + Pack32(Output(Advance(st, q)))[4 - r..]
  {
    assert Stream(st, b / 4) + Zeros(0) == Stream(st, b / 4);
  }

  /** Byte k of the stream is byte k % 4 of output k / 4. */
  lemma {:induction false} StreamAt(st: GenState, n: nat, k: nat)
    requires ValidState(st) && k < 4 * n
    ensures Stream(st, n)[k] == Pack32(Draw(st, k / 4))[k % 4]
  {
    if k < 4 * (n - 1) {
      StreamAt(st, n - 1, k);
    } else {
      assert k / 4 == n - 1;
    }
  }

  /** mturandom's output, byte by byte: bytes 4i..4i+3 are output i packed
      big-endian, and the last b % 4 bytes are the low bytes of output b / 4;
      so exactly (b + 3) / 4 outputs are used. */
  lemma RandomBytesAt(st: GenState, b: nat)
    requires ValidState(st)
    ensures forall k :: 0 <= k < 4 * (b / 4) ==>
              RandomBytes(st, b)[k] == Pack32(Draw(st, k / 4))[k % 4]
    ensures forall k :: 4 * (b / 4) <= k < b ==>
              RandomBytes(st, b)[k] == Pack32(Draw(st, b / 4))[k + 4 - b]
    ensures (b + 3) / 4 == b / 4 + (if b % 4 == 0 then 0 else 1)
  {
    forall k | 0 <= k < 4 * (b / 4)
      ensures RandomBytes(st, b)[k] == Pack32(Draw(st, k / 4))[k % 4]
    {
      StreamAt(st, b / 4, k);
    }
  }

  // ---------------------------------------------------------------------
  // parse_packet.

  /** What parse_packet makes of a datagram: no answer, an answer, or the
      `struct.error` raised when a datagram with the right magic number is
      too short for a field it reads. */
  datatype Verdict = Drop | Answer | StructError

  /** The program version a responder advertises unless configured
      otherwise: the ASCII bytes of "2ping MicroPython". */
  const DefaultProgramVersion: seq<byte> :=
    [0x32, 0x70, 0x69, 0x6e, 0x67, 0x20, 0x4d, 0x69, 0x63, 0x72, 0x6f,
     0x50, 0x79, 0x74, 0x68, 0x6f, 0x6e]

  /** The default version fits the reply buffer and its length byte. */
  lemma DefaultProgramVersionFits()
    ensures |DefaultProgramVersion| == 17
    ensures |DefaultProgramVersion| <= 100 && 6 + |DefaultProgramVersion| <= 255
  {
  }

  /** The 2ping magic number. */
  const Magic: seq<byte> := [0x32, 0x50]

  /** The bytes the checksum of a datagram is computed over: the datagram
      with its checksum field zeroed. */
  function Zeroed(p: seq<byte>): (z: seq<byte>)
    requires |p| >= 4
    ensures |z| == |p| && z[..2] == Magic && z[2] == 0 && z[3] == 0 && z[4..] == p[4..]
  {
    Magic + [0, 0] + p[4..]
  }

  /** The checksum field is either absent (zero) or matches the datagram. */
  predicate ChecksumAccepted(p: seq<byte>)
    requires |p| >= 4
  {
    var c := Unpack16(p, 2);
    c == 0 || c == TwopingChecksum(Zeroed(p))
  }

  /** Bit 0x0001 of the opcode flags: the sender asks for a reply. */
  predicate ReplyRequested(p: seq<byte>)
    requires |p| >= 12
  {
    Unpack16(p, 10) % 2 == 1
  }

  /** The decision of parse_packet, in the order it checks. */
  function Classify(p: seq<byte>): (v: Verdict)
    ensures (|p| < 2 || p[..2] != Magic) ==> v == Drop
    ensures v == StructError <==>
              2 <= |p| < 12 && p[..2] == Magic && (|p| < 4 || ChecksumAccepted(p))
    ensures v == Answer <==>
              |p| >= 12 && p[..2] == Magic && ChecksumAccepted(p) && ReplyRequested(p)
  {
    if |p| < 2 || p[..2] != Magic then Drop
    else if |p| < 4 then StructError
    else if !ChecksumAccepted(p) then Drop
    else if |p| < 12 then StructError
    else if !ReplyRequested(p) then Drop
    else Answer
  }

  /** The reply before its checksum is patched in: header, In-Reply-To
      field and Extended field with the program version, zero-padded to 128
      bytes. */
  function ReplyBody(id: seq<byte>, inId: seq<byte>, version: seq<byte>): (r: seq<byte>)
    requires |id| == 6 && |inId| == 6 && |version| <= 100
    ensures |r| == 128
  {
    var n := |version|;
    Magic + [0, 0] + id + [0x80, 0x02] + [0x00, 0x06] + inId
      + [0x00, 6 + n] + [0x32, 0x50, 0x56, 0x4e] + [0x00, n] + version
      + Zeros(100 - n)
  }

  /** The reply parse_packet leaves in its buffer: the body with its
      checksum stored big-endian at bytes 2..3. */
  function Reply(id: seq<byte>, inId: seq<byte>, version: seq<byte>): (r: seq<byte>)
    requires |id| == 6 && |inId| == 6 && |version| <= 100
    ensures |r| == 128
  {
    var body := ReplyBody(id, inId, version);
    Splice(body, 2, Pack16(TwopingChecksum(body)))
  }

  /** The body, field by field. */
  lemma ReplyBodyFields(id: seq<byte>, inId: seq<byte>, version: seq<byte>)
    requires |id| == 6 && |inId| == 6 && |version| <= 100
    ensures var r, n := ReplyBody(id, inId, version), |version|;
            r[0..2] == Magic && r[2..4] == [0, 0] && r[4..10] == id &&
            r[10..12] == [0x80, 0x02] && r[12..14] == [0x00, 0x06] &&
            r[14..20] == inId && r[20..22] == [0x00, 6 + n] &&
            r[22..26] == [0x32, 0x50, 0x56, 0x4e] && r[26..28] == [0x00, n] &&
            r[28..28 + n] == version && r[28 + n..] == Zeros(100 - n)
  {
  }

  /** The reply, field by field. */
  lemma ReplyLayout(id: seq<byte>, inId: seq<byte>, version: seq<byte>)
    requires |id| == 6 && |inId| == 6 && |version| <= 100
    ensures var r, n := Reply(id, inId, version), |version|;
            r[0..2] == Magic && r[4..10] == id &&
            r[10..12] == [0x80, 0x02] && r[12..14] == [0x00, 0x06] &&
            r[14..20] == inId && r[20..22] == [0x00, 6 + n] &&
            r[22..26] == [0x32, 0x50, 0x56, 0x4e] && r[26..28] == [0x00, n] &&
            r[28..28 + n] == version &&
            forall k :: 28 + n <= k < 128 ==> r[k] == 0
  {
    var body, n := ReplyBody(id, inId, version), |version|;
    var r := Reply(id, inId, version);
    assert r[4..] == body[4..];
    assert r[..2] == body[..2];
  }

  /** The checksum over the whole zero-padded buffer is the checksum over its
      first 28 + n bytes, the part that carries data. */
  lemma ReplyChecksumOfPrefix(id: seq<byte>, inId: seq<byte>, version: seq<byte>)
    requires |id| == 6 && |inId| == 6 && |version| <= 100
    ensures var body := ReplyBody(id, inId, version);
            TwopingChecksum(body) == TwopingChecksum(body[..28 + |version|])
  {
    var body, n := ReplyBody(id, inId, version), |version|;
    assert body == body[..28 + n] + Zeros(100 - n);
    ZeroPaddingNeutral(body[..28 + n], 100 - n);
  }

  /** A reply fed back to parse_packet carries a nonzero checksum that the
      check accepts, and does not request a reply, so it is not answered. */
  lemma ReplyRoundTrip(id: seq<byte>, inId: seq<byte>, version: seq<byte>)
    requires |id| == 6 && |inId| == 6 && |version| <= 100
    ensures var r := Reply(id, inId, version);
            Unpack16(r, 2) != 0 && ChecksumAccepted(r) &&
            !ReplyRequested(r) && Classify(r) == Drop
  {
    var body := ReplyBody(id, inId, version);
    var r := Reply(id, inId, version);
    var c := TwopingChecksum(body);
    assert r[2..4] == Pack16(c);
    Pack16RoundTrip(c);
    assert Zeroed(r) == body by {
      assert r[4..] == body[4..];
      assert body == body[..4] + body[4..];
    }
    assert r[..2] == Magic by {
      assert r[..2] == body[..2];
    }
  }

  /** `opcode_flags & 0x0001` is the low bit of the flags. */
  lemma AndOneIsLowBit(x: nat)
    ensures And(x, 1) == x % 2
  {
    if x != 0 {
      assert And(x / 2, 0) == 0;
    }
  }

  /** The loop of mturandom: q outputs of g packed big-endian into the
      first 4 * q bytes of a zeroed buffer. */
  method PackWords(g: MT19937, a: array<byte>, q: nat)
    requires g.Valid() && 4 * q <= a.Length && a[..] == Zeros(a.Length)
    modifies g`index, g.mt, a
    ensures g.Valid()
    ensures g.State() == Advance(old(g.State()), q)
    ensures a[..] == Stream(old(g.State()), q) + Zeros(a.Length - 4 * q)
  {
    ghost var st := g.State();
    assert a[..] == Stream(st, 0) + Zeros(a.Length);
    for i := 0 to q
      invariant g.Valid() && g.State() == Advance(st, i)
      invariant a[..] == Stream(st, i) + Zeros(a.Length - 4 * i)
    {
      var x := g.ExtractNumber();
      WriteAfter(a, Stream(st, i), 4 * i, Pack32(x));
    }
  }

  /** The tail of mturandom: the low r bytes of one more output of g,
      written after the bytes already packed into a. */
  method PackTail(g: MT19937, a: array<byte>, ghost prefix: seq<byte>, r: nat)
    requires g.Valid() && 1 <= r <= 3 && a.Length == |prefix| + r
    requires a[..] == prefix + Zeros(r)
    modifies g`index, g.mt, a
    ensures g.Valid() && g.State() == NextState(old(g.State()))
    ensures a[..] == prefix + Pack32(Output(old(g.State())))[4 - r..]
  {
    var x := g.ExtractNumber();
    var tail: seq<byte>;
    if r == 3 {
      tail := Pack32(x)[1..];
    } else if r == 2 {
      tail := Pack16(x % 0x10000);
    } else {
      tail := [x % 0x100];
    }
    assert tail == Pack32(x)[4 - r..] by {
      PackLowBytes(x);
    }
    WriteAfter(a, prefix, a.Length - r, tail);
  }

  /** The body of mturandom once the generator exists: b / 4 outputs of g
      packed big-endian into a zeroed buffer of b bytes, then the low b % 4
      bytes of one more output into its last bytes. */
  method PackOutputs(g: MT19937, b: nat) returns (out: seq<byte>)
    requires g.Valid()
    modifies g`index, g.mt
    ensures g.Valid()
    ensures out == RandomBytes(old(g.State()), b)
    ensures g.State() == Advance(old(g.State()), (b + 3) / 4)
  {
    var a := new byte[b](_ => 0);
    ghost var st := g.State();
    var q := b / 4;
    var remainder := b % 4;
    RandomBytesSplit(st, b);
    PackWords(g, a, q);
    if remainder != 0 {
      PackTail(g, a, Stream(st, q), remainder);
    }
    out := a[..];
  }

  /** The responder object. The reply buffer is created once and rewritten
      in place for every reply; the generator is created on first use. */
  class TwoPingMicro {
    var programVersion: seq<byte>
    var replyPacket: array<byte>
    var gen: MT19937?

    ghost predicate Valid()
      reads this, gen, if gen != null then {gen.mt} else {}
    {
      replyPacket.Length == 128 && (gen != null ==> gen.Valid())
    }

    /** A responder advertising the given program version, with a zeroed
        128-byte reply buffer and no generator yet. */
    constructor (version: seq<byte>)
      ensures Valid() && fresh(replyPacket)
      ensures programVersion == version && gen == null
      ensures replyPacket[..] == Zeros(128)
    {
      programVersion := version;
      replyPacket := new byte[128](_ => 0);
      gen := null;
    }

    /** b pseudo-random bytes from the Mersenne Twister, which is seeded
        with `seed` (the current time, in the source) if it does not exist
        yet. */
    method Mturandom(b: nat, seed: nat) returns (out: seq<byte>)
      requires Valid()
      modifies this, gen, if gen != null then {gen.mt} else {}
      ensures Valid() && gen != null
      ensures replyPacket == old(replyPacket) && programVersion == old(programVersion)
      ensures old(gen) != null ==> gen == old(gen) && gen.mt == old(gen.mt)
      ensures old(gen) == null ==> fresh(gen) && fresh(gen.mt)
      ensures var st := if old(gen) == null then InitState(seed) else old(gen.State());
              out == RandomBytes(st, b) && gen.State() == Advance(st, (b + 3) / 4)
    {
      if gen == null {
        gen := new MT19937(seed);
      }
      out := PackOutputs(gen, b);
    }

    /** Builds the reply in place: zeroes the buffer, writes the header,
        the In-Reply-To field echoing `messageId` and the Extended field with
        the program version, then patches in the checksum of the whole
        buffer. */
    method WriteReply(replyId: seq<byte>, messageId: seq<byte>)
      requires replyPacket.Length == 128 && |replyId| == 6 && |messageId| == 6
      requires |programVersion| <= 100 && 6 + |programVersion| <= 255
      modifies replyPacket
      ensures replyPacket[..] == Reply(replyId, messageId, programVersion)
    {
      for i := 0 to replyPacket.Length
        invariant forall k :: 0 <= k < i ==> replyPacket[k] == 0
      {
        replyPacket[i] := 0;
      }
      ghost var full := ReplyBody(replyId, messageId, programVersion);
      ReplyBodyFields(replyId, messageId, programVersion);
      var n := |programVersion|;
      assert replyPacket[..] == full[..0] + Zeros(128);
      WriteNext(replyPacket, full, 0, 0, Magic);
      WriteNext(replyPacket, full, 2, 4, replyId);
      WriteNext(replyPacket, full, 10, 10, [0x80, 0x02]);
      WriteNext(replyPacket, full, 12, 12, [0x00, 0x06]);
      WriteNext(replyPacket, full, 14, 14, messageId);
      WriteNext(replyPacket, full, 20, 20, [0x00, 4 + 2 + n]);
      WriteNext(replyPacket, full, 22, 22, [0x32, 0x50, 0x56, 0x4e]);
      WriteNext(replyPacket, full, 26, 26, [0x00, n]);
      WriteNext(replyPacket, full, 28, 28, programVersion);
      assert replyPacket[..] == full;
      var checksum := ComputeChecksum(replyPacket[..]);
      CopyInto(replyPacket, 2, Pack16(checksum));
    }

    /** Validates an inbound datagram and, when it asks for a reply, builds
        the reply in the shared buffer and returns that buffer. `replyId` is
        the fresh message id the platform's randomness supplies. */
    method ParsePacket(packet: seq<byte>, replyId: seq<byte>) returns (v: Verdict, reply: array?<byte>)
      requires Valid() && |replyId| == 6
      requires |programVersion| <= 100 && 6 + |programVersion| <= 255
      modifies replyPacket
      ensures Valid()
      ensures v == Classify(packet)
      ensures v == Answer ==>
                reply == replyPacket && replyPacket[..] == Reply(replyId, packet[4..10], programVersion)
      ensures v != Answer ==> reply == null && replyPacket[..] == old(replyPacket[..])
    {
      if |packet| < 2 || packet[..2] != Magic {
        return Drop, null;
      }
      if |packet| < 4 {
        return StructError, null;
      }
      var packetChecksum := Unpack16(packet, 2);
      if packetChecksum != 0 {
        assert [0x32, 0x50, 0x00, 0x00] + packet[4..] == Zeroed(packet);
        var c := ComputeChecksum([0x32, 0x50, 0x00, 0x00] + packet[4..]);
        if c != packetChecksum {
          return Drop, null;
        }
      }
      var messageId := if |packet| >= 10 then packet[4..10] else packet[4..];
      if |packet| < 12 {
        return StructError, null;
      }
      var opcodeFlags := Unpack16(packet, 10);
      AndOneIsLowBit(opcodeFlags);
      if And(opcodeFlags, 0x0001) == 0 {
        return Drop, null;
      }
      WriteReply(replyId, messageId);
      return Answer, replyPacket;
    }
  }
}

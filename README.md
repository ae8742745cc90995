# 2ping MicroPython responder, modelled in Dafny

A model of the core of `twopingmicro.py`, a small responder for the 2ping
protocol. When a datagram that asks for a reply arrives, the responder
answers it with a reply built in a fixed 128-byte buffer. The model and its
proofs cover four parts:

- **The 2ping checksum** (`checksum.dfy`, module `Checksum`). This is a
  16-bit one's-complement sum of big-endian words. The source computes it
  with one accumulation loop, two carry folds, a complement, and 0
  reported as 0xffff. `ComputeChecksum` is that loop. It is proved equal to
  the function `TwopingChecksum`, which is in turn proved equal to a
  reference definition: the end-around-carry sum of the big-endian words.
  This holds for every input up to 64 KiB, the bound the source's own
  comment names.
- **The MT19937 Mersenne Twister** (`mt19937.dfy`, module `Mersenne`). This
  is the generator the responder falls back on when the platform has no
  operating-system randomness. The class `MT19937` keeps the 624 state
  words in an array. Its seeding, `Twist` and `ExtractNumber` rewrite that
  array in place. Each method is proved against an abstract generator:
  `InitState`, `NextState`, `Output`, `Advance`, and the recurrence `Term`
  that the in-place twist computes.
- **`mturandom`** (`responder.dfy`, module `TwoPing`). It packs generator
  outputs big-endian into a buffer of b bytes. If b is not a multiple of
  four, it then writes the low b % 4 bytes of one more output. The result
  is proved equal to `RandomBytes`. `RandomBytesAt` characterises that
  function byte by byte.
- **`parse_packet`** (`responder.dfy`). It checks the magic number and,
  when one is present, the checksum. It then reads the opcode flags and,
  when bit 0 asks for a reply, rebuilds the reply in the shared buffer.
  That reply holds:
  - a fresh message id;
  - the In-Reply-To field, echoing the datagram's message id;
  - an Extended field advertising the program version;
  - the checksum, patched in last.

  The decision is proved equal to `Classify`, and the buffer contents to
  `Reply`. A reply fed back to the classifier carries a nonzero checksum
  that the check accepts, and it does not ask for a reply, so it is never
  answered.

`bytes.dfy` (module `Bytes`) holds the byte type and the slice assignment
that the responder performs on its buffers.

Python integers are unbounded, so state words are `nat`. The bitwise
operators `^` and `&` are defined bit by bit on naturals (`Xor`, `And`).
Values are reduced to 32 bits exactly where the source calls `_int32`. As
a result, word 0 of a freshly seeded state is the seed itself, unreduced,
just as in the source.

The code differs from the protocol's stated behaviour in one place. A
datagram that carries the right magic number but is shorter than a field
the code reads (4 bytes for the checksum, 12 for the opcode flags) makes
`struct.unpack_from` raise `struct.error`. The code does not catch it:
`run()` re-raises it. The model follows the code, so this outcome is its
own verdict, `StructError`, distinct from `Drop`.

## Model

| member | source | states |
|---|---|---|
| Checksum.ComputeChecksum | twopingmicro.py:40-63 | The accumulation loop, the two folds and the complement return `TwopingChecksum(d)`; the result always lies in 1..0xffff because 0 is reported as 0xffff |
| Checksum.TwopingChecksum | twopingmicro.py:56-63 | Whatever the input and its length, the checksum lies in 1..0xffff |
| Checksum.Complement16 | twopingmicro.py:58 | `~x & 0xffff` equals 0xffff minus the low 16 bits of x, and equals 0xffff - x for a 16-bit x |
| Checksum.FoldsFit | twopingmicro.py:41-57 | For inputs of at most 64 KiB, the running sum stays below 2^32, and after the two folds it fits in 16 bits |
| Checksum.FoldTwiceIsEndAround | twopingmicro.py:56-57 | For a sum below 2^32, the two folds give its one's-complement value: 0 for 0, otherwise the value in 1..0xffff congruent to it modulo 0xffff |
| Checksum.RawSumIsWordSum | twopingmicro.py:50-54 | The byte-by-byte loop sum equals the plain sum of the big-endian 16-bit words; an odd trailing byte counts as a high byte |
| Checksum.OnesSumIsEndAround | twopingmicro.py:41-47 | The reference end-around-carry sum of the words equals the one's-complement value of their plain sum |
| Checksum.ChecksumIsOnesComplement | twopingmicro.py:40-63 | For inputs of at most 64 KiB, the checksum is the one's complement of the end-around-carry sum of the big-endian words, with 0 reported as 0xffff |
| Checksum.ZeroPaddingNeutral | twopingmicro.py:50-54 | Appending zero bytes to the input leaves the checksum unchanged |
| Bytes.Splice | twopingmicro.py:210 | After a slice assignment, positions outside the slice are unchanged and positions inside it hold the source bytes |
| Bytes.CopyInto | twopingmicro.py:210-225 | The slice assignment on the buffer, done in place, leaves the buffer equal to `Splice` of its old contents |
| Mersenne.Int32 | twopingmicro.py:67-69 | `_int32(x)` is below 2^32 and congruent to x modulo 2^32 |
| Mersenne.InitStep | twopingmicro.py:77-78 | Each seeding step produces a 32-bit word |
| Mersenne.InitWord | twopingmicro.py:75-78 | Word 0 of the seeded state is the seed itself; every later word is below 2^32 |
| Mersenne.Temper | twopingmicro.py:84-97 | The tempered output of any state word is below 2^32 |
| Mersenne.Term | twopingmicro.py:99-110 | The first 624 terms of the recurrence are the current words |
| Mersenne.TermStep | twopingmicro.py:103-110 | Term 624 + i is the new word made from terms i, i + 1 and i + 397 |
| Mersenne.Twisted | twopingmicro.py:99-111 | The twisted state holds 624 words; word i is term 624 + i of the recurrence |
| Mersenne.InitState | twopingmicro.py:71-78 | The seeded state has 624 words, starts at read position 624 (so the first draw twists), and keeps the seed as word 0 |
| Mersenne.Refreshed | twopingmicro.py:81-82 | A draw twists first exactly when the read position has reached 624, and then reads a position below 624 |
| Mersenne.NextState | twopingmicro.py:80-95 | After a draw, the read position is 1 if the state was twisted and one further on otherwise; the words are the twisted words or unchanged accordingly |
| Mersenne.Output | twopingmicro.py:80-97 | Every drawn number is below 2^32 |
| Mersenne.IndexCycle | twopingmicro.py:73-111 | From a fresh seeding, after n >= 1 draws the read position is (n - 1) % 624 + 1, so the generator twists exactly on draws 0, 624, 1248, ... |
| Mersenne.CycleStep | twopingmicro.py:81-95 | The read-position arithmetic of one draw moves (m - 1) % 624 + 1 to m % 624 + 1 |
| Mersenne.Seeded | twopingmicro.py:74-78 | The seeding loop fills a fresh array with exactly the words of `InitState(seed)` |
| Mersenne.MT19937.constructor | twopingmicro.py:71-78 | The new generator's state is `InitState(seed)`: read position 624, word 0 the seed |
| Mersenne.MT19937.Twist | twopingmicro.py:99-111 | The in-place pass, whose later steps read words that earlier steps have already replaced, leaves the array equal to `Twisted` of its old contents, with read position 0 |
| Mersenne.MT19937.ExtractNumber | twopingmicro.py:80-97 | Returns `Output` of the old state and moves to `NextState`; the number is below 2^32 and the read position ends in 1..624 |
| TwoPing.Pack16RoundTrip | twopingmicro.py:165 | Unpacking a `!H` packing gives back the value |
| TwoPing.Pack32RoundTrip | twopingmicro.py:160 | Unpacking a `!I` packing gives back the value |
| TwoPing.PackLowBytes | twopingmicro.py:163-167 | The `!H` packing of x % 65536 and the `!B` packing of x % 256 are the last two bytes and the last byte of the `!I` packing of x |
| TwoPing.Stream | twopingmicro.py:159-160 | n packed outputs take exactly 4n bytes |
| TwoPing.RandomBytes | twopingmicro.py:155-168 | mturandom's result has exactly b bytes |
| TwoPing.RandomBytesSplit | twopingmicro.py:159-167 | The result is the loop's b / 4 packed outputs, followed, only when b % 4 is nonzero, by the last b % 4 bytes of the next output; (b + 3) / 4 outputs are drawn in all |
| TwoPing.StreamAt | twopingmicro.py:159-160 | Byte k of the packed stream is byte k % 4 of output k / 4 |
| TwoPing.RandomBytesAt | twopingmicro.py:155-168 | Bytes 4i..4i+3 of the result are output i, packed big-endian; the last b % 4 bytes are the low bytes of output b / 4 |
| TwoPing.PackWords | twopingmicro.py:159-160 | The loop writes the first q outputs into the first 4q bytes of the zeroed buffer, leaves the rest zero, and advances the generator by q draws |
| TwoPing.PackTail | twopingmicro.py:161-167 | For remainder r in 1..3, the tail writes the last r bytes of the next output's `!I` packing into the last r bytes, and draws once |
| TwoPing.PackOutputs | twopingmicro.py:156-168 | The buffer returned equals `RandomBytes` of the generator's old state, and the generator has advanced by (b + 3) / 4 draws |
| TwoPing.TwoPingMicro.Mturandom | twopingmicro.py:155-168 | Creates the generator from the seed on first use and keeps it afterwards; returns `RandomBytes` of the generator's state before the call, which is advanced by (b + 3) / 4 draws |
| TwoPing.DefaultProgramVersionFits | twopingmicro.py:119 | The default program version has 17 bytes, so it fits the reply buffer and its length byte |
| TwoPing.Zeroed | twopingmicro.py:181 | The bytes the checksum is checked over: the datagram, with the magic number in front and the checksum field zeroed |
| TwoPing.Classify | twopingmicro.py:170-200 | A datagram without the magic number is dropped. `struct.error` is raised exactly when the magic is right, the datagram is shorter than 12 bytes, and either it is shorter than 4 bytes or its checksum is absent or correct. A reply is sent exactly when the magic is right, length >= 12, the checksum is absent or correct, and flag bit 0 is set |
| TwoPing.ReplyBody | twopingmicro.py:206-225 | The reply before its checksum is patched in is exactly 128 bytes |
| TwoPing.ReplyBodyFields | twopingmicro.py:210-225 | The fields of the reply body lie at their fixed offsets, and the remaining bytes are zero |
| TwoPing.Reply | twopingmicro.py:229-231 | The finished reply is exactly 128 bytes |
| TwoPing.ReplyLayout | twopingmicro.py:206-231 | Field by field, the finished reply holds: the magic number, the fresh id, flags 0x8002, In-Reply-To of length 6 with the datagram's id, an Extended field of length 6 + n with ext id 0x3250564e, an inner length n and the version; all bytes after 28 + n are zero |
| TwoPing.ReplyChecksumOfPrefix | twopingmicro.py:206-231 | The checksum over the whole zero-padded buffer equals the checksum over its first 28 + n bytes |
| TwoPing.ReplyRoundTrip | twopingmicro.py:175-231 | A reply given back to parse_packet has a nonzero checksum field that the check accepts and does not request a reply, so it is classified `Drop` |
| TwoPing.AndOneIsLowBit | twopingmicro.py:197 | `opcode_flags & 0x0001` is the low bit of the flags |
| TwoPing.TwoPingMicro.constructor | twopingmicro.py:119-125 | The responder starts with a zeroed 128-byte reply buffer, the given program version and no generator |
| TwoPing.TwoPingMicro.WriteReply | twopingmicro.py:206-231 | Zeroing the buffer, then writing the fields and patching in the checksum, leaves the buffer equal to `Reply` of the fresh id, the datagram's id and the program version |
| TwoPing.TwoPingMicro.ParsePacket | twopingmicro.py:170-233 | The verdict is `Classify(packet)`. An `Answer` returns the shared buffer, holding `Reply(replyId, packet[4..10], version)`. Every other verdict returns nothing and leaves the buffer untouched |

## Left out

- `run()` and `close()`: socket creation, the receive/send loop, address handling and garbage collection are network I/O and are not modelled.
- The LED handling in the constructor and `run()` drives hardware pins and is not modelled.
- The configuration dictionary the constructor applies with `setattr` is reduced to one setting: the program version passed to the constructor.
- The choice between `os.urandom` and `mturandom` is not modelled. `ParsePacket` takes the 6-byte reply id it would draw as the parameter `replyId`; `Mturandom` models the fallback source on its own.
- `time.time()` is the clock. `Mturandom` takes the seed it would read as the parameter `seed`, a natural number.
- Debug `print` output is left out (it has no effect on state).
- `Mturandom`: the loop bound `int(b / 4)` is modelled as exact integer division. The source divides in floating point, which differs from it only for b beyond 2^53.
- `_reply_packet` is a class attribute, so in Python every responder object shares one buffer. The model gives each `TwoPingMicro` object its own buffer. Sharing between objects is not captured.
- `memoryview` and the `bytes(...)` copies are representation details; the model works on byte sequences.
- `TwoPing.TwoPingMicro.ParsePacket` and `WriteReply` require a program version of at most 100 bytes with 6 + n <= 255. For a longer version, `bytes([0x00, 4+2+n])` raises or the slice assignment grows the buffer past 128 bytes. Neither path is modelled.
- The model proves no bound stating that twisted state words are below 2^32. Drawn numbers are bounded through the final `_int32`, which is all the callers rely on.
- Tempering is not proved invertible, and no statistical property of the generator is stated.


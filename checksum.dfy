/** The 2ping checksum: a 16-bit one's-complement sum of big-endian words,
    of the same family as the Internet checksum of RFC 1071 section 1. */
module Checksum {
  import opened Bytes

  /** A 16-bit word. */
  type word = x: int | 0 <= x < 0x10000

  /** What byte b at position i adds to the running sum: an even position is
      the high byte of a big-endian word, an odd position the low byte. */
  function Weight(i: nat, b: byte): nat
  {
    if i % 2 == 1 then b else b as int * 0x100
  }

  /** The running sum once the accumulation loop has consumed all of d. */
  function RawSum(d: seq<byte>): nat
  {
    if |d| == 0 then 0 else RawSum(d[..|d| - 1]) + Weight(|d| - 1, d[|d| - 1])
  }

  /** One carry fold: `(x >> 16) + (x & 0xffff)`. */
  function Fold(x: nat): nat
  {
    x / 0x10000 + x % 0x10000
  }

  /** `~x & 0xffff`: the bitwise complement of x, truncated to 16 bits. */
  function Complement16(x: nat): (r: word)
    ensures r == 0xffff - x % 0x10000
    ensures x <= 0xffff ==> r == 0xffff - x
  {
    var v: int := -(x as int) - 1;
    v % 0x10000
  }

  /** The value the checksum function returns for the bytes d. */
  function TwopingChecksum(d: seq<byte>): (r: nat)
    ensures 1 <= r <= 0xffff
  {
    var c := Complement16(Fold(Fold(RawSum(d))));
    if c == 0 then 0xffff else c
  }

  /** The checksum function: one pass over the bytes, two folds, complement,
      and 0 reported as 0xffff. */
  method ComputeChecksum(d: seq<byte>) returns (checksum: nat)
    ensures checksum == TwopingChecksum(d)
    ensures 1 <= checksum <= 0xffff
  {
    checksum := 0;
    for i := 0 to |d|
      invariant checksum == RawSum(d[..i])
    {
      assert d[..i + 1][..i] == d[..i];
      if i % 2 == 1 {
        checksum := checksum + d[i];
      } else {
        checksum := checksum + d[i] as int * 0x100;
      }
    }
    assert d[..|d|] == d;
    checksum := checksum / 0x10000 + checksum % 0x10000;
    checksum := checksum / 0x10000 + checksum % 0x10000;
    checksum := Complement16(checksum);
    if checksum == 0 {
      checksum := 0xffff;
    }
  }

  // ---------------------------------------------------------------------
  // Reference definition: the one's-complement sum of big-endian words.

  /** d cut into big-endian 16-bit words; an odd trailing byte is the high
      byte of a last word whose low byte is zero. */
  function Words(d: seq<byte>): (ws: seq<word>)
    ensures |ws| == (|d| + 1) / 2
  {
    if |d| == 0 then []
    else if |d| == 1 then [d[0] as int * 0x100]
    else [d[0] as int * 0x100 + d[1]] + Words(d[2..])
  }

  /** Plain integer sum of words. */
  function WordSum(ws: seq<word>): nat
  {
    if ws == [] then 0 else ws[0] + WordSum(ws[1..])
  }

  /** One's-complement addition of 16-bit values: a carry out of bit 15 is
      added back in at bit 0. */
  function OnesAdd(a: word, b: word): (r: word)
    ensures a + b == r || a + b == r + 0xffff
  {
    if a + b > 0xffff then a + b - 0xffff else a + b
  }

  /** The end-around-carry sum of a sequence of words. */
  function OnesSum(ws: seq<word>): word
  {
    if ws == [] then 0 else OnesAdd(ws[0], OnesSum(ws[1..]))
  }

  /** The canonical one's-complement representative of x: 0 only for 0,
      otherwise the value in 1..0xffff congruent to x modulo 0xffff. */
  function EndAround(x: nat): (r: word)
    ensures (x == 0) == (r == 0)
  {
    if x == 0 then 0 else (x - 1) % 0xffff + 1
  }

  // ---------------------------------------------------------------------
  // Properties.

  /** Each byte adds at most 0xff00, so the loop's sum is bounded by the length. */
  lemma {:induction false} RawSumBound(d: seq<byte>)
    ensures RawSum(d) <= |d| * 0xff00
  {
    if |d| > 0 {
      RawSumBound(d[..|d| - 1]);
    }
  }

  /** For inputs of at most 64 KiB the sum fits in 32 bits and the two folds
      bring it down to 16 bits, so the final mask loses nothing. */
  lemma FoldsFit(d: seq<byte>)
    requires |d| <= 0x10000
    ensures RawSum(d) < 0x1_0000_0000
    ensures Fold(Fold(RawSum(d))) <= 0xffff
  {
    RawSumBound(d);
    FoldTwiceIsEndAround(RawSum(d));
  }

  /** When the sum fits in 32 bits, two folds give its one's-complement value. */
  lemma FoldTwiceIsEndAround(x: nat)
    requires x < 0x1_0000_0000
    ensures Fold(Fold(x)) == EndAround(x)
  {
    var h, l := x / 0x10000, x % 0x10000;
    assert x == 0xffff * h + (h + l);
    if x > 0 {
      assert h + l > 0;
      ModShift(h + l - 1, h);
      assert (x - 1) % 0xffff == (h + l - 1) % 0xffff;
    }
    var y := Fold(x);
    assert y <= 0x1fffe;
    if y >= 0x10000 {
      assert Fold(y) == y - 0xffff;
      assert (y - 1) % 0xffff == y - 1 - 0xffff;
    } else {
      assert Fold(y) == y;
      if y > 0 {
        assert (y - 1) % 0xffff == y - 1;
      }
    }
  }

  /** Adding a multiple of 0xffff does not change the residue modulo 0xffff. */
  lemma ModShift(a: nat, h: nat)
    ensures (0xffff * h + a) % 0xffff == a % 0xffff
  {
    var q, r := a / 0xffff, a % 0xffff;
    assert 0xffff * h + a == 0xffff * (h + q) + r;
  }

  /** One's-complement addition agrees with reducing the plain sum. */
  lemma OnesAddEndAround(w: word, s: nat)
    ensures OnesAdd(w, EndAround(s)) == EndAround(w + s)
  {
    if s > 0 {
      var a := EndAround(s);
      var q := (s - 1) / 0xffff;
      assert s - 1 == 0xffff * q + (a - 1);
      assert w + s - 1 == 0xffff * q + (a - 1 + w);
      ModShift(a - 1 + w, q);
      if a + w > 0xffff {
        assert (a - 1 + w) % 0xffff == a - 1 + w - 0xffff;
      } else {
        assert (a - 1 + w) % 0xffff == a - 1 + w;
      }
    } else if w > 0 {
      assert (w - 1) % 0xffff == w - 1;
    }
  }

  /** The end-around-carry sum is the canonical representative of the plain sum. */
  lemma {:induction false} OnesSumIsEndAround(ws: seq<word>)
    ensures OnesSum(ws) == EndAround(WordSum(ws))
  {
    if ws != [] {
      OnesSumIsEndAround(ws[1..]);
      OnesAddEndAround(ws[0], WordSum(ws[1..]));
    }
  }

  /** Splitting the input at an even position splits the loop's sum. */
  lemma {:induction false} RawSumAppend(a: seq<byte>, b: seq<byte>)
    requires |a| % 2 == 0
    ensures RawSum(a + b) == RawSum(a) + RawSum(b)
  {
    if |b| > 0 {
      var b' := b[..|b| - 1];
      assert (a + b)[..|a + b| - 1] == a + b';
      RawSumAppend(a, b');
    } else {
      assert a + b == a;
    }
  }

  /** The loop's byte-by-byte sum is the plain sum of the big-endian words. */
  lemma {:induction false} RawSumIsWordSum(d: seq<byte>)
    ensures RawSum(d) == WordSum(Words(d))
  {
    if |d| == 1 {
      assert d[..0] == [];
    } else if |d| >= 2 {
      assert d == d[..2] + d[2..];
      var e := d[..2];
      assert e[..1] == [d[0]];
      assert [d[0]][..0] == [];
      assert RawSum([d[0]]) == Weight(0, d[0]);
      assert RawSum(e) == RawSum(e[..1]) + Weight(1, d[1]);
      RawSumAppend(d[..2], d[2..]);
      RawSumIsWordSum(d[2..]);
    }
  }

  /** For inputs of at most 64 KiB the checksum is the one's complement of the
      end-around-carry sum of the big-endian words, with 0 reported as 0xffff. */
  lemma ChecksumIsOnesComplement(d: seq<byte>)
    requires |d| <= 0x10000
    ensures var s := OnesSum(Words(d));
            TwopingChecksum(d) == if s == 0xffff then 0xffff else 0xffff - s
  {
    var x := RawSum(d);
    FoldsFit(d);
    FoldTwiceIsEndAround(x);
    RawSumIsWordSum(d);
    OnesSumIsEndAround(Words(d));
    var s := OnesSum(Words(d));
    var y := Fold(Fold(x));
    assert y == s;
    assert Complement16(y) == 0xffff - s;
  }

  /** Appending zero bytes leaves the loop's sum unchanged. */
  lemma {:induction false} RawSumZeroPadding(d: seq<byte>, n: nat)
    ensures RawSum(d + Zeros(n)) == RawSum(d)
  {
    if n > 0 {
      assert (d + Zeros(n))[..|d| + n - 1] == d + Zeros(n - 1);
      RawSumZeroPadding(d, n - 1);
    } else {
      assert d + Zeros(0) == d;
    }
  }

  /** Zero bytes are neutral: padding the input with zeros does not change the checksum. */
  lemma ZeroPaddingNeutral(d: seq<byte>, n: nat)
    ensures TwopingChecksum(d + Zeros(n)) == TwopingChecksum(d)
  {
    RawSumZeroPadding(d, n);
  }
}

/** The MT19937 Mersenne Twister the responder falls back on when the
    platform has no operating-system randomness. Words are unbounded
    naturals, as Python integers are; reductions to 32 bits happen exactly
    where the source masks. */
module Mersenne {

  /** Number of words of generator state. */
  const N: nat := 624
  /** Distance of the word that the twist mixes in. */
  const M: nat := 397
  const TwoTo32: nat := 0x1_0000_0000

  // ---------------------------------------------------------------------
  // Python's bitwise operators on non-negative integers.

  /** `a ^ b`. */
  function Xor(a: nat, b: nat): nat
    decreases a + b, 1
  {
    XorBits(a, b)
  }

  /** `a ^ b`, one bit at a time from the least significant. */
  function XorBits(a: nat, b: nat): nat
    decreases a + b, 0
  {
    if a == 0 && b == 0 then 0 else 2 * Xor(a / 2, b / 2) + (a + b) % 2
  }

  /** `a & b`. */
  function And(a: nat, b: nat): nat
    decreases a + b, 1
  {
    AndBits(a, b)
  }

  /** `a & b`, one bit at a time from the least significant. */
  function AndBits(a: nat, b: nat): nat
    decreases a + b, 0
  {
    if a == 0 || b == 0 then 0 else 2 * And(a / 2, b / 2) + (a % 2 + b % 2) / 2
  }

  /** `0xFFFFFFFF & x`: the 32 least significant bits of x. */
  function Int32(x: int): (r: nat)
    ensures r < TwoTo32
    ensures (x - r) % TwoTo32 == 0
  {
    x % TwoTo32
  }

  // ---------------------------------------------------------------------
  // Seeding.

  /** `_int32(1812433253 * (prev ^ prev >> 30) + i)`: word i of the seeding
      recurrence from word i - 1. */
  function InitStep(prev: nat, i: nat): (r: nat)
    ensures r < TwoTo32
  {
    Int32(1812433253 * Xor(prev, prev / 0x4000_0000) + i)
  }

  /** Word i of the state right after seeding: word 0 is the seed itself,
      unreduced, and every later word is a 32-bit value. */
  function InitWord(seed: nat, i: nat): (w: nat)
    ensures i == 0 ==> w == seed
    ensures i > 0 ==> w < TwoTo32
  {
    if i == 0 then seed else InitStep(InitWord(seed, i - 1), i)
  }

  // ---------------------------------------------------------------------
  // Tempering, one function per line of the source.

  function Temper1(y: nat): nat { Xor(y, y / 0x800) }
  function Temper2(y: nat): nat { Xor(y, And(y * 0x80, 0x9d2c_5680)) }
  function Temper3(y: nat): nat { Xor(y, And(y * 0x8000, 0xefc6_0000)) }
  function Temper4(y: nat): nat { Xor(y, y / 0x4_0000) }

  /** The output word made from state word y: four tempering steps and the
      final reduction to 32 bits. */
  function Temper(y: nat): (r: nat)
    ensures r < TwoTo32
  {
    Int32(Temper4(Temper3(Temper2(Temper1(y)))))
  }

  // ---------------------------------------------------------------------
  // The twist.

  /** One step of the twist: the new word from the word being replaced (a),
      its successor (b) and the word M places on (c). */
  function NextWord(a: nat, b: nat, c: nat): nat
  {
    var y := Int32(And(a, 0x8000_0000) + And(b, 0x7fff_ffff));
    var v := Xor(c, y / 2);
    if y % 2 != 0 then Xor(v, 0x9908_b0df) else v
  }

  /** The Mersenne Twister recurrence: term k of the sequence whose first N
      terms are s, each later term made from the terms N, N-1 and N-M back. */
  ghost function Term(s: seq<nat>, k: nat): (r: nat)
    requires |s| == N
    ensures k < N ==> r == s[k]
    decreases k
  {
    if k < N then s[k]
    else NextWord(Term(s, k - N), Term(s, k - N + 1), Term(s, k - N + M))
  }

  /** Term N + i in terms of the three earlier terms it is made from. */
  lemma TermStep(s: seq<nat>, i: nat)
    requires |s| == N
    ensures Term(s, N + i) == NextWord(Term(s, i), Term(s, i + 1), Term(s, i + M))
  {
  }

  /** The state after a twist: the next N terms of the recurrence. */
  ghost function Twisted(s: seq<nat>): (t: seq<nat>)
    requires |s| == N
    ensures |t| == N
    ensures forall i :: 0 <= i < N ==> t[i] == Term(s, N + i)
  {
    seq<nat>(N, i requires 0 <= i < N => Term(s, N + i))
  }

  // ---------------------------------------------------------------------
  // The abstract generator.

  /** The abstract generator state: the words and the read position. */
  datatype GenState = GenState(words: seq<nat>, index: nat)

  /** The state invariant: N words and a read position within 0..N. */
  ghost predicate ValidState(st: GenState)
  {
    |st.words| == N && st.index <= N
  }

  /** The state right after seeding. */
  ghost function InitState(seed: nat): (st: GenState)
    ensures ValidState(st) && st.index == N && st.words[0] == seed
  {
    GenState(seq(N, i requires 0 <= i < N => InitWord(seed, i)), N)
  }

  /** The words a draw reads from: twisted first when all are used up. */
  ghost function Refreshed(st: GenState): (s: GenState)
    requires ValidState(st)
    ensures ValidState(s) && s.index < N
    ensures s == (if st.index >= N then GenState(Twisted(st.words), 0) else st)
  {
    if st.index >= N then GenState(Twisted(st.words), 0) else st
  }

  /** The state after one draw: the words twisted if they were used up, and
      the read position one further on. */
  ghost function NextState(st: GenState): (r: GenState)
    requires ValidState(st)
    ensures ValidState(r)
    ensures r.index == (if st.index >= N then 1 else st.index + 1)
    ensures r.words == (if st.index >= N then Twisted(st.words) else st.words)
  {
    var s := Refreshed(st);
    GenState(s.words, s.index + 1)
  }

  /** The number one draw hands out: the tempered word at the read position. */
  ghost function Output(st: GenState): (y: nat)
    requires ValidState(st)
    ensures y < TwoTo32
  {
    var s := Refreshed(st);
    Temper(s.words[s.index])
  }

  /** The state after n draws. */
  ghost function Advance(st: GenState, n: nat): (r: GenState)
    requires ValidState(st)
    ensures ValidState(r)
  {
    if n == 0 then st else NextState(Advance(st, n - 1))
  }

  /** Output number n (counting from 0) of the generator started in st. */
  ghost function Draw(st: GenState, n: nat): (y: nat)
    requires ValidState(st)
    ensures y < TwoTo32
  {
    Output(Advance(st, n))
  }

  /** From a fresh seeding the read position cycles through 1..N, so the
      generator twists exactly on draws 0, N, 2N, ... */
  lemma IndexCycle(seed: nat, n: nat)
    requires n >= 1
    ensures Advance(InitState(seed), n).index == (n - 1) % N + 1
  {
    IndexCycleFrom(InitState(seed), n);
  }

  /** The same for any state whose words are used up. */
  lemma {:induction false} IndexCycleFrom(st: GenState, n: nat)
    requires ValidState(st) && st.index == N && n >= 1
    ensures Advance(st, n).index == (n - 1) % N + 1
  {
    if n > 1 {
      IndexCycleFrom(st, n - 1);
      var prev := Advance(st, n - 1);
      assert Advance(st, n) == NextState(prev);
      CycleStep(n - 1);
    }
  }

  /** The arithmetic of one step of IndexCycleFrom. */
  lemma CycleStep(m: nat)
    requires m >= 1
    ensures var p := (m - 1) % N + 1;
            (if p >= N then 1 else p + 1) == m % N + 1
  {
    var q, r := (m - 1) / N, (m - 1) % N;
    assert m == q * N + r + 1;
    if r == N - 1 {
      assert m == (q + 1) * N;
    } else {
      assert (q * N + (r + 1)) % N == r + 1;
    }
  }

  /** The seeding loop of the constructor, on a fresh list. */
  method Seeded(seed: nat) returns (a: array<nat>)
    ensures fresh(a) && a[..] == InitState(seed).words
  {
    a := new nat[N];
    a[0] := seed;
    for i := 1 to N
      invariant forall j :: 0 <= j < i ==> a[j] == InitWord(seed, j)
    {
      a[i] := InitStep(a[i - 1], i);
    }
    assert a[..] == InitState(seed).words;
  }

  /** The generator object: N words in a list rewritten in place, and the
      position of the next word to hand out. */
  class MT19937 {
    var mt: array<nat>
    var index: nat

    ghost function State(): GenState
      reads this, mt
    {
      GenState(mt[..], index)
    }

    ghost predicate Valid()
      reads this, mt
    {
      mt.Length == N && ValidState(State())
    }

    /** Seeds the state: word 0 is the seed, each later word comes from its
        predecessor, and the read position is N so the first draw twists. */
    constructor (seed: nat)
      ensures Valid() && fresh(mt)
      ensures State() == InitState(seed)
      ensures index == N && mt[0] == seed
    {
      index := N;
      var a := Seeded(seed);
      mt := a;
    }

    /** Regenerates all N words in place; each step reads words that earlier
        steps of the same pass may already have replaced. */
    method Twist()
      requires Valid()
      modifies this`index, mt
      ensures Valid()
      ensures mt[..] == Twisted(old(mt[..]))
      ensures index == 0
    {
      ghost var s := mt[..];
      for i := 0 to N
        invariant forall j :: 0 <= j < i ==> mt[j] == Term(s, N + j)
        invariant forall j :: i <= j < N ==> mt[j] == s[j]
      {
        var next := if i + 1 < N then i + 1 else 0;
        var far := if i + M < N then i + M else i + M - N;
        assert mt[i] == Term(s, i);
        assert mt[next] == Term(s, i + 1);
        assert mt[far] == Term(s, i + M);
        TermStep(s, i);
        mt[i] := NextWord(mt[i], mt[next], mt[far]);
      }
      index := 0;
      assert mt[..] == Twisted(s);
    }

    /** Hands out the tempered word at the read position, twisting first when
        all N words have been used. */
    method ExtractNumber() returns (y: nat)
      requires Valid()
      modifies this`index, mt
      ensures Valid()
      ensures y == Output(old(State())) && State() == NextState(old(State()))
      ensures y < TwoTo32
      ensures 1 <= index <= N
      ensures index == (if old(index) >= N then 1 else old(index) + 1)
    {
      if index >= N {
        Twist();
      }
      y := mt[index];
      y := Temper1(y);
      y := Temper2(y);
      y := Temper3(y);
      y := Temper4(y);
      y := Int32(y);
      index := index + 1;
    }
  }
}

/** The arithmetic of mozilla::detail::HashTable: 32-bit hash codes, power-of-two
    capacities and the double-hash probe sequence. */
module HashArith {
  import opened Basics

  const HASH_BITS: nat := 32
  const WORD: nat := 0x1_0000_0000
  const FREE_KEY: HashNumber := 0
  const REMOVED_KEY: HashNumber := 1
  const MIN_LOG2: nat := 2
  const MAX_LOG2: nat := 30
  const MAX_INIT: nat := 0x2000_0000
  const MAX_ENTRIES: nat := 0x3000_0000  // three quarters of the largest capacity
  const GOLDEN_RATIO: HashNumber := 0x9E37_79B9

  type HashNumber = x: nat | x < 0x1_0000_0000

  // ----- powers of two

  /** The least exponent whose power of two is at least n. */
  function CeilingLog2(n: nat): (k: nat)
    ensures n <= Pow2(k)
    ensures k == 0 || Pow2(k - 1) < n
  {
    if n <= 1 then 0 else CeilingLog2((n + 1) / 2) + 1
  }

  function RoundUpPow2(n: nat): nat {
    Pow2(CeilingLog2(n))
  }

  lemma Pow2Values()
    ensures Pow2(0) == 1 && Pow2(1) == 2 && Pow2(2) == 4
    ensures Pow2(29) == MAX_INIT
    ensures Pow2(30) == 0x4000_0000
    ensures Pow2(32) == WORD
  {
    assert Pow2(8) == 0x100;
    Pow2Add(8, 8);
    Pow2Add(16, 8);
    Pow2Add(24, 5);
    Pow2Add(24, 6);
    Pow2Add(16, 16);
  }

  lemma CeilingLog2Unique(n: nat, c: nat, k: nat)
    requires n <= Pow2(c) && (c == 0 || Pow2(c - 1) < n) && n == Pow2(k)
    ensures c == k
  {
    Pow2Monotone(c, k);
    if c > k {
      Pow2Monotone(k, c - 1);
    }
  }

  /** Pow2 is injective, so the logarithm recorded by the hash shift is exact. */
  lemma CeilingLog2OfPow2(k: nat)
    ensures CeilingLog2(Pow2(k)) == k
  {
    CeilingLog2Unique(Pow2(k), CeilingLog2(Pow2(k)), k);
  }

  // ----- hash codes

  predicate IsLiveHash(h: HashNumber) {
    h > REMOVED_KEY
  }

  predicate HasCollision(h: HashNumber) {
    h % 2 == 1
  }

  /** h & ~sCollisionBit */
  function StripBit(h: HashNumber): HashNumber {
    h - h % 2
  }

  /** h | sCollisionBit */
  function SetBit(h: HashNumber): HashNumber {
    h - h % 2 + 1
  }

  function ScrambleHashCode(h: HashNumber): HashNumber {
    (h * GOLDEN_RATIO) % WORD
  }

  /** A stored hash code is live and starts without a collision bit. */
  function PrepareHash(input: HashNumber): (keyHash: HashNumber)
    ensures IsLiveHash(keyHash) && !HasCollision(keyHash)
  {
    var scrambled := ScrambleHashCode(input);
    var avoided: HashNumber := if IsLiveHash(scrambled) then scrambled
                               else (scrambled - (REMOVED_KEY + 1)) % WORD;
    StripBit(avoided)
  }

  /** All bits but the last of the golden-ratio product survive, except for the two products that would be sentinels. */
  lemma PreparedBits(input: HashNumber)
    ensures var product := (input * 0x9E37_79B9) % 0x1_0000_0000;
            PrepareHash(input) == if product == 0 || product == 1 then 0xFFFF_FFFE else product - product % 2
  {
  }

  // ----- the probe sequence

  ghost predicate ValidLog2(log2: nat) {
    MIN_LOG2 <= log2 <= MAX_LOG2
  }

  lemma CapacityDividesWord(log2: nat)
    requires ValidLog2(log2)
    ensures WORD == Pow2(HASH_BITS - log2) * Pow2(log2)
    ensures WORD % Pow2(log2) == 0
    ensures Pow2(log2) % 2 == 0 && 4 <= Pow2(log2) <= 0x4000_0000
  {
    Pow2Values();
    Pow2Add(HASH_BITS - log2, log2);
    MulModZero(Pow2(HASH_BITS - log2), Pow2(log2));
    Pow2Monotone(2, log2);
    Pow2Monotone(log2, 30);
  }

  lemma MulModZero(q: nat, c: nat)
    requires c > 0
    ensures (q * c) % c == 0
  {
    ModUnique(q * c, q, c, 0);
  }

  lemma ModUnique(x: int, q: int, c: nat, r: int)
    requires c > 0 && 0 <= r < c && x == q * c + r
    ensures x % c == r && x / c == q
  {
    var q', r' := x / c, x % c;
    assert x == q' * c + r';
    assert (q' - q) * c == r - r';
    assert (q - q') * c == r' - r;
    if q' > q {
      MulAtLeast(q' - q, c);
    } else if q' < q {
      MulAtLeast(q - q', c);
    }
  }

  lemma MulAtLeast(a: int, c: nat)
    requires a >= 1
    ensures a * c >= c
  {
    assert a * c == c + (a - 1) * c;
  }

  lemma DivBound(x: nat, a: nat, b: nat)
    requires a > 0 && x < a * b
    ensures x / a < b
  {
    var q := x / a;
    assert x == q * a + x % a;
    if q >= b {
      MulAtLeast(q - b + 1, a);
    }
  }

  lemma SetBitBound(x: HashNumber, c: nat)
    requires x < c && c % 2 == 0
    ensures SetBit(x) < c && HasCollision(SetBit(x))
  {
  }

  /** The top log2 bits of a 32-bit number. */
  function ShiftRight(x: HashNumber, log2: nat): (r: HashNumber)
    requires ValidLog2(log2)
    ensures r < Pow2(log2)
  {
    CapacityDividesWord(log2);
    DivBound(x, Pow2(HASH_BITS - log2), Pow2(log2));
    x / Pow2(HASH_BITS - log2)
  }

  /** The slot a probe path starts at: the top bits of the key's hash. */
  function Hash1(keyHash: HashNumber, log2: nat): (h1: nat)
    requires ValidLog2(log2)
    ensures h1 < Pow2(log2)
  {
    ShiftRight(keyHash, log2)
  }

  /** The stride of a probe path: the next bits of the hash, made odd. */
  function Hash2(keyHash: HashNumber, log2: nat): (h2: nat)
    requires ValidLog2(log2)
    ensures h2 < Pow2(log2) && h2 % 2 == 1
  {
    CapacityDividesWord(log2);
    var shifted := ShiftRight((keyHash * Pow2(log2)) % WORD, log2);
    SetBitBound(shifted, Pow2(log2));
    SetBit(shifted)
  }

  /** The first probe is the top log2 bits of the hash and the stride the next log2 bits made odd; when there
      are not that many left, zeros follow them. */
  lemma ProbeBits(keyHash: HashNumber, log2: nat)
    requires ValidLog2(log2)
    ensures var rest := Pow2(32 - log2);
            && keyHash == Hash1(keyHash, log2) * rest + keyHash % rest
            && (log2 <= 16 ==> var stride := (keyHash % rest) / Pow2(32 - 2 * log2); Hash2(keyHash, log2) == stride - stride % 2 + 1)
            && (log2 > 16 ==> var stride := (keyHash % rest) * Pow2(2 * log2 - 32); Hash2(keyHash, log2) == stride - stride % 2 + 1)
  {
    hide SetBit, Pow2;
    var rest, c := Pow2(32 - log2), Pow2(log2);
    CapacityDividesWord(log2);
    ShiftedBits(keyHash, rest, c);
    var low := keyHash % rest;
    if log2 <= 16 {
      Pow2Add(32 - 2 * log2, log2);
      CancelDiv(low, Pow2(32 - 2 * log2), c);
    } else {
      Pow2Add(32 - log2, 2 * log2 - 32);
      CancelMul(low, rest, Pow2(2 * log2 - 32), c);
    }
    StripIs(ShiftRight((keyHash * c) % WORD, log2));
  }

  /** Shifting left by log2 bits in 32 bits drops the top ones. */
  lemma ShiftedBits(keyHash: HashNumber, rest: nat, c: nat)
    requires WORD == rest * c && rest > 0 && c > 0
    ensures (keyHash * c) % WORD == (keyHash % rest) * c && keyHash == keyHash / rest * rest + keyHash % rest
  {
    var h, low := keyHash / rest, keyHash % rest;
    assert keyHash == h * rest + low;
    DistributeMul(h, rest, low, c);
    MulBelow(low, rest, c);
    ModUnique(keyHash * c, h, WORD, low * c);
  }

  lemma StripIs(x: HashNumber)
    ensures SetBit(x) == x - x % 2 + 1
  {
  }

  lemma DistributeMul(h: nat, rest: nat, low: nat, c: nat)
    ensures (h * rest + low) * c == h * (rest * c) + low * c
  {
  }

  lemma MulBelow(low: nat, rest: nat, c: nat)
    requires low < rest && c > 0
    ensures 0 <= low * c < rest * c
  {
    assert (rest - low) * c == rest * c - low * c;
    MulAtLeast(rest - low, c);
  }

  /** (low * c) / (a * c) is low / a. */
  lemma CancelDiv(low: nat, a: nat, c: nat)
    requires a > 0 && c > 0
    ensures a * c > 0 && (low * c) / (a * c) == low / a
  {
    var q, r := low / a, low % a;
    assert low == q * a + r;
    DistributeMul(q, a, r, c);
    MulBelow(r, a, c);
    ModUnique(low * c, q, a * c, r * c);
  }

  /** (low * (rest * k)) / rest is low * k. */
  lemma CancelMul(low: nat, rest: nat, k: nat, c: nat)
    requires rest > 0 && c == rest * k
    ensures (low * c) / rest == low * k
  {
    assert low * c == (low * k) * rest;
    ModUnique(low * c, low * k, rest, 0);
  }

  /** One probe step: a 32-bit subtraction that wraps, cut down to the table's slots. */
  function ApplyDoubleHash(h1: nat, h2: nat, log2: nat): (r: nat)
    ensures r < Pow2(log2)
  {
    ((h1 - h2) % WORD) % Pow2(log2)
  }

  /** The slot index after n probe steps. */
  function Probe(keyHash: HashNumber, log2: nat, n: nat): (index: nat)
    requires ValidLog2(log2)
    ensures index < Pow2(log2)
  {
    if n == 0 then Hash1(keyHash, log2)
    else ApplyDoubleHash(Probe(keyHash, log2, n - 1), Hash2(keyHash, log2), log2)
  }

  lemma Regroup(a: int, s: int, c: nat, q: int, r: int)
    ensures a * (s * c) + (q * c + r) == (a * s + q) * c + r
  {
    assert a * (s * c) == (a * s) * c;
    assert (a * s + q) * c == (a * s) * c + q * c;
  }

  lemma ModOfMultiple(x: int, w: int, c: nat, s: nat)
    requires c > 0 && s > 0
    requires w == x % (s * c)
    ensures w % c == x % c
  {
    var a, q, r := x / (s * c), w / c, w % c;
    assert x == a * (s * c) + w;
    assert w == q * c + r;
    Regroup(a, s, c, q, r);
    ModUnique(x, a * s + q, c, r);
  }

  lemma ModOfWrapped(x: int, log2: nat)
    requires ValidLog2(log2)
    ensures (x % WORD) % Pow2(log2) == x % Pow2(log2)
  {
    CapacityDividesWord(log2);
    ModOfMultiple(x, x % WORD, Pow2(log2), Pow2(HASH_BITS - log2));
  }

  lemma ModShift(x: int, y: int, c: nat)
    requires c > 0
    ensures ((x % c) - y) % c == (x - y) % c
  {
    var z := (x % c) - y;
    assert z == (z / c) * c + z % c;
    calc {
      x - y;
      (x / c) * c + x % c - y;
      (x / c) * c + (z / c) * c + z % c;
      (x / c + z / c) * c + z % c;
    }
    ModUnique(x - y, x / c + z / c, c, z % c);
  }

  lemma StrideStep(h1: int, h2: int, n: nat, c: nat)
    requires c > 0 && n > 0
    ensures ((h1 - (n - 1) * h2) % c - h2) % c == (h1 - n * h2) % c
  {
    ModShift(h1 - (n - 1) * h2, h2, c);
    assert h1 - (n - 1) * h2 - h2 == h1 - n * h2;
  }

  /** Closed form: n steps of the recurrence subtract n strides modulo the capacity. */
  lemma {:induction false} ProbeClosedForm(keyHash: HashNumber, log2: nat, n: nat)
    requires ValidLog2(log2)
    ensures Probe(keyHash, log2, n) == (Hash1(keyHash, log2) - n * Hash2(keyHash, log2)) % Pow2(log2)
  {
    var h1, h2, c := Hash1(keyHash, log2), Hash2(keyHash, log2), Pow2(log2);
    if n == 0 {
      ModUnique(h1, 0, c, h1);
    } else {
      ProbeClosedForm(keyHash, log2, n - 1);
      ModOfWrapped(Probe(keyHash, log2, n - 1) - h2, log2);
      StrideStep(h1, h2, n, c);
    }
  }

  /** An odd stride is invertible modulo a power of two: every residue is a multiple of it. */
  lemma {:induction false} OddStrideReaches(k: nat, d: nat, t: int) returns (i: nat, q: int)
    requires d % 2 == 1
    ensures i < Pow2(k) && i * d == t + q * Pow2(k)
  {
    if k == 0 {
      i, q := 0, -t;
    } else {
      var i', q' := OddStrideReaches(k - 1, d, t);
      var p := Pow2(k - 1);
      if q' % 2 == 0 {
        i, q := i', q' / 2;
      } else {
        i, q := i' + p, (q' + d) / 2;
      }
      StrideDoubles(i', q', d, t, p, i, q);
    }
  }

  /** A solution modulo p extends to one modulo 2p, adding p steps when the quotient is odd. */
  lemma StrideDoubles(i': nat, q': int, d: nat, t: int, p: nat, i: nat, q: int)
    requires i' * d == t + q' * p && d % 2 == 1
    requires if q' % 2 == 0 then i == i' && q == q' / 2 else i == i' + p && q == (q' + d) / 2
    ensures i * d == t + q * (2 * p)
  {
    assert q * (2 * p) == (2 * q) * p;
    if q' % 2 == 0 {
      assert 2 * q == q';
    } else {
      assert 2 * q == q' + d;
      assert (q' + d) * p == q' * p + d * p;
      assert (i' + p) * d == i' * d + p * d;
    }
  }

  /** Every slot is visited within one capacity's worth of probe steps. */
  lemma ProbeCovers(keyHash: HashNumber, log2: nat, s: nat) returns (n: nat)
    requires ValidLog2(log2) && s < Pow2(log2)
    ensures n < Pow2(log2) && Probe(keyHash, log2, n) == s
  {
    var h1, h2, c := Hash1(keyHash, log2), Hash2(keyHash, log2), Pow2(log2);
    var q;
    n, q := OddStrideReaches(log2, h2, h1 - s);
    ProbeClosedForm(keyHash, log2, n);
    assert h1 - n * h2 == (-q) * c + s;
    ModUnique(h1 - n * h2, -q, c, s);
  }

  lemma CapacityIsValid(k: nat)
    ensures 4 <= Pow2(k) <= Pow2(MAX_LOG2) <==> ValidLog2(k)
  {
    Pow2Values();
    if k < 2 {
      Pow2Monotone(k, 1);
    } else {
      Pow2Monotone(2, k);
    }
    if k > MAX_LOG2 {
      Pow2Monotone(MAX_LOG2, k);
    } else {
      Pow2Monotone(k, MAX_LOG2);
    }
  }

  // ----- capacities

  /** The length divided by the maximal load, rounded up, then up to a power of two and to the minimum. */
  function BestCapacity(aLen: nat): (capacity: nat) {
    var capacity := ((aLen * 4 + 3 - 1) % WORD) / 3;
    if capacity < 4 then 4 else RoundUpPow2(capacity)
  }

  lemma CapacityNeeded(aLen: nat)
    requires aLen <= MAX_ENTRIES
    ensures var raw := ((aLen * 4 + 3 - 1) % WORD) / 3;
            raw <= 0x4000_0000 && forall c: nat :: 4 * aLen <= 3 * c <==> raw <= c
  {
    assert aLen * 4 + 2 < WORD;
  }

  /** BestCapacity is the least legal capacity that holds aLen entries at a load of at most 3/4. */
  lemma BestCapacityFits(aLen: nat) returns (log2: nat)
    requires aLen <= MAX_ENTRIES
    ensures ValidLog2(log2) && BestCapacity(aLen) == Pow2(log2)
    ensures 4 * aLen <= 3 * Pow2(log2)
    ensures forall k: nat :: ValidLog2(k) && 4 * aLen <= 3 * Pow2(k) ==> log2 <= k
  {
    hide CeilingLog2, Pow2;
    Pow2Values();
    CapacityNeeded(aLen);
    var raw := ((aLen * 4 + 3 - 1) % WORD) / 3;
    log2 := if raw < 4 then 2 else CeilingLog2(raw);
    if raw >= 4 {
      Pow2Monotone(MAX_LOG2, log2 - 1);
      Pow2Monotone(log2, 1);
    }
    forall k: nat | ValidLog2(k) && 4 * aLen <= 3 * Pow2(k)
      ensures log2 <= k
    {
      if k < log2 {
        Pow2Monotone(k, log2 - 1);
      }
    }
  }

  /** What the load tests divide: a capacity is a multiple of four, halves and doubles to capacities. */
  lemma CapacityFacts(log2: nat)
    requires ValidLog2(log2)
    ensures Pow2(log2) % 4 == 0 && 4 <= Pow2(log2) <= 0x4000_0000 == Pow2(MAX_LOG2)
    ensures CeilingLog2(Pow2(log2)) == log2
    ensures Pow2(log2 + 1) == 2 * Pow2(log2) && CeilingLog2(2 * Pow2(log2)) == log2 + 1
    ensures log2 > 2 ==> Pow2(log2 - 1) == Pow2(log2) / 2 && CeilingLog2(Pow2(log2) / 2) == log2 - 1
    ensures Pow2(log2) > 4 <==> log2 > 2
  {
    hide CeilingLog2;
    Pow2Values();
    CapacityIsMultipleOfFour(log2);
    Pow2Monotone(2, log2);
    Pow2Monotone(log2, MAX_LOG2);
    CeilingLog2OfPow2(log2);
    CeilingLog2OfPow2(log2 + 1);
    CeilingLog2OfPow2(log2 - 1);
  }

  lemma CapacityIsMultipleOfFour(log2: nat)
    requires ValidLog2(log2)
    ensures Pow2(log2) % 4 == 0
    ensures Pow2(log2 + 1) == 2 * Pow2(log2) && Pow2(log2 - 1) == Pow2(log2) / 2
  {
    assert Pow2(log2) == 2 * Pow2(log2 - 1) && Pow2(log2 - 1) == 2 * Pow2(log2 - 2);
  }
}

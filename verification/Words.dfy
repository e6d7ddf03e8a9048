/** Machine words: 64-bit positions that wrap, the power-of-two index mask, and the
    little-endian object representation of a 64-bit value. */
module Words {

  const TWO_64: nat := 0x1_0000_0000_0000_0000

  type u64 = x: nat | x < TWO_64

  newtype byte = x: int | 0 <= x < 256

  function Add64(a: nat, b: nat): u64 {
    (a + b) % TWO_64
  }

  function Sub64(a: nat, b: nat): u64 {
    (a - b) % TWO_64
  }

  function Wrap(x: int): u64 {
    x % TWO_64
  }

  // ---------------------------------------------------------------- modular arithmetic

  lemma MulSign(q: int, c: int)
    requires c > 0
    ensures q >= 1 ==> q * c >= c
    ensures q <= -1 ==> q * c <= -c
    ensures q == 0 ==> q * c == 0
  {
  }

  lemma DivModUnique(x: int, c: int, q: int, m: int)
    requires x == q * c + m
    requires 0 <= m < c
    ensures x / c == q && x % c == m
  {
    var q', m' := x / c, x % c;
    assert x == q' * c + m';
    assert (q - q') * c == m' - m;
    MulSign(q - q', c);
  }

  // ---------------------------------------------------------------- powers of two

  function Pow2(k: nat): (p: nat)
    ensures p >= 1
  {
    if k == 0 then 1 else 2 * Pow2(k - 1)
  }

  ghost predicate IsPow2(c: nat) {
    exists k: nat :: c == Pow2(k)
  }

  /** Bitwise "and" on naturals, bit by bit. */
  function And(a: nat, b: nat): nat
    decreases a
  {
    if a == 0 || b == 0 then 0
    else (if a % 2 == 1 && b % 2 == 1 then 1 else 0) + 2 * And(a / 2, b / 2)
  }

  lemma ModDouble(a: nat, p: nat)
    requires p > 0
    ensures a % (2 * p) == a % 2 + 2 * ((a / 2) % p)
  {
    var h := a / 2;
    assert a == 2 * h + a % 2;
    assert h == (h / p) * p + h % p;
    assert a == (h / p) * (2 * p) + (a % 2 + 2 * (h % p)) by {
      assert (h / p) * (2 * p) == 2 * ((h / p) * p);
    }
    DivModUnique(a, 2 * p, h / p, a % 2 + 2 * (h % p));
  }

  lemma AndOdd(a: nat, p: nat)
    requires p >= 1
    ensures And(a, 2 * p - 1) == a % 2 + 2 * And(a / 2, p - 1)
  {
    assert (2 * p - 1) % 2 == 1 && (2 * p - 1) / 2 == p - 1;
  }

  /** Masking with capacity - 1 is reduction modulo a power-of-two capacity. */
  lemma {:induction false} MaskIsMod(a: nat, k: nat)
    ensures And(a, Pow2(k) - 1) == a % Pow2(k)
    decreases k
  {
    if k > 0 {
      MaskIsMod(a / 2, k - 1);
      AndOdd(a, Pow2(k - 1));
      ModDouble(a, Pow2(k - 1));
    }
  }

  lemma {:induction false} Pow2Monotone(j: nat, k: nat)
    requires j <= k
    ensures Pow2(j) <= Pow2(k)
    decreases k
  {
    if j < k {
      Pow2Monotone(j, k - 1);
    }
  }

  lemma {:induction false} Pow2Split(j: nat, k: nat)
    requires j <= k
    ensures Pow2(k) == Pow2(j) * Pow2(k - j)
    decreases k
  {
    if j < k {
      Pow2Split(j, k - 1);
      assert Pow2(k) == 2 * (Pow2(j) * Pow2(k - 1 - j)) == Pow2(j) * (2 * Pow2(k - 1 - j));
    }
  }

  lemma Two64IsPow2()
    ensures Pow2(64) == TWO_64
  {
    Pow2Split(16, 32);
    Pow2Split(32, 64);
    assert Pow2(4) == 16;
    Pow2Split(4, 8);
    Pow2Split(8, 16);
    assert Pow2(16) == 65536;
    assert Pow2(32) == 0x1_0000_0000;
  }

  lemma ModOfMod(x: nat, m: nat, c: nat, f: nat)
    requires c > 0 && m == c * f && m > 0
    ensures (x % m) % c == x % c
  {
    var q, y := x / m, x % m;
    assert x == q * m + y;
    assert y == (y / c) * c + y % c;
    assert q * (c * f) == (q * f) * c;
    assert (q * f + y / c) * c == (q * f) * c + (y / c) * c;
    DivModUnique(x, c, q * f + y / c, y % c);
  }

  lemma SmallPowerDivides(k: nat)
    requires Pow2(k) < TWO_64
    ensures k < 64 && TWO_64 == Pow2(k) * Pow2(64 - k)
  {
    Two64IsPow2();
    if k >= 64 {
      Pow2Monotone(64, k);
    }
    Pow2Split(k, 64);
  }

  /** The residue pos % cap, by repeated subtraction: proofs that only need to know which slot is meant do not
      have to reason about a variable divisor. */
  function Slot(pos: nat, cap: nat): (slot: nat)
    requires cap > 0
    ensures slot < cap
    decreases pos
  {
    if pos < cap then pos else Slot(pos - cap, cap)
  }

  lemma {:induction false} SlotLaps(pos: nat, cap: nat) returns (laps: nat)
    requires cap > 0
    ensures pos == laps * cap + Slot(pos, cap)
    decreases pos
  {
    if pos < cap {
      laps := 0;
    } else {
      var l := SlotLaps(pos - cap, cap);
      laps := l + 1;
      assert laps * cap == l * cap + cap;
    }
  }

  /** Bytes less than one capacity apart in logical position never share a physical index, although each index
      is computed as the slot of its message plus a distance and may exceed the capacity. */
  lemma BytesDisjoint(cap: nat, x: nat, k: nat, y: nat, j: nat)
    requires cap > 0
    requires y + j < x + k < y + j + cap
    ensures Slot(x, cap) + k != Slot(y, cap) + j
  {
    var a := SlotLaps(x, cap);
    var b := SlotLaps(y, cap);
    LapsDiffer(cap, a, b, Slot(x, cap) + k, Slot(y, cap) + j);
  }

  lemma LapsDiffer(cap: nat, a: nat, b: nat, i: nat, i': nat)
    requires cap > 0
    requires b * cap + i' < a * cap + i < b * cap + i' + cap
    ensures i != i'
  {
    assert (a - b) * cap == a * cap - b * cap;
    MulSign(a - b, cap);
  }

  /** A position that wrapped at 2^64 still selects the slot of its logical position: the mask
      of the wrapped value is the logical position modulo the capacity. */
  lemma MaskOfWrapped(x: nat, cap: nat)
    requires IsPow2(cap) && 2 * cap < TWO_64
    ensures And(Wrap(x), cap - 1) == Slot(x, cap)
  {
    var laps := SlotLaps(x, cap);
    DivModUnique(x, cap, laps, Slot(x, cap));
    var k: nat :| cap == Pow2(k);
    SmallPowerDivides(k);
    MaskIsMod(Wrap(x), k);
    ModOfMod(x, TWO_64, cap, Pow2(64 - k));
  }

  /** std::bit_ceil. */
  function BitCeil(n: nat): (c: nat)
    ensures IsPow2(c) && n <= c
    ensures forall k: nat :: n <= Pow2(k) ==> c <= Pow2(k)
  {
    BitCeilFrom(n, 0)
  }

  function BitCeilFrom(n: nat, k: nat): (c: nat)
    requires forall j: nat | j < k :: Pow2(j) < n
    ensures IsPow2(c) && n <= c
    ensures forall j: nat :: n <= Pow2(j) ==> c <= Pow2(j)
    decreases n - Pow2(k)
  {
    if n <= Pow2(k) then
      assert forall j: nat | n <= Pow2(j) :: Pow2(k) <= Pow2(j) by {
        forall j: nat | n <= Pow2(j) ensures Pow2(k) <= Pow2(j) {
          Pow2Monotone(k, if k <= j then j else k);
        }
      }
      Pow2(k)
    else
      assert Pow2(k + 1) == 2 * Pow2(k);
      BitCeilFrom(n, k + 1)
  }

  // ---------------------------------------------------------------- wrapped distances

  /** Positions at most 2^64 - 1 apart keep their exact distance after wrapping. */
  lemma WrappedDistance(hi: nat, lo: nat)
    requires lo <= hi < lo + TWO_64
    ensures Sub64(Wrap(hi), Wrap(lo)) == hi - lo
  {
    var d, q, m := hi - lo, lo / TWO_64, lo % TWO_64;
    if m + d < TWO_64 {
      DivModUnique(hi, TWO_64, q, m + d);
      DivModUnique(Wrap(hi) - Wrap(lo), TWO_64, 0, d);
    } else {
      DivModUnique(hi, TWO_64, q + 1, m + d - TWO_64);
      DivModUnique(Wrap(hi) - Wrap(lo), TWO_64, -1, d);
    }
  }

  lemma WrapDistinct(hi: nat, lo: nat)
    requires lo < hi < lo + TWO_64
    ensures Wrap(hi) != Wrap(lo)
  {
  }

  lemma WrapAdd(x: nat, n: nat)
    ensures Add64(Wrap(x), n) == Wrap(x + n)
  {
  }

  /** The producer's expression "cached read position + capacity - write position", evaluated in wrapping
      arithmetic, is the exact free space. */
  lemma FreeSpaceWord(read: nat, cap: nat, tail: nat)
    requires read <= tail <= read + cap && cap < TWO_64
    ensures Sub64(Add64(Wrap(read), cap), Wrap(tail)) == read + cap - tail
  {
    WrapAdd(read, cap);
    WrappedDistance(read + cap, tail);
  }

  // ---------------------------------------------------------------- little-endian words

  function Pow256(k: nat): (p: nat)
    ensures p >= 1
  {
    if k == 0 then 1 else 256 * Pow256(k - 1)
  }

  function ToLE(n: nat, k: nat): (s: seq<byte>)
    ensures |s| == k
  {
    if k == 0 then [] else [(n % 256) as byte] + ToLE(n / 256, k - 1)
  }

  function FromLE(s: seq<byte>): (n: nat)
    ensures n < Pow256(|s|)
  {
    if s == [] then 0 else s[0] as nat + 256 * FromLE(s[1..])
  }

  lemma {:induction false} LERoundTrip(n: nat, k: nat)
    requires n < Pow256(k)
    ensures FromLE(ToLE(n, k)) == n
    decreases k
  {
    if k > 0 {
      var s := ToLE(n, k);
      assert s[1..] == ToLE(n / 256, k - 1);
      LERoundTrip(n / 256, k - 1);
    }
  }

  lemma DigitSplit(digit: nat, rest: nat)
    requires digit < 256
    ensures (digit + 256 * rest) % 256 == digit && (digit + 256 * rest) / 256 == rest
  {
  }

  lemma {:induction false} LEInverse(s: seq<byte>)
    ensures ToLE(FromLE(s), |s|) == s
  {
    if s != [] {
      LEInverse(s[1..]);
      DigitSplit(s[0] as nat, FromLE(s[1..]));
      assert s == [s[0]] + s[1..];
    }
  }

  lemma Pow256Of8()
    ensures Pow256(8) == TWO_64
  {
    assert Pow256(4) == 0x1_0000_0000;
    assert Pow256(8) == 256 * (256 * (256 * (256 * Pow256(4))));
  }

  /** The eight bytes at an offset, read as a native 64-bit word. */
  function WordAt(s: seq<byte>, off: nat): u64
    requires off + 8 <= |s|
  {
    Pow256Of8();
    FromLE(s[off..off + 8])
  }

  function WordSize(): (k: nat)
    ensures k == 8
  {
    8
  }

  function WordBytes(n: u64): (s: seq<byte>)
    ensures |s| == 8
  {
    ToLE(n, WordSize())
  }

  lemma WordRoundTrip(n: u64)
    ensures FromLE(WordBytes(n)) == n
  {
    Pow256Of8();
    LERoundTrip(n, WordSize());
  }

  lemma WordInverse(s: seq<byte>, off: nat)
    requires off + 8 <= |s|
    ensures WordBytes(WordAt(s, off)) == s[off..off + 8]
  {
    LEInverse(s[off..off + 8]);
  }
}

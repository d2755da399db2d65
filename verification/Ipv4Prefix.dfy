/** IPv4 prefixes (ipv4_prefix.hpp).  Bitwise operators are defined bit by bit
    on naturals, so masks and the intervals they stand for can be related. */
module Ipv4Prefix {
  import opened Basics
  import Wire

  function Pow2(n: nat): (p: nat)
    ensures p > 0
  {
    if n == 0 then 1 else 2 * Pow2(n - 1)
  }

  function And(a: nat, b: nat): (r: nat)
    ensures r <= a
  {
    if a == 0 || b == 0 then 0 else 2 * And(a / 2, b / 2) + (if a % 2 == 1 && b % 2 == 1 then 1 else 0)
  }

  function Or(a: nat, b: nat): nat
    decreases a + b
  {
    if a == 0 && b == 0 then 0 else 2 * Or(a / 2, b / 2) + (if a % 2 == 1 || b % 2 == 1 then 1 else 0)
  }

  const ALL_ONES: u32 := 0xFFFF_FFFF

  /** The shift of a 32-bit word of ones, truncated to 32 bits. */
  function MaskValue(length: nat): u32
    requires length <= 32
  {
    if length == 0 then 0 else ALL_ONES * Pow2(32 - length) % 0x1_0000_0000
  }

  type Length = n: int | 0 <= n <= 32

  datatype Prefix = Prefix(network: u32, length: Length)

  /** The number of addresses a prefix of this length covers. */
  function Block(length: nat): (n: nat)
    requires length <= 32
    ensures n > 0
  {
    Pow2(32 - length)
  }

  /** Prefix objects hold a network address with no host bits set. */
  ghost predicate Valid(p: Prefix)
  {
    p.network % Block(p.length) == 0
  }

  function Create(address: u32, length: byte): Option<Prefix>
  {
    if length > 32 then None else Some(Prefix(And(address, MaskValue(length)), length))
  }

  predicate Contains(p: Prefix, address: u32)
  {
    And(address, MaskValue(p.length)) == p.network
  }

  function LastAddress(p: Prefix): nat
  {
    Or(p.network, ALL_ONES - MaskValue(p.length))
  }

  // ---- Masks as arithmetic ----

  lemma {:induction false} AndMask(n: nat, k: nat, v: nat)
    requires k <= n && v < Pow2(n)
    ensures Pow2(k) <= Pow2(n) && And(v, Pow2(n) - Pow2(k)) == v - v % Pow2(k)
    decreases n
  {
    hide And;
    if k == 0 {
      AndOnes(n, v);
      assert v % 1 == 0;
    } else {
      AndMask(n - 1, k - 1, v / 2);
      AndDouble(v, Pow2(n - 1) - Pow2(k - 1));
      ModDouble(v, Pow2(k - 1));
    }
  }

  lemma AndDouble(v: nat, m: nat)
    ensures And(v, 2 * m) == 2 * And(v / 2, m)
  {
    assert 2 * m / 2 == m;
  }

  lemma {:induction false} AndOnes(n: nat, v: nat)
    requires v < Pow2(n)
    ensures And(v, Pow2(n) - 1) == v
    decreases n
  {
    if n > 0 {
      AndOnes(n - 1, v / 2);
      OnesHalved(n);
      hide Pow2;
      assert v % 2 + 2 * (v / 2) == v;
    }
  }

  lemma OnesHalved(n: nat)
    requires n > 0
    ensures (Pow2(n) - 1) / 2 == Pow2(n - 1) - 1 && (Pow2(n) - 1) % 2 == 1
  {
  }

  lemma ModDouble(v: nat, p: nat)
    requires p > 0
    ensures v % (2 * p) == 2 * (v / 2 % p) + v % 2
  {
    Wire.DivDiv(v, 2, p);
    var q := v / 2 / p;
    assert v / 2 == q * p + v / 2 % p;
    assert v == (2 * p) * q + v % (2 * p);
    assert 2 * (q * p) == (2 * p) * q;
  }

  lemma {:induction false} OrOnes(k: nat, v: nat)
    requires v % Pow2(k) == 0
    ensures Or(v, Pow2(k) - 1) == v + Pow2(k) - 1
    decreases k
  {
    if k == 0 {
      OrZero(v);
    } else {
      ModDouble(v, Pow2(k - 1));
      OrOnes(k - 1, v / 2);
      OnesHalved(k);
    }
  }

  lemma {:induction false} OrZero(v: nat)
    ensures Or(v, 0) == v
  {
    if v > 0 {
      OrZero(v / 2);
    }
  }

  lemma {:induction false} Pow2Add(a: nat, b: nat)
    ensures Pow2(a + b) == Pow2(a) * Pow2(b)
    decreases a
  {
    if a > 0 {
      Pow2Add(a - 1, b);
    }
  }

  lemma {:induction false} Pow2Mono(a: nat, b: nat)
    requires a <= b
    ensures Pow2(a) <= Pow2(b)
    decreases b
  {
    if a < b {
      Pow2Mono(a, b - 1);
    }
  }

  lemma Pow2Of32()
    ensures Pow2(32) == 0x1_0000_0000
  {
    assert Pow2(8) == 256;
    Pow2Add(8, 8);
    Pow2Add(16, 16);
  }

  lemma MaskClosedForm(length: nat)
    requires length <= 32
    ensures Block(length) <= 0x1_0000_0000 == Pow2(32)
    ensures MaskValue(length) == 0x1_0000_0000 - Block(length)
  {
    hide Pow2;
    Pow2Of32();
    Pow2Mono(32 - length, 32);
    var b := Block(length);
    assert 0xFFFF_FFFF * b == (b - 1) * 0x1_0000_0000 + (0x1_0000_0000 - b);
  }

  /** Masking an address is rounding it down to a whole block. */
  lemma MaskIsRounding(a: u32, length: nat)
    requires length <= 32
    ensures And(a, MaskValue(length)) == a - a % Block(length)
  {
    hide Pow2, And, MaskValue;
    MaskClosedForm(length);
    AndMask(32, 32 - length, a);
  }

  // ---- Whole blocks ----

  lemma Cancel(x: int, y: int, b: nat)
    requires b > 0 && x * b == y * b
    ensures x == y
  {
    assert (x - y) * b == 0;
    Wire.Scale(x - y, b);
  }

  /** Rounding down gives a whole number of blocks. */
  lemma WholeBlocks(a: nat, b: nat)
    requires b > 0
    ensures a - a % b == a / b * b && (a - a % b) % b == 0
  {
    var down := a / b * b;
    assert a == down + a % b;
    Wire.DivUnique(down, b, a / b, 0);
    assert down == down / b * b + down % b;
  }

  lemma RoundsTo(a: nat, b: nat, n: nat)
    requires b > 0 && n % b == 0
    ensures a - a % b == n <==> a / b == n / b
  {
    WholeBlocks(a, b);
    WholeBlocks(n, b);
    if a / b * b == n / b * b { Cancel(a / b, n / b, b); }
  }

  lemma SameBlock(a: nat, b: nat, n: nat)
    requires b > 0 && n % b == 0
    ensures a / b == n / b <==> n <= a <= n + b - 1
  {
    WholeBlocks(a, b);
    WholeBlocks(n, b);
    if n <= a <= n + b - 1 { Wire.DivUnique(a, b, n / b, a - n); }
  }

  // ---- What a prefix covers ----

  /** A prefix contains exactly the addresses from its network to its last
      address, which is the block its network address starts. */
  lemma ContainsIsInterval(p: Prefix, a: u32)
    requires Valid(p)
    ensures Contains(p, a) <==> p.network <= a <= LastAddress(p)
    ensures Contains(p, a) <==> a / Block(p.length) == p.network / Block(p.length)
    ensures LastAddress(p) == p.network + Block(p.length) - 1
  {
    hide Pow2, And, Or, MaskValue;
    MaskIsRounding(a, p.length);
    RoundsTo(a, Block(p.length), p.network);
    SameBlock(a, Block(p.length), p.network);
    MaskClosedForm(p.length);
    OrOnes(32 - p.length, p.network);
  }

  /** Creation clears the host bits and the result contains the given address. */
  lemma CreatedPrefix(address: u32, length: byte)
    requires length <= 32
    ensures Create(address, length).Some?
    ensures var p := Create(address, length).value; Valid(p) && p.length == length && Contains(p, address)
  {
    hide Pow2, And, MaskValue;
    MaskIsRounding(address, length);
    WholeBlocks(address, Block(length));
  }

  /** Two prefixes that share one address are nested: the longer lies inside the shorter. */
  lemma NestedOrDisjoint(p: Prefix, q: Prefix, x: u32, a: u32)
    requires Valid(p) && Valid(q) && p.length <= q.length
    requires Contains(p, x) && Contains(q, x)
    ensures Contains(q, a) ==> Contains(p, a)
  {
    hide Pow2, Contains, Block;
    var bp, bq, k := Block(p.length), Block(q.length), Pow2(q.length - p.length);
    BlockRatio(p.length, q.length);
    ContainsIsInterval(p, x);
    ContainsIsInterval(q, x);
    ContainsIsInterval(p, a);
    ContainsIsInterval(q, a);
    Wire.DivDiv(x, bq, k);
    Wire.DivDiv(a, bq, k);
  }

  lemma BlockRatio(short: nat, long: nat)
    requires short <= long <= 32
    ensures Block(short) == Block(long) * Pow2(long - short)
  {
    Pow2Add(32 - long, long - short);
  }
}

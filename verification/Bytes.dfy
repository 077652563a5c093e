/** Bytes, machine words and the alignment arithmetic the modules share. */
module Bytes {

  type byte = bv8
  type word = bv32

  function Min(a: int, b: int): (r: int)
    ensures r <= a && r <= b && (r == a || r == b)
  {
    if a <= b then a else b
  }

  function Max(a: int, b: int): (r: int)
    ensures r >= a && r >= b && (r == a || r == b)
  {
    if a >= b then a else b
  }

  /** The byte with value `n`, reached by counting: the cheapest integer-to-bits step to reason about. */
  function ToByte(n: nat): (b: byte)
    requires n < 256
    ensures b as int == n
  {
    if n == 0 then 0 else
      var before := ToByte(n - 1);
      Successor(before);
      before + 1
  }

  lemma Successor(b: byte)
    requires b as int < 255
    ensures (b + 1) as int == b as int + 1
  {
    assert b != 0xff;
  }

  function Pow256(n: nat): (r: nat)
    ensures r > 0
  {
    if n == 0 then 1 else 256 * Pow256(n - 1)
  }

  /** The number written by `bytes`, most significant byte first. */
  function BigEndian(bytes: seq<byte>): (r: nat) {
    if bytes == [] then 0 else 256 * BigEndian(bytes[..|bytes| - 1]) + bytes[|bytes| - 1] as int
  }

  lemma BigEndianAppend(bytes: seq<byte>, b: byte)
    ensures BigEndian(bytes + [b]) == 256 * BigEndian(bytes) + b as int
  {
    assert (bytes + [b])[..|bytes|] == bytes;
  }

  /** Where the aligned block of `size` that holds `at` begins. */
  function Base(at: nat, size: nat): (r: nat)
    requires 0 < size
    ensures r <= at < r + size
    ensures r == at - at % size
  {
    var q := at / size;
    assert at == q * size + at % size;
    at - at % size
  }

  lemma RemainderUnique(n: int, q: int, r: int, d: int)
    requires 0 < d && 0 <= r < d && n == q * d + r
    ensures n % d == r && n / d == q
  {
    var k := n / d - q;
    assert k * d == (n / d) * d - q * d;
    assert -d < k * d < d;
    if k != 0 {
      FactorBound(k, d);
    }
  }

  lemma FactorBound(k: int, d: int)
    requires 0 < d && k != 0
    ensures k * d >= d || k * d <= -d
  {
    if k > 0 {
      assert (k - 1) * d >= 0;
    } else {
      assert (-k - 1) * d >= 0;
    }
  }

  lemma SmallRemainder(n: nat, d: nat)
    requires n < d
    ensures n % d == n && n / d == 0
  {
  }

  /** A position inside an aligned block leaves its distance from the block's start. */
  lemma BlockOffset(at: nat, size: nat, k: nat)
    requires k < size
    ensures Base(Base(at, size) + k, size) == Base(at, size)
    ensures (Base(at, size) + k) % size == k
  {
    RemainderUnique(Base(at, size) + k, at / size, k, size);
  }

  /** An aligned start plus a small step: multiples of `size` stay multiples. */
  lemma MultipleStep(q: nat, size: nat)
    requires 0 < size
    ensures (q * size) % size == 0 && (q * size) / size == q
    ensures (q + 1) * size == q * size + size
  {
    RemainderUnique(q * size, q, 0, size);
  }

  lemma RoundDown(n: nat, d: nat)
    requires 0 < d
    ensures (n / d) * d <= n < (n / d) * d + d
    ensures n % d == 0 ==> (n / d) * d == n
  {
  }

  lemma RoundUp(n: nat, d: nat)
    requires 0 < d
    ensures n <= ((n + d - 1) / d) * d < n + d
  {
    RoundDown(n + d - 1, d);
  }

  lemma MultipleUpTo(a: nat, b: nat, d: nat)
    requires a <= b
    ensures a * d <= b * d
  {
    assert (b - a) * d >= 0;
  }

  lemma MultipleBelow(a: nat, b: nat, d: nat)
    requires a * d < b * d + d
    ensures a <= b
  {
    if b < a {
      MultipleOrder(b, a, d);
    }
  }

  lemma {:induction false} MultipleOrder(a: nat, b: nat, d: nat)
    requires a < b
    ensures a * d + d <= b * d
    decreases b
  {
    assert b * d == (b - 1) * d + d;
    if a + 1 < b {
      MultipleOrder(a, b - 1, d);
    }
  }

  lemma DivideTwice(n: nat, d: nat)
    requires 0 < d
    ensures n / d == 256 * (n / (256 * d)) + (n / d) % 256
  {
    var q, r := n / d, n % d;
    var q', r' := q / 256, q % 256;
    Regroup(q', r', d);
    RemainderUnique(n, q', r' * d + r, 256 * d);
  }

  lemma Regroup(q: nat, r: nat, d: nat)
    requires r < 256
    ensures (256 * q + r) * d == q * (256 * d) + r * d
    ensures 0 <= r * d <= 255 * d
  {
    assert (255 - r) * d >= 0;
  }
}

/** The catalogue's string hash (TSP/inc/Catalogue.h:220-235), a Schrage-style multiplication. */
module Hash {

  const M := 2147483647
  const TWO64 := 0x1_0000_0000_0000_0000

  /** Sum of the characters, as a 64-bit `size_t`; a `char` may be negative. */
  function CharSum(key: seq<int>): (t: nat)
    ensures t < TWO64
  {
    if key == [] then 0 else (CharSum(key[..|key| - 1]) + key[|key| - 1]) % TWO64
  }

  /** Keys are summed character by character: the sum of a key is that of its parts, up to the 64 bits of the counter. */
  lemma {:induction false} CharSumAdds(a: seq<int>, b: seq<int>)
    ensures forall c :: CharSum([c]) == c % TWO64
    ensures CharSum(a + b) == (CharSum(a) + CharSum(b)) % TWO64
  {
    forall c
      ensures CharSum([c]) == c % TWO64
    {
      assert [c][..0] == [] && CharSum([c][..0]) == 0;
    }
    if b == [] {
      assert a + b == a;
    } else {
      var init, last := b[..|b| - 1], b[|b| - 1];
      CharSumAdds(a, init);
      assert (a + b)[..|a + b| - 1] == a + init;
      WrapTwice(CharSum(a) + CharSum(init), last);
      WrapTwice(CharSum(init) + last, CharSum(a));
    }
  }

  lemma WrapTwice(x: int, y: int)
    ensures (x % TWO64 + y) % TWO64 == (x + y) % TWO64
  {
  }

  function ToLong(t: nat): int
    requires t < TWO64
  {
    if t < TWO64 / 2 then t else t - TWO64
  }

  function ToSize(x: int): (t: nat)
    ensures t < TWO64
  {
    x % TWO64
  }

  /** `ldiv` truncates toward zero. */
  function LdivQuot(x: int): int {
    if x >= 0 then x / 127773 else -(-x / 127773)
  }

  function LdivRem(x: int): int {
    x - 127773 * LdivQuot(x)
  }

  /** The remainder before the sign is repaired. */
  function Raw(x: int): int {
    16807 * LdivRem(x) - 2836 * LdivQuot(x)
  }

  function HashOf(x: int): nat {
    ToSize(if Raw(x) < 0 then Raw(x) + M else Raw(x))
  }

  method HashKey(key: seq<int>) returns (hash: nat)
    ensures hash == HashOf(ToLong(CharSum(key)))
  {
    var t := 0;
    for i := 0 to |key|
      invariant t == CharSum(key[..i])
    {
      assert key[..i + 1][..i] == key[..i];
      t := (t + key[i]) % TWO64;
    }
    assert key[..|key|] == key;
    var x := ToLong(t);
    var quot := LdivQuot(x);
    var rem := x - 127773 * quot;
    rem := 16807 * rem - 2836 * quot;
    if rem < 0 {
      rem := rem + M;
    }
    hash := ToSize(rem);
  }

  /** Splitting off the quotient only subtracts a multiple of the modulus. */
  lemma SchrageIdentity(x: int)
    ensures 16807 * x == M * LdivQuot(x) + Raw(x)
  {
  }

  /** What a caller can check of the sum: its quotient is not too large for its remainder. */
  predicate Repairable(x: int) {
    if x >= 0 then 2836 * (x / 127773) <= 16807 * (x % 127773) + M
    else 2836 * (-x / 127773) < 16807 * (-x % 127773) + M
  }

  /**
   For every 64-bit character sum the hash is the sum times 16807 modulo 2^31-1 if and only if one
   addition of the modulus can repair the raw remainder.
   */
  lemma HashIsModularProduct(x: int)
    requires -TWO64 / 2 <= x < TWO64 / 2
    ensures HashOf(x) == 16807 * x % M <==> Repairable(x)
  {
    SchrageIdentity(x);
    RawIsBounded(x);
    RepairableRaw(x);
    var q := LdivQuot(x);
    if -M <= Raw(x) < 0 {
      ModIs(16807 * x, q - 1, Raw(x) + M);
    } else if 0 <= Raw(x) < M {
      ModIs(16807 * x, q, Raw(x));
    }
  }

  /**
   Every 64-bit sum, even one the repair is not enough for, is hashed to a signed number congruent
   to the product: the raw remainder, with the modulus added once if it is negative.
   */
  lemma HashIsCongruent(x: int)
    requires -TWO64 / 2 <= x < TWO64 / 2
    ensures 0 <= HashOf(x) < TWO64 && (ToLong(HashOf(x)) - 16807 * x) % M == 0
    ensures ToLong(HashOf(x)) == if Raw(x) < 0 then Raw(x) + M else Raw(x)
  {
    SchrageIdentity(x);
    RawIsBounded(x);
    var q, h := LdivQuot(x), if Raw(x) < 0 then Raw(x) + M else Raw(x);
    assert ToLong(ToSize(h)) == h;
    ModIs(h - 16807 * x, if Raw(x) < 0 then 1 - q else -q, 0);
  }

  lemma RepairableRaw(x: int)
    ensures Repairable(x) <==> -M <= Raw(x) < M
  {
    assert x >= 0 ==> Raw(x) == 16807 * (x % 127773) - 2836 * (x / 127773);
    assert x < 0 ==> Raw(x) == 2836 * (-x / 127773) - 16807 * (-x % 127773);
  }

  lemma ModIs(x: int, q: int, r: int)
    requires x == M * q + r && 0 <= r < M
    ensures x % M == r
  {
  }

  /** Far from overflowing 64 bits. */
  lemma RawIsBounded(x: int)
    requires -TWO64 / 2 <= x < TWO64 / 2
    ensures -TWO64 / 4 < Raw(x) < TWO64 / 4
  {
  }

  /** The first sum the repair is not enough for. */
  const FIRST_BAD := 127773 * 757223

  /** Every sum nearer to zero is hashed to the modular product, and only multiples of the modulus to zero. */
  lemma OrdinarySum(x: int)
    requires -FIRST_BAD < x < FIRST_BAD
    ensures HashOf(x) == 16807 * x % M && (HashOf(x) == 0 <==> x % M == 0)
  {
    assert (if x >= 0 then x else -x) / 127773 < 757223;
    HashIsModularProduct(x);
    Invertible(x);
  }

  /** So is every key with such a sum, which may be negative when its characters are. */
  lemma HashOfOrdinaryKeys(key: seq<int>)
    requires -FIRST_BAD < ToLong(CharSum(key)) < FIRST_BAD
    ensures var x := ToLong(CharSum(key)); HashOf(x) == 16807 * x % M && (HashOf(x) == 0 <==> x % M == 0)
  {
    OrdinarySum(ToLong(CharSum(key)));
  }

  /** 16807 has the inverse 1407677000 modulo M. */
  lemma Invertible(t: int)
    ensures 16807 * t % M == 0 <==> t % M == 0
  {
    if 16807 * t % M == 0 {
      var k := 16807 * t / M;
      assert 16807 * t == M * k;
      assert 16807 * 1407677000 == 1 + M * 11017;
      ModIs(t, 1407677000 * k - 11017 * t, 0);
    }
    if t % M == 0 {
      ModIs(16807 * t, 16807 * (t / M), 0);
    }
  }

  lemma {:induction false} SumOfOnes(n: nat)
    requires n < TWO64
    ensures CharSum(seq(n, _ => 1)) == n
  {
    if n > 0 {
      assert seq(n, _ => 1)[..n - 1] == seq(n - 1, _ => 1);
      SumOfOnes(n - 1);
    }
  }

  /** A key whose sum is the bound itself is hashed wrong: the modulus would have to be added twice. */
  lemma HashOverflows() returns (key: seq<int>)
    ensures CharSum(key) == FIRST_BAD
    ensures HashOf(ToLong(CharSum(key))) != 16807 * CharSum(key) % M
  {
    key := seq(FIRST_BAD, _ => 1);
    SumOfOnes(FIRST_BAD);
    assert FIRST_BAD / 127773 == 757223 && FIRST_BAD % 127773 == 0;
    HashIsModularProduct(FIRST_BAD);
  }
}

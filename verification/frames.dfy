/** Raw frame identifiers (Go `uintptr` program counters), the exact comparison of two
    captured sequences (`stackMatches`) and the order-sensitive fingerprint used as the
    cache bucket key (stack.go). */
module Frames {

  /** `uintptr` on a 64-bit platform: arithmetic on it wraps modulo 2^64. */
  const WordModulus: int := 0x1_0000_0000_0000_0000

  type Word = x: int | 0 <= x < WordModulus

  /** Seed and multiplier of the fingerprint fold. */
  const Seed: Word := 17
  const Multiplier: Word := 31

  /** One step of the fold, `hash*31 + pc` in wrapping 64-bit arithmetic. */
  function Step(hash: Word, pc: Word): Word {
    (hash * Multiplier + pc) % WordModulus
  }

  /** The fold over `pcs` from the front, starting from accumulator `hash`. */
  function FoldFrom(hash: Word, pcs: seq<Word>): Word
    decreases |pcs|
  {
    if |pcs| == 0 then hash else FoldFrom(Step(hash, pcs[0]), pcs[1..])
  }

  /** The fingerprint of a captured frame sequence: the bucket key of the stack cache. */
  function Fingerprint(pcs: seq<Word>): Word {
    FoldFrom(Seed, pcs)
  }

  /** `stackMatches`: compares the two sequences length first, then element by element,
      and answers exactly whether they are equal. */
  method StackMatches(cached: seq<Word>, current: seq<Word>) returns (same: bool)
    ensures same <==> cached == current
  {
    if |cached| != |current| {
      return false;
    }
    var i := 0;
    while i < |cached|
      invariant 0 <= i <= |cached|
      invariant cached[..i] == current[..i]
    {
      if cached[i] != current[i] {
        return false;
      }
      i := i + 1;
    }
    assert cached == cached[..i] && current == current[..i];
    return true;
  }

  /** The hashing loop of `getOrCreateStack`: `hash := 17`, then `hash = hash*31 + pc`
      for each frame in order, with 64-bit wrap-around. */
  method HashFrames(pcs: seq<Word>) returns (hash: Word)
    ensures hash == Fingerprint(pcs)
    ensures hash == (Seed * Power(Multiplier, |pcs|) + Weighted(pcs)) % WordModulus
  {
    hash := Seed;
    var i := 0;
    while i < |pcs|
      invariant 0 <= i <= |pcs|
      invariant FoldFrom(hash, pcs[i..]) == Fingerprint(pcs)
    {
      assert pcs[i..][1..] == pcs[i + 1..];
      hash := (hash * Multiplier + pcs[i]) % WordModulus;
      i := i + 1;
    }
    assert pcs[i..] == [];
    FingerprintClosedForm(pcs);
  }

  /** `b` to the power `n`, over unbounded integers. */
  function Power(b: int, n: nat): int {
    if n == 0 then 1 else b * Power(b, n - 1)
  }

  /** The polynomial `sum pcs[i] * 31^(|pcs|-1-i)` over unbounded integers. */
  function Weighted(pcs: seq<Word>): int
    decreases |pcs|
  {
    if |pcs| == 0 then 0 else pcs[0] * Power(Multiplier, |pcs| - 1) + Weighted(pcs[1..])
  }

  /** Adding a multiple of the modulus does not change a residue. */
  lemma {:induction false} ModAddMultiple(x: int, q: int)
    ensures (x + q * WordModulus) % WordModulus == x % WordModulus
  {
    var r := x % WordModulus;
    var d := x / WordModulus;
    assert x == d * WordModulus + r;
    assert x + q * WordModulus == (d + q) * WordModulus + r;
  }

  /** Reducing the accumulator early does not change the final residue. */
  lemma {:induction false} ModMulAdd(a: int, k: int, b: int)
    ensures ((a % WordModulus) * k + b) % WordModulus == (a * k + b) % WordModulus
  {
    var r := a % WordModulus;
    var d := a / WordModulus;
    assert a == d * WordModulus + r;
    calc {
      a * k + b;
      (d * WordModulus + r) * k + b;
      { assert (d * WordModulus + r) * k == (d * k) * WordModulus + r * k; }
      (r * k + b) + (d * k) * WordModulus;
    }
    ModAddMultiple(r * k + b, d * k);
  }

  /** The wrapping fold equals the exact polynomial reduced once, modulo 2^64:
      `FoldFrom(h, pcs) == (h * 31^n + sum pcs[i] * 31^(n-1-i)) mod 2^64`. */
  lemma {:induction false} FoldClosedForm(hash: Word, pcs: seq<Word>)
    ensures FoldFrom(hash, pcs) == (hash * Power(Multiplier, |pcs|) + Weighted(pcs)) % WordModulus
    decreases |pcs|
  {
    if |pcs| != 0 {
      var n := |pcs|;
      var k := Power(Multiplier, n - 1);
      var rest := pcs[1..];
      var a := hash * Multiplier + pcs[0];
      var w := Weighted(rest);
      FoldClosedForm(Step(hash, pcs[0]), rest);
      assert FoldFrom(hash, pcs) == ((a % WordModulus) * k + w) % WordModulus;
      ModMulAdd(a, k, w);
      assert a * k + w == hash * Power(Multiplier, n) + Weighted(pcs) by {
        Expand(hash, pcs[0], k);
        assert Power(Multiplier, n) == Multiplier * k;
        assert Weighted(pcs) == pcs[0] * k + w;
      }
    }
  }

  /** Rearranges one step of the fold: `(h*31 + p)*k == h*(31*k) + p*k`. */
  lemma Expand(h: int, p: int, k: int)
    ensures (h * Multiplier + p) * k == h * (Multiplier * k) + p * k
  {
    calc {
      (h * Multiplier + p) * k;
      (h * Multiplier) * k + p * k;
      h * (Multiplier * k) + p * k;
    }
  }

  /** The fingerprint as an explicit polynomial in the frames, seeded with 17. */
  lemma FingerprintClosedForm(pcs: seq<Word>)
    ensures Fingerprint(pcs) == (Seed * Power(Multiplier, |pcs|) + Weighted(pcs)) % WordModulus
  {
    FoldClosedForm(Seed, pcs);
  }

  /** The fold is order-sensitive: swapping two frames changes the fingerprint. */
  lemma FingerprintOrderSensitive()
    ensures Fingerprint([1, 2]) != Fingerprint([2, 1])
  {
    assert Fingerprint([1, 2]) == 16370 by {
      assert [1, 2][1..] == [2];
      assert [2][1..] == [];
    }
    assert Fingerprint([2, 1]) == 16400 by {
      assert [2, 1][1..] == [1];
      assert [1][1..] == [];
    }
  }

  /** Two different stacks whose fingerprints collide: the frames `[0, 31]` and `[1, 0]`
      both fold to 16368. */
  lemma FingerprintsCollide()
    ensures Fingerprint([0, 31]) == Fingerprint([1, 0])
  {
    assert [0, 31][1..] == [31] && [31][1..] == [];
    assert [1, 0][1..] == [0] && [0][1..] == [];
  }
}

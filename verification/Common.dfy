/** Definitions several components share. */
module Common {

  /** One more than the largest 64-bit word. */
  const WORD: nat := 0x1_0000_0000_0000_0000

  type uint32 = x: int | 0 <= x < 0x1_0000_0000

  type pos = x: nat | 1 <= x witness 1

  datatype Option<+T> = None | Some(value: T)

  function PowerOfTwo(n: nat): (p: nat)
    ensures p > 0
  {
    if n == 0 then 1 else 2 * PowerOfTwo(n - 1)
  }

  function Min(a: int, b: int): int { if a <= b then a else b }

  function Max(a: int, b: int): int { if a <= b then b else a }

  /** Division, by counting: a symbol to the proofs that only compare shares. */
  function Share(x: nat, d: nat): nat
    requires d > 0
    decreases x
  {
    if x < d then 0 else 1 + Share(x - d, d)
  }

  lemma {:induction false} ShareIsQuotient(x: nat, d: nat)
    requires d > 0
    ensures Share(x, d) == x / d
    decreases x
  {
    if x >= d {
      ShareIsQuotient(x - d, d);
      QuotientStep(x, d, (x - d) / d);
    }
  }

  lemma QuotientStep(x: nat, d: nat, q: nat)
    requires d > 0 && x >= d && q == (x - d) / d
    ensures x / d == q + 1
  {
    var r := (x - d) % d;
    assert x - d == q * d + r;
    assert (q + 1) * d + r == x && (x / d) * d + x % d == x;
    UniqueQuotient(d, q + 1, r, x / d, x % d);
  }

  lemma UniqueQuotient(d: nat, q: int, r: nat, q': int, r': nat)
    requires r < d && r' < d && q * d + r == q' * d + r'
    ensures q == q'
  {
    Spread(q - q', d);
    Spread(q' - q, d);
    assert (q - q') * d == q * d - q' * d && (q' - q) * d == q' * d - q * d;
  }

  lemma Spread(k: int, d: nat)
    ensures k >= 1 ==> k * d >= d
  {
    if k >= 1 { assert (k - 1) * d >= 0; }
  }
}

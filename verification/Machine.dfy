/** Machine words and byte strings, as the Rust code uses them. */
module Machine {

  type byte = b: int | 0 <= b < 256

  type Bytes = seq<byte>

  const WORD: int := 0x1_0000_0000

  type u32 = w: int | 0 <= w < 0x1_0000_0000

  function WrapAdd(a: u32, b: u32): u32 {
    (a + b) % WORD
  }

  function WrapSub(a: u32, b: u32): u32 {
    (a - b) % WORD
  }

  function Truncate32(n: nat): u32 {
    n % WORD
  }

  function Min(a: nat, b: nat): nat {
    if a < b then a else b
  }

  function Pow2(k: nat): nat {
    if k == 0 then 1 else 2 * Pow2(k - 1)
  }

  lemma Pow2Positive(k: nat)
    ensures Pow2(k) > 0
  {
  }

  lemma MulOrder(x: int, y: int, unit: int)
    requires x <= y && 0 <= unit
    ensures x * unit <= y * unit
  {
  }

  lemma Quotient(n: nat, d: nat, q: nat, r: nat)
    requires d > 0 && n == q * d + r && r < d
    ensures n / d == q
  {
    var q' := n / d;
    assert n == q' * d + n % d;
    if q' > q {
      MulOrder(q + 1, q', d);
    } else if q' < q {
      MulOrder(q' + 1, q, d);
    }
  }

  lemma ShiftHalves(n: nat, k: nat)
    requires k > 0
    ensures Pow2(k - 1) > 0 && Pow2(k) > 0 && n / Pow2(k) == n / 2 / Pow2(k - 1)
  {
    hide Pow2;
    var d := Pow2(k - 1);
    Pow2Positive(k - 1);
    Pow2Doubles(k);
    var m, q, r := n / 2, n / 2 / d, n / 2 % d;
    assert m == q * d + r;
    assert n == q * (2 * d) + (2 * r + n % 2) by {
      assert n == 2 * m + n % 2;
    }
    Quotient(n, 2 * d, q, 2 * r + n % 2);
  }

  lemma Pow2Doubles(k: nat)
    requires k > 0
    ensures Pow2(k) == 2 * Pow2(k - 1)
  {
  }

  datatype Option<+T> = None | Some(value: T)

  datatype Result<+T> = Ok(value: T) | Err(reason: string)
}

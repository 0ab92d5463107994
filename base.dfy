/** Machine-width value types and small arithmetic helpers shared by the model. */
module Base {

  /** A `u8`. */
  type Byte = b: int | 0 <= b < 0x100

  /** A `u16`, one UTF-16 code unit. */
  type U16 = u: int | 0 <= u < 0x1_0000

  /** A `u64`, the type of the line counter. */
  type U64 = n: int | 0 <= n < 0x1_0000_0000_0000_0000

  const NUL: Byte := 0x00
  const NEWLINE: Byte := 0x0A
  /** `b'0'` and `b'9'` */
  const ZERO_CHAR: Byte := 0x30
  const NINE_CHAR: Byte := 0x39

  predicate IsDigit(b: Byte) {
    ZERO_CHAR <= b <= NINE_CHAR
  }

  datatype Option<+T> = None | Some(value: T)

  function Min(a: nat, b: nat): nat {
    if a <= b then a else b
  }

  function Pow10(k: nat): (p: nat)
    ensures p >= 1
  {
    if k == 0 then 1 else 10 * Pow10(k - 1)
  }

  /** `k` NUL bytes. */
  function Zeros(k: nat): (z: seq<Byte>)
    ensures |z| == k
    ensures forall i :: 0 <= i < k ==> z[i] == NUL
  {
    seq(k, _ => NUL)
  }

  /** Division with remainder has one answer: a quotient/remainder pair that fits is the pair. */
  lemma {:induction false} DivModUnique(n: nat, d: nat, q: nat, r: nat)
    requires 0 < d && r < d && n == q * d + r
    ensures n / d == q && n % d == r
  {
    var q', r' := n / d, n % d;
    assert n == q' * d + r';
    if q' < q {
      MulMonotone(q' + 1, q, d);
    } else if q < q' {
      MulMonotone(q + 1, q', d);
    }
  }

  lemma {:induction false} MulMonotone(a: nat, b: nat, d: nat)
    requires a <= b
    ensures a * d <= b * d
  {
    assert b * d == a * d + (b - a) * d;
  }

  /** Dividing by `a` then by `b` is dividing by `a * b`; the remainder splits the same way. */
  lemma {:induction false} DivDiv(n: nat, a: nat, b: nat)
    requires 0 < a && 0 < b
    ensures n / a / b == n / (a * b)
    ensures n % (a * b) == (n / a % b) * a + n % a
  {
    var x, m := n / a, n % a;
    var q, t := x / b, x % b;
    assert n == x * a + m;
    assert x == q * b + t;
    Regroup(n, x, q, b, t, a, m);
    DivModUnique(n, a * b, q, t * a + m);
  }

  lemma {:induction false} Regroup(n: nat, x: nat, q: nat, b: nat, t: nat, a: nat, m: nat)
    requires n == x * a + m && x == q * b + t && t < b && m < a
    ensures n == q * (a * b) + (t * a + m) && t * a + m < a * b
  {
    assert x * a == q * (a * b) + t * a;
    MulMonotone(t + 1, b, a);
  }

  /** Splitting off the digit at place value `p`. */
  lemma {:induction false} ModTenTimes(n: nat, p: nat)
    requires p > 0
    ensures n % (10 * p) == ((n / p) % 10) * p + n % p
    ensures n / p / 10 == n / (10 * p)
  {
    DivDiv(n, p, 10);
  }
}

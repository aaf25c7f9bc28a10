/** The fixed-width integers of the Go source, as ranges of `int` with explicit wrap-around. */
module Words {
  type byte = b: int | 0 <= b < 0x100
  type uint32 = u: int | 0 <= u < 0x1_0000_0000
  type int32 = n: int | -0x8000_0000 <= n < 0x8000_0000
  type uint64 = u: int | 0 <= u < 0x1_0000_0000_0000_0000

  const MAX_INT32: int32 := 0x7FFF_FFFF

  predicate FitsInt32(x: int) {
    -0x8000_0000 <= x <= MAX_INT32
  }

  const TWO_32 := 0x1_0000_0000

  /**
   * `uint32(x)`: two's complement truncation, the residue of `x` modulo 2^32. Stated by recursion
   * so that a value in range is seen to be unchanged without reasoning about `%`.
   */
  function ToUint32(x: int): (u: uint32)
    ensures -TWO_32 <= x < 0 ==> u == x + TWO_32
    ensures TWO_32 <= x < 2 * TWO_32 ==> u == x - TWO_32
    decreases if x < 0 then TWO_32 - x else x
  {
    if x < 0 then ToUint32(x + TWO_32) else if x < TWO_32 then x else ToUint32(x - TWO_32)
  }

  /** `int32(x)`: two's complement truncation. */
  function ToInt32(x: int): (n: int32)
    ensures FitsInt32(x) ==> n == x
  {
    var u := ToUint32(x);
    if u <= MAX_INT32 then u else u - TWO_32
  }

  lemma ResidueStep(x: int)
    ensures (x + TWO_32) % TWO_32 == x % TWO_32
  {
    var (q, r) := (x / TWO_32, x % TWO_32);
    assert x + TWO_32 == (q + 1) * TWO_32 + r;
  }

  lemma {:induction false} TruncationIsResidue(x: int)
    ensures ToUint32(x) == x % TWO_32
    decreases if x < 0 then TWO_32 - x else x
  {
    if x < 0 {
      TruncationIsResidue(x + TWO_32);
      ResidueStep(x);
    } else if x >= TWO_32 {
      TruncationIsResidue(x - TWO_32);
      ResidueStep(x - TWO_32);
    }
  }

  lemma {:induction false} TruncationIsPeriodic(x: int, k: int)
    ensures ToUint32(x + k * TWO_32) == ToUint32(x)
  {
    TruncationIsResidue(x);
    TruncationIsResidue(x + k * TWO_32);
    var (q, r) := (x / TWO_32, x % TWO_32);
    assert x + k * TWO_32 == (q + k) * TWO_32 + r;
  }

  lemma TruncationOffset(b: int) returns (k: int)
    ensures ToInt32(b) == b + k * TWO_32
  {
    TruncationIsResidue(b);
    k := if ToUint32(b) <= MAX_INT32 then -(b / TWO_32) else -(b / TWO_32) - 1;
  }

  /** Truncating a term of a sum or difference first does not change the truncated result. */
  lemma TruncatedTerm(a: int, b: int)
    ensures ToInt32(a + ToInt32(b)) == ToInt32(a + b)
    ensures ToInt32(a - ToInt32(b)) == ToInt32(a - b)
  {
    var k := TruncationOffset(b);
    assert ToUint32(a + ToInt32(b)) == ToUint32(a + b) by { TruncationIsPeriodic(a + b, k); }
    assert ToUint32(a - ToInt32(b)) == ToUint32(a - b) by { TruncationIsPeriodic(a - b, -k); }
  }

  lemma TruncatedSum(a: int, b: int)
    ensures ToUint32(ToUint32(a) + b) == ToUint32(a + b)
  {
    TruncationIsResidue(a);
    TruncationIsPeriodic(a + b, -(a / TWO_32));
  }

  function Min(a: int, b: int): int {
    if a <= b then a else b
  }
}

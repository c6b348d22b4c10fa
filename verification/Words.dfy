/** Fixed-width unsigned integers as the Go source uses them, and a plain option type. */
module Words {

  const TWO_64: nat := 0x1_0000_0000_0000_0000

  type Byte = x: nat | x < 256

  type Word64 = x: nat | x < 0x1_0000_0000_0000_0000

  /** Go's int and int64. */
  type GoInt = x: int | -0x8000_0000_0000_0000 <= x < 0x8000_0000_0000_0000

  predicate FitsInt(x: int) {
    -0x8000_0000_0000_0000 <= x < 0x8000_0000_0000_0000
  }

  /** Two's-complement truncation to 64 bits. */
  function Wrap64(x: int): (y: GoInt)
    ensures FitsInt(x) ==> y == x
  {
    (x + 0x8000_0000_0000_0000) % 0x1_0000_0000_0000_0000 - 0x8000_0000_0000_0000
  }

  /** The truncated value is right modulo 2^64. */
  lemma Wrap64IsCongruent(x: int)
    ensures (x - Wrap64(x)) % 0x1_0000_0000_0000_0000 == 0
  {
  }

  datatype Option<+T> = None | Some(value: T)

  /** No element occurs twice. */
  ghost predicate Distinct<T>(s: seq<T>) {
    forall i, j :: 0 <= i < j < |s| ==> s[i] != s[j]
  }

  /** Concatenation may be regrouped. */
  lemma Regroup<T>(a: seq<T>, b: seq<T>, c: seq<T>)
    ensures (a + b) + c == a + (b + c)
  {
  }

  lemma AppendNothing<T>(a: seq<T>)
    ensures a + [] == a
  {
  }

  /** A multiple of c below c in size is zero. */
  lemma SmallMultiple(d: int, c: int)
    requires c > 0
    ensures d >= 1 ==> d * c >= c
    ensures d <= -1 ==> d * c <= -c
    ensures -c < d * c < c ==> d == 0
  {
    if d >= 1 {
      assert (d - 1) * c >= 0;
    } else if d <= -1 {
      assert (-d - 1) * c >= 0;
    }
  }

  lemma Quotient(n: nat, c: nat, q: int, r: nat)
    requires c > 0 && n == q * c + r && r < c
    ensures n % c == r && n / c == q
  {
    assert n == (n / c) * c + n % c;
    assert (n / c - q) * c == r - n % c;
    SmallMultiple(n / c - q, c);
  }
}

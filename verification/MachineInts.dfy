/** The fixed-width integers the C++ code computes with, and their little-endian byte images. */
module MachineInts {
  type Byte = b: int | 0 <= b < 0x100
  type Word = w: int | 0 <= w < 0x1_0000_0000

  const INT_MAX: int := 0x7fff_ffff
  const TWO32: int := 0x1_0000_0000

  datatype Option<+T> = None | Some(value: T)

  /** What an `int` holds after being assigned the mathematical value `x`. */
  function ToInt32(x: int): (r: int)
    ensures -0x8000_0000 <= r <= INT_MAX
    ensures (r - x) % TWO32 == 0
    ensures -0x8000_0000 <= x <= INT_MAX ==> r == x
  {
    var m := x % TWO32;
    if m <= INT_MAX then m else m - TWO32
  }

  /** What a `uint32_t` holds after being assigned the mathematical value `x`. */
  function ToUInt32(x: int): (r: Word)
    ensures (r - x) % TWO32 == 0
  {
    x % TWO32
  }

  /** The same for the other signed widths. */
  function ToInt8(x: int): (r: int)
    ensures -0x80 <= r < 0x80 && (r - x) % 0x100 == 0
  {
    var m := x % 0x100;
    if m < 0x80 then m else m - 0x100
  }

  function ToInt16(x: int): (r: int)
    ensures -0x8000 <= r < 0x8000 && (r - x) % 0x1_0000 == 0
    ensures -0x8000 <= x < 0x8000 ==> r == x
  {
    var m := x % 0x1_0000;
    if m < 0x8000 then m else m - 0x1_0000
  }

  function ToInt64(x: int): (r: int)
    ensures -0x8000_0000_0000_0000 <= r < 0x8000_0000_0000_0000 && (r - x) % 0x1_0000_0000_0000_0000 == 0
  {
    var m := x % 0x1_0000_0000_0000_0000;
    if m < 0x8000_0000_0000_0000 then m else m - 0x1_0000_0000_0000_0000
  }

  /** C division: the quotient is rounded toward zero. */
  function TruncDiv(a: int, b: int): (q: int)
    requires b > 0
    ensures a >= 0 ==> q * b <= a < q * b + b
    ensures a < 0 ==> q * b - b < a <= q * b
  {
    if a >= 0 then a / b else -((-a) / b)
  }

  /** The unsigned value of a little-endian byte string. */
  function FromLE(bs: seq<Byte>): (n: nat) {
    if bs == [] then 0 else bs[0] + 0x100 * FromLE(bs[1..])
  }

  /** The low `k` bytes of `n`, least significant first. */
  function ToLE(n: nat, k: nat): (bs: seq<Byte>)
    ensures |bs| == k
  {
    if k == 0 then [] else [n % 0x100] + ToLE(n / 0x100, k - 1)
  }

  function Pow256(k: nat): (p: nat)
    ensures p > 0
  {
    if k == 0 then 1 else 0x100 * Pow256(k - 1)
  }

  /** Reading back the `k` bytes written for a value that fits in them gives the value. */
  lemma {:induction false} FromToLE(n: nat, k: nat)
    requires n < Pow256(k)
    ensures FromLE(ToLE(n, k)) == n
  {
    if k == 0 {
    } else {
      FromToLE(n / 0x100, k - 1);
    }
  }

  /** Every byte string is the image of the value read from it, and that value fits. */
  lemma {:induction false} ToFromLE(bs: seq<Byte>)
    ensures FromLE(bs) < Pow256(|bs|)
    ensures ToLE(FromLE(bs), |bs|) == bs
  {
    if bs == [] {
    } else {
      ToFromLE(bs[1..]);
      assert bs == [bs[0]] + bs[1..];
    }
  }
}

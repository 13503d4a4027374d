/** Bytes, machine words and their little-endian layout.
  * Machine integers are modelled on `int`; every wrap-around, truncation and
  * reinterpretation as signed is written out with the functions below. */
module Words {

  datatype Option<T> = None | Some(value: T)

  type byte = b: int | 0 <= b < 256

  const TWO_8: int := 0x100
  const TWO_16: int := 0x1_0000
  const TWO_31: int := 0x8000_0000
  const TWO_32: int := 0x1_0000_0000
  const TWO_63: int := 0x8000_0000_0000_0000
  const TWO_64: int := 0x1_0000_0000_0000_0000

  type u32 = x: int | 0 <= x < TWO_32
  type u64 = x: int | 0 <= x < TWO_64

  /** The 64-bit word congruent to `x`. */
  function Wrap64(x: int): (r: u64) {
    x % TWO_64
  }

  /** The 64-bit word `x` read as a two's complement LONGLONG. */
  function Signed64(x: u64): (r: int) {
    if x < TWO_63 then x else x - TWO_64
  }

  /** The 32-bit word `x` read as a two's complement LONG. */
  function Signed32(x: u32): (r: int)
    ensures -TWO_31 <= r < TWO_31
    ensures r % TWO_32 == x
  {
    if x < TWO_31 then x else x - TWO_32
  }

  /** `x == (LONG)x` for a LONGLONG `x`. */
  predicate FitsLong(x: int) {
    -TWO_31 <= x < TWO_31
  }

  /** The bit pattern of a value that fits a LONG. */
  function Unsigned32(x: int): (r: u32)
    requires FitsLong(x)
    ensures Signed32(r) == x
  {
    if x < 0 then x + TWO_32 else x
  }

  /** The value of a little-endian byte sequence. */
  function FromLE(s: seq<byte>): (r: nat)
  {
    if |s| == 0 then 0 else s[0] + TWO_8 * FromLE(s[1..])
  }

  /** The `n` low bytes of `v`, least significant first. */
  function ToLE(v: nat, n: nat): (r: seq<byte>)
    ensures |r| == n
  {
    if n == 0 then [] else [v % TWO_8] + ToLE(v / TWO_8, n - 1)
  }

  /** 2 to the power of 8 * n. */
  function Pow256(n: nat): (r: nat)
    ensures r > 0
  {
    if n == 0 then 1 else TWO_8 * Pow256(n - 1)
  }

  lemma {:induction false} FromToLE(v: nat, n: nat)
    requires v < Pow256(n)
    ensures FromLE(ToLE(v, n)) == v
  {
    if n > 0 {
      assert v / TWO_8 < Pow256(n - 1);
      FromToLE(v / TWO_8, n - 1);
      assert ToLE(v, n)[1..] == ToLE(v / TWO_8, n - 1);
    }
  }

  lemma {:induction false} ToFromLE(s: seq<byte>)
    ensures FromLE(s) < Pow256(|s|)
    ensures ToLE(FromLE(s), |s|) == s
  {
    if |s| > 0 {
      ToFromLE(s[1..]);
      assert FromLE(s) % TWO_8 == s[0];
      assert FromLE(s) / TWO_8 == FromLE(s[1..]);
      assert [s[0]] + s[1..] == s;
    }
  }

  lemma Pow256Values()
    ensures Pow256(1) == TWO_8 && Pow256(2) == TWO_16
    ensures Pow256(4) == TWO_32 && Pow256(8) == TWO_64
  {
    assert Pow256(3) == TWO_8 * Pow256(2);
    assert Pow256(5) == TWO_8 * Pow256(4);
    assert Pow256(6) == TWO_8 * Pow256(5);
    assert Pow256(7) == TWO_8 * Pow256(6);
  }

  /** `*(LONG*)p`: four bytes as a signed number. */
  function ReadLong(bytes: seq<byte>): (v: int)
    requires |bytes| == 4
    ensures FitsLong(v) && Unsigned32(v) == FromLE(bytes)
  {
    ToFromLE(bytes);
    Pow256Values();
    Signed32(FromLE(bytes))
  }

  /** The low `bits` of `v` read as a two's complement number. */
  function SignedBits(v: nat, bits: nat): (r: int) {
    match bits
    case 8 => if v % TWO_8 < 0x80 then v % TWO_8 else v % TWO_8 - TWO_8
    case 16 => if v % TWO_16 < 0x8000 then v % TWO_16 else v % TWO_16 - TWO_16
    case 32 => Signed32(v % TWO_32)
    case _ => 0
  }
}

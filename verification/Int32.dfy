/** 32-bit signed arithmetic, which wraps. */
module Int32 {

  const INT_MAX := 0x7fff_ffff
  const INT_MIN := -0x8000_0000

  predicate IsInt32(n: int) {
    INT_MIN <= n <= INT_MAX
  }

  function Wrap32(x: int): (r: int)
    ensures IsInt32(r)
  {
    (x + 0x8000_0000) % 0x1_0000_0000 - 0x8000_0000
  }

  lemma {:induction false} WrapSmall(x: int)
    requires IsInt32(x)
    ensures Wrap32(x) == x
  {
  }

  /** Wrapping early makes no difference. */
  lemma {:induction false} WrapSum(x: int, y: int)
    ensures Wrap32(Wrap32(x) + y) == Wrap32(x + y)
  {
    var k := (x + 0x8000_0000) / 0x1_0000_0000;
    assert Wrap32(x) == x - k * 0x1_0000_0000;
    WrapShift(x + y, k);
  }

  lemma {:induction false} WrapShift(x: int, k: int)
    ensures Wrap32(x - k * 0x1_0000_0000) == Wrap32(x)
  {
    var m, q := 0x1_0000_0000, (x + 0x8000_0000) / 0x1_0000_0000;
    var r := (x + 0x8000_0000) % m;
    assert x - k * m + 0x8000_0000 == (q - k) * m + r;
  }
}

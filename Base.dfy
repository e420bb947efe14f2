/** Machine integers, nullable handles, result codes and message tags shared
    by the data-node management model. */
module Base {

  newtype int8 = x: int | -0x80 <= x < 0x80
  newtype int32 = x: int | -0x8000_0000 <= x < 0x8000_0000

  /** Two's-complement wrap-around into 32 bits: the value an `int32_t`
      holds after an atomic add or subtract whose exact result is `x`. */
  function Wrap32(x: int): (r: int32)
    ensures (r as int - x) % 0x1_0000_0000 == 0
    ensures -0x8000_0000 <= x < 0x8000_0000 ==> r as int == x
  {
    ((x + 0x8000_0000) % 0x1_0000_0000 - 0x8000_0000) as int32
  }

  /** `atomic_add_fetch_32(&c, 1)` */
  function Inc(c: int32): (r: int32)
  {
    Wrap32(c as int + 1)
  }

  /** `atomic_sub_fetch_32(&c, 1)` */
  function Dec(c: int32): (r: int32)
  {
    Wrap32(c as int - 1)
  }

  /** The atomic increment adds one except at the largest value, where it
      wraps to the smallest. */
  lemma IncWrap(c: int32)
    ensures c < 0x7fff_ffff ==> Inc(c) as int == c as int + 1
    ensures c == 0x7fff_ffff ==> Inc(c) == -0x8000_0000
  {
  }

  /** The atomic decrement subtracts one except at the smallest value,
      where it wraps to the largest. */
  lemma DecWrap(c: int32)
    ensures c > -0x8000_0000 ==> Dec(c) as int == c as int - 1
    ensures c == -0x8000_0000 ==> Dec(c) == 0x7fff_ffff
  {
  }

  /** Two int32 values that agree modulo 2^32 are equal. */
  lemma SameWrap(a: int32, b: int32)
    requires (a as int - b as int) % 0x1_0000_0000 == 0
    ensures a == b
  {
  }

  /** Adding `k` and then `m` with wrap-around is adding `k + m` once. */
  lemma WrapAdd(c: int32, k: int, m: int)
    ensures Wrap32(Wrap32(c as int + k) as int + m) == Wrap32(c as int + k + m)
  {
    var a := Wrap32(Wrap32(c as int + k) as int + m);
    var b := Wrap32(c as int + k + m);
    var w := Wrap32(c as int + k);
    assert (a as int - (w as int + m)) % 0x1_0000_0000 == 0;
    assert (w as int - (c as int + k)) % 0x1_0000_0000 == 0;
    assert (b as int - (c as int + k + m)) % 0x1_0000_0000 == 0;
    assert (a as int - b as int) == (a as int - (w as int + m)) + (w as int - (c as int + k)) - (b as int - (c as int + k + m));
    SameWrap(a, b);
  }

  /** One decrement followed by `n - 1` more is `n` decrements at once. */
  lemma DecThenSub(c: int32, n: int)
    ensures Wrap32(Dec(c) as int - (n - 1)) == Wrap32(c as int - n)
  {
    var k := c as int + -1;
    assert Dec(c) == Wrap32(k);
    WrapAdd(c, -1, -(n - 1));
    assert k + -(n - 1) == c as int - n;
  }

  /** `n - 1` increments followed by one more is `n` increments at once. */
  lemma AddThenInc(c: int32, n: int)
    ensures Inc(Wrap32(c as int + (n - 1))) == Wrap32(c as int + n)
  {
    var a := Wrap32(c as int + (n - 1));
    assert Inc(a) == Wrap32(a as int + 1);
    WrapAdd(c, n - 1, 1);
    assert c as int + (n - 1) + 1 == c as int + n;
  }

  /** Adding `n` and then subtracting `n`, both with wrap-around, is the identity. */
  lemma AddThenSub(c: int32, n: int)
    ensures Wrap32(Wrap32(c as int + n) as int - n) == c
  {
    WrapAdd(c, n, -n);
    assert Wrap32(c as int + n) as int - n == Wrap32(c as int + n) as int + -n;
    assert c as int + n + -n == c as int;
  }

  /** A pointer the model never dereferences: NULL or an opaque address. */
  datatype Handle = Null | Ptr(addr: nat)

  datatype Option<T> = None | Some(value: T)

  // Result codes. Only the value of success (0) is fixed by the source; the
  // others are stand-ins for the constants of taoserror.h, which is not part
  // of this model, and are only required to differ from 0 and each other.
  const CodeSuccess: int32 := 0
  const CodeMsgNotProcessed: int32 := 3
  const CodeInvalidVgroupId: int32 := 4
  const CodeInvalidVnodeStatus: int32 := 5

  // Management message tags, stand-ins for the constants of taosmsg.h, which
  // is not part of this model: distinct values below MsgTypeMax.
  const MsgTypeMax: nat := 32
  const MsgMdCreateVnode: nat := 7
  const MsgMdDropVnode: nat := 9
  const MsgMdAlterVnode: nat := 11
  const MsgMdAlterStream: nat := 13
  const MsgMdConfigDnode: nat := 15
}

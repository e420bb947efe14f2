/** `htonl` on a little-endian host: the four bytes of a 32-bit word are
    reversed. The message handlers apply it to an `int32_t` field and store
    the result back into that field, so the word is reinterpreted as signed. */
module NetOrder {
  import opened Base

  const Two32: nat := 0x1_0000_0000

  /** The 32-bit pattern of `x`. */
  function Bits(x: int32): (u: nat)
    ensures u < Two32
    ensures (u - x as int) % Two32 == 0
  {
    if x < 0 then x as int + Two32 else x as int
  }

  /** The `int32_t` whose 32-bit pattern is `u`. */
  function FromBits(u: nat): (x: int32)
    requires u < Two32
    ensures Bits(x) == u
  {
    if u < 0x8000_0000 then u as int32 else (u - Two32) as int32
  }

  /** Byte `i` (0 is the least significant) of the word `u`. */
  function ByteOf(u: nat, i: nat): (b: nat)
    requires i < 4
    ensures b < 256
    decreases i
  {
    if i == 0 then u % 256 else ByteOf(u / 256, i - 1)
  }

  /** The word whose bytes, least significant first, are `b0`, `b1`, `b2`, `b3`. */
  function Compose(b0: nat, b1: nat, b2: nat, b3: nat): nat
  {
    ((b3 * 256 + b2) * 256 + b1) * 256 + b0
  }

  lemma DivMod256(q: nat, b: nat)
    requires b < 256
    ensures (q * 256 + b) / 256 == q && (q * 256 + b) % 256 == b
  {
  }

  /** Composing four bytes and taking them apart again gives the same bytes. */
  lemma ComposeBytes(b0: nat, b1: nat, b2: nat, b3: nat)
    requires b0 < 256 && b1 < 256 && b2 < 256 && b3 < 256
    ensures Compose(b0, b1, b2, b3) < Two32
    ensures ByteOf(Compose(b0, b1, b2, b3), 0) == b0
    ensures ByteOf(Compose(b0, b1, b2, b3), 1) == b1
    ensures ByteOf(Compose(b0, b1, b2, b3), 2) == b2
    ensures ByteOf(Compose(b0, b1, b2, b3), 3) == b3
  {
    DivMod256((b3 * 256 + b2) * 256 + b1, b0);
    DivMod256(b3 * 256 + b2, b1);
    DivMod256(b3, b2);
    DivMod256(0, b3);
  }

  /** A 32-bit word is determined by its four bytes. */
  lemma Decompose(u: nat)
    requires u < Two32
    ensures u == Compose(ByteOf(u, 0), ByteOf(u, 1), ByteOf(u, 2), ByteOf(u, 3))
  {
    var q1 := u / 256;
    var q2 := q1 / 256;
    var q3 := q2 / 256;
    assert u == q1 * 256 + u % 256;
    assert q1 == q2 * 256 + q1 % 256;
    assert q2 == q3 * 256 + q2 % 256;
    assert q3 < 256;
  }

  /** Reverses the four bytes of a word. */
  function ByteSwap(u: nat): (r: nat)
    requires u < Two32
    ensures r < Two32
    ensures ByteOf(r, 0) == ByteOf(u, 3) && ByteOf(r, 1) == ByteOf(u, 2)
    ensures ByteOf(r, 2) == ByteOf(u, 1) && ByteOf(r, 3) == ByteOf(u, 0)
  {
    ComposeBytes(ByteOf(u, 3), ByteOf(u, 2), ByteOf(u, 1), ByteOf(u, 0));
    Compose(ByteOf(u, 3), ByteOf(u, 2), ByteOf(u, 1), ByteOf(u, 0))
  }

  /** `htonl(x)` stored back into an `int32_t`. */
  function Htonl(x: int32): int32
  {
    FromBits(ByteSwap(Bits(x)))
  }

  /** The bytes of `htonl(x)` are those of `x` in reverse order. */
  lemma HtonlReversesBytes(x: int32)
    ensures var r := Htonl(x);
      && ByteOf(Bits(r), 0) == ByteOf(Bits(x), 3) && ByteOf(Bits(r), 1) == ByteOf(Bits(x), 2)
      && ByteOf(Bits(r), 2) == ByteOf(Bits(x), 1) && ByteOf(Bits(r), 3) == ByteOf(Bits(x), 0)
  {
  }

  /** Decoding undoes the sender's encoding: `htonl` is its own inverse. */
  lemma HtonlInvolutive(x: int32)
    ensures Htonl(Htonl(x)) == x
  {
    var u := Bits(x);
    var w := Bits(Htonl(Htonl(x)));
    Decompose(u);
    Decompose(w);
    assert w == u;
    assert FromBits(u) == x;
  }
}

/** The `%d` conversion of `sprintf` and the vnode root directory that open
    and create derive from a vgroup id. */
module Format {
  import opened Base

  predicate IsDigit(c: char) { '0' <= c <= '9' }

  function DigitChar(d: nat): (c: char)
    requires d < 10
    ensures IsDigit(c)
  {
    "0123456789"[d]
  }

  function DigitValue(c: char): (d: nat)
    requires IsDigit(c)
    ensures d < 10
  {
    c as int - '0' as int
  }

  /** The decimal digits of `n`, most significant first, without leading zeros. */
  function Digits(n: nat): (s: string)
    ensures |s| >= 1
    ensures forall i :: 0 <= i < |s| ==> IsDigit(s[i])
    ensures s[0] == '0' ==> n == 0 && |s| == 1
    decreases n
  {
    if n < 10 then [DigitChar(n)] else Digits(n / 10) + [DigitChar(n % 10)]
  }

  /** `sprintf("%d", n)`: an optional minus sign, then the digits of |n|. */
  function Decimal(n: int): (s: string)
    ensures |s| >= 1
    ensures (s[0] == '-') <==> n < 0
    ensures forall i :: 0 < i < |s| ==> IsDigit(s[i])
  {
    if n < 0 then "-" + Digits(-n) else Digits(n)
  }

  /** The value of a string of decimal digits (the empty string reads as 0). */
  function ParseDigits(s: string): nat
    requires forall i :: 0 <= i < |s| ==> IsDigit(s[i])
  {
    if |s| == 0 then 0 else 10 * ParseDigits(s[..|s| - 1]) + DigitValue(s[|s| - 1])
  }

  /** Reads back what `Decimal` writes. */
  function ParseDecimal(s: string): int
    requires |s| >= 1
    requires forall i :: 0 < i < |s| ==> IsDigit(s[i])
    requires s[0] != '-' ==> IsDigit(s[0])
  {
    if s[0] == '-' then -(ParseDigits(s[1..]) as int) else ParseDigits(s) as int
  }

  lemma {:induction false} ParseDigitsOfDigits(n: nat)
    ensures ParseDigits(Digits(n)) == n
    decreases n
  {
    if n >= 10 {
      var s := Digits(n);
      assert s[..|s| - 1] == Digits(n / 10);
      ParseDigitsOfDigits(n / 10);
    }
  }

  /** A minus sign followed by the digits of `m` reads back as `-m`. */
  lemma ParseMinusDigits(m: nat)
    ensures ParseDecimal("-" + Digits(m)) == -(m as int)
  {
    var d := Digits(m);
    var s := "-" + d;
    assert s[1..] == d;
    ParseDigitsOfDigits(m);
  }

  /** `Decimal` loses nothing: parsing its output gives the number back. */
  lemma DecimalRoundTrip(n: int)
    ensures ParseDecimal(Decimal(n)) == n
  {
    if n < 0 {
      ParseMinusDigits(-n);
    } else {
      ParseDigitsOfDigits(n);
    }
  }

  /** Distinct numbers print differently. */
  lemma DecimalInjective(a: int, b: int)
    requires Decimal(a) == Decimal(b)
    ensures a == b
  {
    DecimalRoundTrip(a);
    DecimalRoundTrip(b);
  }

  /** `sprintf(rootDir, "%s/vnode%d", tsDirectory, vgId)`, the repository
      directory of a vnode (dnodeMgmt.c lines 163 and 228). */
  function RootDir(dir: string, vgId: int32): string
  {
    dir + "/vnode" + Decimal(vgId as int)
  }

  /** The root directory is the data directory, then "/vnode", then the
      vgroup id in decimal; the id can be read back from its tail. */
  lemma RootDirShape(dir: string, vgId: int32)
    ensures |RootDir(dir, vgId)| > |dir| + 6
    ensures RootDir(dir, vgId)[..|dir|] == dir
    ensures RootDir(dir, vgId)[|dir|..|dir| + 6] == "/vnode"
    ensures ParseDecimal(RootDir(dir, vgId)[|dir| + 6..]) == vgId as int
  {
    assert RootDir(dir, vgId)[|dir| + 6..] == Decimal(vgId as int);
    DecimalRoundTrip(vgId as int);
  }

  /** Two vgroups never share a repository directory under the same data directory. */
  lemma RootDirInjective(dir: string, a: int32, b: int32)
    requires RootDir(dir, a) == RootDir(dir, b)
    ensures a == b
  {
    assert RootDir(dir, a)[|dir| + 6..] == Decimal(a as int);
    assert RootDir(dir, b)[|dir| + 6..] == Decimal(b as int);
    DecimalInjective(a as int, b as int);
  }
}

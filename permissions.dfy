/** The permission column of `ls_l`: an 11-character string built from the
    file type, the low nine bits of the mode, and whether the file has
    extended attributes. Terminal colouring is not modelled. */
module LongListing {
  import opened Arithmetic

  /** Bit `b` of `n`, counting from the least significant. */
  predicate Bit(n: nat, b: nat)
  {
    if b == 0 then n % 2 == 1 else Bit(n / 2, b - 1)
  }

  function Pow2(k: nat): (r: nat)
    ensures r >= 1
  {
    if k == 0 then 1 else 2 * Pow2(k - 1)
  }

  function Digit(on: bool): char
  {
    if on then '1' else '0'
  }

  /** Python's `format(n, 'b')`: the binary digits of `n`, most significant
      first, without leading zeros ("0" for zero). */
  function BinaryDigits(n: nat): (r: string)
    ensures |r| >= 1
    ensures forall i :: 0 <= i < |r| ==> r[i] == '0' || r[i] == '1'
    ensures r[0] == '1' || r == "0"
    ensures r == "0" <==> n == 0
  {
    if n < 2 then [Digit(n == 1)] else BinaryDigits(n / 2) + [Digit(n % 2 == 1)]
  }

  /** `f"{n:09b}"`: the binary digits zero-padded to at least nine. */
  function FormatBinary9(n: nat): (r: string)
    ensures |r| >= 9
  {
    var d := BinaryDigits(n);
    if |d| >= 9 then d else seq(9 - |d|, _ => '0') + d
  }

  /** `f"{n:09b}"` is the binary digits of `n` preceded by as many zeros as
      bring it to nine characters, and by none when there are nine or more. */
  lemma FormatBinary9Padding(n: nat)
    ensures var d, r := BinaryDigits(n), FormatBinary9(n);
      |r| == (if |d| < 9 then 9 else |d|) && r[|r| - |d|..] == d &&
      forall i :: 0 <= i < |r| - |d| ==> r[i] == '0'
  {
  }

  lemma {:induction false} ZeroHasNoBits(b: nat)
    ensures !Bit(0, b)
  {
    if b > 0 {
      ZeroHasNoBits(b - 1);
    }
  }

  /** Digit `k` from the right of the binary representation is bit `k`; every
      bit beyond the representation is clear. */
  lemma {:induction false} BinaryDigitsBit(n: nat, k: nat)
    ensures var d := BinaryDigits(n);
      (k < |d| ==> d[|d| - 1 - k] == Digit(Bit(n, k))) &&
      (k >= |d| ==> !Bit(n, k))
  {
    if n < 2 {
      if k > 0 {
        ZeroHasNoBits(k - 1);
      }
    } else if k > 0 {
      BinaryDigitsBit(n / 2, k - 1);
    }
  }

  /** Character `i` of the last nine of `f"{n:09b}"` is '1' exactly when bit
      `8 - i` of `n` is set. */
  lemma LastNineDigits(n: nat, i: nat)
    requires i < 9
    ensures var f := FormatBinary9(n);
      (f[|f| - 9 + i] == '1') == Bit(n, 8 - i)
  {
    var d := BinaryDigits(n);
    var f := FormatBinary9(n);
    BinaryDigitsBit(n, 8 - i);
    if |d| < 9 && 8 - i >= |d| {
      assert f[|f| - 9 + i] == '0';
    } else {
      assert f[|f| - 9 + i] == d[|d| - 1 - (8 - i)];
    }
  }

  /** The symbol shown at position `i` (0..8) of the rwx triplets. The others'
      execute position (i == 8) of a non-directory is always '-'. */
  function Symbol(i: nat, on: bool, isDir: bool): (c: char)
    requires i < 9
    ensures c == '-' <==> !on || (i == 8 && !isDir)
    ensures c != '-' ==> c == "rwx"[i % 3]
  {
    if !on || (i == 8 && !isDir) then '-'
    else if i % 3 == 0 then 'r'
    else if i % 3 == 1 then 'w'
    else 'x'
  }

  /** The permission string of a file with `mode`. */
  function Permissions(mode: nat, isDir: bool, hasXattr: bool): (p: string)
    ensures |p| == 11
    ensures p[0] == (if isDir then 'd' else '-')
    ensures p[10] == (if hasXattr then '@' else ' ')
    ensures !isDir ==> p[9] == '-'
    ensures forall i :: 1 <= i < 10 ==>
      (p[i] != '-' <==> Bit(mode, 9 - i) && (i < 9 || isDir)) &&
      (p[i] != '-' ==> p[i] == "rwx"[(i - 1) % 3])
  {
    [if isDir then 'd' else '-']
      + seq(9, i requires 0 <= i < 9 => Symbol(i, Bit(mode, 8 - i), isDir))
      + [if hasXattr then '@' else ' ']
  }

  /** Position `1 + i` of the permission string is the symbol for bit `8 - i`. */
  lemma PermissionAt(mode: nat, isDir: bool, hasXattr: bool, i: nat)
    requires i < 9
    ensures Permissions(mode, isDir, hasXattr)[1 + i] == Symbol(i, Bit(mode, 8 - i), isDir)
  {
  }

  /** The permission-string fragment of `ls_l`: a type character, then one
      character per bit of the last nine digits of `f"{mode:09b}"`, then '@'
      when the file has extended attributes and ' ' otherwise. */
  method PermissionString(mode: nat, isDir: bool, hasXattr: bool) returns (s: string)
    ensures s == Permissions(mode, isDir, hasXattr)
  {
    s := if isDir then "d" else "-";
    var modeBits := FormatBinary9(mode);
    var lastNine := modeBits[|modeBits| - 9..];
    ghost var p := Permissions(mode, isDir, hasXattr);
    for i := 0 to 9
      invariant s == p[..1 + i]
    {
      LastNineDigits(mode, i);
      var on := lastNine[i] == '1';
      var c: char;
      if i % 3 == 0 {
        c := if on then 'r' else '-';
      } else if i % 3 == 1 {
        c := if on then 'w' else '-';
      } else if isDir || i < 8 {
        c := if on then 'x' else '-';
      } else {
        c := '-';  // the others' execute bit is not shown for non-directories
      }
      assert c == Symbol(i, on, isDir);
      assert on == Bit(mode, 8 - i);
      PermissionAt(mode, isDir, hasXattr, i);
      s := s + [c];
    }
    assert p == p[..10] + [p[10]];
    s := s + (if hasXattr then "@" else " ");
  }

  /** Reducing a number modulo `2^k` keeps its `k` lowest bits. */
  lemma {:induction false} LowBitsKept(n: nat, k: nat, b: nat)
    requires b < k
    ensures Bit(n % Pow2(k), b) == Bit(n, b)
  {
    HalveModulus(n, Pow2(k - 1));
    if b > 0 {
      LowBitsKept(n / 2, k - 1, b - 1);
    }
  }

  /** Bits above the ninth have no effect on the permission string. */
  lemma HigherBitsIgnored(mode: nat, isDir: bool, hasXattr: bool)
    ensures Permissions(mode, isDir, hasXattr) == Permissions(mode % 512, isDir, hasXattr)
  {
    assert Pow2(9) == 512;
    forall b | 0 <= b < 9 ensures Bit(mode % 512, b) == Bit(mode, b) {
      LowBitsKept(mode, 9, b);
    }
  }

  /** The number a string of permission flags stands for, reading each
      position that is not '-' as a one, most significant first. */
  function FlagsValue(cs: string): nat
  {
    if cs == [] then 0
    else 2 * FlagsValue(cs[..|cs| - 1]) + (if cs[|cs| - 1] == '-' then 0 else 1)
  }

  /** The mode bits a permission string shows. */
  function ShownMode(p: string): nat
    requires |p| == 11
  {
    FlagsValue(p[1..10])
  }

  /** Flags that mirror the low bits of `n` stand for `n` modulo `2^|cs|`. */
  lemma {:induction false} FlagsValueOfBits(cs: string, n: nat)
    requires forall i :: 0 <= i < |cs| ==> (cs[i] != '-') == Bit(n, |cs| - 1 - i)
    ensures FlagsValue(cs) == n % Pow2(|cs|)
  {
    if cs != [] {
      var k := |cs|;
      var init := cs[..k - 1];
      forall i | 0 <= i < |init| ensures (init[i] != '-') == Bit(n / 2, |init| - 1 - i) {
        assert init[i] == cs[i];
      }
      FlagsValueOfBits(init, n / 2);
      HalveModulus(n, Pow2(k - 1));
    }
  }

  /** A directory's permission string shows the low nine bits of its mode;
      a non-directory's shows them all except the others' execute bit. */
  lemma PermissionsRoundTrip(mode: nat, hasXattr: bool)
    ensures ShownMode(Permissions(mode, true, hasXattr)) == mode % 512
    ensures ShownMode(Permissions(mode, false, hasXattr)) + mode % 2 == mode % 512
  {
    assert Pow2(9) == 512;
    var dir := Permissions(mode, true, hasXattr)[1..10];
    forall i | 0 <= i < 9 ensures (dir[i] != '-') == Bit(mode, 8 - i) {
      assert dir[i] == Symbol(i, Bit(mode, 8 - i), true);
    }
    FlagsValueOfBits(dir, mode);
    var cleared := 2 * (mode / 2);
    var file := Permissions(mode, false, hasXattr)[1..10];
    forall i | 0 <= i < 9 ensures (file[i] != '-') == Bit(cleared, 8 - i) {
      assert file[i] == Symbol(i, Bit(mode, 8 - i), false);
      assert cleared / 2 == mode / 2 && cleared % 2 == 0;
    }
    FlagsValueOfBits(file, cleared);
    HalveModulus(cleared, 256);
    HalveModulus(mode, 256);
  }

  /** Modes that differ only in the others' execute bit give the same string
      for a non-directory, and different strings for a directory. */
  lemma OthersExecuteHidden(m1: nat, m2: nat, hasXattr: bool)
    requires m1 / 2 == m2 / 2
    ensures Permissions(m1, false, hasXattr) == Permissions(m2, false, hasXattr)
    ensures Permissions(m1, true, hasXattr) == Permissions(m2, true, hasXattr) <==> m1 == m2
  {
    var p1, p2 := Permissions(m1, false, hasXattr), Permissions(m2, false, hasXattr);
    forall i | 0 <= i < 11 ensures p1[i] == p2[i] {
      if 1 <= i < 9 {
        assert Bit(m1, 9 - i) == Bit(m1 / 2, 8 - i);
      }
    }
    if m1 != m2 {
      assert m1 % 2 != m2 % 2;
      assert Permissions(m1, true, hasXattr)[9] != Permissions(m2, true, hasXattr)[9];
    }
  }
}

/** The two hash functions of symbol names (SIM/ELFIO/elfio/elfio_utils.hpp, elf_hash and elf_gnu_hash). */
module Hashes {
  import opened Words
  import opened SectionData

  type Name = seq<byte>

  // ----- sums of powers

  /** The bytes in front of the first NUL, which is all a C string has. */
  function UpToNul(s: Name): Name {
    if s == [] || s[0] == 0 then [] else [s[0]] + UpToNul(s[1..])
  }

  function Power(base: nat, n: nat): nat { if n == 0 then 1 else base * Power(base, n - 1) }

  /** The sum of all s[i] * base^(|s| - 1 - i). */
  function PowerSum(s: Name, base: nat): nat {
    if s == [] then 0 else s[0] * Power(base, |s| - 1) + PowerSum(s[1..], base)
  }

  // ----- elf_hash

  /** A top nibble of h that is not 0 goes into bits 4 to 7, and is cleared. */
  function ElfMix(h: word, c: byte): word {
    var h1 := Wrap(Wrap(h * 16) + c);
    var nibble := h1 / 0x1000_0000;
    (if nibble != 0 then Xor(h1, nibble * 16) else h1) % 0x1000_0000
  }

  function ElfHashFrom(h: word, s: Name): word
    decreases |s|
  {
    if s == [] || s[0] == 0 then h else ElfHashFrom(ElfMix(h, s[0]), s[1..])
  }

  function ElfHashOf(s: Name): word { ElfHashFrom(0, s) }

  /** The hash keeps to 28 bits, so the shift of the next step loses nothing. */
  lemma {:induction false} ElfHashIs28Bits(h: word, s: Name)
    requires h < 0x1000_0000
    ensures ElfHashFrom(h, s) < 0x1000_0000
    decreases |s|
  {
    if s != [] && s[0] != 0 { ElfHashIs28Bits(ElfMix(h, s[0]), s[1..]); }
  }

  lemma ElfMixSmall(h: word, c: byte)
    requires 16 * h + c < 0x1000_0000
    ensures ElfMix(h, c) == 16 * h + c
  {
    hide Xor;
    assert Wrap(h * 16) == h * 16 && Wrap(h * 16 + c) == h * 16 + c;
    assert (h * 16 + c) / 0x1000_0000 == 0;
  }

  lemma {:induction false} ElfHashSum(h: word, s: Name)
    requires h * Power(16, |UpToNul(s)|) + PowerSum(UpToNul(s), 16) < 0x1000_0000
    ensures ElfHashFrom(h, s) == h * Power(16, |UpToNul(s)|) + PowerSum(UpToNul(s), 16)
    decreases |s|
  {
    hide ElfMix, Power;
    var u := UpToNul(s);
    if u == [] {
      NoPower(h);
    } else {
      var p := Power(16, |u| - 1);
      assert u[1..] == UpToNul(s[1..]);
      Horner(h, s[0], 16, |u| - 1);
      PowerPositive(16, |u| - 1);
      PowerPositive(16, |u| - 1);
      AtLeast(16 * h + s[0], p, PowerSum(u[1..], 16));
      ElfMixSmall(h, s[0]);
      ElfHashSum(16 * h + s[0], s[1..]);
    }
  }

  lemma NoPower(h: nat)
    ensures h * Power(16, 0) == h
  {}

  lemma Horner(h: int, c: int, base: nat, n: nat)
    ensures h * Power(base, n + 1) + c * Power(base, n) == (base * h + c) * Power(base, n)
  {
    var p := Power(base, n);
    assert h * (base * p) == base * h * p;
  }

  lemma {:induction false} PowerPositive(base: nat, n: nat)
    requires base > 0
    ensures Power(base, n) >= 1
  {
    if n > 0 {
      PowerPositive(base, n - 1);
      MulGe(Power(base, n - 1), 1, base);
    }
  }

  lemma AtLeast(h: nat, p: nat, rest: nat)
    requires p >= 1 && h * p + rest < 0x1000_0000
    ensures h < 0x1000_0000
  {
    MulGe(p, 1, h);
  }

  /** The System V hash is the sum of s[i] * 16^(n - 1 - i) if and only if that sum has 28 bits. */
  lemma ElfHashIsSum(s: Name)
    ensures ElfHashOf(s) == PowerSum(UpToNul(s), 16) <==> PowerSum(UpToNul(s), 16) < 0x1000_0000
  {
    ElfHashIs28Bits(0, s);
    if PowerSum(UpToNul(s), 16) < 0x1000_0000 { ElfHashSum(0, s); }
  }

  /** The loop over a NUL-terminated string. */
  method ElfHash(name: Name) returns (h: word)
    ensures h == ElfHashOf(name)
  {
    h := 0;
    var i := 0;
    while i < |name| && name[i] != 0
      invariant 0 <= i <= |name| && ElfHashFrom(h, name[i..]) == ElfHashOf(name)
    {
      assert name[i..][0] == name[i] && name[i..][1..] == name[i + 1..];
      h := ElfAdd(h, name[i]);
      i := i + 1;
    }
  }

  method ElfAdd(h: word, c: byte) returns (r: word)
    ensures r == ElfMix(h, c)
  {
    hide Xor;
    r := Wrap(Wrap(h * 16) + c);
    var nibble := r / 0x1000_0000;
    if nibble != 0 {
      r := Xor(r, nibble * 16);
    }
    r := r % 0x1000_0000;
  }

  // ----- elf_gnu_hash

  /** (h << 5) + h + c in 32 bits. */
  function GnuMix(h: word, c: byte): word { Wrap(Wrap(h * 32) + h + c) }

  function GnuHashFrom(h: word, s: Name): word
    decreases |s|
  {
    if s == [] || s[0] == 0 then h else GnuHashFrom(GnuMix(h, s[0]), s[1..])
  }

  function GnuHashOf(s: Name): word { GnuHashFrom(0x1505, s) }

  lemma {:induction false} GnuHashSum(h: word, s: Name)
    ensures GnuHashFrom(h, s) == Wrap(h * Power(33, |UpToNul(s)|) + PowerSum(UpToNul(s), 33))
    decreases |s|
  {
    hide Wrap;
    var u := UpToNul(s);
    if u == [] {
      SameWord(h);
    } else {
      var n := |u| - 1;
      var rest := PowerSum(u[1..], 33);
      assert u[1..] == UpToNul(s[1..]);
      GnuHashSum(GnuMix(h, s[0]), s[1..]);
      GnuMixValue(h, s[0]);
      WrapProduct(33 * h + s[0], Power(33, n), rest);
      Horner(h, s[0], 33, n);
    }
  }

  lemma SameWord(h: word)
    ensures Wrap(h) == h
  {}

  lemma GnuMixValue(h: word, c: byte)
    ensures GnuMix(h, c) == Wrap(33 * h + c)
  {
    WrapSum(h + c, h * 32);
  }

  /** Cutting a factor first makes no difference after the cut. */
  lemma WrapProduct(x: nat, p: nat, r: nat)
    ensures Wrap(Wrap(x) * p + r) == Wrap(x * p + r)
  {
    var q := x / W;
    assert Wrap(x) == x - q * W;
    assert (x - q * W) * p == x * p - (q * p) * W by { assert (q * W) * p == (q * p) * W; }
    WrapTurns(x * p + r, -(q * p));
  }

  /**
   The GNU hash, with n bytes in front of the first NUL: 5381 * 33^n + the sum of s[i] * 33^(n - 1 - i), in 32 bits.
   */
  lemma GnuHashIsSum(s: Name)
    ensures GnuHashOf(s) == (5381 * Power(33, |UpToNul(s)|) + PowerSum(UpToNul(s), 33)) % 0x1_0000_0000
  {
    GnuHashSum(0x1505, s);
  }

  method GnuHash(name: Name) returns (h: word)
    ensures h == GnuHashOf(name)
  {
    hide GnuMix;
    h := 0x1505;
    var i := 0;
    while i < |name| && name[i] != 0
      invariant 0 <= i <= |name| && GnuHashFrom(h, name[i..]) == GnuHashOf(name)
    {
      assert name[i..][0] == name[i] && name[i..][1..] == name[i + 1..];
      h := GnuMix(h, name[i]);
      i := i + 1;
    }
  }

  // ----- published values

  const PRINTF: Name := [112, 114, 105, 110, 116, 102]
  const SYSCALL: Name := [115, 121, 115, 99, 97, 108, 108]

  lemma GnuStep(h: word, s: Name, k: nat, next: word)
    requires k < |s| && s[k] != 0 && next == GnuMix(h, s[k])
    ensures GnuHashFrom(h, s[k..]) == GnuHashFrom(next, s[k + 1..])
  {
    assert s[k..][1..] == s[k + 1..];
  }

  lemma GnuEnd(h: word)
    ensures GnuHashFrom(h, []) == h
  {}

  lemma ElfStep(h: word, s: Name, k: nat, next: word)
    requires k < |s| && s[k] != 0 && next == ElfMix(h, s[k])
    ensures ElfHashFrom(h, s[k..]) == ElfHashFrom(next, s[k + 1..])
  {
    assert s[k..][1..] == s[k + 1..];
  }

  lemma ElfEnd(h: word)
    ensures ElfHashFrom(h, []) == h
  {}

  lemma XorFolds()
    ensures Xor(0x7B09_982C, 0x70) == 0x7B09_985C
  {
    var a: bv32 := 0x7B09_982C;
    var b: bv32 := 0x70;
    assert a ^ b == 0x7B09_985C;
  }

  /** The top nibble 7 of 0x7B09_982C is folded into its bits 4 to 7. */
  lemma ElfMixFolds()
    ensures ElfMix(0x7B0_997C, 108) == 0xB09_985C
  {
    hide Xor;
    XorFolds();
  }

  lemma GnuPrintf()
    ensures GnuHashOf(PRINTF) == 0x156B2BB8
  {
    hide GnuHashFrom;
    assert PRINTF[0..] == PRINTF && PRINTF[6..] == [];
    GnuStep(0x1505, PRINTF, 0, 0x2B615);
    GnuStep(0x2B615, PRINTF, 1, 0x597927);
    GnuStep(0x597927, PRINTF, 2, 0xB889E70);
    GnuStep(0xB889E70, PRINTF, 3, 0x7C9C6CDE);
    GnuStep(0x7C9C6CDE, PRINTF, 4, 0x102A0912);
    GnuStep(0x102A0912, PRINTF, 5, 0x156B2BB8);
    GnuEnd(0x156B2BB8);
  }

  lemma GnuSyscall()
    ensures GnuHashOf(SYSCALL) == 0xBAC212A0
  {
    hide GnuHashFrom;
    assert SYSCALL[0..] == SYSCALL && SYSCALL[7..] == [];
    GnuStep(0x1505, SYSCALL, 0, 0x2B618);
    GnuStep(0x2B618, SYSCALL, 1, 0x597991);
    GnuStep(0x597991, SYSCALL, 2, 0xB88AC24);
    GnuStep(0xB88AC24, SYSCALL, 3, 0x7C9E3107);
    GnuStep(0x7C9E3107, SYSCALL, 4, 0x10645248);
    GnuStep(0x10645248, SYSCALL, 5, 0x1CEE9BB4);
    GnuStep(0x1CEE9BB4, SYSCALL, 6, 0xBAC212A0);
    GnuEnd(0xBAC212A0);
  }

  lemma ElfPrintf()
    ensures ElfHashOf(PRINTF) == 0x77905A6
  {
    hide ElfHashFrom, ElfMix;
    assert PRINTF[0..] == PRINTF && PRINTF[6..] == [];
    ElfMixSmall(0, 112);
    ElfStep(0, PRINTF, 0, 0x70);
    ElfMixSmall(0x70, 114);
    ElfStep(0x70, PRINTF, 1, 0x772);
    ElfMixSmall(0x772, 105);
    ElfStep(0x772, PRINTF, 2, 0x7789);
    ElfMixSmall(0x7789, 110);
    ElfStep(0x7789, PRINTF, 3, 0x778FE);
    ElfMixSmall(0x778FE, 116);
    ElfStep(0x778FE, PRINTF, 4, 0x779054);
    ElfMixSmall(0x779054, 102);
    ElfStep(0x779054, PRINTF, 5, 0x77905A6);
    ElfEnd(0x77905A6);
  }

  lemma ElfSyscall()
    ensures ElfHashOf(SYSCALL) == 0xB09985C
  {
    hide ElfHashFrom, ElfMix;
    assert SYSCALL[0..] == SYSCALL && SYSCALL[7..] == [];
    ElfMixSmall(0, 115);
    ElfStep(0, SYSCALL, 0, 0x73);
    ElfMixSmall(0x73, 121);
    ElfStep(0x73, SYSCALL, 1, 0x7A9);
    ElfMixSmall(0x7A9, 115);
    ElfStep(0x7A9, SYSCALL, 2, 0x7B03);
    ElfMixSmall(0x7B03, 99);
    ElfStep(0x7B03, SYSCALL, 3, 0x7B093);
    ElfMixSmall(0x7B093, 97);
    ElfStep(0x7B093, SYSCALL, 4, 0x7B0991);
    ElfMixSmall(0x7B0991, 108);
    ElfStep(0x7B0991, SYSCALL, 5, 0x7B0997C);
    ElfMixFolds();
    ElfStep(0x7B0997C, SYSCALL, 6, 0xB09985C);
    ElfEnd(0xB09985C);
  }

  /** The values other implementations publish for these names; the last one is past the 28 bits of the plain sum. */
  lemma KnownHashes()
    ensures GnuHashOf([]) == 0x1505 && GnuHashOf(PRINTF) == 0x156B_2BB8 && GnuHashOf(SYSCALL) == 0xBAC2_12A0
    ensures ElfHashOf([]) == 0 && ElfHashOf(PRINTF) == 0x0779_05A6 && ElfHashOf(SYSCALL) == 0x0B09_985C
  {
    GnuPrintf();
    GnuSyscall();
    ElfPrintf();
    ElfSyscall();
  }
}

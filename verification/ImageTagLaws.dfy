/**
 The tag of a derived image against FNV-1a as it is defined, bit by bit.
 */
module ImageTagLaws {
  import opened Basics
  import opened ImageTag

  function Bit(n: nat, i: nat): nat
    decreases i
  {
    if i == 0 then n % 2 else Bit(n / 2, i - 1)
  }

  /** Each bit of `r` is set exactly when one of those of `x` and `y` is. */
  ghost predicate IsXor(x: nat, y: nat, r: nat) { forall i: nat :: Bit(r, i) == 1 <==> Bit(x, i) != Bit(y, i) }

  lemma {:induction false} XorBit(x: nat, y: nat, i: nat)
    ensures Bit(Xor(x, y), i) == 1 <==> Bit(x, i) != Bit(y, i)
    decreases i
  {
    XorUnfolds(x, y);
    if i > 0 {
      Parity(x, y, Xor(x / 2, y / 2));
      XorBit(x / 2, y / 2, i - 1);
    } else {
      LastBit(x, y, Xor(x / 2, y / 2));
    }
  }

  lemma LastBit(x: nat, y: nat, h: nat)
    ensures (2 * h + (x + y) % 2) % 2 == 1 <==> x % 2 != y % 2
  {
  }

  lemma XorMeans(x: nat, y: nat)
    ensures IsXor(x, y, Xor(x, y))
  {
    forall i: nat ensures Bit(Xor(x, y), i) == 1 <==> Bit(x, i) != Bit(y, i) {
      XorBit(x, y, i);
    }
  }

  /** FNV-1a with 64 bits: from the offset basis, each byte is put in by exclusive or, and then the prime multiplies. */
  ghost predicate IsFnv(bytes: Bytes, h: nat)
    decreases |bytes|, 0
  {
    if bytes == [] then h == 14695981039346656037
    else IsFnvAfter(bytes[..|bytes| - 1], bytes[|bytes| - 1], h)
  }

  ghost predicate IsFnvAfter(front: Bytes, b: Octet, h: nat)
    decreases |front|, 1
  {
    exists g: nat :: IsFnv(front, g) && IsFnvStep(g, b, h)
  }

  ghost predicate IsFnvStep(g: nat, b: Octet, h: nat) {
    exists mixed: nat :: IsXor(g, b, mixed) && h == mixed * 1099511628211 % 18446744073709551616
  }

  lemma {:induction false} HashAppend(h: U64, s: Bytes, b: Octet)
    ensures Hash(h, s + [b]) == Absorb(Hash(h, s), b)
    decreases |s|
  {
    if s == [] {
      assert s + [b] == [b] && [b][1..] == [];
    } else {
      assert (s + [b])[0] == s[0] && (s + [b])[1..] == s[1..] + [b];
      HashAppend(Absorb(h, s[0]), s[1..], b);
    }
  }

  lemma {:induction false} FnvMeans(bytes: Bytes)
    ensures IsFnv(bytes, Hash(OFFSET_BASIS, bytes))
    decreases |bytes|
  {
    if bytes != [] {
      var n := |bytes| - 1;
      var g := Hash(OFFSET_BASIS, bytes[..n]);
      FnvMeans(bytes[..n]);
      HashAppend(OFFSET_BASIS, bytes[..n], bytes[n]);
      assert bytes == bytes[..n] + [bytes[n]];
      XorMeans(g, bytes[n]);
      assert IsFnvStep(g, bytes[n], Hash(OFFSET_BASIS, bytes));
    }
  }

  // ---------------------------------------------------------------- the print

  /** One hexadecimal digit, in small letters. */
  ghost predicate IsHexDigit(c: char, d: nat) {
    (d < 10 && c as int == '0' as int + d) || (10 <= d < 16 && c as int == 'a' as int + d - 10)
  }

  /** `s` is `n` in hexadecimal digits, with zeros in front. */
  ghost predicate IsHex(s: string, n: nat)
    decreases |s|, 0
  {
    if s == "" then n == 0 else IsHexAfter(s[..|s| - 1], s[|s| - 1], n)
  }

  ghost predicate IsHexAfter(front: string, c: char, n: nat)
    decreases |front|, 1
  {
    exists high: nat :: IsHex(front, high) && IsHexStep(high, c, n)
  }

  ghost predicate IsHexStep(high: nat, c: char, n: nat) {
    exists d: nat :: IsHexDigit(c, d) && n == high * 16 + d
  }

  lemma {:induction false} HexMeans(n: nat, width: nat)
    requires n < Power16(width)
    ensures IsHex(Hex(n, width), n)
    decreases width
  {
    if width > 0 {
      var s := Hex(n, width);
      HexMeans(n / 16, width - 1);
      assert s[..|s| - 1] == Hex(n / 16, width - 1) && s[|s| - 1] == DIGITS[n % 16];
      DigitMeans(n % 16);
      assert IsHexStep(n / 16, s[|s| - 1], n);
    }
  }

  lemma DigitMeans(d: nat)
    requires d < 16
    ensures IsHexDigit(DIGITS[d], d)
  {
  }

  lemma SixteenDigits()
    ensures Power16(16) == U64_MODULUS
  {
    assert Power16(4) == 0x1_0000 && Power16(8) == 0x1_0000_0000 by {
      assert Power16(2) == 256 && Power16(6) == 0x100_0000;
    }
    assert Power16(12) == 0x1_0000_0000_0000 by {
      assert Power16(10) == 0x100_0000_0000;
    }
    assert Power16(16) == U64_MODULUS by {
      assert Power16(14) == 0x100_0000_0000_0000;
    }
  }

  /** The tag is the product name and the FNV-1a hash of image, zero byte and script, in sixteen hexadecimal digits. */
  lemma TagMeans(image: Bytes, script: Bytes) returns (h: nat, digits: string)
    ensures IsFnv(image + [0] + script, h) && |digits| == 16 && IsHex(digits, h)
    ensures Tag(image, script) == "symphony-worker-" + digits
  {
    h := Hash(OFFSET_BASIS, image + [0] + script);
    digits := Hex(h, 16);
    FnvMeans(image + [0] + script);
    SixteenDigits();
    HexMeans(h, 16);
  }
}

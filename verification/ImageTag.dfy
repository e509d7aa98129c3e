/**
 The tag of a derived image: an FNV-1a hash of the base image name, a zero byte and the setup
 script, printed in sixteen hexadecimal digits. Text is given as its bytes.
 */
module ImageTag {
  import opened Basics

  type Octet = n: nat | n < 256
  type Bytes = seq<Octet>

  const OFFSET_BASIS: nat := 0xcbf29ce484222325
  const PRIME: nat := 0x100000001b3

  /** The prime has an inverse modulo 2^64. */
  const INVERSE: nat := 0xce965057aff6957b

  /** Bitwise exclusive or of two numbers. */
  function Xor(x: nat, y: nat): nat
    decreases x + y
  {
    if x == 0 && y == 0 then 0 else 2 * Xor(x / 2, y / 2) + (x + y) % 2
  }

  /** `wrapping_mul` */
  function WrappingMul(a: nat, b: nat): U64 {
    (a * b) % U64_MODULUS
  }

  function Absorb(h: U64, b: Octet): U64 {
    WrappingMul(Xor(h, b), PRIME)
  }

  function Hash(h: U64, bytes: Bytes): U64
    decreases |bytes|
  {
    if bytes == [] then h else Hash(Absorb(h, bytes[0]), bytes[1..])
  }

  /** The bytes that are hashed: a zero separates the two inputs. */
  function Stream(image: Bytes, script: Bytes): Bytes {
    image + [0] + script
  }

  const DIGITS: string := "0123456789abcdef"

  /** The low `width` hexadecimal digits of `n`, leading zeros included. */
  function Hex(n: nat, width: nat): string
    ensures |Hex(n, width)| == width
  {
    if width == 0 then "" else Hex(n / 16, width - 1) + [DIGITS[n % 16]]
  }

  function Tag(image: Bytes, script: Bytes): string {
    "symphony-worker-" + Hex(Hash(OFFSET_BASIS, Stream(image, script)), 16)
  }

  method DerivedImageTag(image: Bytes, script: Bytes) returns (tag: string)
    ensures tag == Tag(image, script)
  {
    var hash: U64 := OFFSET_BASIS;
    var bytes := image + [0] + script;
    for i := 0 to |bytes|
      invariant Hash(hash, bytes[i..]) == Hash(OFFSET_BASIS, bytes)
    {
      assert bytes[i..][1..] == bytes[i + 1..];
      var mixed := Xor(hash, bytes[i]);
      hash := WrappingMul(mixed, PRIME);
    }
    tag := "symphony-worker-" + Hex(hash, 16);
  }

  // ---------------------------------------------------------------- one step is a bijection

  /** Undoes one step: multiply by the inverse, then take the byte off again. */
  function Release(h: U64, b: Octet): nat {
    Xor(WrappingMul(h, INVERSE), b)
  }

  lemma MulUndone(x: U64)
    ensures WrappingMul(WrappingMul(x, PRIME), INVERSE) == x
    ensures WrappingMul(WrappingMul(x, INVERSE), PRIME) == x
  {
    MulUndoneBy(x, PRIME, INVERSE);
    MulUndoneBy(x, INVERSE, PRIME);
  }

  lemma MulUndoneBy(x: U64, a: nat, b: nat)
    requires (a == PRIME && b == INVERSE) || (a == INVERSE && b == PRIME)
    ensures WrappingMul(WrappingMul(x, a), b) == x
  {
    var k := (PRIME * INVERSE - 1) / U64_MODULUS;
    assert PRIME * INVERSE == 1 + k * U64_MODULUS;
    var q := x * a / U64_MODULUS;
    var r := x * a % U64_MODULUS;
    assert x * a == q * U64_MODULUS + r;
    assert r * b == x + (x * k - q * b) * U64_MODULUS by {
      assert r * b == x * a * b - q * U64_MODULUS * b;
      assert x * a * b == x * (1 + k * U64_MODULUS);
    }
    ModUnique(r * b, x, x * k - q * b);
  }

  lemma ModUnique(n: int, x: U64, k: int)
    requires n == x + k * U64_MODULUS
    ensures n % U64_MODULUS == x
  {
  }

  lemma Parity(x: nat, y: nat, h: nat)
    ensures (2 * h + (x + y) % 2) / 2 == h && (2 * h + (x + y) % 2 + y) % 2 == x % 2
  {
  }

  lemma XorUnfolds(x: nat, y: nat)
    ensures Xor(x, y) == 2 * Xor(x / 2, y / 2) + (x + y) % 2
  {
    if x == 0 && y == 0 {
      assert Xor(0, 0) == 0;
    }
  }

  lemma {:induction false} XorTwice(x: nat, y: nat)
    ensures Xor(Xor(x, y), y) == x
    decreases x + y
  {
    if x != 0 || y != 0 {
      var h := Xor(x / 2, y / 2);
      XorTwice(x / 2, y / 2);
      Parity(x, y, h);
      XorUnfolds(2 * h + (x + y) % 2, y);
    }
  }

  lemma {:induction false} XorBelow(x: nat, y: nat, width: nat)
    requires x < Power2(width) && y < Power2(width)
    ensures Xor(x, y) < Power2(width)
    decreases width
  {
    if width > 0 {
      XorBelow(x / 2, y / 2, width - 1);
    }
  }

  function Power2(k: nat): nat { if k == 0 then 1 else 2 * Power2(k - 1) }

  lemma {:induction false} XorCommutes(x: nat, y: nat)
    ensures Xor(x, y) == Xor(y, x)
    decreases x + y
  {
    if x != 0 || y != 0 {
      XorCommutes(x / 2, y / 2);
    }
  }

  lemma Power2Of64()
    ensures Power2(64) == U64_MODULUS
  {
    PowersAdd(32, 32);
    PowersAdd(16, 16);
    PowersAdd(8, 8);
    assert Power2(8) == 256;
  }

  lemma {:induction false} PowersAdd(a: nat, b: nat)
    ensures Power2(a + b) == Power2(a) * Power2(b)
    decreases a
  {
    if a > 0 {
      PowersAdd(a - 1, b);
    }
  }

  lemma XorIsU64(h: U64, b: Octet)
    ensures Xor(h, b) < U64_MODULUS
  {
    Power2Of64();
    XorBelow(h, b, 64);
  }

  /** For each byte, hashing it is a bijection on the 64-bit states. */
  lemma AbsorbIsBijection(h: U64, b: Octet)
    ensures Release(h, b) < U64_MODULUS
    ensures Release(Absorb(h, b), b) == h && Absorb(Release(h, b), b) == h
  {
    XorIsU64(h, b);
    XorIsU64(WrappingMul(h, INVERSE), b);
    MulUndone(Xor(h, b));
    XorTwice(h, b);
    XorTwice(WrappingMul(h, INVERSE), b);
    MulUndone(h);
  }

  /** From one state, different bytes lead to different states. */
  lemma AbsorbSeparatesBytes(h: U64, a: Octet, b: Octet)
    requires a != b
    ensures Absorb(h, a) != Absorb(h, b)
  {
    XorIsU64(h, a);
    XorIsU64(h, b);
    MulUndone(Xor(h, a));
    MulUndone(Xor(h, b));
    XorCommutes(h, a);
    XorCommutes(h, b);
    XorTwice(a, h);
    XorTwice(b, h);
  }

  // ---------------------------------------------------------------- streams

  lemma {:induction false} HashSeparatesStates(g: U64, h: U64, bytes: Bytes)
    requires g != h
    ensures Hash(g, bytes) != Hash(h, bytes)
    decreases |bytes|
  {
    if bytes != [] {
      AbsorbIsBijection(g, bytes[0]);
      AbsorbIsBijection(h, bytes[0]);
      HashSeparatesStates(Absorb(g, bytes[0]), Absorb(h, bytes[0]), bytes[1..]);
    }
  }

  /** The two streams differ at position `i` and nowhere else. */
  predicate DifferOnlyAt(s: Bytes, t: Bytes, i: nat) {
    |s| == |t| && i < |s| && s[i] != t[i] && forall k | 0 <= k < |s| && k != i :: s[k] == t[k]
  }

  lemma {:induction false} OneByteChangesHash(h: U64, s: Bytes, t: Bytes, i: nat)
    requires DifferOnlyAt(s, t, i)
    ensures Hash(h, s) != Hash(h, t)
    decreases |s|
  {
    if i == 0 {
      AbsorbSeparatesBytes(h, s[0], t[0]);
      HashSeparatesStates(Absorb(h, s[0]), Absorb(h, t[0]), s[1..]);
      assert s[1..] == t[1..];
    } else {
      OneByteChangesHash(Absorb(h, s[0]), s[1..], t[1..], i - 1);
    }
  }

  lemma {:induction false} HexInjective(m: nat, n: nat, width: nat)
    requires Hex(m, width) == Hex(n, width) && m < Power16(width) && n < Power16(width)
    ensures m == n
    decreases width
  {
    if width > 0 {
      var a, b := Hex(m, width), Hex(n, width);
      assert a[..width - 1] == Hex(m / 16, width - 1) && b[..width - 1] == Hex(n / 16, width - 1);
      assert a[width - 1] == DIGITS[m % 16] && b[width - 1] == DIGITS[n % 16];
      DigitsDistinct(m % 16, n % 16);
      HexInjective(m / 16, n / 16, width - 1);
    }
  }

  function Power16(k: nat): nat { if k == 0 then 1 else 16 * Power16(k - 1) }

  lemma DigitsDistinct(i: nat, j: nat)
    requires i < 16 && j < 16 && DIGITS[i] == DIGITS[j]
    ensures i == j
  {
  }

  /** Inputs whose streams have equal length and differ in exactly one byte never share a tag. */
  lemma OneByteChangesTag(image1: Bytes, script1: Bytes, image2: Bytes, script2: Bytes, i: nat)
    requires DifferOnlyAt(Stream(image1, script1), Stream(image2, script2), i)
    ensures Tag(image1, script1) != Tag(image2, script2)
  {
    OneByteChangesHash(OFFSET_BASIS, Stream(image1, script1), Stream(image2, script2), i);
    TagShowsHash(Hash(OFFSET_BASIS, Stream(image1, script1)), Hash(OFFSET_BASIS, Stream(image2, script2)));
  }

  lemma TagShowsHash(g: U64, h: U64)
    requires g != h
    ensures "symphony-worker-" + Hex(g, 16) != "symphony-worker-" + Hex(h, 16)
  {
    var prefix := "symphony-worker-";
    var a, b := Hex(g, 16), Hex(h, 16);
    assert (prefix + a)[16..] == a && (prefix + b)[16..] == b;
    assert Power16(4) == 0x1_0000 && Power16(8) == 0x1_0000_0000 by {
      assert Power16(2) == 256 && Power16(6) == 0x100_0000;
    }
    assert Power16(12) == 0x1_0000_0000_0000 by {
      assert Power16(10) == 0x100_0000_0000;
    }
    assert Power16(16) == U64_MODULUS by {
      assert Power16(14) == 0x100_0000_0000_0000;
    }
    if a == b {
      HexInjective(g, h, 16);
    }
  }

  /**
   Two inputs are hashed as the same stream exactly when they are equal or one image continues the other
   with a zero byte and text that the other has in its script. So names without a zero byte are kept apart.
   */
  lemma StreamsCoincide(image1: Bytes, script1: Bytes, image2: Bytes, script2: Bytes)
    ensures Stream(image1, script1) == Stream(image2, script2)
            <==> (image1 == image2 && script1 == script2)
                 || Shifted(image1, script1, image2, script2) || Shifted(image2, script2, image1, script1)
    ensures 0 !in image1 && 0 !in image2 && Stream(image1, script1) == Stream(image2, script2)
            ==> image1 == image2 && script1 == script2
  {
    if Stream(image1, script1) == Stream(image2, script2) {
      if |image1| < |image2| {
        SameStreamShifts(image1, script1, image2, script2);
      } else if |image2| < |image1| {
        SameStreamShifts(image2, script2, image1, script1);
      } else {
        var s, t := Stream(image1, script1), Stream(image2, script2);
        assert s[..|image1|] == image1 && t[..|image2|] == image2;
        assert s[|image1| + 1..] == script1 && t[|image2| + 1..] == script2;
      }
    }
    if Shifted(image1, script1, image2, script2) {
      ShiftedSameStream(image1, script1, image2, script2);
    }
    if Shifted(image2, script2, image1, script1) {
      ShiftedSameStream(image2, script2, image1, script1);
    }
  }

  /** `image2` is `image1`, a zero byte, and the beginning of `script1` up to another zero byte. */
  ghost predicate Shifted(image1: Bytes, script1: Bytes, image2: Bytes, script2: Bytes) {
    exists mid: Bytes :: image2 == image1 + [0] + mid && script1 == mid + [0] + script2
  }

  lemma SameStreamShifts(image1: Bytes, script1: Bytes, image2: Bytes, script2: Bytes)
    requires Stream(image1, script1) == Stream(image2, script2) && |image1| < |image2|
    ensures Shifted(image1, script1, image2, script2) && 0 in image2
  {
    var s := Stream(image1, script1);
    var n := |image1|;
    var mid := image2[n + 1..];
    assert s[..n] == image1 && s[n] == 0 && s[n + 1..] == script1;
    assert image2 == s[..|image2|];
    assert image2[n] == 0;
    assert image2 == image1 + [0] + mid;
    assert script1 == mid + [0] + script2;
  }

  lemma ShiftedSameStream(image1: Bytes, script1: Bytes, image2: Bytes, script2: Bytes)
    requires Shifted(image1, script1, image2, script2)
    ensures Stream(image1, script1) == Stream(image2, script2)
  {
    var mid: Bytes :| image2 == image1 + [0] + mid && script1 == mid + [0] + script2;
    assert image1 + [0] + (mid + [0] + script2) == (image1 + [0] + mid) + [0] + script2;
  }
}

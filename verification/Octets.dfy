/** Byte strings, bitwise exclusive or, fixed-width integers and flattening:
    the vocabulary shared by every layer of the proxy's data path. */
module Octets {

  type byte = x: int | 0 <= x < 256
  type Bytes = seq<byte>

  datatype Option<+T> = None | Some(value: T)

  // ---------------------------------------------------------------- xor

  /** Bitwise exclusive or of two unsigned integers, one bit at a time. */
  function Xor(a: nat, b: nat): nat
    decreases a + b
  {
    if a == 0 && b == 0 then 0
    else 2 * Xor(a / 2, b / 2) + if a % 2 == b % 2 then 0 else 1
  }

  function Pow2(k: nat): (p: nat)
    ensures p > 0
  {
    if k == 0 then 1 else 2 * Pow2(k - 1)
  }

  lemma {:induction false} XorBound(a: nat, b: nat, k: nat)
    requires a < Pow2(k) && b < Pow2(k)
    ensures Xor(a, b) < Pow2(k)
  {
    if k > 0 {
      XorBound(a / 2, b / 2, k - 1);
    }
  }

  /** Bit i of n, the least significant first. */
  function Bit(n: nat, i: nat): nat {
    if i == 0 then n % 2 else Bit(n / 2, i - 1)
  }

  /** A bit of the result is set exactly where the bits of the operands differ. */
  lemma {:induction false} XorBits(a: nat, b: nat, i: nat)
    ensures Bit(Xor(a, b), i) == if Bit(a, i) == Bit(b, i) then 0 else 1
  {
    if a == 0 && b == 0 {
      ZeroBits(i);
    } else if i > 0 {
      XorBits(a / 2, b / 2, i - 1);
      assert Xor(a, b) / 2 == Xor(a / 2, b / 2);
    }
  }

  lemma {:induction false} ZeroBits(i: nat)
    ensures Bit(0, i) == 0
  {
    if i > 0 {
      ZeroBits(i - 1);
    }
  }

  /** Applying the same mask twice restores the value. */
  lemma {:induction false} XorCancels(a: nat, b: nat)
    ensures Xor(Xor(a, b), b) == a
    decreases a + b
  {
    if a != 0 || b != 0 {
      XorCancels(a / 2, b / 2);
      var x := Xor(a, b);
      assert x / 2 == Xor(a / 2, b / 2);
    }
  }

  lemma {:induction false} XorSymmetric(a: nat, b: nat)
    ensures Xor(a, b) == Xor(b, a)
    decreases a + b
  {
    if a != 0 || b != 0 {
      XorSymmetric(a / 2, b / 2);
    }
  }

  /** x with the k lowest bits of a appended. */
  function Appended(x: nat, a: nat, k: nat): nat {
    if k == 0 then x else 2 * Appended(x, a / 2, k - 1) + a % 2
  }

  /** Exclusive or works digit by digit in base 2^k. */
  lemma {:induction false} XorDigits(x: nat, y: nat, a: nat, b: nat, k: nat)
    ensures Xor(Appended(x, a, k), Appended(y, b, k)) == Appended(Xor(x, y), Xor(a, b), k)
    decreases k
  {
    if k > 0 {
      hide Xor, Appended;
      XorDigits(x, y, a / 2, b / 2, k - 1);
      XorHalves(Appended(x, a, k), Appended(y, b, k));
      XorHalves(a, b);
      AppendedHalves(x, a, k);
      AppendedHalves(y, b, k);
      AppendedHalves(Xor(x, y), Xor(a, b), k);
    }
  }

  lemma AppendedHalves(x: nat, a: nat, k: nat)
    requires k > 0
    ensures Appended(x, a, k) == 2 * Appended(x, a / 2, k - 1) + a % 2
    ensures Appended(x, a, k) / 2 == Appended(x, a / 2, k - 1) && Appended(x, a, k) % 2 == a % 2
  {
  }

  lemma AppendedByte(x: nat, a: nat)
    requires a < 256
    ensures Appended(x, a, 8) == 256 * x + a
  {
    var a1, a2, a3, a4 := a / 2, a / 4, a / 8, a / 16;
    var a5, a6, a7 := a / 32, a / 64, a / 128;
    assert a1 / 2 == a2 && a2 / 2 == a3 && a3 / 2 == a4 && a4 / 2 == a5 && a5 / 2 == a6 && a6 / 2 == a7;
    assert Appended(x, a7, 1) == 2 * Appended(x, a7 / 2, 0) + a7 % 2 == 2 * x + a7;
    assert Appended(x, a6, 2) == 4 * x + a6;
    assert Appended(x, a5, 3) == 8 * x + a5;
    assert Appended(x, a4, 4) == 16 * x + a4;
    assert Appended(x, a3, 5) == 32 * x + a3;
    assert Appended(x, a2, 6) == 64 * x + a2;
    assert Appended(x, a1, 7) == 128 * x + a1;
  }

  lemma XorHalves(a: nat, b: nat)
    ensures Xor(a, b) == 2 * Xor(a / 2, b / 2) + if a % 2 == b % 2 then 0 else 1
  {
  }

  function XorByte(a: byte, b: byte): (r: byte)
    ensures Xor(r, b) == a
  {
    assert Pow2(8) == 256 by { Pow2Values(); }
    XorBound(a, b, 8);
    XorCancels(a, b);
    Xor(a, b)
  }

  lemma Pow2Values()
    ensures Pow2(8) == 256
  {
    assert Pow2(4) == 16;
  }

  /** Position by position exclusive or with a keystream, pad or mask. */
  function XorBytes(a: Bytes, b: Bytes): (r: Bytes)
    requires |a| == |b|
    ensures |r| == |a|
    ensures forall i :: 0 <= i < |a| ==> r[i] == XorByte(a[i], b[i])
  {
    seq(|a|, i requires 0 <= i < |a| => XorByte(a[i], b[i]))
  }

  // ---------------------------------------------------------------- fixed-width integers

  function Pow256(k: nat): (p: nat)
    ensures p > 0
  {
    if k == 0 then 1 else 256 * Pow256(k - 1)
  }

  lemma Pow256Values()
    ensures Pow256(1) == 256 && Pow256(2) == 65536 && Pow256(3) == 0x100_0000
    ensures Pow256(4) == 0x1_0000_0000 && Pow256(8) == 0x1_0000_0000_0000_0000
  {
    assert Pow256(2) == 65536;
    assert Pow256(4) == 0x1_0000_0000;
    assert Pow256(6) == 0x1_0000_0000_0000;
  }

  /** n as k little-endian bytes. */
  function Le(n: nat, k: nat): (r: Bytes)
    ensures |r| == k
  {
    if k == 0 then [] else [n % 256] + Le(n / 256, k - 1)
  }

  function FromLe(b: Bytes): nat {
    if b == [] then 0 else b[0] + 256 * FromLe(b[1..])
  }

  /** n as k big-endian (network order) bytes. */
  function Be(n: nat, k: nat): (r: Bytes)
    ensures |r| == k
  {
    if k == 0 then [] else Be(n / 256, k - 1) + [n % 256]
  }

  function FromBe(b: Bytes): nat {
    if b == [] then 0 else 256 * FromBe(b[..|b| - 1]) + b[|b| - 1]
  }

  /** The first byte of a little-endian number counts ones. */
  lemma LittleEndian(b: Bytes)
    ensures |b| == 2 ==> FromLe(b) == b[0] as int + 256 * b[1] as int
    ensures |b| == 3 ==> FromLe(b) == b[0] as int + 256 * b[1] as int + 0x1_0000 * b[2] as int
    ensures |b| == 4 ==>
              FromLe(b) == b[0] as int + 256 * b[1] as int + 0x1_0000 * b[2] as int + 0x100_0000 * b[3] as int
    decreases |b|
  {
    if |b| == 2 {
      assert b[1..] == [b[1]] && FromLe([b[1]]) == b[1] as int + 256 * FromLe([]);
    } else if |b| in {3, 4} {
      LittleEndian(b[1..]);
    }
  }

  lemma LittleEndianBytes(n: nat)
    ensures Le(n, 2) == [n % 256, n / 256 % 256]
    ensures Le(n, 3) == [n % 256, n / 256 % 256, n / 0x1_0000 % 256]
    ensures Le(n, 4) == [n % 256, n / 256 % 256, n / 0x1_0000 % 256, n / 0x100_0000 % 256]
  {
    assert n / 256 / 256 == n / 0x1_0000 && n / 256 / 256 / 256 == n / 0x100_0000;
    assert Le(n / 256 / 256 / 256, 1) == [n / 0x100_0000 % 256];
    assert Le(n / 256 / 256, 1) == [n / 0x1_0000 % 256];
    assert Le(n / 256, 1) == [n / 256 % 256];
    assert Le(n / 256 / 256, 2) == [n / 0x1_0000 % 256] + Le(n / 256 / 256 / 256, 1);
    assert Le(n / 256, 2) == [n / 256 % 256] + Le(n / 256 / 256, 1);
    assert Le(n / 256, 3) == [n / 256 % 256] + Le(n / 256 / 256, 2);
  }

  /** The last byte of a network-order number counts ones. */
  lemma BigEndian(b: Bytes)
    ensures |b| == 2 ==> FromBe(b) == 256 * b[0] as int + b[1] as int
    ensures |b| == 3 ==> FromBe(b) == 0x1_0000 * b[0] as int + 256 * b[1] as int + b[2] as int
  {
    if |b| == 2 {
      assert b[..1] == [b[0]] && FromBe([b[0]]) == 256 * FromBe([b[0]][..0]) + b[0];
    } else if |b| == 3 {
      BigEndian(b[..2]);
    }
  }

  /** One more digit at the end. */
  lemma BigEndianDigit(b: Bytes, d: byte)
    ensures FromBe([]) == 0 && FromBe(b + [d]) == 256 * FromBe(b) + d
  {
    assert (b + [d])[..|b|] == b;
  }

  lemma BigEndianBytes(n: nat)
    ensures Be(n, 2) == [n / 256 % 256, n % 256]
  {
    assert Be(n / 256, 1) == [n / 256 % 256];
  }

  lemma {:induction false} LeRoundTrip(n: nat, k: nat)
    requires n < Pow256(k)
    ensures FromLe(Le(n, k)) == n
  {
    if k > 0 {
      LeRoundTrip(n / 256, k - 1);
      assert Le(n, k)[1..] == Le(n / 256, k - 1);
    }
  }

  lemma {:induction false} FromLeRoundTrip(b: Bytes)
    ensures FromLe(b) < Pow256(|b|) && Le(FromLe(b), |b|) == b
  {
    if b != [] {
      FromLeRoundTrip(b[1..]);
      assert b == [b[0]] + b[1..];
    }
  }

  lemma {:induction false} BeRoundTrip(n: nat, k: nat)
    requires n < Pow256(k)
    ensures FromBe(Be(n, k)) == n
  {
    if k > 0 {
      BeRoundTrip(n / 256, k - 1);
      assert Be(n, k)[..k - 1] == Be(n / 256, k - 1);
    }
  }

  lemma {:induction false} FromBeRoundTrip(b: Bytes)
    ensures FromBe(b) < Pow256(|b|) && Be(FromBe(b), |b|) == b
  {
    if b != [] {
      FromBeRoundTrip(b[..|b| - 1]);
      assert b == b[..|b| - 1] + [b[|b| - 1]];
    }
  }

  // ---------------------------------------------------------------- sequences of pieces

  function Flatten<T>(parts: seq<seq<T>>): seq<T> {
    if parts == [] then [] else parts[0] + Flatten(parts[1..])
  }

  lemma {:induction false} FlattenConcat<T>(a: seq<seq<T>>, b: seq<seq<T>>)
    ensures Flatten(a + b) == Flatten(a) + Flatten(b)
  {
    if a == [] {
      assert a + b == b;
    } else {
      FlattenConcat(a[1..], b);
      assert (a + b)[1..] == a[1..] + b;
      Associative(a[0], Flatten(a[1..]), Flatten(b));
    }
  }

  lemma Associative<T>(a: seq<T>, b: seq<T>, c: seq<T>)
    ensures (a + b) + c == a + (b + c)
  {
  }

  lemma FlattenEmpty<T>()
    ensures Flatten<T>([]) == []
  {
  }

  lemma FlattenSnoc<T>(a: seq<seq<T>>, x: seq<T>)
    ensures Flatten(a + [x]) == Flatten(a) + x
  {
    FlattenConcat(a, [x]);
    assert Flatten([x]) == x + Flatten<T>([]);
  }

  lemma FlattenSingle<T>(x: seq<T>)
    ensures Flatten([x]) == x
  {
    assert Flatten([x]) == x + Flatten<T>([]);
  }

  function Sum(lens: seq<nat>): nat {
    if lens == [] then 0 else lens[0] + Sum(lens[1..])
  }

  lemma {:induction false} SumConcat(a: seq<nat>, b: seq<nat>)
    ensures Sum(a + b) == Sum(a) + Sum(b)
  {
    if a == [] {
      assert a + b == b;
    } else {
      SumConcat(a[1..], b);
      assert (a + b)[1..] == a[1..] + b;
    }
  }

  /** The consecutive slices of s with the given lengths. */
  function Cut<T>(s: seq<T>, lens: seq<nat>): (r: seq<seq<T>>)
    requires Sum(lens) <= |s|
    ensures |r| == |lens|
  {
    if lens == [] then [] else [s[..lens[0]]] + Cut(s[lens[0]..], lens[1..])
  }

  lemma {:induction false} CutFlatten<T>(s: seq<T>, lens: seq<nat>)
    requires Sum(lens) <= |s|
    ensures Flatten(Cut(s, lens)) == s[..Sum(lens)]
  {
    if lens != [] {
      CutFlatten(s[lens[0]..], lens[1..]);
    }
  }

  lemma {:induction false} CutConcat<T>(s: seq<T>, a: seq<nat>, b: seq<nat>)
    requires Sum(a) + Sum(b) <= |s|
    ensures Sum(a + b) <= |s|
    ensures Cut(s, a + b) == Cut(s, a) + Cut(s[Sum(a)..], b)
  {
    SumConcat(a, b);
    if a == [] {
      assert a + b == b && s[0..] == s;
    } else {
      CutConcat(s[a[0]..], a[1..], b);
      assert (a + b)[1..] == a[1..] + b;
      assert s[a[0]..][Sum(a[1..])..] == s[Sum(a)..];
      Associative([s[..a[0]]], Cut(s[a[0]..], a[1..]), Cut(s[Sum(a)..], b));
    }
  }

  /** Only the part of s that the lengths cover matters. */
  lemma {:induction false} CutPrefix<T>(s: seq<T>, t: seq<T>, lens: seq<nat>)
    requires Sum(lens) <= |s|
    ensures Cut(s + t, lens) == Cut(s, lens)
  {
    if lens != [] {
      CutPrefix(s[lens[0]..], t, lens[1..]);
      assert (s + t)[lens[0]..] == s[lens[0]..] + t;
      assert (s + t)[..lens[0]] == s[..lens[0]];
    }
  }

  /** Cutting s + t with a then b: the a-slices lie in s, the rest starts after them. */
  lemma CutResume<T>(s: seq<T>, t: seq<T>, a: seq<nat>, b: seq<nat>)
    requires Sum(a) <= |s| && Sum(a) + Sum(b) <= |s + t|
    ensures Sum(a + b) == Sum(a) + Sum(b)
    ensures Cut(s + t, a + b) == Cut(s, a) + Cut(s[Sum(a)..] + t, b)
    ensures (s + t)[Sum(a) + Sum(b)..] == (s[Sum(a)..] + t)[Sum(b)..]
  {
    SumConcat(a, b);
    CutConcat(s + t, a, b);
    CutPrefix(s, t, a);
    assert (s + t)[Sum(a)..] == s[Sum(a)..] + t;
  }

  function Lengths<T>(parts: seq<seq<T>>): (r: seq<nat>)
    ensures |r| == |parts|
  {
    if parts == [] then [] else [|parts[0]|] + Lengths(parts[1..])
  }

  lemma Rejoined<T>(a: seq<T>, b: seq<T>)
    ensures (a + b)[..|a|] == a && (a + b)[|a|..] == b
  {
  }

  /** Cutting a flattened list back into the lengths of its pieces. */
  lemma {:induction false} CutInverse<T>(parts: seq<seq<T>>, rest: seq<T>)
    ensures Sum(Lengths(parts)) == |Flatten(parts)|
    ensures Cut(Flatten(parts) + rest, Lengths(parts)) == parts
  {
    if parts != [] {
      CutInverse(parts[1..], rest);
      Associative(parts[0], Flatten(parts[1..]), rest);
      Rejoined(parts[0], Flatten(parts[1..]) + rest);
      assert Lengths(parts)[1..] == Lengths(parts[1..]);
    }
  }
}

/** Bytes, big-endian integers and the xor used to mask frame lengths. */
module Bytes {

  type byte = x: int | 0 <= x < 256

  datatype Option<+T> = None | Some(value: T)

  function Pow2(n: nat): (r: nat)
    ensures r > 0
  {
    if n == 0 then 1 else 2 * Pow2(n - 1)
  }

  function Pow256(n: nat): (r: nat)
    ensures r > 0
  {
    if n == 0 then 1 else 256 * Pow256(n - 1)
  }

  /** Bitwise exclusive or of the low `width` bits of two numbers. */
  function Xor(a: nat, b: nat, width: nat): (r: nat)
    ensures r < Pow2(width)
  {
    if width == 0 then 0 else 2 * Xor(a / 2, b / 2, width - 1) + (a + b) % 2
  }

  /** Binary digit `i` of a number. */
  function Bit(n: nat, i: nat): nat {
    (n / Pow2(i)) % 2
  }

  /** Digit by digit: 0 where the two agree, 1 where they differ. */
  lemma {:induction false} XorBits(a: nat, b: nat, width: nat, i: nat)
    requires i < width
    ensures Bit(Xor(a, b, width), i) == if Bit(a, i) == Bit(b, i) then 0 else 1
    decreases width
  {
    XorHalves(a, b, width);
    if i == 0 {
      assert Pow2(0) == 1;
    } else {
      XorBits(a / 2, b / 2, width - 1, i - 1);
      BitOfHalf(a, i);
      BitOfHalf(b, i);
      BitOfHalf(Xor(a, b, width), i);
    }
  }

  lemma XorHalves(a: nat, b: nat, width: nat)
    requires width > 0
    ensures Xor(a, b, width) / 2 == Xor(a / 2, b / 2, width - 1) && Xor(a, b, width) % 2 == if a % 2 == b % 2 then 0 else 1
  {
    LowBit(Xor(a / 2, b / 2, width - 1), a, b);
  }

  lemma BitOfHalf(n: nat, i: nat)
    requires i > 0
    ensures Bit(n, i) == Bit(n / 2, i - 1)
  {
    HalvesDivide(n, Pow2(i - 1));
  }

  lemma HalvesDivide(n: nat, p: nat)
    requires p > 0
    ensures n / (2 * p) == (n / 2) / p
  {
    var h := n / 2;
    var q, r := h / p, h % p;
    assert h == p * q + r;
    assert n == 2 * h + n % 2;
    var low := 2 * r + n % 2;
    assert 0 <= low < 2 * p;
    assert n == 2 * (p * q) + low;
    DivideUnique(n, 2 * p, q, low);
  }

  lemma DivideUnique(n: nat, d: nat, q: nat, r: nat)
    requires d > 0 && r < d && n == d * q + r
    ensures n / d == q && n % d == r
  {
    var k := n / d;
    assert k < q ==> d * (k + 1) <= d * q;
    assert k > q ==> d * (q + 1) <= d * k;
  }

  /** Masking twice with the same mask gives the number back. */
  lemma {:induction false} XorTwice(a: nat, b: nat, width: nat)
    requires a < Pow2(width)
    ensures Xor(Xor(a, b, width), b, width) == a
  {
    if width != 0 {
      XorTwice(a / 2, b / 2, width - 1);
      LowBit(Xor(a / 2, b / 2, width - 1), a, b);
    }
  }

  lemma LowBit(high: nat, a: nat, b: nat)
    ensures var x := 2 * high + (a + b) % 2; x / 2 == high && (x + b) % 2 == a % 2
  {
    var k, j := (a + b) / 2, b / 2;
    assert a + b == 2 * k + (a + b) % 2;
    assert b == 2 * j + b % 2;
  }

  /** The `width` low-order bytes of `n`, most significant first. */
  function ToBigEndian(n: nat, width: nat): (r: seq<byte>)
    ensures |r| == width
  {
    if width == 0 then [] else ToBigEndian(n / 256, width - 1) + [n % 256]
  }

  function FromBigEndian(s: seq<byte>): (r: nat) {
    if s == [] then 0 else 256 * FromBigEndian(s[..|s| - 1]) + s[|s| - 1]
  }

  lemma {:induction false} BigEndianRoundTrip(n: nat, width: nat)
    requires n < Pow256(width)
    ensures FromBigEndian(ToBigEndian(n, width)) == n
  {
    if width != 0 {
      BigEndianRoundTrip(n / 256, width - 1);
      assert ToBigEndian(n, width)[..width - 1] == ToBigEndian(n / 256, width - 1);
    }
  }

  /** Byte `i` is the digit of weight 256 to the power of how many bytes follow: the most significant comes first. */
  lemma {:induction false} BigEndianDigit(n: nat, width: nat, i: nat)
    requires i < width
    ensures ToBigEndian(n, width)[i] == (n / Pow256(width - 1 - i)) % 256
    decreases width
  {
    if i == width - 1 {
      assert Pow256(0) == 1;
    } else {
      BigEndianDigit(n / 256, width - 1, i);
      ByteDivide(n, Pow256(width - 2 - i));
    }
  }

  lemma ByteDivide(n: nat, p: nat)
    requires p > 0
    ensures n / (256 * p) == (n / 256) / p
  {
    var h := n / 256;
    var q, r := h / p, h % p;
    assert h == p * q + r;
    var low := 256 * r + n % 256;
    assert 0 <= low < 256 * p;
    assert n == 256 * (p * q) + low;
    DivideUnique(n, 256 * p, q, low);
  }

  lemma Assoc<T>(a: seq<T>, b: seq<T>, c: seq<T>)
    ensures a + (b + c) == a + b + c
  {
  }

  function Zeros(n: nat): (r: seq<byte>)
    ensures |r| == n
    ensures forall i :: 0 <= i < n ==> r[i] == 0
  {
    seq(n, _ => 0)
  }

  function Min(a: nat, b: nat): nat {
    if a <= b then a else b
  }

  /** The parts one after another. */
  function Flatten<T>(parts: seq<seq<T>>): seq<T> {
    if parts == [] then [] else parts[0] + Flatten(parts[1..])
  }

  lemma {:induction false} FlattenSnoc<T>(parts: seq<seq<T>>, last: seq<T>)
    ensures Flatten(parts + [last]) == Flatten(parts) + last
  {
    if parts == [] {
      assert [last][1..] == [] && [] + [last] == [last];
      assert Flatten([last]) == last + Flatten([last][1..]);
    } else {
      assert (parts + [last])[1..] == parts[1..] + [last];
      FlattenSnoc(parts[1..], last);
      Assoc(parts[0], Flatten(parts[1..]), last);
    }
  }

  /** `b` is `a` with more at its end. */
  predicate Extends<T(==)>(a: seq<T>, b: seq<T>) {
    a == b || (b != [] && Extends(a, b[..|b| - 1]))
  }

  lemma {:induction false} ExtendsTrans<T>(a: seq<T>, b: seq<T>, c: seq<T>)
    requires Extends(a, b) && Extends(b, c)
    ensures Extends(a, c)
  {
    if b != c {
      ExtendsTrans(a, b, c[..|c| - 1]);
    }
  }

  lemma {:induction false} ExtendsAppend<T>(a: seq<T>, b: seq<T>)
    ensures Extends(a, a + b)
  {
    if b == [] {
      assert a + b == a;
    } else {
      ExtendsAppend(a, b[..|b| - 1]);
      assert (a + b)[..|a + b| - 1] == a + b[..|b| - 1];
    }
  }

  lemma {:induction false} ExtendsPrefix<T>(a: seq<T>, b: seq<T>)
    requires Extends(a, b)
    ensures a <= b
  {
    if a != b {
      ExtendsPrefix(a, b[..|b| - 1]);
    }
  }
}

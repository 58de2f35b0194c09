/** Byte strings, and integers stored most or least significant byte first. */
module Bytes {

  type byte = x: int | 0 <= x < 256

  type ByteString = seq<byte>

  const TWO_31 := 0x8000_0000
  const TWO_32 := 0x1_0000_0000
  const TWO_63 := 0x8000_0000_0000_0000
  const TWO_64 := 0x1_0000_0000_0000_0000

  type word64 = x: int | 0 <= x < TWO_64

  /** A cast of `n` to a signed 32-bit integer. */
  function ToInt32(n: int): (r: int)
    ensures -TWO_31 <= r < TWO_31 && (r - n) % TWO_32 == 0
  {
    var m := n % TWO_32;
    if m < TWO_31 then m else m - TWO_32
  }

  /** A cast of `n` to a signed 64-bit integer. */
  function ToInt64(n: int): (r: int)
    ensures -TWO_63 <= r < TWO_63 && (r - n) % TWO_64 == 0
  {
    var m := n % TWO_64;
    if m < TWO_63 then m else m - TWO_64
  }

  function Pow256(k: nat): (r: nat)
    ensures r > 0
  {
    if k == 0 then 1 else 256 * Pow256(k - 1)
  }

  /** The low `k` bytes of `n`, most significant first. */
  function Big(n: nat, k: nat): (s: ByteString)
    ensures |s| == k
  {
    if k == 0 then [] else Big(n / 256, k - 1) + [n % 256]
  }

  /** The integer whose bytes, most significant first, are `s`. */
  function FromBig(s: ByteString): (n: nat)
    ensures n < Pow256(|s|)
  {
    if s == [] then 0 else 256 * FromBig(s[..|s| - 1]) + s[|s| - 1]
  }

  lemma {:induction false} FromBigOfBig(n: nat, k: nat)
    ensures FromBig(Big(n, k)) == n % Pow256(k)
  {
    if k > 0 {
      FromBigOfBig(n / 256, k - 1);
      var s := Big(n, k);
      assert s[..k - 1] == Big(n / 256, k - 1);
      ModSplit(n, Pow256(k - 1));
    }
  }

  lemma {:induction false} BigOfFromBig(s: ByteString)
    ensures Big(FromBig(s), |s|) == s
  {
    if s != [] {
      var front, last := s[..|s| - 1], s[|s| - 1];
      BigOfFromBig(front);
      assert FromBig(s) / 256 == FromBig(front) && FromBig(s) % 256 == last;
      assert s == front + [last];
    }
  }

  lemma ModSplit(n: nat, m: nat)
    requires m > 0
    ensures n % (256 * m) == 256 * (n / 256 % m) + n % 256
  {
    var q, r := n / 256, n % 256;
    var a, b := q / m, q % m;
    assert n == (256 * m) * a + (256 * b + r) by {
      assert q == m * a + b;
      assert 256 * (m * a) == (256 * m) * a;
    }
    DivisionIsUnique(n, 256 * m, a, 256 * b + r);
  }

  lemma DivisionIsUnique(n: int, d: int, q: int, r: int)
    requires 0 <= r < d && n == d * q + r
    ensures n / d == q && n % d == r
  {
    var q', r' := n / d, n % d;
    assert n == d * q' + r';
    if q' > q {
      MulMonotone(d, q + 1, q');
      assert false;
    } else if q' < q {
      MulMonotone(d, q' + 1, q);
      assert false;
    }
  }

  lemma WrapMore(x: int, k: int)
    ensures (x + TWO_32 * k) % TWO_32 == x % TWO_32
  {
  }

  lemma MulMonotone(d: int, a: int, b: int)
    requires d > 0 && a <= b
    ensures d * a <= d * b
    ensures d * (a - 1) == d * a - d
  {
  }

  lemma WidthBounds()
    ensures Pow256(1) == 256 && Pow256(2) == 0x1_0000 && Pow256(4) == TWO_32 && Pow256(8) == TWO_64
  {
    assert Pow256(0) == 1;
    assert Pow256(3) == 0x100_0000;
    assert Pow256(5) == 0x100_0000_0000;
    assert Pow256(6) == 0x1_0000_0000_0000;
    assert Pow256(7) == 0x100_0000_0000_0000;
  }

  /** The bytes of `n`, least significant first, without leading zero bytes. */
  function Little(n: nat): (s: ByteString)
    ensures n == 0 <==> s == []
  {
    if n == 0 then [] else [n % 256] + Little(n / 256)
  }

  function FromLittle(s: ByteString): (n: nat)
    ensures n < Pow256(|s|)
  {
    if s == [] then 0 else s[0] + 256 * FromLittle(s[1..])
  }

  lemma {:induction false} FromLittleOfLittle(n: nat)
    ensures FromLittle(Little(n)) == n
  {
    if n > 0 {
      FromLittleOfLittle(n / 256);
      assert Little(n)[1..] == Little(n / 256);
    }
  }

  lemma {:induction false} LittleLength(n: nat, k: nat)
    ensures |Little(n)| <= k <==> n < Pow256(k)
    decreases k
  {
    if k > 0 && n > 0 {
      LittleLength(n / 256, k - 1);
    }
  }

  /** The order of std::string: bytewise, a proper prefix first. */
  predicate KeyLess(a: ByteString, b: ByteString) {
    b != [] && (a == [] || a[0] < b[0] || (a[0] == b[0] && KeyLess(a[1..], b[1..])))
  }

  /** `part` occurs in `d` at `pos`. */
  predicate At<T(==)>(d: seq<T>, pos: nat, part: seq<T>) {
    pos + |part| <= |d| && d[pos..pos + |part|] == part
  }

  lemma AtSplit<T>(d: seq<T>, pos: nat, a: seq<T>, b: seq<T>)
    ensures At(d, pos, a + b) <==> At(d, pos, a) && At(d, pos + |a|, b)
  {
    if pos + |a| + |b| <= |d| {
      var w := d[pos..pos + |a| + |b|];
      assert w[..|a|] == d[pos..pos + |a|] && w[|a|..] == d[pos + |a|..pos + |a| + |b|];
      if At(d, pos, a + b) {
        assert w[..|a|] == a && w[|a|..] == b;
      }
      if At(d, pos, a) && At(d, pos + |a|, b) {
        assert w == w[..|a|] + w[|a|..];
      }
    }
  }

  /** The digits of `n` in base ten, as ASCII text. */
  function Decimal(n: int): (s: ByteString)
    decreases n < 0, if n < 0 then -n else n
  {
    if n < 0 then ['-' as int] + Decimal(-n)
    else if n < 10 then ['0' as int + n]
    else Decimal(n / 10) + ['0' as int + n % 10]
  }

  /** The text has nothing but digits, no needless zero in front, behind a minus if the number is below zero. */
  lemma {:induction false} DecimalDigits(n: int)
    ensures n < 0 ==> Decimal(n) == [45] + Decimal(-n)
    ensures n >= 0 ==> forall i :: 0 <= i < |Decimal(n)| ==> 48 <= Decimal(n)[i] <= 57
    ensures n > 0 ==> Decimal(n) != [] && Decimal(n)[0] != 48
    decreases n < 0, if n < 0 then -n else n
  {
    if n >= 10 {
      DecimalDigits(n / 10);
    }
  }

  /** The integer a decimal text denotes. */
  function FromDecimal(s: ByteString): int {
    if s == [] then 0
    else if s[0] == '-' as int then -FromDecimal(s[1..])
    else 10 * FromDecimal(s[..|s| - 1]) + (s[|s| - 1] - '0' as int)
  }

  lemma {:induction false} FromDecimalOfDecimal(n: int)
    ensures FromDecimal(Decimal(n)) == n
    ensures n >= 0 ==> Decimal(n) != [] && Decimal(n)[0] != '-' as int
    decreases n < 0, if n < 0 then -n else n
  {
    if n < 0 {
      FromDecimalOfDecimal(-n);
      assert Decimal(n)[1..] == Decimal(-n);
    } else if n >= 10 {
      FromDecimalOfDecimal(n / 10);
      var s := Decimal(n);
      assert s[..|s| - 1] == Decimal(n / 10) && s[0] == Decimal(n / 10)[0];
    }
  }
}

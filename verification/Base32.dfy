/** The base-32 encoder of identifiers, written on 32-bit integers. */
module Base32 {
  import opened Bytes
  import opened Text

  const BASE32_LOWER := "0123456789abcdefghjkmnpqrstvwxyz"

  const WORD := 0x1_0000_0000

  /** The five bits of `value` above its lowest `shift`. */
  function DigitAt(value: nat, shift: nat): (d: nat)
    ensures d < 32
  {
    PowPositive(2, shift);
    value / Pow(2, shift) % 32
  }

  lemma {:induction false} PowPositive(base: nat, k: nat)
    requires base > 0
    ensures Pow(base, k) > 0
  {
    if k > 0 {
      PowPositive(base, k - 1);
    }
  }

  function SymbolCount(n: nat, length: nat): (m: nat)
    ensures m <= length && 5 * m <= 8 * n
    ensures m == length || 8 * n < 5 * m + 5
  {
    if length <= 8 * n / 5 then length else 8 * n / 5
  }

  /** The first big-endian 5-bit digits of the bytes, as many as fit and are asked for. */
  function Digits32(bytes: seq<byte>, length: nat): (r: seq<nat>)
    ensures |r| == SymbolCount(|bytes|, length)
  {
    seq(SymbolCount(|bytes|, length), k requires 0 <= k < SymbolCount(|bytes|, length) =>
      DigitAt(BigEndian(bytes), 8 * |bytes| - 5 * k - 5))
  }

  function Symbols(digits: seq<nat>): (s: string)
    requires forall d :: d in digits ==> d < 32
    ensures |s| == |digits|
  {
    seq(|digits|, i requires 0 <= i < |digits| => assert digits[i] in digits; BASE32_LOWER[digits[i]])
  }

  // ----- arithmetic -----

  lemma QuotientIs(x: nat, d: nat, q: nat, r: nat)
    requires d > 0 && x == q * d + r && r < d
    ensures x / d == q
  {
    MultiplesGrow(x / d, q, d);
    MultiplesGrow(q, x / d, d);
  }

  lemma MultiplesGrow(a: nat, b: nat, d: nat)
    ensures a < b ==> (a + 1) * d <= b * d
  {
  }

  lemma Scaled(v: nat, q: nat, p: nat, r: nat, base: nat, low: nat)
    requires v == q * p + r && r < p && low < base
    ensures v * base + low == q * (base * p) + (base * r + low)
    ensures base * r + low < base * p
  {
    assert v * base == (q * p) * base + r * base;
    assert (q * p) * base == q * (base * p);
    assert base * (r + 1) <= base * p;
  }

  /** One more byte at the end shifts every digit by eight bits. */
  lemma DigitShifts(value: nat, b: byte, shift: nat)
    ensures DigitAt(value * 256 + b, shift + 8) == DigitAt(value, shift)
  {
    PowPositive(2, shift);
    var p := Pow(2, shift);
    PowEight(shift);
    var q, r := value / p, value % p;
    Scaled(value, q, p, r, 256, b);
    QuotientIs(value * 256 + b, 256 * p, q, 256 * r + b);
  }

  lemma PowEight(k: nat)
    ensures Pow(2, k + 8) == 256 * Pow(2, k)
  {
    assert Pow(2, k + 2) == 2 * (2 * Pow(2, k));
    assert Pow(2, k + 4) == 2 * (2 * Pow(2, k + 2));
    assert Pow(2, k + 6) == 2 * (2 * Pow(2, k + 4));
    assert Pow(2, k + 8) == 2 * (2 * Pow(2, k + 6));
  }

  /** The low twelve bits survive the wrap to a 32-bit word. */
  lemma WrapKeepsDigits(value: nat, shift: nat)
    requires shift <= 7
    ensures DigitAt(value % WORD, shift) == DigitAt(value, shift)
  {
    SmallPowers();
    var p := Pow(2, shift);
    var t := 0x800_0000 / p;
    assert p * t == 0x800_0000;
    var q, r := value / WORD, value % WORD;
    var x, y := r / p, r % p;
    assert value == q * (p * t * 32) + (x * p + y);
    assert q * (p * t * 32) + (x * p + y) == (q * t * 32 + x) * p + y;
    QuotientIs(value, p, q * t * 32 + x, y);
    SameMod(q * t, x);
  }

  lemma SameMod(k: nat, x: nat)
    ensures (k * 32 + x) % 32 == x % 32
  {
  }

  lemma SmallPowers()
    ensures Pow(2, 0) == 1 && Pow(2, 1) == 2 && Pow(2, 2) == 4 && Pow(2, 3) == 8
    ensures Pow(2, 4) == 16 && Pow(2, 5) == 32 && Pow(2, 6) == 64 && Pow(2, 7) == 128
  {
  }

  // ----- the loop -----

  /** Shift left by eight and or in a byte, on a 32-bit word. */
  function PushByte(word: nat, b: byte): (r: nat)
    ensures r < WORD
  {
    (word * 256 + b) % WORD
  }

  lemma PushByteWraps(value: nat, b: byte)
    ensures PushByte(value % WORD, b) == (value * 256 + b) % WORD
  {
    var q, r := value / WORD, value % WORD;
    assert value * 256 + b == (r * 256 + b) + (256 * q) * WORD;
    DropWords(r * 256 + b, 256 * q);
  }

  lemma DropWords(x: nat, k: nat)
    ensures (x + k * WORD) % WORD == x % WORD
  {
    var q, r := x / WORD, x % WORD;
    assert x + k * WORD == (q + k) * WORD + r;
    QuotientIs(x + k * WORD, WORD, q + k, r);
  }

  /** Digits already emitted are digits of the longer string too. */
  lemma PrefixDigits(bytes: seq<byte>, n: nat, k: nat)
    requires n < |bytes| && 5 * k + 5 <= 8 * n
    ensures DigitAt(BigEndian(bytes[..n + 1]), 8 * (n + 1) - 5 * k - 5)
            == DigitAt(BigEndian(bytes[..n]), 8 * n - 5 * k - 5)
  {
    var s := bytes[..n + 1];
    assert s[..n] == bytes[..n];
    assert BigEndian(s) == BigEndian(bytes[..n]) * 256 + bytes[n];
    DigitShifts(BigEndian(bytes[..n]), bytes[n], 8 * n - 5 * k - 5);
  }

  method Encode(bytes: seq<byte>, length: nat) returns (out: string)
    ensures forall d :: d in Digits32(bytes, length) ==> d < 32
    ensures out == Symbols(Digits32(bytes, length))
  {
    var bits: nat, value: nat := 0, 0;
    ghost var digits: seq<nat> := [];
    out := "";
    var i := 0;
    while i < |bytes|
      invariant 0 <= i <= |bytes|
      invariant value == BigEndian(bytes[..i]) % WORD
      invariant bits == 8 * i - 5 * |digits| && |digits| <= length && (|digits| < length ==> bits < 5)
      invariant Emitted(bytes[..i], digits) && out == Symbols(digits)
    {
      value, bits, out, digits := EncodeByte(bytes, i, length, value, bits, out, digits);
      i := i + 1;
    }
    assert bytes[..i] == bytes;
    EmittedAll(bytes, length, digits);
  }

  /** The digits so far are the leading digits of the bytes so far. */
  ghost predicate Emitted(bytes: seq<byte>, digits: seq<nat>) {
    && 5 * |digits| <= 8 * |bytes|
    && forall k :: 0 <= k < |digits| ==> digits[k] == DigitAt(BigEndian(bytes), 8 * |bytes| - 5 * k - 5)
  }

  lemma EmittedAll(bytes: seq<byte>, length: nat, digits: seq<nat>)
    requires Emitted(bytes, digits) && |digits| <= length && (|digits| < length ==> 8 * |bytes| - 5 * |digits| < 5)
    ensures digits == Digits32(bytes, length)
  {
    assert |digits| == SymbolCount(|bytes|, length);
  }

  /** One turn of the outer loop: a byte in, and the digits it completes out. */
  method EncodeByte(bytes: seq<byte>, i: nat, length: nat, word: nat, pending: nat, soFar: string,
                    ghost before: seq<nat>)
      returns (value: nat, bits: nat, out: string, ghost digits: seq<nat>)
    requires i < |bytes| && word == BigEndian(bytes[..i]) % WORD
    requires |before| <= length && pending == 8 * i - 5 * |before| && (|before| < length ==> pending < 5)
    requires Emitted(bytes[..i], before) && soFar == Symbols(before)
    ensures value == BigEndian(bytes[..i + 1]) % WORD
    ensures |digits| <= length && bits == 8 * (i + 1) - 5 * |digits| && (|digits| < length ==> bits < 5)
    ensures Emitted(bytes[..i + 1], digits) && out == Symbols(digits)
  {
    hide DigitAt;
    ghost var now := bytes[..i + 1];
    assert now[..i] == bytes[..i];
    ghost var whole := BigEndian(now);
    assert whole == BigEndian(bytes[..i]) * 256 + bytes[i];
    PushByteWraps(BigEndian(bytes[..i]), bytes[i]);
    value := PushByte(word, bytes[i]);
    bits, out, digits := pending + 8, soFar, before;
    forall k | 0 <= k < |digits| ensures digits[k] == DigitAt(whole, 8 * (i + 1) - 5 * k - 5) {
      PrefixDigits(bytes, i, k);
    }
    while bits >= 5 && |out| < length
      invariant |digits| <= length && bits == 8 * (i + 1) - 5 * |digits| && (|digits| < length ==> bits <= 12)
      invariant Emitted(now, digits) && out == Symbols(digits)
      decreases bits
    {
      WrapKeepsDigits(whole, bits - 5);
      var digit := DigitAt(value, bits - 5);
      digits := digits + [digit];
      out := out + [BASE32_LOWER[digit]];
      bits := bits - 5;
    }
  }

  // ----- when nothing is lost -----

  /** Some bits of the last byte are never emitted unless the symbols take all of them. */
  predicate KeepsEveryBit(n: nat, length: nat) {
    n % 5 == 0 && 8 * n <= 5 * length
  }

  lemma {:induction false} BigEndianBound(bytes: seq<byte>)
    ensures BigEndian(bytes) < Pow(256, |bytes|)
  {
    if bytes != [] {
      BigEndianBound(bytes[..|bytes| - 1]);
    }
  }

  lemma {:induction false} BigEndianInjective(a: seq<byte>, b: seq<byte>)
    requires |a| == |b| && BigEndian(a) == BigEndian(b)
    ensures a == b
    decreases |a|
  {
    if a != [] {
      var n := |a| - 1;
      BigEndianInjective(a[..n], b[..n]);
      assert a == a[..n] + [a[n]] && b == b[..n] + [b[n]];
    }
  }

  lemma PowFive(k: nat)
    ensures Pow(2, k + 5) == 32 * Pow(2, k)
  {
    assert Pow(2, k + 2) == 2 * (2 * Pow(2, k));
    assert Pow(2, k + 4) == 2 * (2 * Pow(2, k + 2));
    assert Pow(2, k + 5) == 2 * Pow(2, k + 4);
  }

  lemma DigitOfQuotient(v: nat, shift: nat)
    ensures DigitAt(v, shift + 5) == DigitAt(v / 32, shift)
  {
    PowPositive(2, shift);
    PowFive(shift);
    var p := Pow(2, shift);
    var w := v / 32;
    var q, r := w / p, w % p;
    Scaled(w, q, p, r, 32, v % 32);
    assert v == w * 32 + v % 32;
    QuotientIs(v, 32 * p, q, 32 * r + v % 32);
  }

  /** Numbers below 32^m with the same m digits are the same number. */
  lemma {:induction false} DigitsDetermine(v: nat, w: nat, m: nat)
    requires v < Pow(32, m) && w < Pow(32, m)
    requires forall j: nat :: j < m ==> DigitAt(v, 5 * j) == DigitAt(w, 5 * j)
    ensures v == w
    decreases m
  {
    if m > 0 {
      assert DigitAt(v, 5 * 0) == DigitAt(w, 5 * 0);
      assert Pow(2, 0) == 1;
      assert v % 32 == w % 32;
      forall j: nat | j < m - 1 ensures DigitAt(v / 32, 5 * j) == DigitAt(w / 32, 5 * j) {
        assert DigitAt(v, 5 * (j + 1)) == DigitAt(w, 5 * (j + 1));
        DigitOfQuotient(v, 5 * j);
        DigitOfQuotient(w, 5 * j);
      }
      DigitsDetermine(v / 32, w / 32, m - 1);
    }
  }

  lemma {:induction false} SamePower(a: nat)
    ensures Pow(256, 5 * a) == Pow(32, 8 * a)
  {
    if a > 0 {
      SamePower(a - 1);
      var x, y := Pow(256, 5 * (a - 1)), Pow(32, 8 * (a - 1));
      assert Pow(256, 5 * (a - 1) + 1) == 256 * x;
      assert Pow(256, 5 * (a - 1) + 3) == 256 * (256 * (256 * x));
      assert Pow(256, 5 * a) == 256 * (256 * Pow(256, 5 * (a - 1) + 3));
      assert Pow(32, 8 * (a - 1) + 2) == 32 * (32 * y);
      assert Pow(32, 8 * (a - 1) + 4) == 32 * (32 * Pow(32, 8 * (a - 1) + 2));
      assert Pow(32, 8 * (a - 1) + 6) == 32 * (32 * Pow(32, 8 * (a - 1) + 4));
      assert Pow(32, 8 * a) == 32 * (32 * Pow(32, 8 * (a - 1) + 6));
    }
  }

  ghost predicate Distinguishes(n: nat, length: nat) {
    forall a: seq<byte>, b: seq<byte> :: |a| == n && |b| == n && Digits32(a, length) == Digits32(b, length) ==> a == b
  }

  lemma AllBitsFit(n: nat, length: nat)
    requires KeepsEveryBit(n, length)
    ensures var m := SymbolCount(n, length); 5 * m == 8 * n && n == 5 * (n / 5) && m == 8 * (n / 5)
  {
    var k := n / 5;
    assert n == 5 * k;
    QuotientIs(8 * n, 5, 8 * k, 0);
  }

  lemma NothingIsLost(a: seq<byte>, b: seq<byte>, length: nat)
    requires |a| == |b| && KeepsEveryBit(|a|, length) && Digits32(a, length) == Digits32(b, length)
    ensures a == b
  {
    hide DigitAt, Pow, BigEndian;
    var n := |a|;
    var m := SymbolCount(n, length);
    AllBitsFit(n, length);
    SamePower(n / 5);
    BigEndianBound(a);
    BigEndianBound(b);
    forall j: nat | j < m ensures DigitAt(BigEndian(a), 5 * j) == DigitAt(BigEndian(b), 5 * j) {
      var k := m - 1 - j;
      assert 8 * n - 5 * k - 5 == 5 * j;
      assert Digits32(a, length)[k] == Digits32(b, length)[k];
    }
    DigitsDetermine(BigEndian(a), BigEndian(b), m);
    BigEndianInjective(a, b);
  }

  lemma {:induction false} ZeroValue(n: nat)
    ensures BigEndian(seq(n, _ => 0)) == 0
  {
    var z: seq<byte> := seq(n, _ => 0);
    if n > 0 {
      assert z[..n - 1] == seq(n - 1, _ => 0);
      ZeroValue(n - 1);
    }
  }

  lemma LastBitIsLost(n: nat, length: nat)
    requires !KeepsEveryBit(n, length)
    ensures !Distinguishes(n, length)
  {
    var zero: seq<byte> := seq(n, _ => 0);
    var one: seq<byte> := zero[n - 1 := 1];
    ZeroValue(n);
    ZeroValue(n - 1);
    assert one[..n - 1] == seq(n - 1, _ => 0);
    assert BigEndian(one) == 1;
    var m := SymbolCount(n, length);
    assert 5 * m < 8 * n;
    forall k | 0 <= k < m ensures DigitAt(0, 8 * n - 5 * k - 5) == DigitAt(1, 8 * n - 5 * k - 5) {
      NoHighBits(8 * n - 5 * k - 5);
    }
    assert Digits32(zero, length) == Digits32(one, length);
    assert zero[n - 1] != one[n - 1];
  }

  lemma NoHighBits(shift: nat)
    requires shift > 0
    ensures DigitAt(0, shift) == 0 && DigitAt(1, shift) == 0
  {
    PowPositive(2, shift - 1);
    assert Pow(2, shift) >= 2;
    QuotientIs(0, Pow(2, shift), 0, 0);
    QuotientIs(1, Pow(2, shift), 0, 1);
  }

  /**
   * Encoding tells any two n-byte strings apart exactly when n is a multiple of five and
   * the length allows for all 8n bits; so for the ten bytes of a username, and not for
   * the seventeen of a connection id.
   */
  lemma InjectiveIff(n: nat, length: nat)
    ensures Distinguishes(n, length) <==> KeepsEveryBit(n, length)
  {
    if KeepsEveryBit(n, length) {
      forall a: seq<byte>, b: seq<byte> | |a| == n && |b| == n && Digits32(a, length) == Digits32(b, length)
        ensures a == b {
        NothingIsLost(a, b, length);
      }
    } else {
      LastBitIsLost(n, length);
    }
  }

  /** Digits stand for 0 to 9 and then the letters in order, but for i, l, o and u. */
  lemma SymbolIs(d: nat)
    requires d < 32
    ensures var c := Symbols([d])[0] as int;
            c == (if d < 10 then '0' as int + d else if d < 18 then 'a' as int + (d - 10)
                  else if d < 20 then 'j' as int + (d - 18) else if d < 22 then 'm' as int + (d - 20)
                  else if d < 27 then 'p' as int + (d - 22) else 'v' as int + (d - 27))
  {
    assert |BASE32_LOWER| == 32;
  }

  /** Distinct digits are written as distinct symbols. */
  lemma SymbolsInjective(a: seq<nat>, b: seq<nat>)
    requires forall d :: d in a ==> d < 32
    requires forall d :: d in b ==> d < 32
    requires Symbols(a) == Symbols(b)
    ensures a == b
  {
    assert |Symbols(a)| == |Symbols(b)|;
    forall i | 0 <= i < |a| ensures a[i] == b[i] {
      assert Symbols(a)[i] == Symbols(b)[i];
      assert a[i] in a && b[i] in b;
      SymbolStandsFor(a[i]);
      SymbolStandsFor(b[i]);
    }
  }

  /** The digit a symbol stands for; i, l, o and u are not used. */
  function SymbolValue(c: char): int {
    var n := c as int;
    if c <= '9' then n - 48
    else if c <= 'h' then n - 87
    else if c <= 'k' then n - 88
    else if c <= 'n' then n - 89
    else if c <= 't' then n - 90
    else n - 91
  }

  lemma SymbolStandsFor(d: nat)
    requires d < 32
    ensures SymbolValue(BASE32_LOWER[d]) == d
  {
  }
}

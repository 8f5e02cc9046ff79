/** Strings as the source handles them: splitting, joining, and numerals in any base. */
module Text {
  import opened Bytes

  /** `s.split(sep)`: always at least one part, and no part holds the separator. */
  function Split(s: string, sep: char): (parts: seq<string>)
    ensures |parts| > 0
    ensures forall p :: p in parts ==> sep !in p
    decreases |s|
  {
    var i := IndexOf(s, sep);
    if i == |s| then [s] else [s[..i]] + Split(s[i + 1..], sep)
  }

  /** `parts.join(sep)`. */
  function Join(parts: seq<string>, sep: char): string {
    if parts == [] then ""
    else if |parts| == 1 then parts[0]
    else parts[0] + [sep] + Join(parts[1..], sep)
  }

  lemma SplitAtHead(p: string, rest: string, sep: char)
    requires sep !in p
    ensures Split(p + [sep] + rest, sep) == [p] + Split(rest, sep)
  {
    var s := p + [sep] + rest;
    IndexOfIs(s, sep, 0, |p|);
    assert s[..|p|] == p && s[|p| + 1..] == rest;
  }

  lemma SplitNone(p: string, sep: char)
    requires sep !in p
    ensures Split(p, sep) == [p]
  {
    IndexOfIs(p, sep, 0, |p|);
  }

  /** Joining separator-free parts loses nothing. */
  lemma {:induction false} SplitJoin(parts: seq<string>, sep: char)
    requires parts != []
    requires forall p :: p in parts ==> sep !in p
    ensures Split(Join(parts, sep), sep) == parts
  {
    if |parts| == 1 {
      SplitNone(parts[0], sep);
    } else {
      SplitJoin(parts[1..], sep);
      SplitAtHead(parts[0], Join(parts[1..], sep), sep);
    }
  }

  lemma JoinInjective(a: seq<string>, b: seq<string>, sep: char)
    requires a != [] && b != []
    requires forall p :: p in a ==> sep !in p
    requires forall p :: p in b ==> sep !in p
    requires Join(a, sep) == Join(b, sep)
    ensures a == b
  {
    SplitJoin(a, sep);
    SplitJoin(b, sep);
  }

  /** Splitting off the last part. */
  lemma {:induction false} SplitLast(a: string, b: string, sep: char)
    requires sep !in b
    ensures Split(a + [sep] + b, sep) == Split(a, sep) + [b]
    decreases |a|
  {
    var i := IndexOf(a, sep);
    if i == |a| {
      SplitAtHead(a, b, sep);
      SplitNone(b, sep);
    } else {
      var rest := a[i + 1..];
      SplitLast(rest, b, sep);
      hide Split, IndexOf;
      assert a == a[..i] + [sep] + rest;
      assert a + [sep] + b == a[..i] + [sep] + (rest + [sep] + b);
      SplitAtHead(a[..i], rest, sep);
      SplitAtHead(a[..i], rest + [sep] + b, sep);
      assert [a[..i]] + (Split(rest, sep) + [b]) == [a[..i]] + Split(rest, sep) + [b];
    }
  }

  /** Position of the last `c`; -1 when there is none. */
  function LastIndexOf(s: string, c: char): (i: int)
    ensures -1 <= i < |s|
    ensures i >= 0 ==> s[i] == c
    ensures forall k :: i < k < |s| ==> s[k] != c
  {
    if s == "" then -1
    else if s[|s| - 1] == c then |s| - 1
    else LastIndexOf(s[..|s| - 1], c)
  }

  // ----- numerals -----

  const ZERO := 48

  function CodeUnits(s: string): (r: seq<int>)
    ensures |r| == |s|
  {
    seq(|s|, i requires 0 <= i < |s| => s[i] as int)
  }

  predicate IsAscii(s: seq<int>) {
    forall i :: 0 <= i < |s| ==> 0 <= s[i] < 128
  }

  predicate IsNumeral(base: int, s: seq<int>) {
    s != [] && forall i :: 0 <= i < |s| ==> ZERO <= s[i] < ZERO + base
  }

  /** Positional value of a digit string, most significant digit first. */
  function NumeralValue(base: nat, s: seq<int>): (v: nat)
    requires IsNumeral(base, s) || s == []
  {
    if s == [] then 0
    else NumeralValue(base, s[..|s| - 1]) * base + (s[|s| - 1] - ZERO)
  }

  /** `n.toString(base)`. */
  function Digits(base: nat, n: nat): (s: seq<int>)
    requires 2 <= base <= 10
    ensures IsNumeral(base, s)
    decreases n
  {
    if n < base then [ZERO + n] else Digits(base, n / base) + [ZERO + n % base]
  }

  lemma {:induction false} DigitsValue(base: nat, n: nat)
    requires 2 <= base <= 10
    ensures NumeralValue(base, Digits(base, n)) == n
    decreases n
  {
    if n < base {
      assert Digits(base, n)[..0] == [];
    } else {
      var q, d := n / base, n % base;
      assert q < n && q * base + d == n by { Divide(base, n); }
      DigitsValue(base, q);
      var s := Digits(base, q);
      assert Digits(base, n) == s + [ZERO + d];
      NumeralSnoc(base, s, ZERO + d);
    }
  }

  lemma Divide(base: nat, n: nat)
    requires 2 <= base <= n
    ensures 0 < n / base < n
    ensures (n / base) * base + n % base == n
  {
  }

  lemma NumeralSnoc(base: nat, s: seq<int>, d: int)
    requires IsNumeral(base, s + [d])
    ensures s == [] || IsNumeral(base, s)
    ensures NumeralValue(base, s + [d]) == NumeralValue(base, s) * base + (d - ZERO)
  {
    assert (s + [d])[..|s|] == s;
    assert forall i :: 0 <= i < |s| ==> s[i] == (s + [d])[i];
    assert (s + [d])[|s|] == d;
  }

  function Zeros(n: nat): (s: seq<int>)
    ensures |s| == n
  {
    seq(n, _ => ZERO)
  }

  /** Leading zeros do not change the value. */
  lemma {:induction false} LeadingZeros(base: nat, n: nat, s: seq<int>)
    requires 2 <= base <= 10
    requires IsNumeral(base, s)
    ensures IsNumeral(base, Zeros(n) + s)
    ensures NumeralValue(base, Zeros(n) + s) == NumeralValue(base, s)
    decreases |s|, n
  {
    var t := Zeros(n) + s;
    assert t[..|t| - 1] == Zeros(n) + s[..|s| - 1];
    if |s| > 1 {
      LeadingZeros(base, n, s[..|s| - 1]);
    } else {
      OnlyZeros(base, n);
      assert s[..0] == [];
      assert Zeros(n) + s[..0] == Zeros(n);
    }
  }

  lemma {:induction false} OnlyZeros(base: nat, n: nat)
    requires 2 <= base <= 10
    ensures Zeros(n) == [] || IsNumeral(base, Zeros(n))
    ensures NumeralValue(base, Zeros(n)) == 0
  {
    if n > 0 {
      OnlyZeros(base, n - 1);
      assert Zeros(n)[..n - 1] == Zeros(n - 1);
    }
  }

  function Pow(base: nat, k: nat): (p: nat) {
    if k == 0 then 1 else base * Pow(base, k - 1)
  }

  /** How many digits a number needs. */
  lemma {:induction false} DigitsFit(base: nat, n: nat, k: nat)
    requires 2 <= base <= 10
    requires k >= 1
    ensures n < Pow(base, k) ==> |Digits(base, n)| <= k
    decreases k
  {
    if k == 1 {
      assert Pow(base, 1) == base * Pow(base, 0) == base;
    } else if base <= n < Pow(base, k) {
      assert n / base < Pow(base, k - 1);
      DigitsFit(base, n / base, k - 1);
    }
  }

  // ----- JavaScript strings -----

  /** The length of a JavaScript string: characters beyond the basic plane count twice. */
  function Length16(s: string): (n: nat)
    ensures n >= |s|
  {
    if s == "" then 0 else (if s[0] < '\U{10000}' then 1 else 2) + Length16(s[1..])
  }

  lemma {:induction false} Length16Concat(a: string, b: string)
    ensures Length16(a + b) == Length16(a) + Length16(b)
  {
    if a == "" {
      assert a + b == b;
    } else {
      assert (a + b)[1..] == a[1..] + b;
      Length16Concat(a[1..], b);
    }
  }

  /** `s.slice(0, n)` as it is encoded: half a pair at the cut becomes the replacement character. */
  function FirstUnits(s: string, n: nat): string {
    if s == "" || n == 0 then ""
    else if s[0] < '\U{10000}' then [s[0]] + FirstUnits(s[1..], n - 1)
    else if n == 1 then "\U{FFFD}"
    else [s[0]] + FirstUnits(s[1..], n - 2)
  }

  lemma {:induction false} FirstUnitsOfShort(s: string, n: nat)
    requires Length16(s) <= n
    ensures FirstUnits(s, n) == s
  {
    if s != "" {
      FirstUnitsOfShort(s[1..], n - if s[0] < '\U{10000}' then 1 else 2);
    }
  }

  /** The cut keeps what fits whole, and of a pair that it goes through the replacement character. */
  lemma {:induction false} FirstUnitsIs(kept: string, rest: string)
    ensures FirstUnits(kept + rest, Length16(kept)) == kept
    ensures rest != "" && (rest[0] as int) >= 65536 ==>
              FirstUnits(kept + rest, Length16(kept) + 1) == kept + [65533 as char]
  {
    if kept == "" {
      assert kept + rest == rest;
    } else {
      assert (kept + rest)[1..] == kept[1..] + rest;
      FirstUnitsIs(kept[1..], rest);
    }
  }

  /** A numeral is one or more digits of its base. */
  lemma NumeralIs(base: int, s: seq<int>)
    ensures IsNumeral(base, s) <==> |s| >= 1 && forall x :: x in s ==> 48 <= x <= 47 + base
  {
    forall i | 0 <= i < |s| ensures s[i] in s {
    }
    if s != [] && forall x :: x in s ==> 48 <= x <= 47 + base {
      assert forall i :: 0 <= i < |s| ==> 48 <= s[i] <= 47 + base;
    }
  }
}

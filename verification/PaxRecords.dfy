/** Writing PAX records, and reading back what was written. */
module PaxRecords {
  import opened Bytes
  import opened Text
  import opened TarHeader

  // ----- ASCII text -----

  predicate AsciiText(s: string) {
    forall i :: 0 <= i < |s| ==> (s[i] as int) < 128
  }

  function AsciiBytes(s: string): (r: seq<byte>)
    requires AsciiText(s)
    ensures |r| == |s|
  {
    seq(|s|, i requires 0 <= i < |s| => s[i] as int)
  }

  function AsciiChars(b: seq<byte>): (s: string)
    requires IsAscii(b)
    ensures |s| == |b|
  {
    seq(|b|, i requires 0 <= i < |b| => b[i] as char)
  }

  /** UTF-8 agrees with ASCII on ASCII bytes. */
  ghost predicate AsciiExact(decode: Decoder) {
    forall b: seq<byte> :: IsAscii(b) ==> decode(b) == AsciiChars(b)
  }

  lemma AsciiRoundTrip(decode: Decoder, s: string)
    requires AsciiExact(decode) && AsciiText(s)
    ensures decode(AsciiBytes(s)) == s
  {
    assert AsciiChars(AsciiBytes(s)) == s;
  }

  function Numeral(n: nat): (s: string)
    ensures AsciiText(s) && s != ""
    ensures CodeUnits(s) == Digits(10, n)
  {
    var d := Digits(10, n);
    var s := seq(|d|, i requires 0 <= i < |d| => d[i] as char);
    assert CodeUnits(s) == d;
    s
  }

  // ----- the writer -----

  function RecordBody(key: string, value: string): string {
    " " + key + "=" + value + "\n"
  }

  lemma {:induction false} Length16OfAscii(s: string)
    requires AsciiText(s)
    ensures Length16(s) == |s|
  {
    if s != "" {
      Length16OfAscii(s[1..]);
    }
  }

  /** The text states its own length. */
  predicate IsRecord(text: string, key: string, value: string) {
    text == Numeral(Length16(text)) + RecordBody(key, value)
  }

  lemma {:induction false} NumeralIsShort(n: nat)
    requires n > 0
    ensures |Digits(10, n)| <= n / 2 + 1
    decreases n
  {
    if n >= 10 {
      NumeralIsShort(n / 10);
    }
  }

  /** Counting up by one adds at most one digit. */
  lemma {:induction false} NumeralGrows(n: nat)
    ensures |Digits(10, n)| <= |Digits(10, n + 1)| <= |Digits(10, n)| + 1
    decreases n
  {
    if n >= 10 {
      NumeralGrows(n / 10);
      assert (n + 1) / 10 == n / 10 || (n + 1) / 10 == n / 10 + 1;
    }
  }

  /** The length search ends, at the smallest length that counts itself. */
  method WriteRecord(key: string, value: string) returns (text: string)
    ensures IsRecord(text, key, value)
    ensures var body := Length16(RecordBody(key, value));
            forall n :: body < n < Length16(text) ==> |Numeral(n)| + body != n
  {
    var body := RecordBody(key, value);
    var length := Length16(body) + 1;
    NumeralThenBody(length, body);
    while Length16(Numeral(length) + body) != length
      invariant Length16(Numeral(length) + body) == |Numeral(length)| + Length16(body)
      invariant Length16(body) < length <= |Numeral(length)| + Length16(body)
      invariant forall n :: Length16(body) < n < length ==> |Numeral(n)| + Length16(body) != n
      decreases 2 * Length16(body) + 4 - length
    {
      NumeralIsShort(length);
      NumeralGrows(length);
      length := length + 1;
      NumeralThenBody(length, body);
    }
    text := Numeral(length) + body;
  }

  lemma NumeralThenBody(n: nat, body: string)
    ensures Length16(Numeral(n) + body) == |Numeral(n)| + Length16(body)
  {
    Length16Concat(Numeral(n), body);
    Length16OfAscii(Numeral(n));
  }

  // ----- the round trip -----

  datatype Field = Field(key: string, value: string)

  predicate Writable(f: Field) {
    AsciiText(f.key) && AsciiText(f.value) && f.key != "" && '=' !in f.key
  }

  function LastWins(fields: seq<Field>, records: Records := map[]): Records {
    if fields == [] then records else LastWins(fields[1..], records[fields[0].key := fields[0].value])
  }

  /** The last field with a key is the one that counts. */
  lemma {:induction false} LastWinsValue(fields: seq<Field>, records: Records, key: string)
    ensures var all := LastWins(fields, records);
            if exists i :: 0 <= i < |fields| && fields[i].key == key
            then exists i :: 0 <= i < |fields| && fields[i].key == key && key in all && all[key] == fields[i].value
                             && forall j :: i < j < |fields| ==> fields[j].key != key
            else (key in all <==> key in records) && (key in all ==> all[key] == records[key])
    decreases |fields|
  {
    if fields != [] {
      var rest := fields[1..];
      LastWinsValue(rest, records[fields[0].key := fields[0].value], key);
      if i :| 0 <= i < |rest| && rest[i].key == key && forall j :: i < j < |rest| ==> rest[j].key != key {
        assert fields[i + 1] == rest[i];
        assert forall j :: i + 1 < j < |fields| ==> fields[j] == rest[j - 1];
      } else {
        assert forall j :: 1 <= j < |fields| ==> fields[j] == rest[j - 1];
      }
    }
  }

  ghost predicate AreRecords(texts: seq<string>, fields: seq<Field>) {
    |texts| == |fields| && forall i :: 0 <= i < |texts| ==>
      Writable(fields[i]) && IsRecord(texts[i], fields[i].key, fields[i].value)
  }

  lemma RecordIsAscii(text: string, f: Field)
    requires Writable(f) && IsRecord(text, f.key, f.value)
    ensures AsciiText(text)
  {
    assert AsciiText(RecordBody(f.key, f.value));
  }

  /** One written record, at the head of any bytes, is read back whole. */
  lemma RecordReadsBack(decode: Decoder, text: string, f: Field, rest: seq<byte>)
    requires AsciiExact(decode) && Writable(f) && IsRecord(text, f.key, f.value)
    ensures AsciiText(text)
    ensures ReadPaxRecord(decode, AsciiBytes(text) + rest) == Some(PaxRecord(|text|, f.key, f.value))
  {
    hide AsciiExact, IsRecord, Numeral, IsNumeral, NumeralValue, IndexOf;
    RecordIsAscii(text, f);
    RecordLength(text, f, rest);
    RecordContent(text, f, rest);
    var content := f.key + "=" + f.value;
    AsciiRoundTrip(decode, content);
    KeyAndValue(f);
  }

  lemma KeyAndValue(f: Field)
    requires Writable(f)
    ensures var content := f.key + "=" + f.value;
            && IndexOf(content, '=') == |f.key|
            && content[..|f.key|] == f.key && content[|f.key| + 1..] == f.value
  {
    IndexOfIs(f.key + "=" + f.value, '=', 0, |f.key|);
  }

  lemma WritableIsAscii(f: Field)
    requires Writable(f)
    ensures AsciiText(f.key) && AsciiText(f.value)
  {
  }

  lemma TextLayout(text: string, f: Field)
    requires IsRecord(text, f.key, f.value) && AsciiText(text)
    ensures text == Numeral(|text|) + " " + (f.key + "=" + f.value) + "\n"
  {
    hide Numeral;
    Length16OfAscii(text);
    assert RecordBody(f.key, f.value) == " " + (f.key + "=" + f.value) + "\n";
  }

  lemma RecordContent(text: string, f: Field, rest: seq<byte>)
    requires Writable(f) && IsRecord(text, f.key, f.value) && AsciiText(text)
    ensures var body := AsciiBytes(text) + rest; var space := |Numeral(|text|)|; var content := f.key + "=" + f.value;
            && AsciiText(content) && space < |text| - 1
            && body[|text| - 1] == 0x0a && body[space + 1..|text| - 1] == AsciiBytes(content)
  {
    hide IsRecord, Numeral, Writable;
    WritableIsAscii(f);
    TextLayout(text, f);
    var body, number, content := AsciiBytes(text) + rest, Numeral(|text|), f.key + "=" + f.value;
    var n := |number| + 1;
    assert forall i :: 0 <= i < |content| ==> content[i] == text[n + i];
    assert |text| - 1 == n + |content|;
  }

  lemma RecordLength(text: string, f: Field, rest: seq<byte>)
    requires Writable(f) && IsRecord(text, f.key, f.value) && AsciiText(text)
    ensures var body := AsciiBytes(text) + rest; var space := IndexOf(body, 0x20);
            && space == |Numeral(|text|)| && space < |text| - 1
            && IsNumeral(10, body[..space]) && NumeralValue(10, body[..space]) == |text|
  {
    Length16OfAscii(text);
    var body := AsciiBytes(text) + rest;
    var number := Numeral(|text|);
    var digits := CodeUnits(number);
    DigitsValue(10, |text|);
    assert body[..|number|] == digits;
    assert body[|number|] == 0x20;
    assert forall k :: 0 <= k < |number| ==> body[k] == digits[k];
    IndexOfIs(body, 0x20, 0, |number|);
  }

  lemma BytesConcat(a: string, b: string)
    requires AsciiText(a) && AsciiText(b)
    ensures AsciiText(a + b)
    ensures AsciiBytes(a + b) == AsciiBytes(a) + AsciiBytes(b)
    ensures (AsciiBytes(a) + AsciiBytes(b))[|a|..] == AsciiBytes(b)
  {
  }

  /** Written records, one after another, are read back as the last value of each key. */
  lemma {:induction false} RecordsReadBack(decode: Decoder, texts: seq<string>, fields: seq<Field>, records: Records)
    requires AsciiExact(decode) && AreRecords(texts, fields)
    ensures AsciiText(Flatten(texts))
    ensures ParsePax(decode, AsciiBytes(Flatten(texts)), records) == Some(LastWins(fields, records))
    decreases |texts|
  {
    hide IsRecord, AsciiExact, ReadPaxRecord, Writable;
    if texts != [] {
      var text, f, rest := texts[0], fields[0], Flatten(texts[1..]);
      assert AreRecords(texts[1..], fields[1..]);
      RecordsReadBack(decode, texts[1..], fields[1..], records[f.key := f.value]);
      RecordIsAscii(text, f);
      RecordReadsBack(decode, text, f, AsciiBytes(rest));
      BytesConcat(text, rest);
      assert Flatten(texts) == text + rest;
    }
  }

  // ----- records that are not ASCII -----

  /** One character in UTF-8, section 3 of RFC 3629. */
  function Utf8Char(c: char): (b: seq<byte>)
    ensures (c as int) < 128 ==> b == [c as int]
    ensures (c as int) >= 128 ==> |b| > (if c < '\U{10000}' then 1 else 2)
  {
    var n := c as int;
    if n < 0x80 then [n]
    else if n < 0x800 then [0xC0 + n / 0x40, 0x80 + n % 0x40]
    else if n < 0x10000 then [0xE0 + n / 0x1000, 0x80 + n / 0x40 % 0x40, 0x80 + n % 0x40]
    else [0xF0 + n / 0x40000, 0x80 + n / 0x1000 % 0x40, 0x80 + n / 0x40 % 0x40, 0x80 + n % 0x40]
  }

  /** The code point that one to four bytes stand for. */
  function CodePoint(b: seq<int>): int
    requires 1 <= |b| <= 4
  {
    match |b|
    case 1 => b[0]
    case 2 => (b[0] - 192) * 64 + (b[1] - 128)
    case 3 => (b[0] - 224) * 4096 + (b[1] - 128) * 64 + (b[2] - 128)
    case _ => (b[0] - 240) * 262144 + (b[1] - 128) * 4096 + (b[2] - 128) * 64 + (b[3] - 128)
  }

  /** The bytes stand for the character, are as few as can be, and only the first is no continuation. */
  lemma Utf8CharIs(c: char)
    ensures var b := Utf8Char(c); var n := c as int;
            && |b| == (if n < 128 then 1 else if n < 2048 then 2 else if n < 65536 then 3 else 4)
            && CodePoint(b) == n
            && (forall i :: 1 <= i < |b| ==> 128 <= b[i] < 192)
            && (|b| == 1 ==> b[0] < 128) && (|b| == 2 ==> 194 <= b[0] < 224)
            && (|b| == 3 ==> 224 <= b[0] < 240) && (|b| == 4 ==> 240 <= b[0] < 245)
  {
    var n := c as int;
    if n >= 65536 {
      assert n / 64 == n / 4096 * 64 + n / 64 % 64;
      assert n / 4096 == n / 262144 * 64 + n / 4096 % 64;
    } else if n >= 2048 {
      assert n / 64 == n / 4096 * 64 + n / 64 % 64;
    }
  }

  function Utf8(s: string): seq<byte> {
    if s == "" then [] else Utf8Char(s[0]) + Utf8(s[1..])
  }

  /** UTF-8 takes at least as many bytes as UTF-16 takes units, and as many only for ASCII. */
  lemma {:induction false} Utf8Length(s: string)
    ensures if AsciiText(s) then Utf8(s) == AsciiBytes(s) else |Utf8(s)| > Length16(s)
    ensures |Utf8(s)| >= Length16(s)
  {
    hide Utf8Char;
    if s != "" {
      var rest := s[1..];
      Utf8Length(rest);
      if AsciiText(s) {
        assert AsciiBytes(s) == [s[0] as int] + AsciiBytes(rest);
      } else if (s[0] as int) < 128 {
        assert !AsciiText(rest);
      }
    }
  }

  lemma {:induction false} Utf8Concat(a: string, b: string)
    ensures Utf8(a + b) == Utf8(a) + Utf8(b)
  {
    if a == "" {
      assert a + b == b;
    } else {
      assert (a + b)[1..] == a[1..] + b;
      Utf8Concat(a[1..], b);
    }
  }

  lemma NumeralThenBlank(n: nat, tail: seq<byte>)
    ensures var body: seq<byte> := CodeUnits(Numeral(n)) + [0x20] + tail; var space := IndexOf(body, 0x20);
            space < |body| && IsNumeral(10, body[..space]) && NumeralValue(10, body[..space]) == n
  {
    hide Numeral, IndexOf;
    var number: seq<byte> := CodeUnits(Numeral(n));
    var body := number + [0x20] + tail;
    DigitsValue(10, n);
    assert body[..|number|] == number && body[|number|] == 0x20;
    assert forall k :: 0 <= k < |number| ==> body[k] == number[k];
    IndexOfIs(body, 0x20, 0, |number|);
  }

  /** Whatever a record holds, its bytes begin with the length it states, and a blank. */
  lemma StatedLength(text: string, key: string, value: string, rest: seq<byte>)
    requires IsRecord(text, key, value)
    ensures var body := Utf8(text) + rest; var space := IndexOf(body, 0x20);
            && space < |body| && IsNumeral(10, body[..space])
            && NumeralValue(10, body[..space]) == Length16(text)
  {
    hide IndexOf, IsNumeral, NumeralValue, Numeral, CodeUnits, Length16, Utf8, Utf8Char;
    var n := Length16(text);
    var number, tail := Numeral(n), key + "=" + value + "\n";
    assert text == number + (" " + tail);
    Utf8Concat(number, " " + tail);
    Utf8Concat(" ", tail);
    Utf8OfAscii(number);
    Utf8OfAscii(" ");
    assert Utf8(text) + rest == CodeUnits(number) + [0x20] + (Utf8(tail) + rest);
    NumeralThenBlank(n, Utf8(tail) + rest);
  }

  lemma Utf8OfAscii(s: string)
    requires AsciiText(s)
    ensures Utf8(s) == CodeUnits(s) == AsciiBytes(s)
  {
    Utf8Length(s);
  }

  /** A written record, as UTF-8 at the head of any bytes, is read back whole if and only if it is ASCII. */
  lemma RecordReadsBackIff(decode: Decoder, text: string, f: Field, rest: seq<byte>)
    requires AsciiExact(decode) && f.key != "" && '=' !in f.key && IsRecord(text, f.key, f.value)
    ensures ReadPaxRecord(decode, Utf8(text) + rest) == Some(PaxRecord(|Utf8(text)|, f.key, f.value))
            <==> AsciiText(f.key) && AsciiText(f.value)
  {
    hide AsciiExact, IsNumeral, NumeralValue, IndexOf, Utf8, Length16;
    Utf8Length(text);
    RecordIsAsciiIff(text, f);
    if AsciiText(text) {
      hide IsRecord;
      RecordReadsBack(decode, text, f, rest);
    } else {
      StatedLength(text, f.key, f.value, rest);
    }
  }

  lemma RecordIsAsciiIff(text: string, f: Field)
    requires IsRecord(text, f.key, f.value)
    ensures AsciiText(text) <==> AsciiText(f.key) && AsciiText(f.value)
  {
    hide Numeral, Length16;
    var number := Numeral(Length16(text));
    assert text == number + " " + f.key + "=" + f.value + "\n";
    var k := |number| + 1;
    var v := k + |f.key| + 1;
    assert forall i :: 0 <= i < |f.key| ==> f.key[i] == text[k + i];
    assert forall i :: 0 <= i < |f.value| ==> f.value[i] == text[v + i];
  }

  /** The path "é": its record states nine units and takes ten bytes, so that its ninth is no newline. */
  lemma AccentedRecordIsRefused(decode: Decoder)
    ensures IsRecord("9 path=\U{E9}\n", "path", "\U{E9}")
    ensures ReadPaxRecord(decode, Utf8("9 path=\U{E9}\n")) == None
  {
    hide Utf8, Length16, Utf8Char, Numeral;
    var head, text := "9 path=", "9 path=\U{E9}\n";
    assert text == head + ("\U{E9}" + "\n");
    AccentedLength(head, text);
    AccentedBytes(head, text);
    NumeralNine();
    assert text == "9" + RecordBody("path", "\U{E9}");
    var body := Utf8(text);
    IndexOfIs(body, 0x20, 0, 1);
    assert body[..1] == [57];
  }

  lemma NumeralNine()
    ensures Numeral(9) == "9" && IsNumeral(10, [57]) && NumeralValue(10, [57]) == 9
  {
    assert CodeUnits(Numeral(9)) == [ZERO + 9] && [57][..0] == [];
  }

  lemma AccentedLength(head: string, text: string)
    requires AsciiText(head) && |head| == 7 && text == head + ("\U{E9}" + "\n")
    ensures Length16(text) == 9
  {
    Length16Concat(head, "\U{E9}" + "\n");
    Length16Concat("\U{E9}", "\n");
    Length16OfAscii(head);
  }

  lemma AccentedBytes(head: string, text: string)
    requires AsciiText(head) && |head| == 7 && text == head + ("\U{E9}" + "\n")
    ensures Utf8(text) == AsciiBytes(head) + [0xC3, 0xA9, 0x0A]
  {
    Utf8Concat(head, "\U{E9}" + "\n");
    Utf8Concat("\U{E9}", "\n");
    Utf8OfAscii(head);
    Utf8OfAscii("\n");
    assert "\U{E9}"[1..] == "";
  }
}

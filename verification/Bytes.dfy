/** Bytes, optional values and concatenation, shared by every component. */
module Bytes {

  type byte = b: int | 0 <= b < 256

  datatype Option<+T> = None | Some(value: T)

  /** Node's `Buffer.toString('utf8')`. The models take it as a parameter. */
  type Decoder = seq<byte> -> string

  function Flatten<T>(parts: seq<seq<T>>): seq<T> {
    if parts == [] then [] else parts[0] + Flatten(parts[1..])
  }

  lemma Associative<T>(a: seq<T>, b: seq<T>, c: seq<T>)
    ensures a + (b + c) == a + b + c
  {
  }

  lemma {:induction false} FlattenConcat<T>(a: seq<seq<T>>, b: seq<seq<T>>)
    ensures Flatten(a + b) == Flatten(a) + Flatten(b)
  {
    if a == [] {
      assert a + b == b;
    } else {
      var c := a + b;
      assert c[0] == a[0] && c[1..] == a[1..] + b;
      FlattenConcat(a[1..], b);
      Associative(a[0], Flatten(a[1..]), Flatten(b));
    }
  }

  lemma FlattenSnoc<T>(a: seq<seq<T>>, x: seq<T>)
    ensures Flatten(a + [x]) == Flatten(a) + x
  {
    FlattenConcat(a, [x]);
  }

  /** Position of the first `b` at or after `from`; `|s|` when there is none. */
  function IndexOf<T(==)>(s: seq<T>, b: T, from: nat := 0): (i: nat)
    requires from <= |s|
    ensures from <= i <= |s|
    ensures i < |s| ==> s[i] == b
    ensures forall k :: from <= k < i ==> s[k] != b
    decreases |s| - from
  {
    if from == |s| || s[from] == b then from else IndexOf(s, b, from + 1)
  }

  /** The first position is unique, so any witness of it is the result. */
  lemma IndexOfIs<T>(s: seq<T>, b: T, from: nat, i: nat)
    requires from <= i <= |s|
    requires i < |s| ==> s[i] == b
    requires forall k :: from <= k < i ==> s[k] != b
    ensures IndexOf(s, b, from) == i
  {
  }

  function UpTo<T(==)>(s: seq<T>, b: T): (r: seq<T>)
    ensures b !in r
  {
    s[..IndexOf(s, b)]
  }

  /** Value of a big-endian byte string. */
  function BigEndian(s: seq<byte>): nat {
    if s == [] then 0 else BigEndian(s[..|s| - 1]) * 256 + s[|s| - 1]
  }
}

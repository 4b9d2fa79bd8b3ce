/** The small part of the JavaScript runtime that the bootstrap code leans on:
    thrown errors, `undefined`-or-value, bytes, ASCII case mapping, decimal
    rendering, and the order in which an ordinary object lists its own keys.
    A JavaScript string is modelled as a `string`, one `char` per UTF-16 code unit. */
module Js {

  type byte = x: int | 0 <= x < 256

  /** What a throw carries: an error of one of the classes the bootstrap
      code throws, or a thrown `null` or `undefined`, which has no
      properties at all. */
  datatype Error =
    | TypeError(message: string)
    | PlainError(message: string)
    | RangeError(message: string)
    | Nullish

  /** `None` is JavaScript's `undefined`. */
  datatype Option<+T> = None | Some(value: T)

  /** Either the value an operation returns or the error it throws. */
  datatype Result<+T> = Success(value: T) | Failure(error: Error) {
    predicate IsFailure() { Failure? }

    function PropagateFailure<U>(): Result<U>
      requires Failure?
    {
      Failure(error)
    }

    function Extract(): T
      requires Success?
    {
      value
    }
  }

  // ---------------------------------------------------------------------
  // Case mapping

  predicate IsUpperAscii(c: char) { 'A' <= c <= 'Z' }

  predicate IsLowerAscii(c: char) { 'a' <= c <= 'z' }

  /** `String.prototype.toLowerCase` on one character. Only ASCII letters and
      KELVIN SIGN (the one non-ASCII character whose lower-case form is ASCII)
      are mapped; every other character is kept. */
  function LowerChar(c: char): (r: char)
    ensures !IsUpperAscii(r)
    ensures IsUpperAscii(c) ==> r as int == c as int + 32
    ensures !IsUpperAscii(c) && c != '\U{212A}' ==> r == c
  {
    if IsUpperAscii(c) then (c as int + 32) as char
    else if c == '\U{212A}' then 'k'
    else c
  }

  /** `String.prototype.toUpperCase` restricted to ASCII letters. */
  function UpperChar(c: char): (r: char)
    ensures !IsLowerAscii(r)
    ensures IsLowerAscii(c) ==> r as int == c as int - 32
    ensures !IsLowerAscii(c) ==> r == c
  {
    if IsLowerAscii(c) then (c as int - 32) as char else c
  }

  function ToLower(s: string): (r: string)
    ensures |r| == |s|
    ensures forall i :: 0 <= i < |s| ==> r[i] == LowerChar(s[i])
  {
    seq(|s|, i requires 0 <= i < |s| => LowerChar(s[i]))
  }

  function ToUpper(s: string): (r: string)
    ensures |r| == |s|
    ensures forall i :: 0 <= i < |s| ==> r[i] == UpperChar(s[i])
  {
    seq(|s|, i requires 0 <= i < |s| => UpperChar(s[i]))
  }

  /** Lower-casing twice is lower-casing once. */
  lemma ToLowerIdempotent(s: string)
    ensures ToLower(ToLower(s)) == ToLower(s)
  {
    var l := ToLower(s);
    forall i | 0 <= i < |s|
      ensures ToLower(l)[i] == l[i]
    {
      assert !IsUpperAscii(l[i]);
    }
  }

  // ---------------------------------------------------------------------
  // Decimal numerals

  predicate IsDigit(c: char) { '0' <= c <= '9' }

  function DigitValue(c: char): nat
    requires IsDigit(c)
  {
    c as int - '0' as int
  }

  function DigitChar(d: nat): (c: char)
    requires d < 10
    ensures IsDigit(c) && DigitValue(c) == d
  {
    ('0' as int + d) as char
  }

  predicate AllDigits(s: string) {
    forall i :: 0 <= i < |s| ==> IsDigit(s[i])
  }

  /** The number a digit string denotes (most significant digit first). */
  function DecimalValue(s: string): nat
    requires AllDigits(s)
  {
    if |s| == 0 then 0 else 10 * DecimalValue(s[..|s| - 1]) + DigitValue(s[|s| - 1])
  }

  /** `String(n)` for a non-negative integer. */
  function Decimal(n: nat): (r: string)
    ensures |r| > 0 && AllDigits(r)
    ensures DecimalValue(r) == n
    ensures |r| > 1 ==> r[0] != '0'
  {
    if n < 10 then [DigitChar(n)]
    else
      var init := Decimal(n / 10);
      var r := init + [DigitChar(n % 10)];
      assert r[..|r| - 1] == init;
      r
  }

  function Pow10(k: nat): (r: nat)
    ensures r > 0
  {
    if k == 0 then 1 else 10 * Pow10(k - 1)
  }

  lemma Pow10Nine()
    ensures Pow10(8) == 100000000 && Pow10(9) == 1000000000
  {
    assert Pow10(2) == 100;
    assert Pow10(4) == 10000;
    assert Pow10(6) == 1000000;
  }

  /** A number in [10^(k-1), 10^k) is written with exactly k digits. */
  lemma {:induction false} DecimalLength(n: nat, k: nat)
    requires k > 0 && Pow10(k - 1) <= n < Pow10(k)
    ensures |Decimal(n)| == k
  {
    if k > 1 {
      DecimalLength(n / 10, k - 1);
    }
  }

  // ---------------------------------------------------------------------
  // Own-property order of an ordinary object

  /** An array index: a canonical decimal numeral below 2^32 - 1. */
  predicate IsArrayIndex(k: string) {
    && |k| > 0
    && AllDigits(k)
    && (|k| == 1 || k[0] != '0')
    && DecimalValue(k) <= 4294967294
  }

  function KeyValue(k: string): nat
    requires IsArrayIndex(k)
  {
    DecimalValue(k)
  }

  predicate AscendingIndices<V>(es: seq<(string, V)>) {
    && (forall i :: 0 <= i < |es| ==> IsArrayIndex(es[i].0))
    && (forall i, j :: 0 <= i < j < |es| ==> KeyValue(es[i].0) <= KeyValue(es[j].0))
  }

  /** The entries whose key is an array index, in their original order. */
  function IndexEntries<V>(es: seq<(string, V)>): (r: seq<(string, V)>)
    ensures forall i :: 0 <= i < |r| ==> IsArrayIndex(r[i].0)
  {
    if |es| == 0 then []
    else if IsArrayIndex(es[0].0) then [es[0]] + IndexEntries(es[1..])
    else IndexEntries(es[1..])
  }

  /** The entries whose key is not an array index, in their original order. */
  function NamedEntries<V>(es: seq<(string, V)>): (r: seq<(string, V)>)
    ensures forall i :: 0 <= i < |r| ==> !IsArrayIndex(r[i].0)
  {
    if |es| == 0 then []
    else if IsArrayIndex(es[0].0) then NamedEntries(es[1..])
    else [es[0]] + NamedEntries(es[1..])
  }

  /** Putting an entry in front of an ascending run whose keys are all at
      least its own keeps the run ascending. */
  lemma ConsAscending<V>(e: (string, V), es: seq<(string, V)>)
    requires IsArrayIndex(e.0) && AscendingIndices(es)
    requires forall i :: 0 <= i < |es| ==> KeyValue(e.0) <= KeyValue(es[i].0)
    ensures AscendingIndices([e] + es)
  {
    var r := [e] + es;
    forall i, j | 0 <= i < j < |r|
      ensures KeyValue(r[i].0) <= KeyValue(r[j].0)
    {
      if i > 0 {
        assert r[i] == es[i - 1] && r[j] == es[j - 1];
      }
    }
  }

  function InsertByIndex<V>(e: (string, V), es: seq<(string, V)>): (r: seq<(string, V)>)
    requires IsArrayIndex(e.0) && AscendingIndices(es)
    ensures AscendingIndices(r)
    ensures multiset(r) == multiset(es) + multiset{e}
  {
    if |es| == 0 || KeyValue(e.0) <= KeyValue(es[0].0) then
      ConsAscending(e, es);
      [e] + es
    else
      var rest := InsertByIndex(e, es[1..]);
      assert es == [es[0]] + es[1..];
      forall i | 0 <= i < |rest|
        ensures KeyValue(es[0].0) <= KeyValue(rest[i].0)
      {
        assert rest[i] in multiset(rest);
        assert rest[i] == e || rest[i] in es[1..];
      }
      ConsAscending(es[0], rest);
      [es[0]] + rest
  }

  function SortByIndex<V>(es: seq<(string, V)>): (r: seq<(string, V)>)
    requires forall i :: 0 <= i < |es| ==> IsArrayIndex(es[i].0)
    ensures AscendingIndices(r)
    ensures multiset(r) == multiset(es)
  {
    if |es| == 0 then []
    else
      assert es == es[..|es| - 1] + [es[|es| - 1]];
      InsertByIndex(es[|es| - 1], SortByIndex(es[..|es| - 1]))
  }

  /** `Object.entries` of an ordinary object whose own properties were created
      in the order `es`: array-index keys first, in ascending numeric order,
      then the other keys in creation order. */
  function OwnEntries<V>(es: seq<(string, V)>): (r: seq<(string, V)>)
    ensures |r| == |SortByIndex(IndexEntries(es))| + |NamedEntries(es)|
  {
    SortByIndex(IndexEntries(es)) + NamedEntries(es)
  }

  lemma {:induction false} PartitionIsPermutation<V>(es: seq<(string, V)>)
    ensures multiset(IndexEntries(es)) + multiset(NamedEntries(es)) == multiset(es)
  {
    if |es| > 0 {
      PartitionIsPermutation(es[1..]);
      assert es == [es[0]] + es[1..];
    }
  }

  /** `Object.entries` lists every entry exactly once, array-index keys first
      and ascending, the others after them in creation order. */
  lemma OwnEntriesSpec<V>(es: seq<(string, V)>)
    ensures multiset(OwnEntries(es)) == multiset(es)
    ensures var k := |IndexEntries(es)|;
      && k <= |OwnEntries(es)|
      && AscendingIndices(OwnEntries(es)[..k])
      && OwnEntries(es)[k..] == NamedEntries(es)
  {
    PartitionIsPermutation(es);
    var s := SortByIndex(IndexEntries(es));
    assert |s| == |IndexEntries(es)| by {
      assert |multiset(s)| == |multiset(IndexEntries(es))|;
    }
    assert OwnEntries(es)[..|s|] == s;
  }
}

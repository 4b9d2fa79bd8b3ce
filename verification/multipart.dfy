/** `generateMultipartFormData`: the multipart/form-data body (RFC 7578, with
    the delimiters of section 5.1.1 of RFC 2046) for a FormData. The random
    boundary suffix `Math.floor(Math.random() * 899999999)` is the parameter
    `n`. Names and values are interpolated without escaping. */
module Multipart {
  import opened Js
  import FormData

  const BoundaryPrefix := "--------------OsgoodFormBoundary"

  /** The multiplier applied to `Math.random()`. */
  const RandomSpan := 899999999

  datatype Encoded = Encoded(body: string, boundary: string, contentType: string)

  function Boundary(n: nat): (b: string)
    requires n < RandomSpan
    ensures |b| == |BoundaryPrefix| + 9 && b[..|BoundaryPrefix|] == BoundaryPrefix
    ensures var digits := b[|BoundaryPrefix|..];
      AllDigits(digits) && 100000000 <= DecimalValue(digits) <= 999999998
  {
    Pow10Nine();
    DecimalLength(n + 100000000, 9);
    var b := BoundaryPrefix + Decimal(n + 100000000);
    assert b[|BoundaryPrefix|..] == Decimal(n + 100000000);
    b
  }

  const DispositionStart := "Content-Disposition: form-data; name=\""

  /** The lines one entry contributes. */
  function Part(b: string, name: string, value: string): string {
    "--" + b + "\r\n" + DispositionStart + name + "\"\r\n" + "\r\n" + value + "\r\n"
  }

  function Parts(b: string, es: seq<(string, string)>): string {
    if |es| == 0 then "" else Part(b, es[0].0, es[0].1) + Parts(b, es[1..])
  }

  function Closing(b: string): string {
    "--" + b + "--\r\n"
  }

  /** The encoder. The source's rejection of a third (filename) element is
      unreachable: `append` only ever stores two-element entries. */
  function Generate(f: FormData.Form, n: nat): (r: Encoded)
    requires n < RandomSpan
    ensures r.contentType == "multipart/form-data; boundary=" + r.boundary
    ensures r.boundary == Boundary(n)
    ensures |r.body| >= |Closing(r.boundary)|
    ensures r.body[|r.body| - |Closing(r.boundary)|..] == Closing(r.boundary)
  {
    var b := Boundary(n);
    var body := Parts(b, f.entries) + Closing(b);
    assert body[|body| - |Closing(b)|..] == Closing(b);
    Encoded(body, b, "multipart/form-data; boundary=" + b)
  }

  /** An empty FormData encodes to the closing delimiter alone. */
  lemma EmptyFormIsClosingOnly(n: nat)
    requires n < RandomSpan
    ensures Generate(FormData.Form([]), n).body == "--" + Boundary(n) + "--\r\n"
  {
  }

  /** Each entry contributes exactly its own part, in order. */
  lemma {:induction false} PartsConcat(b: string, x: seq<(string, string)>, y: seq<(string, string)>)
    ensures Parts(b, x + y) == Parts(b, x) + Parts(b, y)
  {
    if |x| > 0 {
      PartsConcat(b, x[1..], y);
      assert (x + y)[1..] == x[1..] + y;
    } else {
      assert x + y == y;
    }
  }

  // ---------------------------------------------------------------------
  // Reading a body back

  /** Index of the first `c` in `s`, or |s|. */
  function IndexOf(s: string, c: char): (r: nat)
    ensures r <= |s|
    ensures forall k :: 0 <= k < r ==> s[k] != c
    ensures r < |s| ==> s[r] == c
  {
    if |s| == 0 then 0 else if s[0] == c then 0 else 1 + IndexOf(s[1..], c)
  }

  lemma IndexOfPrefix(x: string, y: string, c: char)
    requires c !in x && |y| > 0 && y[0] == c
    ensures IndexOf(x + y, c) == |x|
  {
    assert forall k :: 0 <= k < |x| ==> (x + y)[k] == x[k];
    assert (x + y)[|x|] == c;
  }

  /** What follows the prefix `p` in `s`, if `s` starts with it. */
  function AfterPrefix(p: string, s: string): (r: Option<string>)
    ensures r.Some? ==> |r.value| == |s| - |p|
  {
    if |p| <= |s| && s[..|p|] == p then Some(s[|p|..]) else None
  }

  lemma AfterPrefixOf(p: string, t: string)
    ensures AfterPrefix(p, p + t) == Some(t)
  {
    assert (p + t)[..|p|] == p;
    assert (p + t)[|p|..] == t;
  }

  /** Splits `s` at the first `sep[0]`, provided `sep` occurs there: the text
      before it and the text after `sep`. */
  function ReadUntil(s: string, sep: string): (r: Option<(string, string)>)
    requires |sep| > 0
    ensures r.Some? ==> |r.value.1| < |s|
  {
    var i := IndexOf(s, sep[0]);
    if |s| < i + |sep| || s[i..i + |sep|] != sep then None else Some((s[..i], s[i + |sep|..]))
  }

  lemma ReadUntilOf(x: string, sep: string, t: string)
    requires |sep| > 0 && sep[0] !in x
    ensures ReadUntil(x + sep + t, sep) == Some((x, t))
  {
    var s := x + sep + t;
    assert s == x + (sep + t);
    IndexOfPrefix(x, sep + t, sep[0]);
    assert s[|x|..|x| + |sep|] == sep;
    assert s[..|x|] == x;
    assert s[|x| + |sep|..] == t;
  }

  function PartHead(b: string): string {
    "--" + b + "\r\n" + DispositionStart
  }

  /** Reads one part: its name, its value and the text after it. */
  function ReadPart(b: string, s: string): (r: Option<(string, string, string)>)
    ensures r.Some? ==> |r.value.2| < |s|
  {
    match AfterPrefix(PartHead(b), s)
    case None => None
    case Some(rest) =>
      match ReadUntil(rest, "\"\r\n\r\n")
      case None => None
      case Some((name, tail)) =>
        match ReadUntil(tail, "\r\n")
        case None => None
        case Some((value, more)) => Some((name, value, more))
  }

  /** The decoder for bodies built with boundary `b`: each part's name runs to
      the first double quote and its value to the first carriage return. */
  function Parse(b: string, s: string): Option<seq<(string, string)>>
    decreases |s|
  {
    if s == Closing(b) then Some([])
    else
      match ReadPart(b, s)
      case None => None
      case Some((name, value, more)) =>
        match Parse(b, more)
        case None => None
        case Some(es) => Some([(name, value)] + es)
  }

  /** Entries the encoder writes unambiguously: no double quote in a name, no
      carriage return in a value. */
  predicate Unambiguous(es: seq<(string, string)>) {
    forall i :: 0 <= i < |es| ==> '"' !in es[i].0 && '\r' !in es[i].1
  }

  lemma ReadPartOf(b: string, name: string, value: string, more: string)
    requires '"' !in name && '\r' !in value
    ensures ReadPart(b, Part(b, name, value) + more) == Some((name, value, more))
  {
    var tail := value + "\r\n" + more;
    var rest := name + "\"\r\n\r\n" + tail;
    assert Part(b, name, value) + more == PartHead(b) + rest;
    AfterPrefixOf(PartHead(b), rest);
    ReadUntilOf(name, "\"\r\n\r\n", tail);
    ReadUntilOf(value, "\r\n", more);
  }

  lemma ParsePart(b: string, name: string, value: string, more: string)
    requires '"' !in name && '\r' !in value
    ensures Parse(b, Part(b, name, value) + more) ==
      match Parse(b, more)
      case None => None
      case Some(es) => Some([(name, value)] + es)
  {
    var s := Part(b, name, value) + more;
    assert |s| > |Closing(b)|;
    ReadPartOf(b, name, value, more);
  }

  /** Round trip: for unambiguous entries the decoder recovers the encoded
      pairs, in order. */
  lemma {:induction false} ParseGenerate(b: string, es: seq<(string, string)>)
    requires Unambiguous(es)
    ensures Parse(b, Parts(b, es) + Closing(b)) == Some(es)
    decreases |es|
  {
    if |es| == 0 {
      assert Parts(b, es) + Closing(b) == Closing(b);
    } else {
      assert Unambiguous(es[1..]) by {
        assert forall i :: 0 <= i < |es[1..]| ==> es[1..][i] == es[i + 1];
      }
      ParseGenerate(b, es[1..]);
      ParseGenerateStep(b, es);
    }
  }

  lemma ParseGenerateStep(b: string, es: seq<(string, string)>)
    requires |es| > 0 && '"' !in es[0].0 && '\r' !in es[0].1
    requires Parse(b, Parts(b, es[1..]) + Closing(b)) == Some(es[1..])
    ensures Parse(b, Parts(b, es) + Closing(b)) == Some(es)
  {
    var more := Parts(b, es[1..]) + Closing(b);
    assert Parts(b, es) + Closing(b) == Part(b, es[0].0, es[0].1) + more;
    ParsePart(b, es[0].0, es[0].1, more);
    assert [es[0]] + es[1..] == es;
  }

  /** The encoder's output for a FormData of unambiguous entries decodes to
      that FormData's entries. */
  lemma GenerateRoundTrip(f: FormData.Form, n: nat)
    requires n < RandomSpan && Unambiguous(f.entries)
    ensures Parse(Generate(f, n).boundary, Generate(f, n).body) == Some(f.entries)
  {
    ParseGenerate(Boundary(n), f.entries);
  }

  /** Without escaping, a value can carry a delimiter of its own and turn into
      two entries on the receiving side. */
  lemma ValueInjectsPart(b: string)
    ensures var forged := "x\r\n--" + b + "\r\n" + DispositionStart + "admin\"\r\n\r\n1";
      Parse(b, Parts(b, [("a", forged)]) + Closing(b)) == Some([("a", "x"), ("admin", "1")])
  {
    var forged := "x\r\n--" + b + "\r\n" + DispositionStart + "admin\"\r\n\r\n1";
    var es := [("a", forged)];
    var p1, p2, c := Part(b, "a", "x"), Part(b, "admin", "1"), Closing(b);
    assert es[1..] == [];
    assert Parts(b, es) == Part(b, "a", forged);
    ForgedValueSplits(b);
    assert Parts(b, es) + c == p1 + (p2 + c);
    ParseTwoParts(b);
  }

  /** The forged value closes its own part and opens a second one. */
  lemma ForgedValueSplits(b: string)
    ensures var forged := "x\r\n--" + b + "\r\n" + DispositionStart + "admin\"\r\n\r\n1";
      Part(b, "a", forged) == Part(b, "a", "x") + Part(b, "admin", "1")
  {
  }

  lemma ParseTwoParts(b: string)
    ensures Parse(b, Part(b, "a", "x") + (Part(b, "admin", "1") + Closing(b)))
      == Some([("a", "x"), ("admin", "1")])
  {
    var p2, c := Part(b, "admin", "1"), Closing(b);
    assert '"' !in "admin" && '\r' !in "1" && '"' !in "a" && '\r' !in "x";
    ParsePart(b, "admin", "1", c);
    assert Parse(b, c) == Some([]);
    assert [("admin", "1")] + [] == [("admin", "1")];
    ParsePart(b, "a", "x", p2 + c);
    assert [("a", "x")] + [("admin", "1")] == [("a", "x"), ("admin", "1")];
  }
}

/** The header table (`class Headers` with `normalizeHeaderName` and
    `normalizeHeaderValue`). The backing store is an ordinary object, so two
    of its quirks are part of the model: `name in table` also sees the
    lower-case members of `Object.prototype`, and iteration follows
    `Object.entries` order. */
module Headers {
  import opened Js

  /** `values` holds the backing object's own properties; `order` lists their
      names in creation order. */
  datatype Table = Table(order: seq<string>, values: map<string, string>)

  const Empty := Table([], map[])

  /** What `this._headers[name]` evaluates to. */
  datatype Lookup =
    | Absent                    // undefined
    | Present(value: string)    // an own property
    | Inherited(member: string) // a member of Object.prototype

  /** The text `String(Object)` yields, which `+=` on an inherited
      `constructor` starts from. */
  const ObjectConstructorText := "function Object() { [native code] }"

  // ---------------------------------------------------------------------
  // Grammar (section 3.2 and 3.2.6 of RFC 7230)

  /** tchar of section 3.2.6 of RFC 7230. */
  predicate IsTChar(c: char) {
    || 'a' <= c <= 'z' || 'A' <= c <= 'Z' || '0' <= c <= '9'
    || c in "!#$%&'*+-.^_`|~"
  }

  lemma TCharFacts(c: char)
    requires IsTChar(c)
    ensures IsValueChar(c) && c != '\U{212A}'
    ensures LowerChar(c) == c || IsUpperAscii(c)
  {
  }

  predicate IsToken(s: string) {
    |s| > 0 && forall i :: 0 <= i < |s| ==> IsTChar(s[i])
  }

  /** The characters the value check lets through: HTAB, 0x20-0x7E, 0x80-0xFF. */
  predicate IsValueChar(c: char) {
    c == '\t' || 0x20 <= c as int <= 0x7E || 0x80 <= c as int <= 0xFF
  }

  predicate IsFieldValue(s: string) {
    forall i :: 0 <= i < |s| ==> IsValueChar(s[i])
  }

  predicate IsLowerCase(s: string) {
    forall i :: 0 <= i < |s| ==> !IsUpperAscii(s[i])
  }

  /** `Object.prototype` members whose names are lower-case, the only ones a
      normalised name can hit. */
  predicate IsProtoMember(n: string) {
    n == "constructor" || n == "__proto__"
  }

  // ---------------------------------------------------------------------
  // Normalisers

  /** `normalizeHeaderName`. `name` is `String(name)`; the empty string also
      stands for any falsy argument (undefined, null, 0, false, NaN). */
  function NormalizeName(name: string): (r: Result<string>)
    ensures r.Success? <==> name != "" && IsToken(ToLower(name))
    ensures r.Success? ==> r.value == ToLower(name) && IsLowerCase(r.value)
    ensures r.Failure? ==> r.error.TypeError?
  {
    if name == "" then Failure(TypeError("Invalid header name"))
    else
      var lowered := ToLower(name);
      if IsToken(lowered) then Success(lowered)
      else Failure(TypeError("Invalid header name: " + lowered))
  }

  /** `normalizeHeaderValue`. `None` is `undefined`; `Some(s)` carries
      `String(value)`. */
  function NormalizeValue(value: Option<string>): (r: Result<string>)
    ensures r.Success? <==> value.Some? && IsFieldValue(value.value)
    ensures r.Success? ==> r.value == value.value
    ensures r.Failure? ==> r.error.TypeError?
  {
    match value
    case None => Failure(TypeError("Invalid header value"))
    case Some(s) =>
      if IsFieldValue(s) then Success(s)
      else Failure(TypeError("Invalid header value: " + s))
  }

  /** A name that passed normalisation normalises to itself. */
  lemma NormalizeNameIdempotent(name: string)
    requires NormalizeName(name).Success?
    ensures NormalizeName(NormalizeName(name).value) == NormalizeName(name)
  {
    ToLowerIdempotent(name);
  }

  // ---------------------------------------------------------------------
  // The backing object

  /** `this._headers[n]` for an already normalised name. */
  function Find(h: Table, n: string): Lookup {
    if n in h.values then Present(h.values[n])
    else if IsProtoMember(n) then Inherited(n)
    else Absent
  }

  /** `this._headers[n] = v` for a name other than `__proto__`. */
  function Store(h: Table, n: string, v: string): Table {
    Table(if n in h.values then h.order else h.order + [n], h.values[n := v])
  }

  /** `delete this._headers[n]`. */
  function Remove(h: Table, n: string): Table {
    Table(Without(h.order, n), h.values - {n})
  }

  function Without(names: seq<string>, n: string): (r: seq<string>)
    ensures forall m :: m in r <==> m in names && m != n
  {
    if |names| == 0 then []
    else if names[0] == n then Without(names[1..], n)
    else [names[0]] + Without(names[1..], n)
  }

  /** The string `append` leaves under a name that looked up to `prev`:
      `+=` on an own value, on the inherited `Object` function, or a plain
      assignment when the name was absent. */
  function Joined(prev: Lookup, v: string): string {
    match prev
    case Present(prior) => prior + ", " + v
    case Inherited(_) => ObjectConstructorText + ", " + v
    case Absent => v
  }

  // ---------------------------------------------------------------------
  // Operations

  function Get(h: Table, name: string): (r: Result<Lookup>)
    ensures r.Success? <==> NormalizeName(name).Success?
    ensures r.Success? ==> r.value == Find(h, ToLower(name))
  {
    var n :- NormalizeName(name);
    Success(Find(h, n))
  }

  function Has(h: Table, name: string): (r: Result<bool>)
    ensures r.Success? <==> Get(h, name).Success?
    ensures r.Success? ==> (r.value <==> !Get(h, name).value.Absent?)
  {
    var n :- NormalizeName(name);
    Success(n in h.values || IsProtoMember(n))
  }

  function Set(h: Table, name: string, value: Option<string>): (r: Result<Table>)
    ensures r.Success? <==> NormalizeName(name).Success? && NormalizeValue(value).Success?
    ensures r.Failure? && NormalizeName(name).Failure? ==> r.error == NormalizeName(name).error
    ensures r.Success? && ToLower(name) != "__proto__" ==>
      Find(r.value, ToLower(name)) == Present(value.value)
    ensures r.Success? && ToLower(name) == "__proto__" ==> r.value == h
    ensures r.Success? ==> forall m :: m != ToLower(name) ==> Find(r.value, m) == Find(h, m)
  {
    var n :- NormalizeName(name);
    var v :- NormalizeValue(value);
    // assigning a string to `__proto__` goes to the inherited setter, which ignores it
    if n == "__proto__" then Success(h) else Success(Store(h, n, v))
  }

  function Append(h: Table, name: string, value: Option<string>): (r: Result<Table>)
    ensures r.Success? <==> NormalizeName(name).Success? && NormalizeValue(value).Success?
    ensures r.Failure? && NormalizeName(name).Failure? ==> r.error == NormalizeName(name).error
    ensures r.Success? && ToLower(name) != "__proto__" ==>
      Find(r.value, ToLower(name)) == Present(Joined(Find(h, ToLower(name)), value.value))
    ensures r.Success? && ToLower(name) == "__proto__" ==> r.value == h
    ensures r.Success? ==> forall m :: m != ToLower(name) ==> Find(r.value, m) == Find(h, m)
  {
    var n :- NormalizeName(name);
    var v :- NormalizeValue(value);
    if n == "__proto__" then Success(h) else Success(Store(h, n, Joined(Find(h, n), v)))
  }

  function Delete(h: Table, name: string): (r: Result<Table>)
    ensures r.Success? <==> NormalizeName(name).Success?
    ensures r.Success? ==> ToLower(name) !in r.value.values
    ensures r.Success? ==> forall m :: m != ToLower(name) ==> Find(r.value, m) == Find(h, m)
  {
    var n :- NormalizeName(name);
    Success(Remove(h, n))
  }

  /** The own (name, value) pairs in creation order. */
  function PairsOf(order: seq<string>, values: map<string, string>): (r: seq<(string, string)>)
    ensures forall i :: 0 <= i < |r| ==> r[i].0 in values && r[i].1 == values[r[i].0]
    ensures forall n :: n in order && n in values ==> (n, values[n]) in r
  {
    if |order| == 0 then []
    else
      var rest := PairsOf(order[1..], values);
      assert forall n :: n in order ==> n == order[0] || n in order[1..];
      if order[0] in values then [(order[0], values[order[0]])] + rest else rest
  }

  /** Iteration (`Symbol.iterator`, `entries()`): `Object.entries` of the
      backing object. */
  function Entries(h: Table): seq<(string, string)> {
    OwnEntries(PairsOf(h.order, h.values))
  }

  // ---------------------------------------------------------------------
  // The representation invariant every reachable table keeps

  predicate Distinct(names: seq<string>) {
    forall i, j :: 0 <= i < j < |names| ==> names[i] != names[j]
  }

  ghost predicate Valid(h: Table) {
    && Distinct(h.order)
    && (forall n :: n in h.values <==> n in h.order)
    && (forall n :: n in h.values ==>
          IsToken(n) && IsLowerCase(n) && n != "__proto__" && IsFieldValue(h.values[n]))
  }

  lemma EmptyValid()
    ensures Valid(Empty)
  {
  }

  lemma FieldValueConcat(a: string, b: string)
    requires IsFieldValue(a) && IsFieldValue(b)
    ensures IsFieldValue(a + b)
  {
    var c := a + b;
    forall i | 0 <= i < |c|
      ensures IsValueChar(c[i])
    {
      if i < |a| { assert c[i] == a[i]; } else { assert c[i] == b[i - |a|]; }
    }
  }

  /** `Content-Type`, the one name the bootstrap code sets itself,
      normalises to `content-type`. */
  lemma ContentTypeName()
    ensures ToLower("Content-Type") == "content-type"
    ensures NormalizeName("Content-Type") == Success("content-type")
  {
    var s := "Content-Type";
    assert |ToLower(s)| == 12;
    forall i | 0 <= i < 12
      ensures ToLower(s)[i] == "content-type"[i]
    {
    }
  }

  lemma {:induction false} WithoutDistinct(names: seq<string>, n: string)
    requires Distinct(names)
    ensures Distinct(Without(names, n))
  {
    if |names| > 0 {
      WithoutDistinct(names[1..], n);
      if names[0] != n {
        var rest := Without(names[1..], n);
        assert names[0] !in names[1..];
        assert names[0] !in rest;
        var r := [names[0]] + rest;
        forall i, j | 0 <= i < j < |r|
          ensures r[i] != r[j]
        {
          if i > 0 { assert r[i] == rest[i - 1] && r[j] == rest[j - 1]; }
          else { assert r[j] in rest; }
        }
      }
    }
  }

  lemma StoreValid(h: Table, n: string, v: string)
    requires Valid(h)
    requires IsToken(n) && IsLowerCase(n) && n != "__proto__" && IsFieldValue(v)
    ensures Valid(Store(h, n, v))
  {
    var r := Store(h, n, v);
    if n !in h.values {
      forall i, j | 0 <= i < j < |r.order|
        ensures r.order[i] != r.order[j]
      {
        if j == |h.order| { assert r.order[j] == n && r.order[i] in h.order; }
      }
    }
  }

  /** Every mutator keeps the table free of duplicate names, keeps names
      lower-case tokens and keeps values field values. */
  lemma MutatorsPreserveValid(h: Table, name: string, value: Option<string>)
    requires Valid(h)
    ensures Set(h, name, value).Success? ==> Valid(Set(h, name, value).value)
    ensures Append(h, name, value).Success? ==> Valid(Append(h, name, value).value)
    ensures Delete(h, name).Success? ==> Valid(Delete(h, name).value)
  {
    if NormalizeName(name).Success? {
      var n := ToLower(name);
      WithoutDistinct(h.order, n);
      if value.Some? && IsFieldValue(value.value) && n != "__proto__" {
        StoreValid(h, n, value.value);
        JoinedValid(h, n, value.value);
      }
    }
  }

  /** Appending to a valid table stores a field value. */
  lemma JoinedValid(h: Table, n: string, v: string)
    requires Valid(h) && IsFieldValue(v) && IsToken(n) && IsLowerCase(n) && n != "__proto__"
    ensures Valid(Store(h, n, Joined(Find(h, n), v)))
  {
    assert IsFieldValue(", ");
    if n in h.values {
      FieldValueConcat(h.values[n], ", ");
      FieldValueConcat(h.values[n] + ", ", v);
    } else if IsProtoMember(n) {
      assert IsFieldValue(ObjectConstructorText);
      FieldValueConcat(ObjectConstructorText, ", ");
      FieldValueConcat(ObjectConstructorText + ", ", v);
    }
    StoreValid(h, n, Joined(Find(h, n), v));
  }

  // ---------------------------------------------------------------------
  // Properties

  /** Lookups ignore case: every operation normalises the name first. */
  lemma {:induction false} CaseInsensitive(h: Table, a: string, b: string, value: Option<string>)
    requires ToLower(a) == ToLower(b) && a != "" && b != ""
    ensures Get(h, a) == Get(h, b)
    ensures Has(h, a) == Has(h, b)
    ensures Set(h, a, value) == Set(h, b, value)
    ensures Append(h, a, value) == Append(h, b, value)
    ensures Delete(h, a) == Delete(h, b)
  {
  }

  /** Two appends under an otherwise unused name join their values with ", "
      in append order; a following `set` discards both. */
  lemma AppendThenGet(h: Table, name: string, a: string, b: string, c: string)
    requires NormalizeName(name).Success? && !IsProtoMember(ToLower(name))
    requires ToLower(name) !in h.values
    requires IsFieldValue(a) && IsFieldValue(b) && IsFieldValue(c)
    ensures var h1 := Append(h, name, Some(a)).value;
      var h2 := Append(h1, name, Some(b)).value;
      && Get(h2, name) == Success(Present(a + ", " + b))
      && Get(Set(h2, name, Some(c)).value, name) == Success(Present(c))
  {
  }

  /** `has` reports the two lower-case `Object.prototype` members even on an
      empty table, and `get` returns the inherited objects for them. */
  lemma PrototypeLeaks()
    ensures Has(Empty, "constructor") == Success(true)
    ensures Has(Empty, "__proto__") == Success(true)
    ensures Get(Empty, "Constructor") == Success(Inherited("constructor"))
    ensures Append(Empty, "constructor", Some("x")).value.values["constructor"]
      == "function Object() { [native code] }, x"
    ensures Set(Empty, "__proto__", Some("x")) == Success(Empty)
    ensures Has(Delete(Set(Empty, "constructor", Some("x")).value, "constructor").value, "constructor")
      == Success(true)
  {
    assert ToLower("constructor") == "constructor";
    assert ToLower("Constructor") == "constructor";
    assert ToLower("__proto__") == "__proto__";
  }

  /** Iteration lists exactly the own properties with their values. */
  lemma EntriesSpec(h: Table)
    requires Valid(h)
    ensures forall n :: n in h.values ==> (n, h.values[n]) in Entries(h)
    ensures forall p :: p in Entries(h) ==> p.0 in h.values && p.1 == h.values[p.0]
  {
    var ps := PairsOf(h.order, h.values);
    OwnEntriesSpec(ps);
    forall p | p in Entries(h)
      ensures p.0 in h.values && p.1 == h.values[p.0]
    {
      assert p in multiset(Entries(h));
      assert p in ps;
    }
    forall n | n in h.values
      ensures (n, h.values[n]) in Entries(h)
    {
      assert (n, h.values[n]) in ps;
      assert (n, h.values[n]) in multiset(ps);
    }
  }

  /** Iteration puts numeric names first, whatever their creation order. */
  lemma NumericNamesFirst()
    ensures Entries(Table(["b", "7"], map["b" := "1", "7" := "2"])) == [("7", "2"), ("b", "1")]
  {
    var h := Table(["b", "7"], map["b" := "1", "7" := "2"]);
    assert h.order[1..] == ["7"];
    assert PairsOf(["7"], h.values) == [("7", "2")];
    var ps := PairsOf(h.order, h.values);
    assert ps == [("b", "1"), ("7", "2")];
    assert "7"[..0] == "";
    assert DecimalValue("7") == 7;
    assert IsArrayIndex("7") && !IsArrayIndex("b");
    assert ps[1..] == [("7", "2")];
    assert ps[1..][1..] == [];
    assert IndexEntries(ps[1..]) == [("7", "2")];
    assert IndexEntries(ps) == [("7", "2")];
    assert NamedEntries(ps[1..]) == [];
    assert NamedEntries(ps) == [("b", "1")];
    assert SortByIndex([("7", "2")]) == [("7", "2")];
  }

  // ---------------------------------------------------------------------
  // Construction

  /** One element of an iterable `init`. */
  datatype Item =
    | NotIterable                     // a string, number or non-iterable object
    | NullItem                        // null
    | Items(elems: seq<Option<string>>) // the spread elements; element 0 follows the name convention

  /** The argument of `new Headers(init)`. */
  datatype Init =
    | NoInit                                           // undefined: the default `{}`
    | FromTable(source: Table)                         // another Headers
    | FromPairs(items: seq<Item>)                      // an iterable
    | FromRecord(props: seq<(string, Option<string>)>) // a plain object, properties in creation order
    | FromNull                                         // null: `typeof null` is 'object'
    | FromOther                                        // a string, number, boolean or function

  function AppendAll(h: Table, ps: seq<(string, Option<string>)>): (r: Result<Table>)
    decreases |ps|
  {
    if |ps| == 0 then Success(h)
    else
      var h' :- Append(h, ps[0].0, ps[0].1);
      AppendAll(h', ps[1..])
  }

  /** Destructuring `const [name, value]` out of a name string. */
  function SplitKey(k: string): (string, Option<string>) {
    (k[..if |k| == 0 then 0 else 1], if |k| >= 2 then Some([k[1]]) else None)
  }

  function SplitKeys(es: seq<(string, string)>): (r: seq<(string, Option<string>)>)
    ensures |r| == |es|
    ensures forall i :: 0 <= i < |es| ==> r[i] == SplitKey(es[i].0)
  {
    if |es| == 0 then [] else [SplitKey(es[0].0)] + SplitKeys(es[1..])
  }

  function FromItems(h: Table, items: seq<Item>): Result<Table>
    decreases |items|
  {
    if |items| == 0 then Success(h)
    else
      var h' :- match items[0]
        case NotIterable => Failure(TypeError("Invalid headers"))
        case NullItem =>
          Failure(TypeError("Cannot use 'in' operator to search for 'Symbol(Symbol.iterator)' in null"))
        case Items(xs) =>
          if |xs| > 2 then Failure(TypeError("Invalid headers"))
          else
            var name := if |xs| >= 1 && xs[0].Some? then xs[0].value else "";
            Append(h, name, if |xs| == 2 then xs[1] else None);
      FromItems(h', items[1..])
  }

  /** `new Headers(init)`. */
  function Construct(init: Init): Result<Table> {
    match init
    case NoInit => Success(Empty)
    // the loop destructures each *name* into its first two characters
    case FromTable(src) => AppendAll(Empty, SplitKeys(Entries(src)))
    case FromPairs(items) => FromItems(Empty, items)
    case FromRecord(props) => AppendAll(Empty, OwnEntries(props))
    case FromNull =>
      Failure(TypeError("Cannot use 'in' operator to search for 'Symbol(Symbol.iterator)' in null"))
    case FromOther => Failure(TypeError("Invalid headers"))
  }

  predicate OneCharNames(h: Table) {
    forall n :: n in h.values ==> |n| == 1
  }

  predicate LongNames(es: seq<(string, string)>) {
    forall i :: 0 <= i < |es| ==> |es[i].0| >= 2
  }

  predicate LowerTokens(es: seq<(string, string)>) {
    forall i :: 0 <= i < |es| ==> IsToken(es[i].0) && IsLowerCase(es[i].0)
  }

  /** The first step of the copy loop on one name `k`: the one-character
      name always passes, and the value is present exactly when |k| >= 2. */
  lemma SplitKeyStep(h: Table, k: string)
    requires IsToken(k) && IsLowerCase(k)
    requires OneCharNames(h)
    ensures Append(h, SplitKey(k).0, SplitKey(k).1).Success? <==> |k| >= 2
    ensures Append(h, SplitKey(k).0, SplitKey(k).1).Success? ==>
      OneCharNames(Append(h, SplitKey(k).0, SplitKey(k).1).value)
  {
    var p := SplitKey(k);
    FirstCharName(k);
    if |k| >= 2 {
      SecondCharValue(k);
      var r := Append(h, p.0, p.1).value;
      assert r == Store(h, p.0, Joined(Find(h, p.0), [k[1]]));
      assert r.values.Keys <= h.values.Keys + {p.0};
    } else {
      assert NormalizeValue(p.1).Failure?;
    }
  }

  /** The first character of a lower-case token is a valid, already
      normalised, one-character name. */
  lemma FirstCharName(k: string)
    requires IsToken(k) && IsLowerCase(k)
    ensures SplitKey(k).0 == [k[0]]
    ensures NormalizeName([k[0]]) == Success([k[0]]) && [k[0]] != "__proto__"
  {
    assert IsTChar(k[0]) && !IsUpperAscii(k[0]);
    TCharFacts(k[0]);
    var p0 := [k[0]];
    assert ToLower(p0)[0] == p0[0];
    assert ToLower(p0) == p0;
  }

  /** The second character of a token is a valid value. */
  lemma SecondCharValue(k: string)
    requires IsToken(k) && |k| >= 2
    ensures SplitKey(k).1 == Some([k[1]])
    ensures NormalizeValue(Some([k[1]])) == Success([k[1]])
  {
    assert IsTChar(k[1]);
    TCharFacts(k[1]);
    assert IsFieldValue([k[1]]);
  }

  lemma {:induction false} SplitAppendAll(h: Table, es: seq<(string, string)>)
    requires LowerTokens(es) && OneCharNames(h)
    ensures AppendAll(h, SplitKeys(es)).Success? <==> LongNames(es)
    ensures AppendAll(h, SplitKeys(es)).Success? ==> OneCharNames(AppendAll(h, SplitKeys(es)).value)
    decreases |es|
  {
    if |es| > 0 {
      var ps := SplitKeys(es);
      assert ps[0] == SplitKey(es[0].0);
      assert ps[1..] == SplitKeys(es[1..]);
      SplitKeyStep(h, es[0].0);
      var step := Append(h, ps[0].0, ps[0].1);
      assert LowerTokens(es[1..]) by {
        assert forall i :: 0 <= i < |es[1..]| ==> es[1..][i] == es[i + 1];
      }
      assert LongNames(es) <==> |es[0].0| >= 2 && LongNames(es[1..]) by {
        assert forall i :: 0 <= i < |es[1..]| ==> es[1..][i] == es[i + 1];
      }
      if step.Success? {
        SplitAppendAll(step.value, es[1..]);
        assert AppendAll(h, ps) == AppendAll(step.value, ps[1..]);
      } else {
        assert AppendAll(h, ps).Failure?;
      }
    }
  }

  /** The copy constructor does not copy: it fails when a name has one
      character, and otherwise yields a table whose names all have one
      character (so a non-empty source is never reproduced). */
  lemma CopyConstructorSplitsNames(src: Table)
    requires Valid(src)
    ensures Construct(FromTable(src)).Success? <==> forall n :: n in src.values ==> |n| >= 2
    ensures Construct(FromTable(src)).Success? ==>
      forall n :: n in Construct(FromTable(src)).value.values ==> |n| == 1
  {
    assert Construct(FromTable(src)) == AppendAll(Empty, SplitKeys(Entries(src)));
    EntriesNames(src);
    SplitAppendAll(Empty, Entries(src));
  }

  /** What the copy loop needs to know about the names it iterates. */
  lemma EntriesNames(src: Table)
    requires Valid(src)
    ensures LowerTokens(Entries(src))
    ensures LongNames(Entries(src)) <==> forall n :: n in src.values ==> |n| >= 2
  {
    var es := Entries(src);
    EntriesSpec(src);
    assert forall i :: 0 <= i < |es| ==> es[i] in es;
    if LongNames(es) {
      forall n | n in src.values
        ensures |n| >= 2
      {
        var i :| 0 <= i < |es| && es[i] == (n, src.values[n]);
      }
    }
  }

  // ---------------------------------------------------------------------
  // The copy constructor as evidently intended

  /** The source's pairs, each appended with its value. */
  function CopyPairs(es: seq<(string, string)>): (r: seq<(string, Option<string>)>)
    ensures |r| == |es|
    ensures forall i :: 0 <= i < |es| ==> r[i] == (es[i].0, Some(es[i].1))
  {
    seq(|es|, i requires 0 <= i < |es| => (es[i].0, Some(es[i].1)))
  }

  /** `new Headers(init)` with the copy loop iterating the source's
      `entries()`; every other kind of `init` is handled as before. */
  function ConstructCorrected(init: Init): (r: Result<Table>)
    ensures !init.FromTable? ==> r == Construct(init)
  {
    if init.FromTable? then AppendAll(Empty, CopyPairs(Entries(init.source))) else Construct(init)
  }

  /** With the corrected loop, copying a table reproduces its contents,
      provided no name is one of the inherited members (for those `append`
      joins onto the inherited value, as it does everywhere). */
  lemma CorrectedCopyReproduces(src: Table)
    requires Valid(src)
    requires forall n :: n in src.values ==> !IsProtoMember(n)
    ensures ConstructCorrected(FromTable(src)).Success?
    ensures ConstructCorrected(FromTable(src)).value.values == src.values
    ensures forall n :: Find(ConstructCorrected(FromTable(src)).value, n) == Find(src, n)
  {
    var es := Entries(src);
    EntriesCopyable(src);
    CopyAll(Empty, es);
    EntriesMap(src);
    assert Empty.values + PairsMap(es) == PairsMap(es);
  }

  /** The entries of a table without inherited names meet what `CopyAll`
      asks of them. */
  lemma EntriesCopyable(src: Table)
    requires Valid(src)
    requires forall n :: n in src.values ==> !IsProtoMember(n)
    ensures NamesOnce(Entries(src))
    ensures forall i :: 0 <= i < |Entries(src)| ==>
      && Entries(src)[i].0 !in Empty.values && !IsProtoMember(Entries(src)[i].0)
      && IsToken(Entries(src)[i].0) && IsLowerCase(Entries(src)[i].0) && IsFieldValue(Entries(src)[i].1)
  {
    var es := Entries(src);
    EntriesSpec(src);
    EntriesOnce(src);
    forall i | 0 <= i < |es|
      ensures es[i].0 in src.values && es[i].1 == src.values[es[i].0]
    {
      assert es[i] in es;
    }
  }

  /** The object the entries describe is the table's. */
  lemma EntriesMap(src: Table)
    requires Valid(src)
    ensures PairsMap(Entries(src)) == src.values
  {
    var es := Entries(src);
    EntriesSpec(src);
    PairsMapSpec(es);
    var m := PairsMap(es);
    forall n | n in m
      ensures n in src.values && m[n] == src.values[n]
    {
      assert (n, m[n]) in es;
    }
    forall n | n in src.values
      ensures n in m
    {
      assert (n, src.values[n]) in es;
    }
  }

  /** No name occurs twice. */
  predicate NamesOnce(es: seq<(string, string)>) {
    forall i, j :: 0 <= i < j < |es| ==> es[i].0 != es[j].0
  }

  /** The object a list of pairs describes, later pairs winning. */
  function PairsMap(es: seq<(string, string)>): map<string, string> {
    if |es| == 0 then map[] else PairsMap(es[1..])[es[0].0 := es[0].1]
  }

  lemma {:induction false} PairsMapSpec(es: seq<(string, string)>)
    ensures forall n :: n in PairsMap(es) ==> (n, PairsMap(es)[n]) in es
    ensures forall p :: p in es ==> p.0 in PairsMap(es)
  {
    if |es| > 0 {
      PairsMapSpec(es[1..]);
      assert forall p :: p in es ==> p == es[0] || p in es[1..];
    }
  }

  /** A lower-case token is its own normalised name. */
  lemma LowerTokenNormal(n: string)
    requires IsToken(n) && IsLowerCase(n)
    ensures NormalizeName(n) == Success(n)
  {
    forall i | 0 <= i < |n|
      ensures ToLower(n)[i] == n[i]
    {
      TCharFacts(n[i]);
    }
    assert ToLower(n) == n;
  }

  /** Appending pairs with fresh, distinct, valid names adds exactly those
      pairs. */
  lemma {:induction false} CopyAll(h: Table, es: seq<(string, string)>)
    requires NamesOnce(es)
    requires forall i :: 0 <= i < |es| ==>
      && es[i].0 !in h.values && !IsProtoMember(es[i].0)
      && IsToken(es[i].0) && IsLowerCase(es[i].0) && IsFieldValue(es[i].1)
    ensures AppendAll(h, CopyPairs(es)).Success?
    ensures AppendAll(h, CopyPairs(es)).value.values == h.values + PairsMap(es)
    decreases |es|
  {
    if |es| > 0 {
      var (n, v) := es[0];
      var h', rest := Store(h, n, v), es[1..];
      CopyStep(h, es);
      assert forall i :: 0 <= i < |rest| ==> rest[i] == es[i + 1];
      CopyAll(h', rest);
      PairsMapSpec(rest);
      assert forall k :: 0 <= k < |rest| ==> rest[k].0 != n;
      MapShift(h.values, n, v, PairsMap(rest));
    }
  }

  lemma CopyStep(h: Table, es: seq<(string, string)>)
    requires |es| > 0 && es[0].0 !in h.values && !IsProtoMember(es[0].0)
    requires IsToken(es[0].0) && IsLowerCase(es[0].0) && IsFieldValue(es[0].1)
    ensures AppendAll(h, CopyPairs(es)) == AppendAll(Store(h, es[0].0, es[0].1), CopyPairs(es[1..]))
  {
    LowerTokenNormal(es[0].0);
    assert Append(h, es[0].0, Some(es[0].1)) == Success(Store(h, es[0].0, es[0].1));
    assert CopyPairs(es)[1..] == CopyPairs(es[1..]);
  }

  lemma MapShift(a: map<string, string>, n: string, v: string, m: map<string, string>)
    requires n !in m
    ensures a[n := v] + m == a + m[n := v]
  {
  }

  /** Iteration lists each name once. */
  lemma EntriesOnce(h: Table)
    requires Valid(h)
    ensures NamesOnce(Entries(h))
  {
    var ps := PairsOf(h.order, h.values);
    var es := Entries(h);
    PairsOfOnce(h.order, h.values);
    OnceCounts(ps);
    OwnEntriesSpec(ps);
    CountsOnce(es);
    EntriesSpec(h);
    forall i, j | 0 <= i < j < |es|
      ensures es[i].0 != es[j].0
    {
      assert es[i] in es && es[j] in es;
    }
  }

  lemma {:induction false} PairsOfOnce(order: seq<string>, values: map<string, string>)
    requires Distinct(order)
    ensures forall i :: 0 <= i < |PairsOf(order, values)| ==> PairsOf(order, values)[i].0 in order
    ensures NamesOnce(PairsOf(order, values))
  {
    if |order| > 0 {
      var rest := order[1..];
      assert Distinct(rest) by {
        assert forall i :: 0 <= i < |rest| ==> rest[i] == order[i + 1];
      }
      PairsOfOnce(rest, values);
      assert order[0] !in rest by {
        assert forall i :: 0 <= i < |rest| ==> rest[i] == order[i + 1];
      }
    }
  }

  /** A sequence without repeats holds each element at most once. */
  lemma {:induction false} OnceCounts<T>(s: seq<T>)
    requires forall i, j :: 0 <= i < j < |s| ==> s[i] != s[j]
    ensures forall x :: multiset(s)[x] <= 1
  {
    if |s| > 0 {
      var rest := s[1..];
      assert forall i :: 0 <= i < |rest| ==> rest[i] == s[i + 1];
      OnceCounts(rest);
      assert s == [s[0]] + rest;
      assert s[0] !in rest;
      assert multiset(s) == multiset{s[0]} + multiset(rest);
    }
  }

  /** A sequence that holds each element at most once has no repeats. */
  lemma {:induction false} CountsOnce<T>(s: seq<T>)
    requires forall x :: multiset(s)[x] <= 1
    ensures forall i, j :: 0 <= i < j < |s| ==> s[i] != s[j]
  {
    if |s| > 0 {
      var rest := s[1..];
      assert s == [s[0]] + rest;
      assert multiset(s) == multiset{s[0]} + multiset(rest);
      forall x
        ensures multiset(rest)[x] <= 1
      {
        assert multiset(s)[x] == multiset{s[0]}[x] + multiset(rest)[x];
      }
      CountsOnce(rest);
      assert s[0] !in rest by {
        assert multiset(s)[s[0]] == 1 + multiset(rest)[s[0]];
      }
      forall i, j | 0 <= i < j < |s|
        ensures s[i] != s[j]
      {
        assert s[j] == rest[j - 1];
        if i > 0 {
          assert s[i] == rest[i - 1];
        }
      }
    }
  }
}

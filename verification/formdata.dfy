/** `class FormData`: an ordered list of (name, value) pairs in which a name
    may repeat. File entries are refused. */
module FormData {
  import opened Js

  datatype Form = Form(entries: seq<(string, string)>)

  /** What a mutator leaves behind: the contents afterwards and the error it
      threw, if it threw one. */
  datatype Mutation = Mutation(form: Form, thrown: Option<Error>)

  const FilesUnsupported := TypeError("Osgood currently doesn't support files")

  /** `toString()`. */
  const Tag := "[object FormData]"

  /** A filename argument is truthy when it is given and non-empty;
      `None` stands for undefined or any other falsy argument. */
  predicate Truthy(filename: Option<string>) {
    filename.Some? && filename.value != ""
  }

  /** `new FormData(form)`: any truthy `form` argument is refused. */
  function New(formGiven: bool): (r: Result<Form>)
    ensures r.Success? <==> !formGiven
    ensures r.Success? ==> r.value.entries == []
  {
    if formGiven then Failure(TypeError("Osgood FormData doesn't support a form argument"))
    else Success(Form([]))
  }

  // ---------------------------------------------------------------------
  // Queries

  /** The values stored under `name`, in insertion order. */
  function Matching(es: seq<(string, string)>, name: string): (r: seq<string>)
    ensures |r| <= |es|
    ensures forall v :: v in r <==> (name, v) in es
  {
    if |es| == 0 then []
    else
      assert forall e :: e in es <==> e == es[0] || e in es[1..];
      if es[0].0 == name then [es[0].1] + Matching(es[1..], name) else Matching(es[1..], name)
  }

  function GetAll(f: Form, name: string): (r: seq<string>)
    ensures |r| <= |f.entries|
    ensures forall v :: v in r <==> (name, v) in f.entries
  {
    Matching(f.entries, name)
  }

  function First(es: seq<(string, string)>, name: string): Option<string> {
    if |es| == 0 then None
    else if es[0].0 == name then Some(es[0].1)
    else First(es[1..], name)
  }

  /** The first value stored under `name`, or undefined. */
  function Get(f: Form, name: string): (r: Option<string>)
    ensures r.Some? <==> GetAll(f, name) != []
    ensures r.Some? ==> r.value == GetAll(f, name)[0]
  {
    FirstIsHeadOfMatching(f.entries, name);
    First(f.entries, name)
  }

  lemma {:induction false} FirstIsHeadOfMatching(es: seq<(string, string)>, name: string)
    ensures First(es, name).Some? <==> Matching(es, name) != []
    ensures First(es, name).Some? ==> First(es, name).value == Matching(es, name)[0]
  {
    if |es| > 0 {
      FirstIsHeadOfMatching(es[1..], name);
    }
  }

  function AnyNamed(es: seq<(string, string)>, name: string): bool {
    if |es| == 0 then false else es[0].0 == name || AnyNamed(es[1..], name)
  }

  function Has(f: Form, name: string): (r: bool)
    ensures r <==> exists i :: 0 <= i < |f.entries| && f.entries[i].0 == name
  {
    AnyNamedSpec(f.entries, name);
    AnyNamed(f.entries, name)
  }

  lemma {:induction false} AnyNamedSpec(es: seq<(string, string)>, name: string)
    ensures AnyNamed(es, name) <==> exists i :: 0 <= i < |es| && es[i].0 == name
  {
    if |es| > 0 {
      AnyNamedSpec(es[1..], name);
      if exists i :: 0 <= i < |es| && es[i].0 == name {
        var i :| 0 <= i < |es| && es[i].0 == name;
        if i > 0 { assert es[1..][i - 1].0 == name; }
      }
      if exists i :: 0 <= i < |es[1..]| && es[1..][i].0 == name {
        var i :| 0 <= i < |es[1..]| && es[1..][i].0 == name;
        assert es[i + 1].0 == name;
      }
    }
  }

  /** `keys()`. */
  function Keys(f: Form): (r: seq<string>)
    ensures |r| == |f.entries|
    ensures forall i :: 0 <= i < |r| ==> r[i] == f.entries[i].0
  {
    seq(|f.entries|, i requires 0 <= i < |f.entries| => f.entries[i].0)
  }

  /** `values()`. */
  function Values(f: Form): (r: seq<string>)
    ensures |r| == |f.entries|
    ensures forall i :: 0 <= i < |r| ==> r[i] == f.entries[i].1
  {
    seq(|f.entries|, i requires 0 <= i < |f.entries| => f.entries[i].1)
  }

  // ---------------------------------------------------------------------
  // Mutators

  /** `append(name, value, filename)`: a truthy filename throws before
      anything is stored. */
  function Append(f: Form, name: string, value: string, filename: Option<string>): (r: Mutation)
    ensures r.thrown.Some? <==> Truthy(filename)
    ensures r.thrown.Some? ==> r.form == f && r.thrown.value.TypeError?
    ensures r.thrown.None? ==> r.form.entries == f.entries + [(name, value)]
  {
    if Truthy(filename) then Mutation(f, Some(FilesUnsupported))
    else Mutation(Form(f.entries + [(name, value)]), None)
  }

  function Keep(es: seq<(string, string)>, name: string): seq<(string, string)> {
    if |es| == 0 then []
    else if es[0].0 == name then Keep(es[1..], name)
    else [es[0]] + Keep(es[1..], name)
  }

  /** `delete(name)`: drops every entry with that name. */
  function Delete(f: Form, name: string): (r: Form)
    ensures !Has(r, name)
    ensures forall m :: m != name ==> GetAll(r, m) == GetAll(f, m)
    ensures |r.entries| == |f.entries| - |GetAll(f, name)|
  {
    KeepSpec(f.entries, name);
    Form(Keep(f.entries, name))
  }

  lemma {:induction false} KeepSpec(es: seq<(string, string)>, name: string)
    ensures forall i :: 0 <= i < |Keep(es, name)| ==> Keep(es, name)[i].0 != name
    ensures forall m :: m != name ==> Matching(Keep(es, name), m) == Matching(es, m)
    ensures |Keep(es, name)| == |es| - |Matching(es, name)|
  {
    if |es| > 0 {
      KeepSpec(es[1..], name);
      if es[0].0 != name {
        var k := [es[0]] + Keep(es[1..], name);
        assert k[1..] == Keep(es[1..], name);
      }
    }
  }

  /** `set(name, value, filename)`: deletes, then appends; with a truthy
      filename the deletion has already happened when it throws. */
  function Set(f: Form, name: string, value: string, filename: Option<string>): (r: Mutation)
    ensures r.thrown.Some? <==> Truthy(filename)
    ensures r.thrown.Some? ==> r.form == Delete(f, name)
    ensures r.thrown.None? ==> GetAll(r.form, name) == [value]
    ensures r.thrown.None? ==> r.form.entries[|r.form.entries| - 1] == (name, value)
    ensures r.thrown.None? ==> r.form.entries == Delete(f, name).entries + [(name, value)]
    ensures forall m :: m != name ==> GetAll(r.form, m) == GetAll(f, m)
  {
    var d := Delete(f, name);
    MatchingSplit(d.entries, [(name, value)], name);
    forall m | m != name
      ensures Matching(d.entries + [(name, value)], m) == GetAll(f, m)
    {
      MatchingSplit(d.entries, [(name, value)], m);
    }
    NoMatches(d.entries, name);
    Append(d, name, value, filename)
  }

  lemma {:induction false} NoMatches(es: seq<(string, string)>, name: string)
    requires forall i :: 0 <= i < |es| ==> es[i].0 != name
    ensures Matching(es, name) == []
  {
    if |es| > 0 { NoMatches(es[1..], name); }
  }

  // ---------------------------------------------------------------------
  // Properties

  /** Looking a name up distributes over concatenation. */
  lemma {:induction false} MatchingSplit(a: seq<(string, string)>, b: seq<(string, string)>, name: string)
    ensures Matching(a + b, name) == Matching(a, name) + Matching(b, name)
  {
    if |a| > 0 {
      MatchingSplit(a[1..], b, name);
      assert (a + b)[1..] == a[1..] + b;
    } else {
      assert a + b == b;
    }
  }

  /** Deletion keeps the surviving entries in their original relative order. */
  lemma {:induction false} DeleteKeepsOrder(a: seq<(string, string)>, b: seq<(string, string)>, name: string)
    ensures Delete(Form(a + b), name).entries == Delete(Form(a), name).entries + Delete(Form(b), name).entries
  {
    if |a| > 0 {
      DeleteKeepsOrder(a[1..], b, name);
      assert (a + b)[1..] == a[1..] + b;
    } else {
      assert a + b == b;
    }
  }

  /** `append` adds to the end of `getAll`; `get` keeps answering with the
      first value; `has` turns true. */
  lemma AppendThenQuery(f: Form, name: string, value: string)
    ensures var g := Append(f, name, value, None).form;
      && GetAll(g, name) == GetAll(f, name) + [value]
      && Get(g, name) == (if Has(f, name) then Get(f, name) else Some(value))
      && Has(g, name)
  {
    MatchingSplit(f.entries, [(name, value)], name);
    var g := Append(f, name, value, None).form;
    assert g.entries[|f.entries|].0 == name;
    if !Has(f, name) { NoMatches(f.entries, name); }
    else {
      var i :| 0 <= i < |f.entries| && f.entries[i].0 == name;
      assert f.entries[i].1 in GetAll(f, name);
    }
  }

  /** `has` is true exactly when `getAll` is non-empty, i.e. when the name is
      among `keys()`. */
  lemma HasIffKey(f: Form, name: string)
    ensures Has(f, name) <==> GetAll(f, name) != []
    ensures Has(f, name) <==> name in Keys(f)
  {
    if Has(f, name) {
      var i :| 0 <= i < |f.entries| && f.entries[i].0 == name;
      assert f.entries[i] in f.entries;
      assert f.entries[i].1 in GetAll(f, name);
    }
    if GetAll(f, name) != [] {
      var v := GetAll(f, name)[0];
      assert (name, v) in f.entries;
    }
    if name in Keys(f) {
      var i :| 0 <= i < |Keys(f)| && Keys(f)[i] == name;
    }
  }
}

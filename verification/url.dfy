/** The parts of a WHATWG URL the router reads or writes, and the
    `URLSearchParams.set` operation (section 6.2 of the WHATWG URL Standard). */
module Url {

  /** One name-value pair of a query string, in its parsed (decoded) form. */
  datatype Param = Param(name: string, value: string)

  /** `host` is the URL's host with its port, as the `host` accessor shows it;
      `query` is the list of search parameters, in order. */
  datatype Url = Url(scheme: string, host: string, pathname: string, query: seq<Param>, hash: string)

  /** The values of the entries called `name`, in order. */
  function Values(q: seq<Param>, name: string): (vs: seq<string>)
    ensures |vs| <= |q|
    ensures (forall i :: 0 <= i < |q| ==> q[i].name != name) <==> vs == []
  {
    if |q| == 0 then []
    else (if q[0].name == name then [q[0].value] else []) + Values(q[1..], name)
  }

  /** The entries not called `name`, in order. */
  function Others(q: seq<Param>, name: string): (os: seq<Param>)
    ensures |os| <= |q|
    ensures forall i :: 0 <= i < |os| ==> os[i].name != name
    ensures (forall i :: 0 <= i < |q| ==> q[i].name != name) ==> os == q
  {
    if |q| == 0 then []
    else (if q[0].name == name then [] else [q[0]]) + Others(q[1..], name)
  }

  predicate Has(q: seq<Param>, name: string) {
    exists i :: 0 <= i < |q| && q[i].name == name
  }

  /** The index of the first entry called `name`. */
  function FirstIndex(q: seq<Param>, name: string): (i: nat)
    requires Has(q, name)
    ensures i < |q| && q[i].name == name
    ensures forall j :: 0 <= j < i ==> q[j].name != name
  {
    if q[0].name == name then 0
    else
      assert Has(q[1..], name) by {
        var k :| 0 <= k < |q| && q[k].name == name;
        assert q[1..][k - 1].name == name;
      }
      1 + FirstIndex(q[1..], name)
  }

  lemma {:induction false} ValuesConcat(a: seq<Param>, b: seq<Param>, name: string)
    ensures Values(a + b, name) == Values(a, name) + Values(b, name)
  {
    if |a| == 0 {
      assert a + b == b;
    } else {
      assert (a + b)[1..] == a[1..] + b;
      ValuesConcat(a[1..], b, name);
    }
  }

  lemma {:induction false} OthersConcat(a: seq<Param>, b: seq<Param>, name: string)
    ensures Others(a + b, name) == Others(a, name) + Others(b, name)
  {
    if |a| == 0 {
      assert a + b == b;
    } else {
      assert (a + b)[1..] == a[1..] + b;
      OthersConcat(a[1..], b, name);
    }
  }

  /** `q` cut around its first entry called `name`. */
  lemma SplitAtFirst(q: seq<Param>, name: string)
    requires Has(q, name)
    ensures var i := FirstIndex(q, name);
      && q == q[..i] + [q[i]] + q[i + 1..]
      && Values(q[..i], name) == []
      && Others(q[..i], name) == q[..i]
  {
    var i := FirstIndex(q, name);
    assert q == q[..i] + [q[i]] + q[i + 1..];
  }

  /** `URLSearchParams.set(name, value)`: replaces the first entry called
      `name` and drops the later ones, or appends the entry when there is
      none. Its meaning is stated by `SetSpec`. */
  function Set(q: seq<Param>, name: string, value: string): seq<Param> {
    var p := Param(name, value);
    if Has(q, name) then
      var i := FirstIndex(q, name);
      q[..i] + [p] + Others(q[i + 1..], name)
    else q + [p]
  }

  /** Afterwards there is exactly one entry called `name` and its value is
      `value`; every other entry is kept, in order. An existing entry keeps
      its position; a new one goes at the end. */
  lemma SetSpec(q: seq<Param>, name: string, value: string)
    ensures Values(Set(q, name, value), name) == [value]
    ensures Others(Set(q, name, value), name) == Others(q, name)
    ensures Has(q, name) ==>
      (FirstIndex(q, name) < |Set(q, name, value)|
       && Set(q, name, value)[..FirstIndex(q, name)] == q[..FirstIndex(q, name)]
       && Set(q, name, value)[FirstIndex(q, name)] == Param(name, value))
    ensures !Has(q, name) ==> Set(q, name, value) == q + [Param(name, value)]
  {
    if Has(q, name) {
      SetPresent(q, name, value);
    } else {
      var p := Param(name, value);
      OthersConcat(q, [p], name);
      ValuesConcat(q, [p], name);
    }
  }

  /** `Set` on a list that has `name`: the first entry is replaced and the
      later ones dropped. */
  lemma SetPresent(q: seq<Param>, name: string, value: string)
    requires Has(q, name)
    ensures Values(Set(q, name, value), name) == [value]
    ensures Others(Set(q, name, value), name) == Others(q, name)
    ensures FirstIndex(q, name) < |Set(q, name, value)|
    ensures Set(q, name, value)[..FirstIndex(q, name)] == q[..FirstIndex(q, name)]
    ensures Set(q, name, value)[FirstIndex(q, name)] == Param(name, value)
  {
    var p := Param(name, value);
    var i := FirstIndex(q, name);
    var pre, post := q[..i], q[i + 1..];
    var rest := Others(post, name);
    SplitAtFirst(q, name);
    assert Set(q, name, value) == pre + [p] + rest;
    assert (pre + [p] + rest)[..i] == pre;
    SetPresentValues(pre, p, rest, name);
    SetPresentOthers(pre, p, q[i], post, name);
  }

  lemma SetPresentValues(pre: seq<Param>, p: Param, rest: seq<Param>, name: string)
    requires Values(pre, name) == [] && p.name == name
    requires forall j :: 0 <= j < |rest| ==> rest[j].name != name
    ensures Values(pre + [p] + rest, name) == [p.value]
  {
    ValuesConcat(pre + [p], rest, name);
    ValuesConcat(pre, [p], name);
  }

  lemma SetPresentOthers(pre: seq<Param>, p: Param, was: Param, post: seq<Param>, name: string)
    requires Others(pre, name) == pre && p.name == name && was.name == name
    ensures Others(pre + [p] + Others(post, name), name) == Others(pre + [was] + post, name)
  {
    var rest := Others(post, name);
    OthersConcat(pre + [p], rest, name);
    OthersConcat(pre, [p], name);
    OthersConcat(pre + [was], post, name);
    OthersConcat(pre, [was], name);
  }

  /** On an empty query, `Set` gives the one entry. */
  lemma SetEmpty(name: string, value: string)
    ensures Set([], name, value) == [Param(name, value)]
  {
    assert !Has([], name);
  }

  /** Setting the same parameter twice is the same as setting it once. */
  lemma SetIdempotent(q: seq<Param>, name: string, value: string)
    ensures Set(Set(q, name, value), name, value) == Set(q, name, value)
  {
    var r := Set(q, name, value);
    SetSpec(q, name, value);
    assert Has(r, name) by {
      if Has(q, name) { assert r[FirstIndex(q, name)].name == name; }
      else { assert r[|q|].name == name; }
    }
    SetSingle(r, name, value);
  }

  /** On a list that already holds exactly `name = value` once, `Set` changes nothing. */
  lemma SetSingle(q: seq<Param>, name: string, value: string)
    requires Has(q, name)
    requires Values(q, name) == [value]
    ensures Set(q, name, value) == q
  {
    var i := FirstIndex(q, name);
    var pre, post := q[..i], q[i + 1..];
    SplitAtFirst(q, name);
    ValuesConcat(pre + [q[i]], post, name);
    ValuesConcat(pre, [q[i]], name);
    assert Values([q[i]], name) == [q[i].value];
    assert Values(post, name) == [];
    assert q[i] == Param(name, value);
    assert Others(post, name) == post;
    var r := Set(q, name, value);
    assert r == pre + [Param(name, value)] + Others(post, name);
  }
}

/** Placeholder substitution: before a step is sent, every stored variable
    is written into the step's endpoint and top-level request values. */
module Substitution {
  import opened Wrappers
  import opened Errors
  import opened Text
  import opened Json
  import opened VariableStore

  /** One variable's pass over an object's fields: a value that is exactly
      the JSON string `name` becomes the JSON string `value`. */
  function ReplaceTopLevel(fields: seq<(string, Json)>, name: string, value: string)
    : (r: seq<(string, Json)>)
    ensures |r| == |fields|
    ensures forall i :: 0 <= i < |r| ==> r[i].0 == fields[i].0
    ensures forall i :: 0 <= i < |r| && fields[i].1 == JStr(name) ==> r[i].1 == JStr(value)
    ensures forall i :: 0 <= i < |r| && fields[i].1 != JStr(name) ==> r[i].1 == fields[i].1
  {
    if |fields| == 0 then []
    else
      var v := if fields[0].1 == JStr(name) then JStr(value) else fields[0].1;
      [(fields[0].0, v)] + ReplaceTopLevel(fields[1..], name, value)
  }

  /** The substitution loop of a step, one stored variable at a time in
      store order: the endpoint gets every occurrence of the name replaced
      by the value with its `"` removed, then the request (which must be
      an object) gets its matching top-level values replaced. With an
      empty store the loop body never runs, so nothing is checked. */
  function Substitute(st: Store, endpoint: string, request: Json)
    : (r: Result<(string, Json), Error>)
    ensures |st| == 0 ==> r == Ok((endpoint, request))
    ensures |st| > 0 ==> (r.Ok? <==> request.JObj?)
    ensures |st| > 0 && r.Err? ==> r.error == RequestNotObject
    ensures |st| > 0 && r.Ok? ==>
              r.value.1.JObj? && KeysOf(r.value.1.fields) == KeysOf(request.fields)
    decreases |st|
  {
    if |st| == 0 then Ok((endpoint, request))
    else
      var name := st[0].0;
      var value := StripQuotes(st[0].1);
      var ep := ReplaceAll(endpoint, name, value);
      if !request.JObj? then Err(RequestNotObject)
      else Substitute(st[1..], ep, JObj(ReplaceTopLevel(request.fields, name, value)))
  }

  // Reference definitions: the loop seen from one endpoint or one value.

  /** The endpoint after every variable has been replaced, in store order. */
  function SubstituteEndpoint(st: Store, endpoint: string): string
    decreases |st|
  {
    if |st| == 0 then endpoint
    else SubstituteEndpoint(st[1..], ReplaceAll(endpoint, st[0].0, StripQuotes(st[0].1)))
  }

  /** What the loop does to one top-level request value. */
  function SubstituteValue(st: Store, v: Json): Json
    decreases |st|
  {
    if |st| == 0 then v
    else SubstituteValue(st[1..], if v == JStr(st[0].0) then JStr(StripQuotes(st[0].1)) else v)
  }

  /** `v` is the JSON string of some stored variable's name. */
  predicate IsPlaceholder(st: Store, v: Json) {
    exists j :: 0 <= j < |st| && v == JStr(st[j].0)
  }

  /** `v` is the JSON string of some stored value with its `"` removed. */
  predicate IsStrippedValue(st: Store, v: Json) {
    exists k :: 0 <= k < |st| && v == JStr(StripQuotes(st[k].1))
  }

  /** The substitution of a request object is field by field: keys and
      their order stay, and each value goes through `SubstituteValue`. */
  lemma {:induction false} SubstituteIsPointwise(st: Store, endpoint: string, fields: seq<(string, Json)>)
    ensures var r := Substitute(st, endpoint, JObj(fields));
            && r.Ok?
            && r.value.0 == SubstituteEndpoint(st, endpoint)
            && r.value.1.JObj?
            && |r.value.1.fields| == |fields|
            && forall i :: 0 <= i < |fields| ==>
                 r.value.1.fields[i] == (fields[i].0, SubstituteValue(st, fields[i].1))
    decreases |st|
  {
    if |st| > 0 {
      var name, value := st[0].0, StripQuotes(st[0].1);
      var fields' := ReplaceTopLevel(fields, name, value);
      var ep' := ReplaceAll(endpoint, name, value);
      SubstituteIsPointwise(st[1..], ep', fields');
    }
  }

  /** A value that is no placeholder passes through unchanged; a
      placeholder ends up as some stored value, quote-stripped, as a JSON
      string, whatever kind of JSON the value was captured from. */
  lemma {:induction false} SubstituteValueSpec(st: Store, v: Json)
    ensures !IsPlaceholder(st, v) ==> SubstituteValue(st, v) == v
    ensures IsPlaceholder(st, v) ==> IsStrippedValue(st, SubstituteValue(st, v))
    decreases |st|
  {
    if |st| > 0 {
      var tail := st[1..];
      if v == JStr(st[0].0) {
        var v' := JStr(StripQuotes(st[0].1));
        SubstituteValueSpec(tail, v');
        var r := SubstituteValue(st, v);
        if IsPlaceholder(tail, v') {
          var k :| 0 <= k < |tail| && r == JStr(StripQuotes(tail[k].1));
          assert r == JStr(StripQuotes(st[k + 1].1));
        } else {
          assert r == JStr(StripQuotes(st[0].1));
        }
      } else {
        SubstituteValueSpec(tail, v);
        if IsPlaceholder(st, v) {
          var j :| 0 <= j < |st| && v == JStr(st[j].0);
          assert v == JStr(tail[j - 1].0);
          var r := SubstituteValue(st, v);
          var k :| 0 <= k < |tail| && r == JStr(StripQuotes(tail[k].1));
          assert r == JStr(StripQuotes(st[k + 1].1));
        }
      }
    }
  }

  /** A stored value carries no `"` into the endpoint: every `"` of the
      substituted endpoint was already in the original. */
  lemma {:induction false} SubstituteEndpointQuotes(st: Store, endpoint: string)
    ensures '"' in SubstituteEndpoint(st, endpoint) ==> '"' in endpoint
    decreases |st|
  {
    if |st| > 0 {
      var value := StripQuotes(st[0].1);
      StripQuotesSpec(st[0].1);
      SubstituteEndpointQuotes(st[1..], ReplaceAll(endpoint, st[0].0, value));
    }
  }

  /** An endpoint that holds none of the (non-empty) variable names is
      left unchanged. */
  lemma {:induction false} SubstituteEndpointAbsent(st: Store, endpoint: string)
    requires forall j :: 0 <= j < |st| ==> |st[j].0| > 0 && !Contains(endpoint, st[j].0)
    ensures SubstituteEndpoint(st, endpoint) == endpoint
    decreases |st|
  {
    if |st| > 0 {
      ReplaceAllAbsent(endpoint, st[0].0, StripQuotes(st[0].1));
      SubstituteEndpointAbsent(st[1..], endpoint);
    }
  }

  /** With one stored variable the endpoint is exactly `replace` of the
      name by the quote-stripped value. */
  lemma SubstituteSingle(name: string, value: string, endpoint: string, request: Json)
    requires request.JObj?
    ensures var r := Substitute([(name, value)], endpoint, request);
            && r.Ok?
            && r.value.0 == ReplaceAll(endpoint, name, StripQuotes(value))
            && r.value.1 == JObj(ReplaceTopLevel(request.fields, name, StripQuotes(value)))
  {
  }

  /** The store's order matters: when one variable's value is another
      variable's name, the two orders give different endpoints. */
  lemma SubstitutionOrderMatters()
    ensures SubstituteEndpoint([("a", "b"), ("b", "c")], "a") == "c"
    ensures SubstituteEndpoint([("b", "c"), ("a", "b")], "a") == "b"
  {
    StripQuotesSpec("b");
    StripQuotesSpec("c");
    ReplaceAllSingleOccurrence("", "a", "", "b");
    ReplaceAllSingleOccurrence("", "b", "", "c");
    assert !Contains("a", "b");
    ReplaceAllAbsent("a", "b", "c");
    assert !Contains("b", "a");
    ReplaceAllAbsent("b", "a", "b");
  }
}

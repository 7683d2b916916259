/** Variable capture: after a step's response arrives, each capture spec
    `{"type": variable, "name": field}` stores the JSON text of the
    response's field under the variable's name. */
module Capture {
  import opened Wrappers
  import opened Errors
  import opened Text
  import opened Json
  import opened VariableStore

  /** A spec whose "type" and "name" are both strings; for any other spec
      the source's `as_str().unwrap()` panics. */
  predicate WellFormedSpec(spec: Json) {
    Field(spec, "type").JStr? && Field(spec, "name").JStr?
  }

  /** What gets stored for a response field: its compact JSON text, so a
      string keeps its surrounding quotes and a missing field is `null`. */
  function CapturedText(response: Json, field: string): (t: string)
    ensures !response.JObj? ==> t == "null"
    ensures response.JObj? && (forall i :: 0 <= i < |response.fields| ==> response.fields[i].0 != field)
            ==> t == "null"
    ensures Field(response, field).JStr? ==> |t| >= 2 && t[0] == '"' && t[|t| - 1] == '"'
  {
    ToText(Field(response, field))
  }

  /** The capture loop of one step, specs in order. */
  function CaptureAll(st: Store, specs: seq<Json>, response: Json): (r: Result<Store, Error>)
    ensures r.Ok? <==> forall i :: 0 <= i < |specs| ==> WellFormedSpec(specs[i])
    ensures r.Err? ==> r.error == MalformedCaptureSpec
    decreases |specs|
  {
    if |specs| == 0 then Ok(st)
    else
      match (Field(specs[0], "type"), Field(specs[0], "name"))
      case (JStr(variable), JStr(field)) =>
        var r := CaptureAll(Upsert(st, variable, CapturedText(response, field)), specs[1..], response);
        assert (forall i :: 0 <= i < |specs| ==> WellFormedSpec(specs[i]))
               <==> (forall i :: 0 <= i < |specs[1..]| ==> WellFormedSpec(specs[1..][i])) by {
          if forall i :: 0 <= i < |specs[1..]| ==> WellFormedSpec(specs[1..][i]) {
            forall i | 0 < i < |specs| ensures WellFormedSpec(specs[i]) {
              assert specs[i] == specs[1..][i - 1];
            }
          }
        }
        r
      case _ => Err(MalformedCaptureSpec)
  }

  /** The response field named by the LAST well-formed spec that captures
      into `variable`, if any spec does. */
  function LastTarget(specs: seq<Json>, variable: string): Option<string>
    decreases |specs|
  {
    if |specs| == 0 then None
    else
      var later := LastTarget(specs[1..], variable);
      if later.Some? then later
      else if Field(specs[0], "type") == JStr(variable) && Field(specs[0], "name").JStr? then
        Some(Field(specs[0], "name").s)
      else None
  }

  /** After a successful capture each variable holds the text of the
      field its last spec names, and a variable no spec names keeps its
      old value; the keys stay distinct. */
  lemma {:induction false} CaptureLastWins(st: Store, specs: seq<Json>, response: Json, variable: string)
    requires CaptureAll(st, specs, response).Ok?
    ensures var st' := CaptureAll(st, specs, response).value;
            && Get(st', variable) == (match LastTarget(specs, variable)
                                      case Some(f) => Some(CapturedText(response, f))
                                      case None => Get(st, variable))
            && (DistinctKeys(st) ==> DistinctKeys(st'))
    decreases |specs|
  {
    if |specs| > 0 {
      var t, f := Field(specs[0], "type").s, Field(specs[0], "name").s;
      var st1 := Upsert(st, t, CapturedText(response, f));
      UpsertGet(st, t, CapturedText(response, f));
      UpsertKeys(st, t, CapturedText(response, f));
      CaptureLastWins(st1, specs[1..], response, variable);
    }
  }

  /** One spec on the empty store yields exactly that variable, whatever
      order the spec's keys come in and whatever other keys it has. */
  lemma CaptureOne(spec: Json, variable: string, field: string, response: Json)
    requires Field(spec, "type") == JStr(variable) && Field(spec, "name") == JStr(field)
    ensures CaptureAll([], [spec], response) == Ok([(variable, CapturedText(response, field))])
  {
  }

  // Captured text at its point of use (after `"` removal).

  /** A captured plain string comes back as itself: the quotes the JSON
      text added are exactly what stripping removes. */
  lemma {:induction false} PlainStringAtUse(s: string)
    requires IsPlain(s)
    ensures StripQuotes(ToText(JStr(s))) == s
  {
    EscapeIdentity(s);
    StringText(s);
    var q := "\"";
    var t := q + (s + q);
    assert ToText(JStr(s)) == t;
    assert WithoutQuotes(q) == [];
    assert '"' !in s;
    StripQuotesFilters(s);
    StripQuotesSpec(s);
    assert WithoutQuotes(s) == s;
    WithoutQuotesConcat(s, q);
    WithoutQuotesConcat(q, s + q);
    StripQuotesFilters(t);
  }

  /** A captured integer number is used as its decimal text. */
  lemma NumberAtUse(n: int)
    requires IsIntegerNumber(n)
    ensures StripQuotes(ToText(JNum(n))) == IntToText(n)
  {
    TextQuotes(JNum(n));
    StripQuotesSpec(ToText(JNum(n)));
  }

  /** Plain text around a quote escapes to itself around `\"`. */
  lemma EscapeQuoteInside(a: string, b: string)
    requires IsPlain(a) && IsPlain(b)
    ensures Escape(a + "\"" + b) == a + "\\\"" + b
  {
    EscapeConcat(a + "\"", b);
    EscapeConcat(a, "\"");
    EscapeIdentity(a);
    EscapeIdentity(b);
    assert Escape("\"") == "\\\"";
  }

  /** Filtering the quoted literal of `a\"b` leaves `a\b`. */
  lemma FilterQuoteInside(a: string, b: string)
    requires '"' !in a && '"' !in b
    ensures WithoutQuotes("\"" + (a + "\\\"" + b) + "\"") == a + "\\" + b
  {
    var q, e := "\"", "\\\"";
    WithoutQuotesIdentity(a);
    WithoutQuotesIdentity(b);
    WithoutQuotesConcat(q, (a + e + b) + q);
    WithoutQuotesConcat(a + e + b, q);
    WithoutQuotesConcat(a + e, b);
    WithoutQuotesConcat(a, e);
    assert WithoutQuotes(q) == [];
    assert WithoutQuotes(e) == "\\";
    assert q + (a + e + b) + q == q + ((a + e + b) + q);
  }

  /** A captured string with a `"` inside is not given back: its escape
      `\"` loses only the quote, leaving the backslash. */
  lemma QuoteInsideAtUse(a: string, b: string)
    requires IsPlain(a) && IsPlain(b)
    ensures StripQuotes(ToText(JStr(a + "\"" + b))) == a + "\\" + b
  {
    var s := a + "\"" + b;
    StringText(s);
    EscapeQuoteInside(a, b);
    assert '"' !in a && '"' !in b;
    FilterQuoteInside(a, b);
    StripQuotesFilters(ToText(JStr(s)));
  }
}

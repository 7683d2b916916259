/** The benchmark run: test cases one after another, the steps of each in
    order, threading a variable store that starts empty for every test
    case. What the HTTP server and the judge answer for a step is given to
    the model as a `Reply`. */
module Runner {
  import opened Wrappers
  import opened Errors
  import opened Text
  import opened Json
  import opened VariableStore
  import opened Substitution
  import opened Capture
  import opened Score

  /** One request of a test case, as read from the test-case file. */
  datatype Step = Step(
    endpoint: string,
    httpMethod: string,
    request: Json,
    expectedResponse: Json,
    saveResponseToVariable: seq<Json>)

  /** A step as recorded in the results: substituted endpoint and request,
      the method as written, and the judge's score if one could be read. */
  datatype ScoredStep = ScoredStep(
    endpoint: string,
    httpMethod: string,
    request: Json,
    expectedResponse: Json,
    score: Option<nat>)

  datatype TestCase = TestCase(testCase: string, steps: seq<Step>)

  datatype ScoredTestCase = ScoredTestCase(testCase: string, steps: seq<ScoredStep>)

  /** What the outside world did with one step: the server's JSON response
      and the judge's text, or the failure of one of the two calls. */
  datatype Reply =
    | Answered(response: Json, judgeText: string)
    | TransportFailed
    | JudgeFailed

  datatype Method = Get | Post

  function MethodName(m: Method): string
  {
    match m
    case Get => "GET"
    case Post => "POST"
  }

  /** The method match: only the exact, upper-case names are accepted. */
  function ParseMethod(s: string): (r: Result<Method, Error>)
    ensures r.Ok? ==> MethodName(r.value) == s
    ensures r.Err? ==> r.error == UnknownMethod && forall m :: MethodName(m) != s
  {
    if s == "GET" then Ok(Get)
    else if s == "POST" then Ok(Post)
    else Err(UnknownMethod)
  }

  /** Every method's name parses back to it. */
  lemma MethodRoundTrip(m: Method)
    ensures ParseMethod(MethodName(m)) == Ok(m)
  {
    assert "GET" != "POST";
  }

  /** Lower-case and other verbs are refused. */
  lemma MethodExamples()
    ensures ParseMethod("get").Err?
    ensures ParseMethod("DELETE").Err?
    ensures ParseMethod("GET") == Ok(Get) && ParseMethod("POST") == Ok(Post)
  {
    assert "get" != "GET" by { assert "get"[0] != "GET"[0]; }
    assert "get" != "POST" by { assert "get"[0] != "POST"[0]; }
    assert "DELETE" != "GET" by { assert "DELETE"[0] != "GET"[0]; }
    assert "DELETE" != "POST" by { assert "DELETE"[0] != "POST"[0]; }
  }

  /** One step: method match, substitution, the HTTP call and the judge
      (the reply), capture, score extraction. The new store is returned
      for the following steps. The step completes exactly when each stage
      does; otherwise the first stage to fail gives the error. A judge
      answer without a trailing number does not fail the step. */
  function RunStep(step: Step, reply: Reply, st: Store): (r: Result<(ScoredStep, Store), Error>)
    ensures r.Ok? <==>
              && ParseMethod(step.httpMethod).Ok?
              && Substitute(st, step.endpoint, step.request).Ok?
              && reply.Answered?
              && CaptureAll(st, step.saveResponseToVariable, reply.response).Ok?
    ensures ParseMethod(step.httpMethod).Err? ==> r == Err(UnknownMethod)
    ensures r.Ok? ==>
              && ParseMethod(step.httpMethod).Ok?
              && reply.Answered?
              && r.value.0.httpMethod == step.httpMethod
              && r.value.0.expectedResponse == step.expectedResponse
              && r.value.0.score == ExtractScore(reply.judgeText)
              && Substitute(st, step.endpoint, step.request)
                 == Ok((r.value.0.endpoint, r.value.0.request))
              && CaptureAll(st, step.saveResponseToVariable, reply.response) == Ok(r.value.1)
  {
    var verb :- ParseMethod(step.httpMethod);
    var sub :- Substitute(st, step.endpoint, step.request);
    match reply
    case TransportFailed => Err(TransportFailure)
    case JudgeFailed => Err(JudgeFailure)
    case Answered(response, judgeText) =>
      var st' :- CaptureAll(st, step.saveResponseToVariable, response);
      Ok((ScoredStep(sub.0, step.httpMethod, sub.1, step.expectedResponse, ExtractScore(judgeText)), st'))
  }

  /** Which error a failing step gives: the stages are tried in source
      order (method, substitution, HTTP call, judge, capture) and the first
      one to fail decides. */
  lemma RunStepFailure(step: Step, reply: Reply, st: Store)
    ensures ParseMethod(step.httpMethod).Err? ==> RunStep(step, reply, st) == Err(UnknownMethod)
    ensures (ParseMethod(step.httpMethod).Ok? && Substitute(st, step.endpoint, step.request).Err?)
            ==> RunStep(step, reply, st) == Err(RequestNotObject)
    ensures (ParseMethod(step.httpMethod).Ok? && Substitute(st, step.endpoint, step.request).Ok?
             && reply.TransportFailed?)
            ==> RunStep(step, reply, st) == Err(TransportFailure)
    ensures (ParseMethod(step.httpMethod).Ok? && Substitute(st, step.endpoint, step.request).Ok?
             && reply.JudgeFailed?)
            ==> RunStep(step, reply, st) == Err(JudgeFailure)
    ensures (ParseMethod(step.httpMethod).Ok? && Substitute(st, step.endpoint, step.request).Ok?
             && reply.Answered? && CaptureAll(st, step.saveResponseToVariable, reply.response).Err?)
            ==> RunStep(step, reply, st) == Err(MalformedCaptureSpec)
  {
  }

  /** A judge answer with no trailing number is not an error: the step is
      recorded, with no score. */
  lemma UnscoredStepCompletes(step: Step, st: Store, response: Json, judgeText: string)
    requires ParseMethod(step.httpMethod).Ok?
    requires Substitute(st, step.endpoint, step.request).Ok?
    requires CaptureAll(st, step.saveResponseToVariable, response).Ok?
    requires !EndsWithDigit(judgeText)
    ensures RunStep(step, Answered(response, judgeText), st).Ok?
    ensures RunStep(step, Answered(response, judgeText), st).value.0.score == None
  {
  }

  /** The steps of one test case from store `st`; `replies[i]` is what
      step `i` got back. The first failing step ends the test case with
      its error and no scored steps. */
  function RunSteps(steps: seq<Step>, replies: seq<Reply>, st: Store)
    : (r: Result<seq<ScoredStep>, Error>)
    requires |replies| == |steps|
    ensures r.Ok? ==> |r.value| == |steps|
    ensures r.Ok? ==> forall i :: 0 <= i < |steps| ==> Keeps(steps[i], r.value[i])
    ensures (exists i :: 0 <= i < |steps| && ParseMethod(steps[i].httpMethod).Err?) ==> r.Err?
    decreases |steps|
  {
    if |steps| == 0 then Ok([])
    else
      match RunStep(steps[0], replies[0], st)
      case Err(e) => Err(e)
      case Ok(first) =>
        match RunSteps(steps[1..], replies[1..], first.1)
        case Err(e) => Err(e)
        case Ok(rest) =>
          KeepsStepsCons(steps, first.0, rest);
          Ok([first.0] + rest)
  }

  /** A scored step keeps its step's method, which is known, and its
      expected response. */
  predicate Keeps(step: Step, scored: ScoredStep) {
    && scored.httpMethod == step.httpMethod
    && scored.expectedResponse == step.expectedResponse
    && ParseMethod(step.httpMethod).Ok?
  }

  lemma KeepsStepsCons(steps: seq<Step>, head: ScoredStep, rest: seq<ScoredStep>)
    requires |steps| > 0 && |rest| == |steps| - 1
    requires Keeps(steps[0], head)
    requires forall i :: 0 <= i < |rest| ==> Keeps(steps[1..][i], rest[i])
    ensures forall i :: 0 <= i < |steps| ==> Keeps(steps[i], ([head] + rest)[i])
  {
    forall i | 1 <= i < |steps| ensures Keeps(steps[i], ([head] + rest)[i]) {
      assert steps[i] == steps[1..][i - 1] && ([head] + rest)[i] == rest[i - 1];
    }
  }

  /** One test case, from a fresh empty store. */
  function RunTestCase(tc: TestCase, replies: seq<Reply>): (r: Result<ScoredTestCase, Error>)
    requires |replies| == |tc.steps|
    ensures r.Ok? ==> r.value.testCase == tc.testCase && |r.value.steps| == |tc.steps|
    ensures r.Ok? ==> forall i :: 0 <= i < |tc.steps| ==>
                        && r.value.steps[i].httpMethod == tc.steps[i].httpMethod
                        && r.value.steps[i].expectedResponse == tc.steps[i].expectedResponse
                        && ParseMethod(tc.steps[i].httpMethod).Ok?
  {
    var steps :- RunSteps(tc.steps, replies, []);
    Ok(ScoredTestCase(tc.testCase, steps))
  }

  // The store each step sees.

  /** The store step `i` starts from: the captures of the steps before it,
      applied in order to `st`; `None` if one of them could not complete. */
  function StoreBefore(steps: seq<Step>, replies: seq<Reply>, st: Store, i: nat): Option<Store>
    requires |replies| == |steps| && i <= |steps|
    decreases i
  {
    if i == 0 then Some(st)
    else
      match replies[0]
      case Answered(response, _) =>
        (match CaptureAll(st, steps[0].saveResponseToVariable, response)
         case Ok(st') => StoreBefore(steps[1..], replies[1..], st', i - 1)
         case Err(_) => None)
      case _ => None
  }

  /** The store step `i` sees depends only on the steps before it: a
      step's own captures, and anything later, matter to later steps only. */
  lemma {:induction false} StoreBeforePrefix(steps: seq<Step>, replies: seq<Reply>, st: Store, i: nat)
    requires |replies| == |steps| && i <= |steps|
    ensures StoreBefore(steps, replies, st, i) == StoreBefore(steps[..i], replies[..i], st, i)
    decreases i
  {
    if i > 0 && replies[0].Answered? {
      var c := CaptureAll(st, steps[0].saveResponseToVariable, replies[0].response);
      if c.Ok? {
        StoreBeforePrefix(steps[1..], replies[1..], c.value, i - 1);
        assert steps[..i][1..] == steps[1..][..i - 1];
        assert replies[..i][1..] == replies[1..][..i - 1];
      }
    }
  }

  lemma StoreBeforeStep(steps: seq<Step>, replies: seq<Reply>, st: Store, st1: Store, i: nat)
    requires |replies| == |steps| && 1 <= i <= |steps|
    requires replies[0].Answered?
    requires CaptureAll(st, steps[0].saveResponseToVariable, replies[0].response) == Ok(st1)
    ensures StoreBefore(steps, replies, st, i) == StoreBefore(steps[1..], replies[1..], st1, i - 1)
  {
  }

  /** Step `i`'s record is what substitution with store `sb` and its own
      judge text give. */
  predicate RecordedWith(sb: Option<Store>, step: Step, reply: Reply, scored: ScoredStep) {
    && sb.Some?
    && reply.Answered?
    && Substitute(sb.value, step.endpoint, step.request) == Ok((scored.endpoint, scored.request))
    && scored.score == ExtractScore(reply.judgeText)
  }

  lemma RecordedShift(steps: seq<Step>, replies: seq<Reply>, out: seq<ScoredStep>, sb: Option<Store>, i: nat)
    requires |replies| == |steps| == |out| && 1 <= i < |steps|
    requires RecordedWith(sb, steps[1..][i - 1], replies[1..][i - 1], out[1..][i - 1])
    ensures RecordedWith(sb, steps[i], replies[i], out[i])
  {
    assert steps[1..][i - 1] == steps[i] && replies[1..][i - 1] == replies[i] && out[1..][i - 1] == out[i];
  }

  /** The step completes from the store it sees. */
  predicate StepCompletes(sb: Option<Store>, step: Step, reply: Reply) {
    sb.Some? && RunStep(step, reply, sb.value).Ok?
  }

  /** Every step before `j` completes from the store it sees. */
  predicate CompletesBefore(steps: seq<Step>, replies: seq<Reply>, st: Store, j: nat)
    requires |replies| == |steps| && j <= |steps|
  {
    forall i {:trigger StepCompletes(StoreBefore(steps, replies, st, i), steps[i], replies[i])} ::
      0 <= i < j ==> StepCompletes(StoreBefore(steps, replies, st, i), steps[i], replies[i])
  }

  /** Once the first step has completed, the steps before `j` complete
      exactly when the remaining steps before `j - 1` do, from the store
      the first step left. */
  lemma CompletesShift(steps: seq<Step>, replies: seq<Reply>, st: Store, first: (ScoredStep, Store), j: nat)
    requires |replies| == |steps| && 1 <= j <= |steps|
    requires RunStep(steps[0], replies[0], st) == Ok(first)
    ensures CompletesBefore(steps, replies, st, j)
            <==> CompletesBefore(steps[1..], replies[1..], first.1, j - 1)
  {
    var tail, rtail := steps[1..], replies[1..];
    forall i | 1 <= i < j
      ensures StepCompletes(StoreBefore(steps, replies, st, i), steps[i], replies[i])
              == StepCompletes(StoreBefore(tail, rtail, first.1, i - 1), tail[i - 1], rtail[i - 1])
    {
      StoreBeforeStep(steps, replies, st, first.1, i);
      assert tail[i - 1] == steps[i] && rtail[i - 1] == replies[i];
    }
    assert StepCompletes(StoreBefore(steps, replies, st, 0), steps[0], replies[0]);
    if CompletesBefore(tail, rtail, first.1, j - 1) {
      forall i | 1 <= i < j
        ensures StepCompletes(StoreBefore(steps, replies, st, i), steps[i], replies[i])
      {
        assert StepCompletes(StoreBefore(tail, rtail, first.1, i - 1), tail[i - 1], rtail[i - 1]);
      }
    }
    if CompletesBefore(steps, replies, st, j) {
      forall i | 0 <= i < j - 1
        ensures StepCompletes(StoreBefore(tail, rtail, first.1, i), tail[i], rtail[i])
      {
        assert StepCompletes(StoreBefore(steps, replies, st, i + 1), steps[i + 1], replies[i + 1]);
      }
    }
  }

  /** A test case's steps complete exactly when every step completes from
      the store the earlier steps' captures built. */
  lemma {:induction false} RunStepsCompletes(steps: seq<Step>, replies: seq<Reply>, st: Store)
    requires |replies| == |steps|
    ensures RunSteps(steps, replies, st).Ok? <==> CompletesBefore(steps, replies, st, |steps|)
    decreases |steps|
  {
    if |steps| > 0 {
      var r0 := RunStep(steps[0], replies[0], st);
      if r0.Ok? {
        RunStepsCompletes(steps[1..], replies[1..], r0.value.1);
        CompletesShift(steps, replies, st, r0.value, |steps|);
      } else {
        assert !StepCompletes(StoreBefore(steps, replies, st, 0), steps[0], replies[0]);
      }
    }
  }

  /** After a completed first step the test case goes on with the rest. */
  lemma RunStepsCons(steps: seq<Step>, replies: seq<Reply>, st: Store, first: (ScoredStep, Store))
    requires |replies| == |steps| && |steps| > 0
    requires RunStep(steps[0], replies[0], st) == Ok(first)
    ensures RunSteps(steps[1..], replies[1..], first.1).Err?
            ==> RunSteps(steps, replies, st) == Err(RunSteps(steps[1..], replies[1..], first.1).error)
  {
  }

  /** A failing first step fails the test case with its error. */
  lemma RunStepsFailsFirst(steps: seq<Step>, replies: seq<Reply>, st: Store)
    requires |replies| == |steps| && |steps| > 0
    ensures StoreBefore(steps, replies, st, 0) == Some(st)
    ensures var r0 := RunStep(steps[0], replies[0], st);
            r0.Err? ==> RunSteps(steps, replies, st) == Err(r0.error)
  {
  }

  /** When the steps before `j` complete and step `j` fails from the store
      it sees, the test case fails with step `j`'s error. */
  lemma {:induction false} RunStepsFailsAt(steps: seq<Step>, replies: seq<Reply>, st: Store, j: nat)
    requires |replies| == |steps| && j < |steps|
    requires CompletesBefore(steps, replies, st, j)
    ensures StoreBefore(steps, replies, st, j).Some?
    ensures var rj := RunStep(steps[j], replies[j], StoreBefore(steps, replies, st, j).value);
            rj.Err? ==> RunSteps(steps, replies, st) == Err(rj.error)
    decreases j
  {
    if j == 0 {
      RunStepsFailsFirst(steps, replies, st);
    } else {
      var first := CompletesFirst(steps, replies, st, j);
      RunStepsFailsAt(steps[1..], replies[1..], first.1, j - 1);
      RunStepsFailsLater(steps, replies, st, first, j);
    }
  }

  /** When the steps before `j >= 1` complete, the first step completes
      and the remaining steps before `j - 1` complete after it. */
  lemma CompletesFirst(steps: seq<Step>, replies: seq<Reply>, st: Store, j: nat)
    returns (first: (ScoredStep, Store))
    requires |replies| == |steps| && 1 <= j <= |steps|
    requires CompletesBefore(steps, replies, st, j)
    ensures RunStep(steps[0], replies[0], st) == Ok(first)
    ensures CompletesBefore(steps[1..], replies[1..], first.1, j - 1)
  {
    assert StepCompletes(StoreBefore(steps, replies, st, 0), steps[0], replies[0]);
    first := RunStep(steps[0], replies[0], st).value;
    CompletesShift(steps, replies, st, first, j);
  }

  /** The inductive step of `RunStepsFailsAt`: a failure of the remaining
      steps at `j - 1` is a failure of the whole at `j`. */
  lemma RunStepsFailsLater(steps: seq<Step>, replies: seq<Reply>, st: Store, first: (ScoredStep, Store), j: nat)
    requires |replies| == |steps| && 1 <= j < |steps|
    requires RunStep(steps[0], replies[0], st) == Ok(first)
    requires StoreBefore(steps[1..], replies[1..], first.1, j - 1).Some?
    requires var rj := RunStep(steps[1..][j - 1], replies[1..][j - 1],
                               StoreBefore(steps[1..], replies[1..], first.1, j - 1).value);
             rj.Err? ==> RunSteps(steps[1..], replies[1..], first.1) == Err(rj.error)
    ensures StoreBefore(steps, replies, st, j).Some?
    ensures var rj := RunStep(steps[j], replies[j], StoreBefore(steps, replies, st, j).value);
            rj.Err? ==> RunSteps(steps, replies, st) == Err(rj.error)
  {
    var tail, rtail := steps[1..], replies[1..];
    StoreBeforeStep(steps, replies, st, first.1, j);
    var sb := StoreBefore(tail, rtail, first.1, j - 1);
    assert tail[j - 1] == steps[j] && rtail[j - 1] == replies[j];
    var rj := RunStep(tail[j - 1], rtail[j - 1], sb.value);
    if rj.Err? {
      assert RunSteps(tail, rtail, first.1) == Err(rj.error);
      RunStepsCons(steps, replies, st, first);
    }
  }

  /** A failing test case fails at some step: the steps before it
      completed, and its error is the test case's error. */
  lemma {:induction false} RunStepsFailure(steps: seq<Step>, replies: seq<Reply>, st: Store)
    requires |replies| == |steps|
    requires RunSteps(steps, replies, st).Err?
    ensures exists j :: 0 <= j < |steps| && CompletesBefore(steps, replies, st, j)
              && StoreBefore(steps, replies, st, j).Some?
              && RunStep(steps[j], replies[j], StoreBefore(steps, replies, st, j).value)
                 == Err(RunSteps(steps, replies, st).error)
    decreases |steps|
  {
    var r0 := RunStep(steps[0], replies[0], st);
    if r0.Err? {
      assert CompletesBefore(steps, replies, st, 0);
      assert StoreBefore(steps, replies, st, 0) == Some(st);
    } else {
      var first := r0.value;
      RunStepsFailure(steps[1..], replies[1..], first.1);
      var k :| 0 <= k < |steps| - 1 && CompletesBefore(steps[1..], replies[1..], first.1, k)
               && StoreBefore(steps[1..], replies[1..], first.1, k).Some?
               && RunStep(steps[1..][k], replies[1..][k], StoreBefore(steps[1..], replies[1..], first.1, k).value)
                  == Err(RunSteps(steps[1..], replies[1..], first.1).error);
      CompletesShift(steps, replies, st, first, k + 1);
      StoreBeforeStep(steps, replies, st, first.1, k + 1);
      assert steps[1..][k] == steps[k + 1] && replies[1..][k] == replies[k + 1];
    }
  }

  /** A test case is recorded exactly when each of its steps completes,
      from the empty store and the captures of the steps before it. */
  lemma TestCaseCompletes(tc: TestCase, replies: seq<Reply>)
    requires |replies| == |tc.steps|
    ensures RunTestCase(tc, replies).Ok? <==> CompletesBefore(tc.steps, replies, [], |tc.steps|)
  {
    RunStepsCompletes(tc.steps, replies, []);
  }

  /** In a completed run every step was substituted with the store the
      earlier steps' captures built, and scored from its own judge text. */
  lemma {:induction false} StepsSeeEarlierCaptures(steps: seq<Step>, replies: seq<Reply>, st: Store)
    requires |replies| == |steps|
    requires RunSteps(steps, replies, st).Ok?
    ensures var out := RunSteps(steps, replies, st).value;
            forall i :: 0 <= i < |steps| ==>
              RecordedWith(StoreBefore(steps, replies, st, i), steps[i], replies[i], out[i])
    decreases |steps|
  {
    if |steps| > 0 {
      var out := RunSteps(steps, replies, st).value;
      var first := RunStep(steps[0], replies[0], st).value;
      var rest := RunSteps(steps[1..], replies[1..], first.1).value;
      assert out == [first.0] + rest;
      assert replies[0].Answered?;
      assert CaptureAll(st, steps[0].saveResponseToVariable, replies[0].response) == Ok(first.1);
      assert RecordedWith(Some(st), steps[0], replies[0], first.0);
      StepsSeeEarlierCaptures(steps[1..], replies[1..], first.1);
      forall i | 1 <= i < |steps|
        ensures RecordedWith(StoreBefore(steps, replies, st, i), steps[i], replies[i], out[i])
      {
        StoreBeforeStep(steps, replies, st, first.1, i);
        RecordedShift(steps, replies, out, StoreBefore(steps, replies, st, i), i);
      }
    }
  }

  /** The first step of a test case is sent exactly as written: the store
      is empty, so nothing is substituted and nothing is checked. */
  lemma FirstStepUnsubstituted(tc: TestCase, replies: seq<Reply>)
    requires |replies| == |tc.steps| && |tc.steps| > 0
    requires RunTestCase(tc, replies).Ok?
    ensures RunTestCase(tc, replies).value.steps[0].endpoint == tc.steps[0].endpoint
    ensures RunTestCase(tc, replies).value.steps[0].request == tc.steps[0].request
  {
    StepsSeeEarlierCaptures(tc.steps, replies, []);
  }

  /** Capture then use: when the first step of a two-step test case has
      one capture spec, whose `type` is `variable` and whose `name` is
      `field` (in any key order, other keys allowed), the second step's
      endpoint has every occurrence of `variable` replaced by that field's
      JSON text without its quotes. */
  lemma CaptureThenUse(tc: TestCase, replies: seq<Reply>, variable: string, field: string)
    requires |tc.steps| == 2 && |replies| == 2
    requires |tc.steps[0].saveResponseToVariable| == 1
    requires Field(tc.steps[0].saveResponseToVariable[0], "type") == JStr(variable)
    requires Field(tc.steps[0].saveResponseToVariable[0], "name") == JStr(field)
    requires RunTestCase(tc, replies).Ok?
    ensures replies[0].Answered?
    ensures RunTestCase(tc, replies).value.steps[1].endpoint
            == ReplaceAll(tc.steps[1].endpoint, variable,
                          StripQuotes(CapturedText(replies[0].response, field)))
  {
    StepsSeeEarlierCaptures(tc.steps, replies, []);
    var specs := tc.steps[0].saveResponseToVariable;
    assert specs == [specs[0]];
    CaptureOne(specs[0], variable, field, replies[0].response);
    var st := [(variable, CapturedText(replies[0].response, field))];
    assert CaptureAll([], specs, replies[0].response) == Ok(st);
    assert StoreBefore(tc.steps, replies, [], 1) == Some(st);
    SubstituteSingle(variable, CapturedText(replies[0].response, field),
                     tc.steps[1].endpoint, tc.steps[1].request);
  }

  /** The end-to-end scenario: the first step's response carries a thread
      id among any other fields, captured as `id`; the second step's endpoint
      `/threads/id/messages` is recorded with the id written in. */
  lemma ThreadScenario(tc: TestCase, replies: seq<Reply>, thread: string)
    requires |tc.steps| == 2 && |replies| == 2
    requires |tc.steps[0].saveResponseToVariable| == 1
    requires Field(tc.steps[0].saveResponseToVariable[0], "type") == JStr("id")
    requires Field(tc.steps[0].saveResponseToVariable[0], "name") == JStr("thread_id")
    requires tc.steps[1].endpoint == "/threads/id/messages"
    requires replies[0].Answered? && Field(replies[0].response, "thread_id") == JStr(thread)
    requires IsPlain(thread)
    requires RunTestCase(tc, replies).Ok?
    ensures RunTestCase(tc, replies).value.steps[1].endpoint == "/threads/" + thread + "/messages"
  {
    CaptureThenUse(tc, replies, "id", "thread_id");
    PlainStringAtUse(thread);
    ThreadEndpoint(tc.steps[1].endpoint, thread);
  }

  lemma ThreadEndpoint(endpoint: string, thread: string)
    requires endpoint == "/threads/id/messages"
    ensures ReplaceAll(endpoint, "id", thread) == "/threads/" + thread + "/messages"
  {
    var before, after := "/threads/", "/messages";
    assert endpoint == before + "id" + after;
    assert 'i' !in before && 'i' !in after;
    ReplaceAllSingleOccurrence(before, "id", after, thread);
  }

  /** The outcome of a whole run: the test cases completed, in order
      (what the results file holds at the end), and the error that stopped
      the run, if one did. */
  datatype Run = Run(completed: seq<ScoredTestCase>, failure: Option<Error>)

  /** `replies[i][k]` is what step `k` of test case `i` got back. */
  predicate Aligned(tcs: seq<TestCase>, replies: seq<seq<Reply>>) {
    |replies| == |tcs| && forall i :: 0 <= i < |tcs| ==> |replies[i]| == |tcs[i].steps|
  }

  /** Test-case outcomes gathered in order until the first error: the
      completed ones are recorded and the error ends the run. */
  function Collect(outcomes: seq<Result<ScoredTestCase, Error>>): (r: Run)
    ensures |r.completed| <= |outcomes|
    ensures r.failure.None? <==> |r.completed| == |outcomes|
    ensures forall i :: 0 <= i < |r.completed| ==> outcomes[i] == Ok(r.completed[i])
    ensures r.failure.Some? ==> outcomes[|r.completed|] == Err(r.failure.value)
  {
    if |outcomes| == 0 then Run([], None)
    else
      match outcomes[0]
      case Err(e) => Run([], Some(e))
      case Ok(done) =>
        var rest := Collect(outcomes[1..]);
        var r := Run([done] + rest.completed, rest.failure);
        assert forall i :: 1 <= i < |r.completed| ==>
                 r.completed[i] == rest.completed[i - 1] && outcomes[i] == outcomes[1..][i - 1];
        r
  }

  /** All test cases in order; the first error stops the run, and the test
      case it happened in is not recorded. Test cases are independent (each
      starts from an empty store), so the outcome of one does not depend on
      the others. */
  function RunAll(tcs: seq<TestCase>, replies: seq<seq<Reply>>): (r: Run)
    requires Aligned(tcs, replies)
    ensures |r.completed| <= |tcs|
    ensures r.failure.None? <==> |r.completed| == |tcs|
    ensures forall i :: 0 <= i < |r.completed| ==> RunTestCase(tcs[i], replies[i]) == Ok(r.completed[i])
    ensures r.failure.Some? ==>
              RunTestCase(tcs[|r.completed|], replies[|r.completed|]) == Err(r.failure.value)
  {
    Collect(seq(|tcs|, i requires 0 <= i < |tcs| => RunTestCase(tcs[i], replies[i])))
  }

  /** A test case with a step whose method is not "GET" or "POST" stops the
      run there: neither it nor any later test case is recorded. */
  lemma UnknownMethodStopsRun(tcs: seq<TestCase>, replies: seq<seq<Reply>>, j: nat, k: nat)
    requires Aligned(tcs, replies)
    requires j < |tcs| && k < |tcs[j].steps| && ParseMethod(tcs[j].steps[k].httpMethod).Err?
    ensures RunAll(tcs, replies).failure.Some?
    ensures |RunAll(tcs, replies).completed| <= j
  {
    assert RunTestCase(tcs[j], replies[j]).Err?;
  }
}

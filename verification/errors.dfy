/** The ways a run of the benchmark can stop. Every one of them is fatal:
    the run ends and the error is reported. An unparseable judge score is
    not among them; it becomes an absent score instead. */
module Errors {

  datatype Error =
    | UnknownMethod          // the step's method is neither "GET" nor "POST"
    | RequestNotObject       // the store is non-empty and the request is not a JSON object
    | TransportFailure       // the HTTP call failed or its body was not JSON
    | JudgeFailure           // the scoring call failed
    | MalformedCaptureSpec   // a capture spec's "type" or "name" is not a string (an unwrap panic)
}

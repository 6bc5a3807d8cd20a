/** `ErrorTypeMapper`: how a failed service call becomes an HTTP problem
    response. */
module ErrorTypeMapper {
  import opened Errors
  import opened Text

  datatype Problem = Problem(title: string, detail: string, status: int)

  /** The HTTP status of one error type (`MapErrorTypeToStatusCode`). */
  function StatusCode(t: ErrorType): (code: int)
    ensures code == 400 <==> t.Failure? || t.Validation?
    ensures code == 409 <==> t.Conflict?
    ensures code == 404 <==> t.NotFound?
    ensures code == 401 <==> t.Unauthorized?
    ensures code == 403 <==> t.Forbidden?
    ensures code == 500 <==> t.Unexpected? || t.Custom?
  {
    match t
    case Failure => 400
    case Unexpected => 500
    case Validation => 400
    case Conflict => 409
    case NotFound => 404
    case Unauthorized => 401
    case Forbidden => 403
    case _ => 500
  }

  function Codes(errors: seq<Error>): (r: seq<string>)
    ensures |r| == |errors| && forall i :: 0 <= i < |errors| ==> r[i] == errors[i].code
  {
    seq(|errors|, i requires 0 <= i < |errors| => errors[i].code)
  }

  function Descriptions(errors: seq<Error>): (r: seq<string>)
    ensures |r| == |errors| && forall i :: 0 <= i < |errors| ==> r[i] == errors[i].description
  {
    seq(|errors|, i requires 0 <= i < |errors| => errors[i].description)
  }

  /** `MapErrorsToProblemResponse`: the status comes from the first error,
      the title and the detail list every error's code and description in
      order, separated by ", ". The error list of an `ErrorOr` is never
      empty. */
  function ProblemResponse(errors: seq<Error>): (p: Problem)
    requires |errors| > 0
    ensures p.status == StatusCode(errors[0].kind)
    ensures |errors| == 1 ==> p.title == errors[0].code && p.detail == errors[0].description
  {
    Problem(Join(Codes(errors), ", "), Join(Descriptions(errors), ", "), StatusCode(errors[0].kind))
  }

  /** Only the first error decides the status: errors after it never change
      it. */
  lemma StatusFromFirstErrorOnly(a: seq<Error>, b: seq<Error>)
    requires |a| > 0 && |b| > 0 && a[0].kind == b[0].kind
    ensures ProblemResponse(a).status == ProblemResponse(b).status
  {
  }

  /** The title holds every code once and a ", " between neighbours, and
      the detail likewise for the descriptions. */
  lemma ProblemTextLengths(errors: seq<Error>)
    requires |errors| > 0
    ensures |ProblemResponse(errors).title| == SumLengths(Codes(errors)) + 2 * (|errors| - 1)
    ensures |ProblemResponse(errors).detail| == SumLengths(Descriptions(errors)) + 2 * (|errors| - 1)
  {
    JoinLength(Codes(errors), ", ");
    JoinLength(Descriptions(errors), ", ");
  }

  /** With more than one error, the title is the first code, ", ", then the
      title the remaining errors would give; the detail likewise. So the
      title lists the codes in order and the detail the descriptions. */
  lemma ProblemTextComposition(errors: seq<Error>)
    requires |errors| > 1
    ensures ProblemResponse(errors).title == errors[0].code + ", " + ProblemResponse(errors[1..]).title
    ensures ProblemResponse(errors).detail == errors[0].description + ", " + ProblemResponse(errors[1..]).detail
  {
    assert Codes(errors)[1..] == Codes(errors[1..]);
    assert Descriptions(errors)[1..] == Descriptions(errors[1..]);
  }
}

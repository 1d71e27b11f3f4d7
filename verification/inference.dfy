/** What the script makes of the answers of the local model server. The HTTP exchange itself
    is not modelled: a `Response` is its outcome, the status code and the optional JSON
    `response` field. */
module Inference {
  import opened Wrappers

  datatype Response = Response(status: int, field: Option<string>)

  const Ok: int := 200
  const CaptionFailed: string := "Failed to generate caption"
  const NoCaption: string := "No caption generated"
  const DefaultSummary: string := "caption"

  /** The caption stored for an image: the model's text, a fallback for a missing field,
      or the failure text for any non-200 status: every status yields a caption string. */
  function CaptionOf(resp: Response): (c: string)
    ensures resp.status != Ok ==> c == CaptionFailed
    ensures resp.status == Ok && resp.field.Some? ==> c == resp.field.value
    ensures resp.status == Ok && resp.field.None? ==> c == NoCaption
  {
    if resp.status == Ok then resp.field.GetOr(NoCaption) else CaptionFailed
  }

  /** The raw label of the summariser: absent exactly when the status is not 200,
      `caption` when the field is missing. */
  function SummaryOf(resp: Response): (s: Option<string>)
    ensures s.None? <==> resp.status != Ok
    ensures s.Some? && resp.field.Some? ==> s.value == resp.field.value
    ensures s.Some? && resp.field.None? ==> s.value == DefaultSummary
  {
    if resp.status == Ok then Some(resp.field.GetOr(DefaultSummary)) else None
  }
}

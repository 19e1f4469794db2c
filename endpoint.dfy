/** The status-code decision of the `/extract` handler (app.py:169-204). */
module Endpoint {
  import opened Wrappers
  import opened Hosts
  import opened Resolver

  /** A reply: the HTTP status and the JSON body. */
  datatype Reply = Reply(status: int, body: Response)

  /** What `urlparse` makes of the URL: its network location, or the message
      of the `ValueError` it raises (for instance `Invalid IPv6 URL` on an
      unbalanced `[`). */
  datatype UrlParse = ParseError(message: string) | Netloc(host: string)

  const MissingUrlError: string := "Missing required parameter: url"
  const InvalidUrlError: string := "Invalid YouTube URL provided"
  const InternalErrorPrefix: string := "Internal server error: "

  /** `GET /extract?url=&format=`: `url` is the query parameter (`None` when
      absent), `parsed` what `urlparse` does with it, `format` the format
      parameter and `outcomes` what the library does per persona. Every reply
      has status 200, 400 or 500, and its body reports success exactly when
      the status is 200. */
  function ExtractReply(url: Option<string>, parsed: UrlParse, format: Option<string>, outcomes: seq<Upstream>): (r: Reply)
    requires |outcomes| == |Personas|
    ensures r.status == 200 || r.status == 400 || r.status == 500
    ensures r.body.Success? <==> r.status == 200
  {
    if url.None? || url.value == "" then Reply(400, Failure(MissingUrlError))
    else
      var formatPreference := if format.Some? then format.value else "m4a";
      match parsed
      case ParseError(message) =>
        // the handler's `except Exception` (lines 199-204)
        Reply(500, Failure(InternalErrorPrefix + message))
      case Netloc(host) =>
        if !IsValidYoutubeHost(host) then Reply(400, Failure(InvalidUrlError))
        else
          var result := Resolution(outcomes);
          Reply(if result.Success? then 200 else 500, result)
  }

  /** 400 for a missing or empty URL and for a host outside the allow-list,
      and 500 with the internal-error message when `urlparse` raises, all
      decided before extraction (the reply does not depend on the library);
      otherwise the body is the resolution result, with 200 exactly on
      success and 500 exactly on failure. The format parameter changes nothing. */
  lemma StatusMapping(url: Option<string>, parsed: UrlParse, format: Option<string>, outcomes: seq<Upstream>)
    requires |outcomes| == |Personas|
    ensures var r := ExtractReply(url, parsed, format, outcomes);
      var given := url.Some? && url.value != "";
      && (!given ==> r == Reply(400, Failure(MissingUrlError)))
      && (given && parsed.ParseError? ==> r == Reply(500, Failure(InternalErrorPrefix + parsed.message)))
      && (given && parsed.Netloc? && !IsValidYoutubeHost(parsed.host) ==> r == Reply(400, Failure(InvalidUrlError)))
      && (r.status == 400 <==> !given || (parsed.Netloc? && !IsValidYoutubeHost(parsed.host)))
      && (!given || parsed.ParseError? || !IsValidYoutubeHost(parsed.host) ==>
            forall other | |other| == |Personas| :: ExtractReply(url, parsed, format, other) == r)
      && (given && parsed.Netloc? && IsValidYoutubeHost(parsed.host) ==>
            && r.body == Resolution(outcomes)
            && (r.status == 200 <==> r.body.Success?)
            && (r.status == 500 <==> r.body.Failure?))
      && (forall f :: ExtractReply(url, parsed, f, outcomes) == r)
  {
  }
}

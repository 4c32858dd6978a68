/**
 The request `handleSubmit` hands to `fetch`: the URL and method of the
 form, the default `Content-Type` header with the user's headers spread
 over it, and a body only for methods other than GET. The body is the
 already serialised JSON payload, kept opaque as the type parameter B.
 */
module Dispatch {

  import opened Wrappers
  import opened HeaderText
  import Strings

  type HeaderMap = map<string, Option<string>>

  datatype Request<B> = Request(url: string, requestMethod: string, headers: HeaderMap, body: Option<B>)

  const ContentType: string := "Content-Type"
  const Json: string := "application/json"

  /** `{ 'Content-Type': 'application/json', ...user }` */
  function OutgoingHeaders(user: HeaderMap): (r: HeaderMap)
    ensures ContentType in r
    ensures r[ContentType] == if ContentType in user then user[ContentType] else Some(Json)
    ensures forall key :: key in user ==> key in r && r[key] == user[key]
    ensures forall key :: key in r ==> key in user || key == ContentType
  {
    map[ContentType := Some(Json)] + user
  }

  /** The options object of the `fetch` call, from the form's url, method
      and header text and the serialised body. */
  function BuildRequest<B>(url: string, requestMethod: string, headersText: string, payload: B): (r: Request<B>)
    ensures r.url == url && r.requestMethod == requestMethod
    ensures r.headers == OutgoingHeaders(ParseHeaders(headersText))
    ensures r.body.Some? <==> requestMethod != "GET"
    ensures r.body.Some? ==> r.body.value == payload
  {
    Request(url, requestMethod, OutgoingHeaders(ParseHeaders(headersText)),
            if requestMethod != "GET" then Some(payload) else None)
  }

  /** A header line of the form reaches the request unchanged, unless a
      later line has the same key. */
  lemma RequestCarriesHeaderLine<B>(url: string, requestMethod: string, headersText: string, payload: B, k: nat)
    requires k < |Strings.Split(headersText, '\n')|
    requires var lines := Strings.Split(headersText, '\n');
      forall j :: k < j < |lines| ==> ParseLine(lines[j]).0 != ParseLine(lines[k]).0
    ensures var line := ParseLine(Strings.Split(headersText, '\n')[k]);
      var headers := BuildRequest(url, requestMethod, headersText, payload).headers;
      line.0 in headers && headers[line.0] == line.1
  {
    ParseHeadersLast(headersText, k);
  }

  /** Content-Type is application/json unless some header line has exactly
      the key "Content-Type". */
  lemma DefaultContentType<B>(url: string, requestMethod: string, headersText: string, payload: B)
    requires var lines := Strings.Split(headersText, '\n');
      forall k :: 0 <= k < |lines| ==> ParseLine(lines[k]).0 != ContentType
    ensures BuildRequest(url, requestMethod, headersText, payload).headers[ContentType] == Some(Json)
  {
    ParseHeadersKeys(headersText, ContentType);
  }

}

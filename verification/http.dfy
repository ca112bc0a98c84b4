/** The part of an HTTP response the controllers decide: status, body and the headers they set. */
module Http {
  import opened Text

  datatype Response = Response(status: int, body: String, headers: map<String, String>)

  const ContentType: String := "Content-Type"

  /** Laminas `HtmlResponse` without explicit headers: an HTML content type is filled in. */
  function HtmlResponse(body: String, status: int): Response {
    Response(status, body, map[ContentType := "text/html; charset=utf-8"])
  }

  /** Laminas `JsonResponse`: the body is the JSON text, with a JSON content type. */
  function JsonResponse(body: String, status: int): Response {
    Response(status, body, map[ContentType := "application/json"])
  }
}

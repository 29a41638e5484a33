/** The parts of Laravel's `Request` and Symfony's `Response` that the middleware
    touches, with header bags as plain maps from header name to value. */
module Http {
  import opened Php

  const AcceptEncodingHeader := "Accept-Encoding"
  const ContentTypeHeader := "Content-Type"
  const ContentEncodingHeader := "Content-Encoding"

  /** The incoming request, seen through its headers. */
  datatype Request = Request(headers: map<string, string>)
  {
    /** `$request->header($name)`: the header's value, or `null` when absent. */
    function Header(name: string): Option<string>
    {
      if name in headers then Some(headers[name]) else None
    }
  }

  /** The value of a response: its body and its headers. */
  datatype ResponseView = ResponseView(content: string, headers: map<string, string>)

  /** The outgoing response, an object the middleware updates in place. */
  class Response {
    var content: string
    var headers: map<string, string>

    constructor (content: string, headers: map<string, string>)
      ensures View() == ResponseView(content, headers)
    {
      this.content := content;
      this.headers := headers;
    }

    function View(): ResponseView
      reads this
    {
      ResponseView(content, headers)
    }

    /** `$response->headers->has($name)`. */
    predicate HasHeader(name: string)
      reads this
    {
      name in headers
    }

    /** `$response->headers->set($name, $value)`: replaces any previous value and
        leaves the body and every other header alone. */
    method SetHeader(name: string, value: string)
      modifies this
      ensures View() == ResponseView(old(content), old(headers)[name := value])
    {
      headers := headers[name := value];
    }

    /** `$response->setContent($content)`: replaces the body and leaves the
        headers alone. */
    method SetContent(content: string)
      modifies this
      ensures View() == ResponseView(content, old(headers))
    {
      this.content := content;
    }
  }
}

/** The records passed between the parser, the handler and the connection. */
module Http {
  import opened Text

  datatype Header = Header(name: string, value: string)

  /** The contents of a request record. */
  datatype RequestData = RequestData(
    httpMethod: string,
    uri: string,
    major: UInt8,
    minor: UInt8,
    headers: seq<Header>)

  /** The request record that the parser fills in place. The version bytes of a new record
      are not initialised, so they are arbitrary. */
  class Request {
    var httpMethod: string
    var uri: string
    var major: UInt8
    var minor: UInt8
    var headers: seq<Header>

    function Data(): RequestData
      reads this
    {
      RequestData(httpMethod, uri, major, minor, headers)
    }

    constructor (major: UInt8, minor: UInt8)
      ensures Data() == RequestData("", "", major, minor, [])
    {
      httpMethod, uri, headers := "", "", [];
      this.major, this.minor := major, minor;
    }
  }

  /** The contents of a reply record; the status is the number behind the enumeration. */
  datatype ReplyData = ReplyData(status: int, headers: seq<Header>, content: string)

  /** The reply record that the handler fills in place. */
  class Reply {
    var status: int
    var headers: seq<Header>
    var content: string

    function Data(): ReplyData
      reads this
    {
      ReplyData(status, headers, content)
    }

    /** A new record has no headers and no content; its status is not initialised. */
    constructor (status: int)
      ensures Data() == ReplyData(status, [], "")
    {
      this.status, headers, content := status, [], "";
    }

    /** Whole-record assignment. */
    method Assign(r: ReplyData)
      modifies this
      ensures Data() == r
    {
      status, headers, content := r.status, r.headers, r.content;
    }
  }

  /** One line per header, as requests and replies carry them. */
  function HeadersText(headers: seq<Header>): string {
    if headers == [] then ""
    else headers[0].name + ": " + headers[0].value + CRLF + HeadersText(headers[1..])
  }

  lemma {:induction false} HeadersTextPush(headers: seq<Header>, h: Header)
    ensures HeadersText(headers + [h]) == HeadersText(headers) + (h.name + ": " + h.value + CRLF)
  {
    if headers == [] {
      assert headers + [h] == [h];
      assert h.name + ": " + h.value + CRLF + "" == "" + (h.name + ": " + h.value + CRLF);
    } else {
      assert (headers + [h])[1..] == headers[1..] + [h];
      HeadersTextPush(headers[1..], h);
      var line := headers[0].name + ": " + headers[0].value + CRLF;
      var last := h.name + ": " + h.value + CRLF;
      assert line + (HeadersText(headers[1..]) + last) == line + HeadersText(headers[1..]) + last;
    }
  }

  /** A request record before the first byte. */
  predicate Fresh(q: RequestData) {
    q.httpMethod == "" && q.uri == "" && q.headers == []
  }
}

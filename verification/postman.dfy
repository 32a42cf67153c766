/** The records the converter produces (a Postman collection v2.1.0 item) and the
    Burp Suite export record it reads. */
module Postman {
  import opened Wrappers

  /** One request header; `kind` is the JSON "type" field, always "text" here. */
  datatype Header = Header(key: string, value: string, kind: string)

  /** One query parameter: the text before the first '=' and the text after it. */
  datatype QueryParam = QueryParam(key: string, value: string)

  /** A decomposed URL: the host split on '.', the non-empty path segments, the query pairs. */
  datatype Url = Url(raw: string, protocol: string, host: seq<string>, path: seq<string>, query: seq<QueryParam>)

  /** The URL of a cURL line in which no URL was found: every field left empty. */
  const EmptyUrl := Url("", "", [], [], [])

  /** The body's language annotation; `Unset` stands for an absent options map. */
  datatype Language = Json | Xml | Javascript | Html | Text | Unset

  /** The name a language annotation carries in the output ("json", "xml", ...). */
  function LanguageName(l: Language): string {
    match l
    case Json => "json"
    case Xml => "xml"
    case Javascript => "javascript"
    case Html => "html"
    case Text => "text"
    case Unset => ""
  }

  /** A request body: its mode ("raw" when a body is present), the verbatim text and the language. */
  datatype Body = Body(mode: string, raw: string, language: Language)

  datatype AuthScheme = Bearer | Basic

  /** The single entry of the "bearer" or "basic" detail list. */
  datatype AuthDetail = AuthDetail(key: string, value: string, kind: string)

  datatype Auth = Auth(scheme: AuthScheme, detail: AuthDetail)

  datatype Request = Request(httpMethod: string, headers: seq<Header>, body: Body, url: Url, auth: Option<Auth>)

  /** One entry of the collection's item list. */
  datatype Item = Item(name: string, request: Request)

  /** The request (or response) element of a Burp item: its text and its base64 attribute. */
  datatype BurpData = BurpData(content: string, base64: string)

  /** One `<item>` of a Burp Suite export; only method, path, url and request are read. */
  datatype BurpItem = BurpItem(
    time: string, url: string, host: string, port: string, protocol: string,
    httpMethod: string, path: string, extension: string, request: BurpData,
    status: string, responseLength: string, mimeType: string, response: BurpData,
    comment: string)
}

/**
 * The collaborators the scripts call but this model does not define: the network and a
 * few codecs from Python's standard library. They are passed in as values.
 */
module Effects {

  /** The outcome of one HTTP GET: the page, or a transport error (`requests.RequestException`). */
  datatype Fetched<T> = Ok(page: T) | TransportError

  /**
   * `html.unescape` (named character references of the WHATWG HTML Living Standard,
   * section 13.5), `str.encode().decode('unicode_escape')` and `urllib.parse.quote`
   * (percent-encoding, section 2.1 of RFC 3986), all kept abstract.
   */
  datatype Codecs = Codecs(
    unescapeHtml: string -> string,
    unicodeEscape: string -> string,
    quote: string -> string)
}

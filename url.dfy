/**
 * The parsed form of a link, as far as the detection predicates look at it.
 * Parsing itself (the WHATWG URL parser behind `new URL`) is not modelled: every
 * predicate receives the parser as a parameter, so each property proved here
 * holds for whatever the parser returns.
 */
module Urls {
  import opened Wrappers

  /**
   * The fields of a parsed URL that the predicates read.
   * `host` is the hostname followed by `:port` when the URL names a non-default port;
   * `hostname` never carries the port; `href` is the canonical serialisation.
   */
  datatype Url = Url(host: string, hostname: string, pathname: string, href: string)

  /** A URL parser: `None` where `new URL(s)` throws. */
  type Parser = string -> Option<Url>

  /** The text scanned by the secret-like and typosquatting checks: host (with port) then path. */
  function Chunk(u: Url): (c: string)
    ensures |c| == |u.host| + |u.pathname|
    ensures c[..|u.host|] == u.host && c[|u.host|..] == u.pathname
  {
    u.host + u.pathname
  }
}

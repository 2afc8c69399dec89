/**
 * The credential list curl_logins and CURLGetLogin (src/http_dl.c). The list
 * is singly linked in insertion order; node k of the list is element k of a
 * sequence here, and a node is identified by its position.
 */
module Logins {
  import opened Options

  /** One HTTP_login node: the server URL it applies to and the "user:password" text. */
  datatype Login = Login(url: string, auth: string)

  /** A link of the list: the head pointer curl_logins, or the `next` field of node k. */
  datatype Link = Head | NextOf(node: nat)

  /** The link that points at node k. */
  function LinkTo(k: nat): (l: Link)
    ensures k == 0 <==> l == Head
  {
    if k == 0 then Head else NextOf(k - 1)
  }

  /** The node a link points at, or None for a NULL link (the end of the list). */
  function Target(logins: seq<Login>, l: Link): (r: Option<nat>)
    ensures r.Some? ==> r.value < |logins|
  {
    var k := match l case Head => 0 case NextOf(p) => p + 1;
    if k < |logins| then Some(k) else None
  }

  /** Reference definition: the first node in list order whose url is exactly `url`. */
  function FirstMatch(logins: seq<Login>, url: string): (r: Option<nat>)
    ensures r.Some? ==> r.value < |logins| && logins[r.value].url == url
    ensures r.Some? ==> forall k :: 0 <= k < r.value ==> logins[k].url != url
    ensures r.None? ==> forall k :: 0 <= k < |logins| ==> logins[k].url != url
    decreases |logins|
  {
    if |logins| == 0 then None
    else if logins[0].url == url then Some(0)
    else match FirstMatch(logins[1..], url)
      case None => None
      case Some(k) => Some(k + 1)
  }

  /** The credentials a transfer for base URL `url` is given: those of the first exact match. */
  function AuthFor(logins: seq<Login>, url: string): (r: Option<string>)
    ensures r.Some? <==> exists k :: 0 <= k < |logins| && logins[k].url == url
    ensures r.Some? ==> r.value == logins[FirstMatch(logins, url).value].auth
  {
    match FirstMatch(logins, url)
    case None => None
    case Some(k) => Some(logins[k].auth)
  }

  /** Matching is by string equality: an entry whose url is a proper prefix of the URL (a server's entry, a longer path on it) is never chosen. */
  lemma NoPrefixMatch(logins: seq<Login>, url: string, k: nat)
    requires k < |logins| && logins[k].url < url
    ensures FirstMatch(logins, url) != Some(k)
  {
  }

  /**
   * CURLGetLogin: walk the links from the head; return the first node whose url
   * equals `url`, and, when the caller asked for it (`wantPrevNext`, a non-null
   * return_prev_next), the link that leads to that node. The list is only read.
   */
  method GetLogin(logins: seq<Login>, url: string, wantPrevNext: bool)
    returns (login: Option<nat>, prevNext: Option<Link>)
    ensures login == FirstMatch(logins, url)
    ensures prevNext.Some? <==> wantPrevNext && login.Some?
    ensures prevNext.Some? ==> Target(logins, prevNext.value) == login
    ensures prevNext.Some? ==> prevNext.value == LinkTo(login.value)
  {
    var link := Head;
    var i := 0;
    while i < |logins|
      invariant 0 <= i <= |logins|
      invariant link == LinkTo(i)
      invariant forall k :: 0 <= k < i ==> logins[k].url != url
    {
      if logins[i].url == url {
        if wantPrevNext {
          return Some(i), Some(link);
        }
        return Some(i), None;
      }
      link := NextOf(i);
      i := i + 1;
    }
    return None, None;
  }
}

/**
  The websocket route in front of the grid actor: it refuses requests that do
  not ask for a websocket upgrade, and it rewrites the URL path so that it
  ends in "/ws" before forwarding the request to the actor.
 */
module WsRoute {
  import opened Durable

  /** A match of the pattern /\/?$/: `len` characters starting at `start`. */
  datatype Match = Match(start: nat, len: nat)

  /** Does /\/?$/ match `len` characters at position i of s? Either the
      optional slash is taken and it is the last character, or it is skipped
      and the end of input is at i. */
  predicate MatchesAt(s: string, i: nat, len: nat) {
    (len == 1 && i + 1 == |s| && s[i] == '/') || (len == 0 && i == |s|)
  }

  /** The match a non-global regular-expression replace uses, searching from
      position i: the leftmost position that matches, and there the longer
      (greedy) alternative first. */
  function FirstMatchFrom(s: string, i: nat): (m: Match)
    requires i <= |s|
    ensures i <= m.start && m.start + m.len <= |s|
    ensures MatchesAt(s, m.start, m.len)
    ensures forall j, l :: i <= j < m.start ==> !MatchesAt(s, j, l)
    ensures MatchesAt(s, m.start, 1) ==> m.len == 1
    decreases |s| - i
  {
    if MatchesAt(s, i, 1) then Match(i, 1)
    else if MatchesAt(s, i, 0) then Match(i, 0)
    else FirstMatchFrom(s, i + 1)
  }

  /** `path.replace(/\/?$/, '/ws')`: one trailing slash, if there is one,
      becomes "/ws"; otherwise "/ws" is appended. */
  function ReplaceTrailingSlash(path: string): (r: string)
    ensures |path| > 0 && path[|path| - 1] == '/' ==> r == path[..|path| - 1] + "/ws"
    ensures !(|path| > 0 && path[|path| - 1] == '/') ==> r == path + "/ws"
  {
    var m := FirstMatchFrom(path, 0);
    assert |path| > 0 && path[|path| - 1] == '/' ==> MatchesAt(path, |path| - 1, 1);
    path[..m.start] + "/ws" + path[m.start + m.len..]
  }

  /** The path the route forwards: left alone when it already ends in "/ws". */
  function NormalisePath(path: string): (r: string)
    ensures EndsWith(r, "/ws")
    ensures EndsWith(path, "/ws") ==> r == path
    ensures !EndsWith(path, "/ws") ==> r == ReplaceTrailingSlash(path)
  {
    if EndsWith(path, "/ws") then path
    else
      var r := ReplaceTrailingSlash(path);
      assert r[|r| - 3..] == "/ws";
      r
  }

  /** Normalising twice is normalising once. */
  lemma NormaliseIdempotent(path: string)
    ensures NormalisePath(NormalisePath(path)) == NormalisePath(path)
  {
  }

  /** Both spellings of the grid path reach the same websocket path. */
  lemma NormaliseExamples()
    ensures NormalisePath("/api/grid") == "/api/grid/ws"
    ensures NormalisePath("/api/grid/") == "/api/grid/ws"
    ensures NormalisePath("/api/grid/ws") == "/api/grid/ws"
  {
    assert "/api/grid"[6..] == "rid";
    assert "/api/grid/"[7..] == "id/";
    assert "/api/grid/"[..9] == "/api/grid";
    assert "/api/grid/ws"[9..] == "/ws";
  }

  /** What the route does with a request: answer it, or forward it to the actor. */
  datatype RouteResult = Respond(response: Response) | Forward(request: Request)

  /** The GET handler: without `Upgrade: websocket` it answers 426 and never
      forwards; otherwise it forwards the request with its path normalised and
      its headers kept. */
  function Get(req: Request): (r: RouteResult)
    ensures r.Respond? <==> req.upgrade != Some("websocket")
    ensures r.Respond? ==> StatusCode(r.response) == 426
    ensures r.Forward? ==> r.request.upgrade == req.upgrade && EndsWith(r.request.path, "/ws")
    ensures r.Forward? && EndsWith(req.path, "/ws") ==> r.request == req
    ensures r.Forward? ==> r.request == Request(NormalisePath(req.path), req.upgrade)
  {
    if req.upgrade != Some("websocket") then Respond(UpgradeRequired)
    else Forward(Request(NormalisePath(req.path), req.upgrade))
  }

  /** The answer a client gets from the route and, behind it, the actor's handshake. */
  function EndToEnd(req: Request): (r: Response) {
    match Get(req)
    case Respond(r) => r
    case Forward(f) => Durable.Handshake(f)
  }

  /** A forwarded request always passes the actor's handshake, so a client of
      the route sees either 426 or a websocket, never the actor's 404. */
  lemma ForwardedIsAccepted(req: Request)
    ensures Get(req).Forward? ==> Durable.Handshake(Get(req).request) == SwitchingProtocols
    ensures EndToEnd(req) == (if req.upgrade == Some("websocket") then SwitchingProtocols else UpgradeRequired)
    ensures StatusCode(EndToEnd(req)) != 404
  {
  }
}

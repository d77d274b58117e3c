/**
 * The route dispatch of http_srv_handle_once: the first entry of the route
 * table whose path equals the request path and whose method is absent
 * (any method) or equal to the request method. The strings compared with
 * strcmp hold no NUL (the request fields are cut out of a C string, the
 * table entries are literals), so strcmp == 0 is equality.
 */
module Routing {
  import opened Bytes
  import opened RequestLine

  /** http_route_t; the handler is identified by the entry's index in the table. */
  datatype Route = Route(path: bytes, methodName: Option<bytes>)

  predicate Matches(r: Route, line: Line) {
    line.path == r.path && (r.methodName.None? || line.methodName == r.methodName.value)
  }

  /** The index of the first entry from i on that matches the request line. */
  function FirstRouteFrom(routes: seq<Route>, line: Line, i: nat): (r: Option<nat>)
    requires i <= |routes|
    ensures r.Some? ==> i <= r.value < |routes| && Matches(routes[r.value], line)
    ensures r.Some? ==> forall j :: i <= j < r.value ==> !Matches(routes[j], line)
    ensures r.None? ==> forall j :: i <= j < |routes| ==> !Matches(routes[j], line)
    decreases |routes| - i
  {
    if i == |routes| then None
    else if Matches(routes[i], line) then Some(i)
    else FirstRouteFrom(routes, line, i + 1)
  }

  function FirstRoute(routes: seq<Route>, line: Line): (r: Option<nat>)
    ensures r.Some? ==> r.value < |routes| && Matches(routes[r.value], line)
    ensures r.Some? ==> forall j :: 0 <= j < r.value ==> !Matches(routes[j], line)
    ensures r.None? ==> forall j :: 0 <= j < |routes| ==> !Matches(routes[j], line)
  {
    FirstRouteFrom(routes, line, 0)
  }

  /** The dispatch loop: stops at the first match. */
  method FindRoute(routes: seq<Route>, line: Line) returns (r: Option<nat>)
    ensures r == FirstRoute(routes, line)
  {
    var i := 0;
    while i < |routes|
      invariant i <= |routes|
      invariant FirstRouteFrom(routes, line, i) == FirstRoute(routes, line)
    {
      if line.path == routes[i].path && (routes[i].methodName.None? || line.methodName == routes[i].methodName.value) {
        return Some(i);
      }
      i := i + 1;
    }
    return None;
  }

  /** Adding entries behind a table does not change what the table already dispatches. */
  lemma {:induction false} AppendKeepsMatch(routes: seq<Route>, more: seq<Route>, line: Line)
    requires FirstRoute(routes, line).Some?
    ensures FirstRoute(routes + more, line) == FirstRoute(routes, line)
  {
    var k := FirstRoute(routes, line).value;
    var all := routes + more;
    assert all[k] == routes[k];
    forall j | 0 <= j < k
      ensures !Matches(all[j], line)
    {
      assert all[j] == routes[j];
    }
    FirstRouteIs(all, line, k);
  }

  /** A matching entry with no match before it is the one dispatched. */
  lemma {:induction false} FirstRouteIs(routes: seq<Route>, line: Line, k: nat)
    requires k < |routes| && Matches(routes[k], line)
    requires forall j :: 0 <= j < k ==> !Matches(routes[j], line)
    ensures FirstRoute(routes, line) == Some(k)
  {
    FirstRouteFromIs(routes, line, 0, k);
  }

  lemma {:induction false} FirstRouteFromIs(routes: seq<Route>, line: Line, i: nat, k: nat)
    requires i <= k < |routes| && Matches(routes[k], line)
    requires forall j :: i <= j < k ==> !Matches(routes[j], line)
    ensures FirstRouteFrom(routes, line, i) == Some(k)
    decreases k - i
  {
    if i < k {
      FirstRouteFromIs(routes, line, i + 1, k);
    }
  }

  // ---------------------------------------------------------------------
  // The device's route table
  // ---------------------------------------------------------------------

  const GET: bytes := "GET"
  const POST: bytes := "POST"
  const WIFI_CONNECT: bytes := "/wifi/connect"
  const WIFI_APPLY: bytes := "/wifi/apply"
  const WIFI_JOIN: bytes := "/wifi/join"
  const WIFI_SCAN: bytes := "/wifi/scan"
  const ROOT: bytes := "/"

  /** The table of http_pages.c: the configuration page, the two form targets, the scan page and the default page. */
  const PAGES: seq<Route> := [
    Route(WIFI_CONNECT, Some(GET)),
    Route(WIFI_APPLY, Some(POST)),
    Route(WIFI_JOIN, Some(POST)),
    Route(WIFI_SCAN, Some(GET)),
    Route(ROOT, Some(GET))
  ]

  /** Every page entry of the table is reached by its own path and method. */
  lemma PagesReachable(line: Line)
    ensures line.path == WIFI_CONNECT && line.methodName == GET ==> FirstRoute(PAGES, line) == Some(0)
    ensures line.path == WIFI_APPLY && line.methodName == POST ==> FirstRoute(PAGES, line) == Some(1)
    ensures line.path == WIFI_JOIN && line.methodName == POST ==> FirstRoute(PAGES, line) == Some(2)
    ensures line.path == WIFI_SCAN && line.methodName == GET ==> FirstRoute(PAGES, line) == Some(3)
    ensures line.path == ROOT && line.methodName == GET ==> FirstRoute(PAGES, line) == Some(4)
  {
    if line.path == WIFI_CONNECT && line.methodName == GET {
      FirstRouteIs(PAGES, line, 0);
    }
    if line.path == WIFI_APPLY && line.methodName == POST {
      assert line.path != WIFI_CONNECT by { assert |WIFI_CONNECT| != |WIFI_APPLY|; }
      FirstRouteIs(PAGES, line, 1);
    }
    if line.path == WIFI_JOIN && line.methodName == POST {
      assert |WIFI_JOIN| == 10 && |WIFI_APPLY| == 11 && |WIFI_CONNECT| == 13;
      FirstRouteIs(PAGES, line, 2);
    }
    if line.path == WIFI_SCAN && line.methodName == GET {
      assert |WIFI_SCAN| == 10;
      FirstRouteIs(PAGES, line, 3);
    }
    if line.path == ROOT && line.methodName == GET {
      assert |ROOT| == 1;
      FirstRouteIs(PAGES, line, 4);
    }
  }

  /** The form targets take POST only: any other method on them gets the 404. */
  lemma FormTargetsPostOnly(line: Line)
    requires line.path == WIFI_APPLY || line.path == WIFI_JOIN
    requires line.methodName != POST
    ensures FirstRoute(PAGES, line) == None
  {
    forall j | 0 <= j < |PAGES|
      ensures !Matches(PAGES[j], line)
    {
      if j != 1 && j != 2 {
        assert |PAGES[j].path| != |line.path| || PAGES[j].path[6] != line.path[6];
      }
    }
  }
}

/**
  The hotel view page: a maincro filter and a subcro filter, the requests
  they produce, and what the server makes of those requests. The subcro
  choices are asked of GET /api/subcro/list, which the server routes to
  GET /api/subcro/:id, so they never load.
 */
module ViewFilter {
  import opened Wrappers
  import opened Json
  import opened Http
  import Routes
  import ViewQuery
  import Schema

  /** The select values that stand for "no filter". */
  const AllMaincros := "all-maincros"
  const AllSubcros := "all-subcros"

  /** The last path segment of the view request. */
  const ViewSegment := "hotel-view"

  /** A subcro choice as the list endpoint would send it. */
  datatype SubcroItem = SubcroItem(id: int, subcro: string)

  /** `URLSearchParams`: `maincro` then `subcro`, each only when the filter is non-empty. */
  function ViewParams(maincroFilter: string, subcroFilter: string): (r: seq<(string, string)>)
    ensures |r| == (if maincroFilter != "" then 1 else 0) + (if subcroFilter != "" then 1 else 0)
    ensures maincroFilter != "" ==> r[0] == ("maincro", maincroFilter)
    ensures subcroFilter != "" ==> r[|r| - 1] == ("subcro", subcroFilter)
  {
    (if maincroFilter != "" then [("maincro", maincroFilter)] else [])
    + (if subcroFilter != "" then [("subcro", subcroFilter)] else [])
  }

  /** The query object the server reads from a query string (a later key wins; these keys are distinct). */
  function QueryOf(params: seq<(string, string)>): (q: map<string, string>)
    ensures params == [] ==> q == map[]
    ensures forall i :: 0 <= i < |params| ==> params[i].0 in q
    ensures forall k :: k in q ==> exists i :: 0 <= i < |params| && params[i].0 == k
    ensures params != [] ==> q[params[|params| - 1].0] == params[|params| - 1].1
    decreases |params|
  {
    if params == [] then map[]
    else
      var n := |params| - 1;
      var before := QueryOf(params[..n]);
      forall k | k in before ensures exists i :: 0 <= i < |params| && params[i].0 == k {
        var i :| 0 <= i < n && params[..n][i].0 == k;
        assert params[i].0 == k;
      }
      before[params[n].0 := params[n].1]
  }

  /** The query object of the view request: each non-empty filter under its own name. */
  lemma ViewQueryOf(maincroFilter: string, subcroFilter: string) returns (q: map<string, string>)
    ensures q == QueryOf(ViewParams(maincroFilter, subcroFilter))
    ensures "maincro" in q <==> maincroFilter != ""
    ensures maincroFilter != "" ==> q["maincro"] == maincroFilter
    ensures "subcro" in q <==> subcroFilter != ""
    ensures subcroFilter != "" ==> q["subcro"] == subcroFilter
  {
    var params := ViewParams(maincroFilter, subcroFilter);
    q := QueryOf(params);
    if maincroFilter != "" && subcroFilter != "" {
      assert params[..1] == [("maincro", maincroFilter)];
      assert params[..1][..0] == [];
    } else if params != [] {
      assert params[..0] == [];
    }
  }

  /** The request for the view rows. */
  function ViewRequest(maincroFilter: string, subcroFilter: string): Request {
    Request(Get, "/api/" + ViewSegment, QueryOf(ViewParams(maincroFilter, subcroFilter)), Null)
  }

  /** The request for the subcro choices: none while no maincro is chosen (the query is disabled). */
  function SubcroRequest(maincroFilter: string): (r: Option<Request>)
    ensures r.Some? <==> maincroFilter != ""
    ensures r.Some? ==> r.value.path == "/api/subcro/list" && r.value.query == map["maincro" := maincroFilter]
  {
    if maincroFilter == "" then None
    else Some(Request(Get, "/api/subcro/" + "list", map["maincro" := maincroFilter], Null))
  }

  /**
    The subcro choices the page holds: none while disabled, the list from a
    2xx reply, and none after any other reply (the fetch throws and the
    query keeps its default).
   */
  function SubcroOptions(maincroFilter: string, status: int, listed: seq<SubcroItem>): (r: seq<SubcroItem>)
    ensures r == [] <==> maincroFilter == "" || !(200 <= status < 300) || listed == []
  {
    if maincroFilter == "" || !(200 <= status < 300) then [] else listed
  }

  /** The values the subcro select offers. */
  function SubcroChoices(options: seq<SubcroItem>): (r: seq<string>)
    ensures |r| == |options| + 1 && r[0] == AllSubcros
    ensures forall i :: 0 <= i < |options| ==> r[i + 1] == options[i].subcro
  {
    [AllSubcros] + seq(|options|, i requires 0 <= i < |options| => options[i].subcro)
  }

  /** The subcro filter after choosing `value`: "all-subcros" clears it; a disabled select changes nothing. */
  function NextSubcroFilter(maincroFilter: string, subcroFilter: string, value: string): (r: string)
    ensures maincroFilter == "" ==> r == subcroFilter
    ensures maincroFilter != "" ==> (r == "" <==> value == AllSubcros || value == "")
  {
    if maincroFilter == "" then subcroFilter
    else if value == AllSubcros then ""
    else value
  }

  class FilterState {
    var maincroFilter: string
    var subcroFilter: string

    constructor()
      ensures maincroFilter == "" && subcroFilter == ""
    {
      maincroFilter := "";
      subcroFilter := "";
    }

    /** The maincro select: "all-maincros" clears the filter; any change clears the subcro filter. */
    method ChooseMaincro(value: string)
      modifies this
      ensures maincroFilter == (if value == AllMaincros then "" else value)
      ensures subcroFilter == ""
    {
      if value == AllMaincros {
        maincroFilter := "";
      } else {
        maincroFilter := value;
      }
      subcroFilter := "";
    }

    /** The subcro select, which is disabled while no maincro is chosen. */
    method ChooseSubcro(value: string)
      modifies this
      ensures maincroFilter == old(maincroFilter)
      ensures subcroFilter == NextSubcroFilter(old(maincroFilter), old(subcroFilter), value)
    {
      if maincroFilter != "" {
        if value == AllSubcros {
          subcroFilter := "";
        } else {
          subcroFilter := value;
        }
      }
    }

    /** "Reset": both filters cleared. */
    method Reset()
      modifies this
      ensures maincroFilter == "" && subcroFilter == ""
    {
      maincroFilter := "";
      subcroFilter := "";
    }
  }

  // ---------------------------------------------------------------------------
  // What the server makes of the requests

  /** The parts of "/api/<a>". */
  lemma ApiPathPart(a: string)
    requires '/' !in a
    ensures Routes.PathParts("/api/" + a) == ["", "api", a]
  {
    Text.SplitNoSeparator(a, '/');
    Text.SplitAtSeparator("api", '/', a);
    assert "/api/" + a == "" + ['/'] + ("api" + ['/'] + a);
    Text.SplitAtSeparator("", '/', "api" + ['/'] + a);
  }

  /** The session routes do not match GET /api/<x> for a ten-character x. */
  lemma NoViewMatchSession(x: string)
    requires |x| == 10
    ensures forall j :: 0 <= j < 3 ==> !Routes.Matches(Routes.RouteTable[j], Get, ["", "api", x])
  {
    assert !Routes.Matches(Routes.RouteTable[0], Get, ["", "api", x]);
    assert !Routes.Matches(Routes.RouteTable[1], Get, ["", "api", x]);
    assert !Routes.Matches(Routes.RouteTable[2], Get, ["", "api", x]);
  }

  /** Nor do GET /api/user and the first hotel routes. */
  lemma NoViewMatchHotelList(x: string)
    requires |x| == 10
    ensures forall j :: 3 <= j < 6 ==> !Routes.Matches(Routes.RouteTable[j], Get, ["", "api", x])
  {
    assert Routes.RouteTable[3].pattern[2] == Routes.Lit("user") && |"user"| < 10;
    assert x != "user";
    assert !Routes.Matches(Routes.RouteTable[3], Get, ["", "api", x]);
    assert Routes.RouteTable[4].pattern[2] == Routes.Lit("hotel") && |"hotel"| < 10;
    assert x != "hotel";
    assert !Routes.Matches(Routes.RouteTable[4], Get, ["", "api", x]);
    assert !Routes.Matches(Routes.RouteTable[5], Get, ["", "api", x]);
  }

  /** Nor do the hotel writes. */
  lemma NoViewMatchHotelEdit(x: string)
    requires |x| == 10
    ensures forall j :: 6 <= j < 9 ==> !Routes.Matches(Routes.RouteTable[j], Get, ["", "api", x])
  {
    assert !Routes.Matches(Routes.RouteTable[6], Get, ["", "api", x]);
    assert !Routes.Matches(Routes.RouteTable[7], Get, ["", "api", x]);
    assert !Routes.Matches(Routes.RouteTable[8], Get, ["", "api", x]);
  }

  /** Nor do the first subcro routes. */
  lemma NoViewMatchSubcroList(x: string)
    requires |x| == 10
    ensures forall j :: 9 <= j < 12 ==> !Routes.Matches(Routes.RouteTable[j], Get, ["", "api", x])
  {
    assert Routes.RouteTable[9].pattern[2] == Routes.Lit("subcro") && |"subcro"| < 10;
    assert x != "subcro";
    assert !Routes.Matches(Routes.RouteTable[9], Get, ["", "api", x]);
    assert !Routes.Matches(Routes.RouteTable[10], Get, ["", "api", x]);
    assert !Routes.Matches(Routes.RouteTable[11], Get, ["", "api", x]);
  }

  /** Nor do the subcro writes. */
  lemma NoViewMatchSubcroEdit(x: string)
    requires |x| == 10
    ensures forall j :: 12 <= j < 14 ==> !Routes.Matches(Routes.RouteTable[j], Get, ["", "api", x])
  {
    assert !Routes.Matches(Routes.RouteTable[12], Get, ["", "api", x]);
    assert !Routes.Matches(Routes.RouteTable[13], Get, ["", "api", x]);
  }

  /** The fifteenth route is GET /api/hotel-view. */
  lemma ViewRouteMatches(x: string)
    requires x == "hotel-view"
    ensures Routes.Matches(Routes.RouteTable[14], Get, ["", "api", x])
    ensures Routes.RouteTable[14].handler == Routes.HotelView
    ensures Routes.ParamValue(Routes.RouteTable[14].pattern, ["", "api", x]) == ""
  {
  }

  /** GET /api/hotel-view is the fifteenth route and the first that matches. */
  lemma HotelViewFound(x: string)
    requires x == "hotel-view"
    ensures Routes.FindFrom(Routes.RouteTable, Get, ["", "api", x], 0) == Some(14)
  {
    NoViewMatchSession(x);
    NoViewMatchHotelList(x);
    NoViewMatchHotelEdit(x);
    NoViewMatchSubcroList(x);
    NoViewMatchSubcroEdit(x);
    ViewRouteMatches(x);
    Routes.FirstMatch(Routes.RouteTable, Get, ["", "api", x], 14);
  }

  /** The path "/api/hotel-view" is routed to the view read, with no path parameter. */
  lemma ViewPathRouted(x: string)
    requires x == "hotel-view"
    ensures Routes.Routed(Get, Routes.PathParts("/api/" + x)) == Some((Routes.HotelView, ""))
  {
    ApiPathPart(x);
    HotelViewFound(x);
    ViewRouteMatches(x);
  }

  /** The view read's handler passes the two query values on, whoever asks. */
  lemma ViewDecided(param: string, req: Request, current: Option<Schema.User>, isEmail: string -> bool)
    ensures Routes.Decide(Routes.HotelView, param, req, current, isEmail)
      == Routes.Invoke(Routes.HotelViewCall(Routes.QueryParam(req.query, "maincro"), Routes.QueryParam(req.query, "subcro")))
  {
  }

  /** Any GET /api/hotel-view goes to the view read with the `maincro` and `subcro` query values. */
  lemma ViewDispatch(x: string, q: map<string, string>, body: Json, current: Option<Schema.User>, isEmail: string -> bool)
    requires x == "hotel-view"
    ensures Routes.Dispatch(Request(Get, "/api/" + x, q, body), current, isEmail)
      == Routes.Invoke(Routes.HotelViewCall(Routes.QueryParam(q, "maincro"), Routes.QueryParam(q, "subcro")))
  {
    ViewPathRouted(x);
    ViewDecided("", Request(Get, "/api/" + x, q, body), current, isEmail);
  }

  /** A page filter as the server reads it: absent when empty. */
  function Sent(filter: string): (r: Option<string>)
    ensures ViewQuery.Supplied(r) <==> filter != ""
    ensures r.Some? ==> r.value == filter
  {
    if filter == "" then None else Some(filter)
  }

  /**
    The view request reaches the view read with exactly the page's filters:
    a filter counts as given to the server exactly when it is non-empty on
    the page, and then with the page's value.
   */
  lemma ViewRequestCarriesFilters(maincroFilter: string, subcroFilter: string, current: Option<Schema.User>, isEmail: string -> bool)
    ensures Routes.Dispatch(ViewRequest(maincroFilter, subcroFilter), current, isEmail)
      == Routes.Invoke(Routes.HotelViewCall(Sent(maincroFilter), Sent(subcroFilter)))
  {
    ViewDispatch(ViewSegment, QueryOf(ViewParams(maincroFilter, subcroFilter)), Null, current, isEmail);
    var q := ViewQueryOf(maincroFilter, subcroFilter);
    assert Routes.QueryParam(q, "maincro") == Sent(maincroFilter);
    assert Routes.QueryParam(q, "subcro") == Sent(subcroFilter);
  }

  /**
    Whatever maincro is chosen, the subcro request is answered 400 "Invalid
    ID format", so the page holds no subcro choices and the select offers
    only "all-subcros".
   */
  lemma SubcroChoicesNeverLoad(maincroFilter: string, listed: seq<SubcroItem>, current: Option<Schema.User>, isEmail: string -> bool)
    requires maincroFilter != ""
    ensures Routes.Dispatch(SubcroRequest(maincroFilter).value, current, isEmail) == Routes.Answer(Routes.InvalidId())
    ensures SubcroOptions(maincroFilter, Routes.InvalidId().status, listed) == []
    ensures SubcroChoices(SubcroOptions(maincroFilter, Routes.InvalidId().status, listed)) == [AllSubcros]
  {
    Routes.SubcroListAnswersInvalidId("list", map["maincro" := maincroFilter], Null, current, isEmail);
  }

  /** So from the choices the page offers, the subcro filter can only be cleared, never set. */
  lemma SubcroFilterStaysEmpty(maincroFilter: string, listed: seq<SubcroItem>, value: string)
    requires maincroFilter != ""
    requires value in SubcroChoices(SubcroOptions(maincroFilter, Routes.InvalidId().status, listed))
    ensures NextSubcroFilter(maincroFilter, "", value) == ""
  {
  }
}

/** The per-route metadata of routes.ts (`handler`, lines 21-31) and the
    start-up loop that registers one route per exported function (`routes`,
    lines 4-15): the declared parameters, the object from query key to
    declared parameter, its key list `urlParams`, and the shared
    documentation object that `GET /api` returns. */
module RouteMeta {
  import opened Naming
  import opened ParamText
  import opened JsObject

  /** The first position of `x` in `s` (Array.prototype.indexOf when `x` is there). */
  function FirstIndex<T(==)>(s: seq<T>, x: T): (i: nat)
    requires x in s
    ensures i < |s| && s[i] == x && x !in s[..i]
  {
    if s[0] == x then 0
    else
      assert x in s[1..] by { var k :| 0 <= k < |s| && s[k] == x; assert s[1..][k - 1] == x; }
      var j := FirstIndex(s[1..], x);
      assert s[..j + 1] == [s[0]] + s[1..][..j];
      j + 1
  }

  /** The last position of `x` in `s`. */
  function LastIndex<T(==)>(s: seq<T>, x: T): (i: nat)
    requires x in s
    ensures i < |s| && s[i] == x && x !in s[i + 1..]
  {
    if s[|s| - 1] == x then |s| - 1
    else
      assert x in s[..|s| - 1] by { var k :| 0 <= k < |s| && s[k] == x; assert s[..|s| - 1][k] == x; }
      var j := LastIndex(s[..|s| - 1], x);
      assert s[j + 1..] == s[..|s| - 1][j + 1..] + [s[|s| - 1]];
      j
  }

  /** Appending to a sequence does not move the first occurrence of what
      was already there, and puts a new element's first occurrence last. */
  lemma FirstIndexAppend<T>(s: seq<T>, y: T, x: T)
    requires x in s + [y]
    ensures x in s ==> FirstIndex(s + [y], x) == FirstIndex(s, x)
    ensures x !in s ==> FirstIndex(s + [y], x) == |s|
  {
    var t := s + [y];
    var a := FirstIndex(t, x);
    if x in s {
      var b := FirstIndex(s, x);
      assert t[b] == x;
      assert t[..a] == s[..a] by { assert a <= b; }
    } else {
      assert t[|s|] == x;
    }
  }

  /** `e` lists elements of `s`, ordered by where each first occurs in `s`. */
  ghost predicate InFirstOrder<T>(s: seq<T>, e: seq<T>)
  {
    && (forall i :: 0 <= i < |e| ==> e[i] in s)
    && forall i, j :: 0 <= i < j < |e| && e[i] in s && e[j] in s ==>
         FirstIndex(s, e[i]) < FirstIndex(s, e[j])
  }

  /** Appending to `s` keeps a list ordered by first occurrence. */
  lemma InFirstOrderKept<T>(s: seq<T>, y: T, e: seq<T>)
    requires InFirstOrder(s, e)
    ensures InFirstOrder(s + [y], e)
    ensures forall i :: 0 <= i < |e| ==> FirstIndex(s + [y], e[i]) < |s|
  {
    forall i | 0 <= i < |e| ensures FirstIndex(s + [y], e[i]) == FirstIndex(s, e[i]) {
      FirstIndexAppend(s, y, e[i]);
    }
  }

  /** Appending a new element to both keeps the order. */
  lemma InFirstOrderAppend<T>(s: seq<T>, y: T, e: seq<T>)
    requires InFirstOrder(s, e) && y !in s
    ensures InFirstOrder(s + [y], e + [y])
  {
    InFirstOrderKept(s, y, e);
    FirstIndexAppend(s, y, y);
    var t, f := s + [y], e + [y];
    assert forall i :: 0 <= i < |e| ==> f[i] == e[i];
  }

  /** Appending `y` makes it the last occurrence of `y` and leaves the last
      occurrence of every other element where it was. */
  lemma LastIndexAppend<T>(s: seq<T>, y: T, x: T)
    requires x in s + [y]
    ensures x == y ==> LastIndex(s + [y], x) == |s|
    ensures x != y ==> LastIndex(s + [y], x) == LastIndex(s, x)
  {
    var t := s + [y];
    var a := LastIndex(t, x);
    if x != y {
      assert x in s;
      var b := LastIndex(s, x);
      assert t[b] == x;
      assert a < |s|;
      assert s[a] == x;
    }
  }

  /** The query key of each declared parameter, position by position. */
  function UrlNames(ps: seq<string>): (ns: seq<string>)
    ensures |ns| == |ps|
    ensures forall i :: 0 <= i < |ps| ==> ns[i] == UrlParamName(ps[i])
  {
    seq(|ps|, i requires 0 <= i < |ps| => UrlParamName(ps[i]))
  }

  /** `urlParamToParamMap`: the `map`/`reduce` fold that spreads
      `{[mapParamNameToURLParam(param)]: param}` for each parameter, left to
      right, into one object. */
  function ParamMap(ps: seq<string>): (m: Obj<string>)
    ensures Valid(m)
    decreases |ps|
  {
    if ps == [] then Empty()
    else
      var p := ps[|ps| - 1];
      Assign(ParamMap(ps[..|ps| - 1]), UrlParamName(p), p)
  }

  /** The query keys of a list are those of all but its last parameter,
      then the last one's. */
  lemma UrlNamesInit(ps: seq<string>)
    requires ps != []
    ensures UrlNames(ps) == UrlNames(ps[..|ps| - 1]) + [UrlParamName(ps[|ps| - 1])]
  {
  }

  /** The keys of the object are the query keys of the declared parameters,
      each once, in the order in which they first occur. */
  lemma {:induction false} ParamMapKeys(ps: seq<string>)
    ensures forall k :: k in ParamMap(ps).entries <==> k in UrlNames(ps)
    ensures InFirstOrder(UrlNames(ps), ParamMap(ps).keys)
    decreases |ps|
  {
    if ps != [] {
      var init := ps[..|ps| - 1];
      var k := UrlParamName(ps[|ps| - 1]);
      var ns0 := UrlNames(init);
      var m0 := ParamMap(init);
      ParamMapKeys(init);
      UrlNamesInit(ps);
      if k in ns0 {
        InFirstOrderKept(ns0, k, m0.keys);
      } else {
        InFirstOrderAppend(ns0, k, m0.keys);
      }
    }
  }

  /** Last writer wins: each key maps to the last declared parameter that
      translates to it. */
  lemma {:induction false} ParamMapLastWriter(ps: seq<string>)
    ensures forall k :: k in ParamMap(ps).entries <==> k in UrlNames(ps)
    ensures forall k :: k in ParamMap(ps).entries ==>
      ParamMap(ps).entries[k] == ps[LastIndex(UrlNames(ps), k)]
    decreases |ps|
  {
    if ps != [] {
      var init := ps[..|ps| - 1];
      var k := UrlParamName(ps[|ps| - 1]);
      var ns, ns0 := UrlNames(ps), UrlNames(init);
      var m, m0 := ParamMap(ps), ParamMap(init);
      ParamMapLastWriter(init);
      UrlNamesInit(ps);
      assert m.entries == m0.entries[k := ps[|ps| - 1]];
      forall x | x in m.entries ensures m.entries[x] == ps[LastIndex(ns, x)] {
        LastIndexAppend(ns0, k, x);
        if x != k {
          var i := LastIndex(ns0, x);
          assert m.entries[x] == m0.entries[x] == init[i];
          assert ps[i] == init[i];
        }
      }
    }
  }

  /** What `handler` derives for one exported function from its text. */
  datatype Route = Route(paramsList: seq<string>, urlParamToParamMap: Obj<string>, urlParams: seq<string>)

  function Metadata(text: string): (route: Route)
    ensures route.paramsList == Params(text)
    ensures route.urlParamToParamMap == ParamMap(route.paramsList)
    ensures WellFormed(route)
    ensures forall k :: k in route.urlParams <==> k in UrlNames(route.paramsList)
  {
    var ps := Params(text);
    ParamMapWellFormed(ps);
    var m := ParamMap(ps);
    Route(ps, m, m.keys)
  }

  /** The facts about a route that the request handler relies on: every
      valid query key has a declared parameter, which translates back to it. */
  predicate WellFormed(route: Route)
  {
    && Valid(route.urlParamToParamMap)
    && route.urlParams == route.urlParamToParamMap.keys
    && forall k :: k in route.urlParamToParamMap.entries ==>
         route.urlParamToParamMap.entries[k] in route.paramsList
         && UrlParamName(route.urlParamToParamMap.entries[k]) == k
  }

  /** The route built from any parameter list is well formed. */
  lemma ParamMapWellFormed(ps: seq<string>)
    ensures WellFormed(Route(ps, ParamMap(ps), ParamMap(ps).keys))
    ensures forall k :: k in ParamMap(ps).keys <==> k in UrlNames(ps)
  {
    var m, ns := ParamMap(ps), UrlNames(ps);
    ParamMapLastWriter(ps);
    forall k | k in m.entries
      ensures m.entries[k] in ps && UrlParamName(m.entries[k]) == k
    {
      var i := LastIndex(ns, k);
      assert m.entries[k] == ps[i];
      assert ns[i] == k;
    }
  }

  /** The `urlParams` of a route are the query keys of its declared
      parameters, without repeats, in order of first occurrence. */
  lemma MetadataKeyOrder(text: string)
    ensures InFirstOrder(UrlNames(Metadata(text).paramsList), Metadata(text).urlParams)
  {
    ParamMapKeys(Params(text));
  }

  /** The shared documentation object of `routes`: route path to the list
      of query keys that route accepts. */
  class Docs {
    var routes: Obj<seq<string>>

    constructor ()
      ensures routes == Empty()
    {
      routes := Empty();
    }

    /** The body of `GET /api`: every registered path with its query keys,
        in registration order. */
    function Listing(): (l: seq<(string, seq<string>)>)
      reads this
      requires Valid(routes)
      ensures |l| == |routes.keys|
      ensures forall i :: 0 <= i < |l| ==>
        l[i].0 == routes.keys[i] && l[i].1 == routes.entries[routes.keys[i]]
    {
      seq(|routes.keys|, i requires 0 <= i < |routes.keys| && Valid(routes) reads this =>
        (routes.keys[i], routes.entries[routes.keys[i]]))
    }
  }

  /** `urlParams.forEach(param => docParams.push(param))` into a new
      array: the copy holds the same keys in the same order. */
  method CopyParams(urlParams: seq<string>) returns (docParams: seq<string>)
    ensures docParams == urlParams
  {
    docParams := [];
    for i := 0 to |urlParams|
      invariant docParams == urlParams[..i]
    {
      assert urlParams[..i + 1] == urlParams[..i] + [urlParams[i]];
      docParams := docParams + [urlParams[i]];
    }
    assert urlParams[..|urlParams|] == urlParams;
  }

  /** `handler`, up to the closure it returns: derives the route's metadata
      and records its query keys under the route's path in `docs`. */
  method Handler(functionName: string, text: string, docs: Docs) returns (route: Route)
    requires Valid(docs.routes)
    modifies docs
    ensures route == Metadata(text)
    ensures docs.routes == Assign(old(docs.routes), RouteName(functionName), route.urlParams)
  {
    var paramsList := Params(text);
    var urlParamToParamMap := ParamMap(paramsList);
    var urlParams := urlParamToParamMap.keys;
    var docParams := CopyParams(urlParams);
    docs.routes := Assign(docs.routes, RouteName(functionName), docParams);
    route := Route(paramsList, urlParamToParamMap, urlParams);
  }

  /** An exported function: its name and its source text. */
  datatype Export = Export(name: string, text: string)

  /** One `fastify.get(path, handler)` call. */
  datatype Registration = Registration(path: string, route: Route)

  predicate NoHyphens(exports: seq<Export>)
  {
    forall i :: 0 <= i < |exports| ==> '-' !in exports[i].name
  }

  predicate DistinctNames(exports: seq<Export>)
  {
    forall i, j :: 0 <= i < j < |exports| ==> exports[i].name != exports[j].name
  }

  /** The documentation object after `docs[path] = params` for each pair,
      in turn. */
  function DocsTable(docEntries: seq<(string, seq<string>)>): (o: Obj<seq<string>>)
    ensures Valid(o)
    decreases |docEntries|
  {
    if docEntries == [] then Empty()
    else
      var e := docEntries[|docEntries| - 1];
      Assign(DocsTable(docEntries[..|docEntries| - 1]), e.0, e.1)
  }

  /** The documentation object has an entry for every recorded path and for
      nothing else. */
  lemma {:induction false} DocsTablePaths(docEntries: seq<(string, seq<string>)>)
    ensures forall k :: k in DocsTable(docEntries).entries <==>
      exists i :: 0 <= i < |docEntries| && docEntries[i].0 == k
    decreases |docEntries|
  {
    if docEntries != [] {
      var n := |docEntries| - 1;
      var init := docEntries[..n];
      DocsTablePaths(init);
      forall k | k in DocsTable(docEntries).entries
        ensures exists i :: 0 <= i < |docEntries| && docEntries[i].0 == k
      {
        if k != docEntries[n].0 {
          var i :| 0 <= i < n && init[i].0 == k;
          assert docEntries[i].0 == k;
        }
      }
      forall i | 0 <= i < |docEntries| ensures docEntries[i].0 in DocsTable(docEntries).entries {
        if i < n {
          assert init[i].0 in DocsTable(init).entries;
        }
      }
    }
  }

  /** With distinct paths the documentation object lists each path once, in
      the order recorded, with the parameters recorded for it. */
  lemma {:induction false} DocsTableDistinct(docEntries: seq<(string, seq<string>)>)
    requires forall i, j :: 0 <= i < j < |docEntries| ==> docEntries[i].0 != docEntries[j].0
    ensures |DocsTable(docEntries).keys| == |docEntries|
    ensures forall i :: 0 <= i < |docEntries| ==> DocsTable(docEntries).keys[i] == docEntries[i].0
    ensures forall i :: 0 <= i < |docEntries| ==>
      DocsTable(docEntries).entries[docEntries[i].0] == docEntries[i].1
    decreases |docEntries|
  {
    if docEntries != [] {
      var n := |docEntries| - 1;
      var init := docEntries[..n];
      DocsTableDistinct(init);
      var o0 := DocsTable(init);
      var e := docEntries[n];
      forall j | 0 <= j < n ensures o0.keys[j] != e.0 {
        assert o0.keys[j] == init[j].0 == docEntries[j].0;
      }
      assert e.0 !in o0.keys;
      var o := DocsTable(docEntries);
      assert o == Assign(o0, e.0, e.1);
      assert o.keys == o0.keys + [e.0];
      forall i | 0 <= i < n
        ensures o.keys[i] == docEntries[i].0 && o.entries[docEntries[i].0] == docEntries[i].1
      {
        assert init[i] == docEntries[i];
        assert o0.keys[i] == init[i].0;
      }
    }
  }

  /** What `handler` records in the documentation object for each export:
      its path and its query keys. */
  function DocEntries(exports: seq<Export>): (docEntries: seq<(string, seq<string>)>)
    ensures |docEntries| == |exports|
    ensures forall i :: 0 <= i < |exports| ==> docEntries[i].0 == RouteName(exports[i].name)
    ensures forall i :: 0 <= i < |exports| ==> docEntries[i].1 == Metadata(exports[i].text).urlParams
  {
    seq(|exports|, i requires 0 <= i < |exports| =>
      (RouteName(exports[i].name), Metadata(exports[i].text).urlParams))
  }

  /** Distinct hyphen-free names (which identifiers are) give distinct
      paths, so `GET /api` lists exactly one entry per exported function, in
      export order, each with that function's query keys. */
  lemma OneRoutePerExport(exports: seq<Export>)
    requires DistinctNames(exports) && NoHyphens(exports)
    ensures |DocsTable(DocEntries(exports)).keys| == |exports|
    ensures forall i :: 0 <= i < |exports| ==> DocsTable(DocEntries(exports)).keys[i] == RouteName(exports[i].name)
    ensures forall i :: 0 <= i < |exports| ==>
      DocsTable(DocEntries(exports)).entries[RouteName(exports[i].name)] == Metadata(exports[i].text).urlParams
  {
    var es := DocEntries(exports);
    forall i, j | 0 <= i < j < |es| ensures es[i].0 != es[j].0 {
      if es[i].0 == es[j].0 {
        RouteNameInjective(exports[i].name, exports[j].name);
      }
    }
    DocsTableDistinct(es);
  }

  /** After `routes`, `GET /api` lists one entry per exported function, in
      export order: its path and its query keys. */
  lemma ListingAfterRoutes(docs: Docs, exports: seq<Export>)
    requires DistinctNames(exports) && NoHyphens(exports)
    requires docs.routes == DocsTable(DocEntries(exports))
    ensures |docs.Listing()| == |exports|
    ensures forall i :: 0 <= i < |exports| ==>
      docs.Listing()[i] == (RouteName(exports[i].name), Metadata(exports[i].text).urlParams)
  {
    OneRoutePerExport(exports);
  }

  /** Recording one more export is one more assignment to the
      documentation object. */
  lemma DocEntriesStep(exports: seq<Export>, n: nat)
    requires n < |exports|
    ensures DocsTable(DocEntries(exports[..n + 1]))
         == Assign(DocsTable(DocEntries(exports[..n])), RouteName(exports[n].name), Metadata(exports[n].text).urlParams)
  {
    var es := DocEntries(exports[..n + 1]);
    assert es[..n] == DocEntries(exports[..n]);
  }

  /** `routes`: registers every exported function, in order, and fills the
      documentation object that `GET /api` lists. */
  method Routes(exports: seq<Export>) returns (docs: Docs, registered: seq<Registration>)
    requires DistinctNames(exports)
    ensures fresh(docs)
    ensures docs.routes == DocsTable(DocEntries(exports))
    ensures |registered| == |exports|
    ensures forall i :: 0 <= i < |exports| ==>
      registered[i] == Registration(RouteName(exports[i].name), Metadata(exports[i].text))
  {
    docs := new Docs();
    registered := [];
    for n := 0 to |exports|
      invariant docs.routes == DocsTable(DocEntries(exports[..n]))
      invariant |registered| == n
      invariant forall i :: 0 <= i < n ==>
        registered[i] == Registration(RouteName(exports[i].name), Metadata(exports[i].text))
    {
      DocEntriesStep(exports, n);
      var route := Handler(exports[n].name, exports[n].text, docs);
      registered := registered + [Registration(RouteName(exports[n].name), route)];
    }
    assert exports[..|exports|] == exports;
  }
}

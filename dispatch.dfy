/** The request handler that `handler` returns for each route (routes.ts,
    lines 33-72): it collects the query keys the route does not accept,
    answers 400 if there are any, and otherwise places each supplied value
    at its declared parameter's position, calls the library function and
    shapes its result or its failure into the reply. The library call is a
    parameter: a total function from the argument list to what awaiting it
    yields. */
module Dispatch {
  import opened JsString
  import opened JsObject
  import opened RouteMeta

  datatype Option<T> = None | Some(value: T)

  /** The argument array handed to `func.apply`; `None` is a hole, which the
      callee reads as `undefined`. */
  type Args = seq<Option<string>>

  /** What awaiting the library call gives: its value, or what it threw. */
  datatype Outcome<P, E> = Resolved(value: P) | Threw(error: E)

  /** The JSON body besides `success`: `payload`, or a `reason` that is
      either the 400 message or the raw thrown value. */
  datatype Body<P, E> = Payload(value: P) | Reason(text: string) | RawError(error: E)

  /** The reply: status code, `success` flag and the rest of the body. */
  datatype Response<P, E> = Response(status: nat, success: bool, body: Body<P, E>)

  /** `errors`: the supplied keys that the route does not accept, in the
      order supplied. */
  function Unknown(urlParams: seq<string>, keys: seq<string>): (errors: seq<string>)
    ensures |errors| <= |keys|
    ensures forall k :: k in errors <==> k in keys && k !in urlParams
    ensures errors == [] <==> forall k :: k in keys ==> k in urlParams
    decreases |keys|
  {
    if keys == [] then []
    else
      var k := keys[|keys| - 1];
      Unknown(urlParams, keys[..|keys| - 1]) + (if k in urlParams then [] else [k])
  }

  /** Each supplied key is rejected at most once. */
  lemma {:induction false} UnknownDistinct(urlParams: seq<string>, keys: seq<string>)
    requires Distinct(keys)
    ensures Distinct(Unknown(urlParams, keys))
    decreases |keys|
  {
    if keys != [] {
      var init, k := keys[..|keys| - 1], keys[|keys| - 1];
      assert Distinct(init);
      UnknownDistinct(urlParams, init);
      assert k !in init;
    }
  }

  /** The rejected keys keep the order in which they were supplied. */
  lemma {:induction false} UnknownInOrder(urlParams: seq<string>, keys: seq<string>)
    requires Distinct(keys)
    ensures InFirstOrder(keys, Unknown(urlParams, keys))
    decreases |keys|
  {
    if keys != [] {
      var init, k := keys[..|keys| - 1], keys[|keys| - 1];
      assert keys == init + [k];
      assert Distinct(init);
      UnknownInOrder(urlParams, init);
      var e0 := Unknown(urlParams, init);
      if k in urlParams {
        InFirstOrderKept(init, k, e0);
      } else {
        InFirstOrderAppend(init, k, e0);
      }
    }
  }

  /** `args[i] = v` on a JavaScript array: the positions between the old end
      and `i` become holes. */
  function SetArg(args: Args, i: nat, v: string): (r: Args)
    ensures |r| == if i < |args| then |args| else i + 1
    ensures r[i] == Some(v)
    ensures forall j :: 0 <= j < |r| && j != i ==> r[j] == if j < |args| then args[j] else None
  {
    if i < |args| then args[i := Some(v)]
    else args + seq(i - |args|, _ => None) + [Some(v)]
  }

  /** `paramsList.indexOf(urlParamToParamMap[requestParam])`: the position of
      the declared parameter a valid query key stands for. */
  function Position(route: Route, k: string): (i: nat)
    requires WellFormed(route) && k in route.urlParamToParamMap.entries
    ensures i < |route.paramsList|
    ensures route.paramsList[i] == route.urlParamToParamMap.entries[k]
  {
    FirstIndex(route.paramsList, route.urlParamToParamMap.entries[k])
  }

  /** Distinct valid keys stand for distinct positions. */
  lemma PositionInjective(route: Route, k1: string, k2: string)
    requires WellFormed(route)
    requires k1 in route.urlParamToParamMap.entries && k2 in route.urlParamToParamMap.entries
    requires k1 != k2
    ensures Position(route, k1) != Position(route, k2)
  {
  }

  /** Every key is a valid query key and has a value. */
  ghost predicate Bindable(route: Route, keys: seq<string>, values: map<string, string>)
  {
    forall k :: k in keys ==> k in route.urlParamToParamMap.entries && k in values
  }

  /** The arguments after the keys have been placed, in order. A key with
      no declared parameter or no value is passed over; the handler only
      binds when every key is valid, so this never happens there. */
  function Bind(route: Route, keys: seq<string>, values: map<string, string>): (args: Args)
    requires WellFormed(route)
    ensures |args| <= |route.paramsList|
    ensures args != [] ==> args[|args| - 1].Some?
    ensures forall j :: 0 <= j < |args| && args[j].Some? ==> args[j].value in values.Values
    decreases |keys|
  {
    if keys == [] then []
    else
      var k, args := keys[|keys| - 1], Bind(route, keys[..|keys| - 1], values);
      if k in route.urlParamToParamMap.entries && k in values
      then SetArg(args, Position(route, k), values[k])
      else args
  }

  /** Each supplied value sits at its declared parameter's position, every
      other position is a hole, and there are never more arguments than
      declared parameters. */
  lemma {:induction false} BindPlacesValues(route: Route, keys: seq<string>, values: map<string, string>)
    requires WellFormed(route) && Distinct(keys) && Bindable(route, keys, values)
    ensures |Bind(route, keys, values)| <= |route.paramsList|
    ensures forall k :: k in keys ==>
      Position(route, k) < |Bind(route, keys, values)|
      && Bind(route, keys, values)[Position(route, k)] == Some(values[k])
    ensures forall j :: (0 <= j < |Bind(route, keys, values)|
      && forall k :: k in keys ==> Position(route, k) != j) ==> Bind(route, keys, values)[j] == None
    decreases |keys|
  {
    if keys != [] {
      var init, k := keys[..|keys| - 1], keys[|keys| - 1];
      assert keys == init + [k];
      assert Distinct(init);
      BindPlacesValues(route, init, values);
      var before, after := Bind(route, init, values), Bind(route, keys, values);
      forall x | x in init ensures Position(route, x) != Position(route, k) {
        PositionInjective(route, x, k);
      }
    }
  }

  /** The 400 message: the rejected keys, then every key the route accepts.
      `${errors}` prints a one-element array as its element. */
  function ReasonText(errors: seq<string>, urlParams: seq<string>): (text: string)
    requires |errors| >= 1
    ensures |errors| == 1 ==>
      text == "Argument " + errors[0] + " is not valid for the requested parameters: " + Join(urlParams, ", ")
    ensures |errors| > 1 ==>
      10 + |errors[0]| <= |text| && text[..10] == "Arguments " && text[10..10 + |errors[0]|] == errors[0]
    ensures |Join(urlParams, ", ")| <= |text| && text[|text| - |Join(urlParams, ", ")|..] == Join(urlParams, ", ")
  {
    var accepted := Join(urlParams, ", ");
    if |errors| == 1 then
      var text := "Argument " + Join(errors, ",") + " is not valid for the requested parameters: " + accepted;
      EndsWith("Argument " + Join(errors, ",") + " is not valid for the requested parameters: ", accepted);
      text
    else
      var rejected := Join(errors, ", ");
      var rest := " are not valid for the requested parameters: " + accepted;
      StartsWith("Arguments ", rejected, rest, |errors[0]|);
      assert "Arguments " + rejected + rest
        == "Arguments " + rejected + " are not valid for the requested parameters: " + accepted;
      EndsWith("Arguments " + rejected + " are not valid for the requested parameters: ", accepted);
      "Arguments " + rejected + " are not valid for the requested parameters: " + accepted
  }

  /** The characters after a prefix `a` start with those of `b`. */
  lemma StartsWith(a: string, b: string, c: string, n: nat)
    requires n <= |b|
    ensures (a + b + c)[..|a|] == a && (a + b + c)[|a|..|a| + n] == b[..n]
  {
    var t := a + b + c;
    assert forall i :: 0 <= i < n ==> t[|a| + i] == b[i];
  }

  /** A concatenation ends with its last part. */
  lemma EndsWith(a: string, b: string)
    ensures (a + b)[|a|..] == b
  {
  }

  /** What the handler answers, as a function of the route, the query and
      the library call. */
  function Respond<P, E>(route: Route, query: Obj<string>, call: Args -> Outcome<P, E>): (resp: Response<P, E>)
    requires WellFormed(route) && Valid(query)
    ensures resp.status == 200 || resp.status == 400 || resp.status == 500
    ensures resp.success <==> resp.status == 200
    ensures resp.status == 400 <==> exists k :: k in query.keys && k !in route.urlParams
  {
    var errors := Unknown(route.urlParams, query.keys);
    if |errors| > 0 then Response(400, false, Reason(ReasonText(errors, route.urlParams)))
    else match call(Bind(route, query.keys, query.entries))
      case Resolved(v) => Response(200, true, Payload(v))
      case Threw(e) => Response(500, false, RawError(e))
  }

  /** A query with a key the route does not accept is answered 400 with the
      message built from exactly those keys, whatever the library would
      have done: the function is not called. */
  lemma RespondRejects<P, E>(route: Route, query: Obj<string>, call: Args -> Outcome<P, E>, other: Args -> Outcome<P, E>)
    requires WellFormed(route) && Valid(query)
    requires exists k :: k in query.keys && k !in route.urlParams
    ensures Unknown(route.urlParams, query.keys) != []
    ensures Respond(route, query, call)
         == Response(400, false, Reason(ReasonText(Unknown(route.urlParams, query.keys), route.urlParams)))
    ensures Respond(route, query, call) == Respond(route, query, other)
  {
    var k :| k in query.keys && k !in route.urlParams;
    assert k in Unknown(route.urlParams, query.keys);
  }

  /** A query whose keys are all accepted calls the function with the bound
      arguments: 200 and `success` with its value, or 500 with what it threw. */
  lemma RespondCalls<P, E>(route: Route, query: Obj<string>, call: Args -> Outcome<P, E>)
    requires WellFormed(route) && Valid(query)
    requires forall k :: k in query.keys ==> k in route.urlParams
    ensures forall k :: k in query.keys ==> k in route.urlParamToParamMap.entries && k in query.entries
    ensures var resp := Respond(route, query, call);
      var outcome := call(Bind(route, query.keys, query.entries));
      && resp.status != 400
      && (resp.success <==> outcome.Resolved?)
      && (outcome.Resolved? ==> resp == Response(200, true, Payload(outcome.value)))
      && (outcome.Threw? ==> resp == Response(500, false, RawError(outcome.error)))
  {
  }

  /** Looking at one more key appends it to the rejected keys exactly when
      the route does not accept it. */
  lemma UnknownStep(urlParams: seq<string>, keys: seq<string>, n: nat)
    requires n < |keys|
    ensures keys[n] in urlParams ==> Unknown(urlParams, keys[..n + 1]) == Unknown(urlParams, keys[..n])
    ensures keys[n] !in urlParams ==> Unknown(urlParams, keys[..n + 1]) == Unknown(urlParams, keys[..n]) + [keys[n]]
  {
    assert keys[..n + 1][..n] == keys[..n];
  }

  /** An accepted query key has a declared parameter and a value. */
  lemma Accepted(route: Route, query: Obj<string>, k: string)
    requires WellFormed(route) && Valid(query)
    requires k in query.keys && k in route.urlParams
    ensures k in route.urlParamToParamMap.entries && k in query.entries
  {
  }

  /** Placing one more key that has a parameter and a value is one more
      array assignment. */
  lemma BindStep(route: Route, keys: seq<string>, values: map<string, string>, n: nat)
    requires WellFormed(route) && n < |keys|
    requires keys[n] in route.urlParamToParamMap.entries && keys[n] in values
    ensures Bind(route, keys[..n + 1], values)
         == SetArg(Bind(route, keys[..n], values), Position(route, keys[n]), values[keys[n]])
  {
    assert keys[..n + 1][..n] == keys[..n];
  }

  /** The `Object.keys(query).forEach(...)` loop of the request handler.
      Each `return` in the callback moves on to the next key, so a rejected
      key is recorded and a valid one is placed only while nothing has been
      rejected. */
  method Collect(route: Route, query: Obj<string>) returns (errors: seq<string>, args: Args)
    requires WellFormed(route) && Valid(query)
    ensures errors == Unknown(route.urlParams, query.keys)
    ensures errors == [] ==> args == Bind(route, query.keys, query.entries)
  {
    args, errors := [], [];
    var keys := query.keys;
    for n := 0 to |keys|
      invariant errors == Unknown(route.urlParams, keys[..n])
      invariant errors == [] ==> args == Bind(route, keys[..n], query.entries)
    {
      var requestParam := keys[n];
      UnknownStep(route.urlParams, keys, n);
      if requestParam !in route.urlParams {
        errors := errors + [requestParam];
      } else if |errors| == 0 {
        Accepted(route, query, requestParam);
        BindStep(route, keys, query.entries, n);
        args := SetArg(args, Position(route, requestParam), query.entries[requestParam]);
      }
    }
    assert keys[..|keys|] == keys;
  }

  /** The request handler: rejects unaccepted keys with 400, otherwise
      calls the library function and answers with its value or its
      failure. */
  method Handle<P, E>(route: Route, query: Obj<string>, call: Args -> Outcome<P, E>) returns (resp: Response<P, E>)
    requires WellFormed(route) && Valid(query)
    ensures resp == Respond(route, query, call)
  {
    var errors, args := Collect(route, query);
    if |errors| > 0 {
      resp := Response(400, false, Reason(ReasonText(errors, route.urlParams)));
      return;
    }
    var outcome := call(args);
    match outcome
    case Resolved(v) =>
      resp := Response(200, true, Payload(v));
    case Threw(e) =>
      resp := Response(500, false, RawError(e));
  }
}

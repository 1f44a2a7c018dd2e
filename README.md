# manga-crawler-api routing layer, in Dafny

This project models the routing and binding layer of the manga-crawler-api
HTTP server (`routes.ts`). At start-up the server reads the name and the
source text of every function the crawler library exports. It serves each
function at a path derived from its name (`getMangaList` becomes
`/api/get-manga-list`). It reads the declared parameter names from the
function's text and accepts each one as a query key (`pageNumber` becomes
`page_number`). A shared documentation object records every path with its
query keys, and `GET /api` returns it. For each request the handler rejects
query keys the route does not accept with a 400 message. Otherwise it places
each supplied value at its declared parameter's position, calls the
function, and replies `{success: true, payload}` or, when the call throws,
500 with the raw error.

Files and modules:

- `jsstring.dfy` (`JsString`): the JavaScript built-ins the layer relies on.
  These are `indexOf` (-1 when absent), `slice` (negative bounds count from
  the end, crossing bounds give ""), `split` on one character, `trim` (the
  full ECMAScript white-space and line-terminator set) and `join`.
- `naming.dfy` (`Naming`): `routeName` and `mapParamNameToURLParam`. Both
  are the same character-by-character rewrite (`Decamel`) with `-` or `_`
  as the separator. It comes with its inverse (`Recamel`).
- `params.dfy` (`ParamText`): `params`, which reads the parameter list off
  the function's text.
- `jsobject.dfy` (`JsObject`): a plain JavaScript object with string keys.
  It keeps its keys in insertion order, and assigning to an existing key
  keeps the key's place.
- `metadata.dfy` (`RouteMeta`): the per-route metadata built at the top of
  `handler`: the `map`/`reduce` fold into `urlParamToParamMap`, then
  `urlParams`. It also holds the `Docs` class (the shared `docs` object
  that `handler` updates in place), `Handler` and the start-up loop
  `Routes`.
- `dispatch.dfy` (`Dispatch`): the request handler returned by `handler`.
  `Collect` is its loop over the query keys. `Handle` runs that loop and
  builds the reply, and is proved equal to the specification function
  `Respond`.

`Bind` describes the argument array after the keys have been placed. It
passes over a key that has no declared parameter. The handler only binds
when every key is accepted, so it never reaches that case.

Four behaviours of the code that a reader might not expect:

- A function declared with no parameters gets the single parameter `""`,
  not an empty list (`ParamsOfNoParameters`). Its route therefore accepts
  the query key `""`.
- The argument array is as long as the largest assigned position plus one,
  not as long as the declared parameter list. Its last slot is always filled,
  and it is never longer than that list (`Bind`, `BindPlacesValues`).
- The function name can be recovered from its path whenever it has no `-`;
  every other character is kept (`FunctionNameFromRoute`).
- After the first rejected key, the loop stops placing values but keeps
  collecting rejected keys. This has no visible effect, because any rejected
  key makes the reply a 400 (`Handle` is proved equal to `Respond`, which
  never looks at a partial argument list).

## Model

| member | source | states |
|---|---|---|
| `Naming.Decamel` | routes.ts:18 | Output length is the input length plus its number of capitals, and the output has no ASCII capital. |
| `Naming.DecamelAppend` | routes.ts:18 | The rewrite distributes over concatenation. So it works one character at a time. |
| `Naming.DecamelChar` | routes.ts:18 | A capital becomes the separator plus its lower-case form. Every other character stays as it is. |
| `Naming.RecamelDecamel` | routes.ts:18 | Dropping each separator and upper-casing the next character gives back any separator-free input. |
| `Naming.DecamelInjective` | routes.ts:18 | Two separator-free inputs never rewrite to the same string. |
| `Naming.RouteName` | routes.ts:17-19 | The path is `/api/` followed by the hyphen rewrite of the name. It has no capital after the prefix, and it is one character longer than `/api/` plus the name for each capital. |
| `Naming.FunctionNameFromRoute` | routes.ts:17-19 | For a hyphen-free name, undoing the rewrite on the part of the path after `/api/` gives the name back. |
| `Naming.RouteNameInjective` | routes.ts:17-19 | Distinct hyphen-free function names get distinct paths. |
| `Naming.UrlParamName` | routes.ts:84-86 | The query key is the parameter name plus one extra character per capital, and has no capital. |
| `Naming.ParamNameFromUrlParam` | routes.ts:84-86 | An underscore-free parameter name is recovered from its query key. |
| `Naming.UrlParamNameCollides` | routes.ts:84-86 | The query-key rewrite is not injective: `a_b` and `aB` both become `a_b`. |
| `JsString.Slice` | routes.ts:79 | Within bounds it is the ordinary substring. Crossing bounds give `""`. Otherwise it is the substring between the clamped bounds. |
| `JsString.IndexOf` | routes.ts:79 | Gives -1 exactly when the character is absent. Otherwise it gives a position holding the character with no earlier occurrence. |
| `JsString.Join` | routes.ts:52-53 | No pieces give `""` and one piece gives that piece. Otherwise the result starts with the first piece and ends with the last; with `JoinAppend` this fixes every join. |
| `JsString.JoinAppend` | routes.ts:52-53 | For any separator, joining one more piece appends the separator and that piece. |
| `JsString.Split` | routes.ts:80 | Always at least one piece, and no piece contains the separator. |
| `JsString.SplitCount` | routes.ts:80 | There is one piece more than there are separators. |
| `JsString.JoinSplit` | routes.ts:80 | Joining the pieces with the separator gives back the string. |
| `JsString.SplitJoin` | routes.ts:80 | Splitting a join of separator-free pieces gives back the pieces. |
| `JsString.Trim` | routes.ts:81 | The result is an infix of the input with only white space before and after it, and has no white space at either end. An already-trimmed string is unchanged. |
| `ParamText.ParamSection` | routes.ts:79 | The cut-out section is no longer than the text and never holds a `)`. |
| `ParamText.Params` | routes.ts:75-82 | Never empty, one entry more than the commas in the cut-out section, and every entry comma-free and trimmed. |
| `ParamText.ParamSectionBetween` | routes.ts:79 | When `(` comes before `)`, the section is exactly the text between the first `(` and the first `)`. |
| `ParamText.ParamsCloseBeforeOpen` | routes.ts:79 | When the first `)` comes before the first `(`, the slice is empty and the result is `[""]`. |
| `ParamText.ParamsWithoutParentheses` | routes.ts:79 | With no parenthesis at all, the section is the text minus its last character. |
| `ParamText.ParamsOfDeclaration` | routes.ts:75-82 | For `head(d0,...,dn)rest`, the result is exactly the trimmed pieces in declaration order. |
| `ParamText.ParamsOfNoParameters` | routes.ts:75-82 | A function declared with `()` gets the single parameter `""`. |
| `JsObject.Assign` | routes.ts:26 | Assigning a key sets its value. A new key goes last in key order, and an existing key keeps its place. |
| `RouteMeta.FirstIndex` | routes.ts:44 | `indexOf` on a present element: a position holding it, with no earlier occurrence. |
| `RouteMeta.ParamMap` | routes.ts:24-26 | The folded object is well formed: each key once, and exactly the keys that have a value. |
| `RouteMeta.ParamMapKeys` | routes.ts:24-27 | `urlParams` are the translated parameter names, each once, in order of first occurrence. |
| `RouteMeta.ParamMapLastWriter` | routes.ts:24-26 | Each query key maps to the last declared parameter that translates to it. |
| `RouteMeta.ParamMapWellFormed` | routes.ts:24-27 | For any parameter list, every key of the folded object maps to a listed parameter that translates back to it. |
| `RouteMeta.Metadata` | routes.ts:22-27 | `paramsList` is `Params(text)` and `urlParamToParamMap` is `ParamMap` of it. The route built from a function's text is well formed: every valid query key maps to a declared parameter that translates back to it. `urlParams` are exactly the translated parameter names. |
| `RouteMeta.MetadataKeyOrder` | routes.ts:22-27 | `urlParams` list the translated parameter names without repeats, in order of first occurrence. |
| `RouteMeta.Docs.Listing` | routes.ts:12 | `GET /api` lists every recorded path with its query keys, in registration order. |
| `RouteMeta.CopyParams` | routes.ts:28-30 | The copy holds the same keys in the same order. |
| `RouteMeta.Handler` | routes.ts:21-31 | Returns the route's metadata, and stores its `urlParams` under `routeName(functionName)` in `docs`. Nothing else in `docs` changes. |
| `RouteMeta.DocsTablePaths` | routes.ts:8-10 | The documentation object has an entry for every recorded path and for nothing else. |
| `RouteMeta.DocsTableDistinct` | routes.ts:31 | With distinct paths, each path appears once, in order, with the parameters recorded for it. |
| `RouteMeta.OneRoutePerExport` | routes.ts:5-12 | Distinct hyphen-free names give `GET /api` exactly one entry per exported function, in export order, and each entry's `params` are that function's `urlParams`. |
| `RouteMeta.ListingAfterRoutes` | routes.ts:8-12 | With distinct hyphen-free names, `GET /api` lists exactly one entry per exported function, in export order: its path and its `urlParams`. |
| `RouteMeta.Routes` | routes.ts:4-15 | Registers one route per export, in order, each with its path and metadata. The docs object ends up as the result of recording every export. |
| `Dispatch.Unknown` | routes.ts:37-41 | `errors` holds exactly the supplied keys that the route does not accept. It is empty iff every key is accepted. |
| `Dispatch.UnknownDistinct` | routes.ts:37-41 | Object keys are distinct, so each rejected key is reported once. |
| `Dispatch.UnknownInOrder` | routes.ts:37-41 | The rejected keys are supplied keys, listed in the order they were supplied. |
| `Dispatch.SetArg` | routes.ts:44 | Assigning past the end of an array leaves holes up to the new position. Every other position keeps its value. |
| `Dispatch.Position` | routes.ts:44 | A valid key's position is inside the parameter list and holds the parameter the key stands for. |
| `Dispatch.PositionInjective` | routes.ts:44 | Distinct valid keys have distinct positions. |
| `Dispatch.Bind` | routes.ts:42-44 | The argument array is never longer than the parameter list. Its last slot is filled, so its length is the largest assigned position plus one. Every non-hole is one of the supplied values. |
| `Dispatch.BindPlacesValues` | routes.ts:42-44 | Each supplied value sits at its parameter's position, every other position is a hole, and the array is never longer than the parameter list. |
| `Dispatch.ReasonText` | routes.ts:51-53 | With one rejected key the message names exactly that key (`${errors}` of a one-element array). With several it starts `Arguments ` and then the first rejected key. Either way it ends with the accepted keys joined by `, `. |
| `Dispatch.Respond` | routes.ts:47-71 | The status is 200, 400 or 500. `success` holds exactly on 200. It is 400 exactly when some supplied key is not accepted. |
| `Dispatch.RespondRejects` | routes.ts:47-57 | Any unaccepted key gives 400 and `success: false` with the message built from all rejected keys, and the library function is not called. |
| `Dispatch.RespondCalls` | routes.ts:59-71 | When every key is accepted, the function gets the bound arguments. A resolved value gives 200 with the payload, and a throw gives 500 with the raw error. |
| `Dispatch.Collect` | routes.ts:37-45 | The loop over the query keys yields exactly the rejected keys. When there are none, it yields the argument array that `Bind` describes. |
| `Dispatch.Handle` | routes.ts:33-72 | The handler's reply is `Respond` of the route, the query and the call. |

## Left out

- Server start-up (`index.ts`, `api/serverless.ts`): building Fastify, listening on port 3000, logging and exiting when the port cannot be bound. This is I/O with no logic.
- Fastify route registration and `reply.code`/`reply.send`: `Routes` returns the list of registrations, and each reply is a `Response` value (status, `success`, body).
- The crawler library itself: `Object.keys(MangaCrawler)` becomes a given list of exports (name and source text). `Function.prototype.toString` becomes that text. The awaited `func.apply` call becomes a total function from the argument list to a resolved value or a thrown value. Asynchrony, timeouts and cancellation are not modelled.
- JSON serialisation of the payload and of the raw error (an `Error` object serialises to `{}`).
- Object key order for integer-like keys. JavaScript lists keys such as `"2"` before all other keys. The model keeps every key in insertion order. Any declaration with a default value that contains a comma can give such a parameter name: `function f(a = [0, 1, 2])` yields the pieces `a = [0`, `1` and `2]`, and JavaScript lists `1` before `a = [0`. A query key that looks like an array index is not reordered either.
- Query values are strings. Fastify turns a repeated query key into an array of strings, and this is not modelled.
- Strings are sequences of Unicode scalar values, not UTF-16 code units. Positions can therefore differ from JavaScript's for characters outside the Basic Multilingual Plane. Searching for `(`, `)` and `,` gives the same pieces, because these are ASCII. A text with no `)` is the exception: `slice(…, -1)` drops one UTF-16 code unit, so for a text ending in a character outside the Basic Multilingual Plane JavaScript keeps a lone high surrogate, while the model drops the whole character (`ParamsWithoutParentheses`).
- `RouteMeta.OneRoutePerExport`: stated only for hyphen-free names. A name containing `-` can share a path with another export. The documentation object then keeps the later entry, and Fastify would refuse the second registration, which is not modelled.
- `Dispatch.ReasonText`: for several rejected keys, the contract pins only the opening words, the first rejected key and the closing list of accepted keys. The keys in between are the rejected keys joined by `, `, as the definition says, but no contract restates that.

/** The two naming conventions of the route layer (routes.ts): an exported
    function name becomes a URL path (`getMangaList` to `/api/get-manga-list`)
    and a declared parameter name becomes a query key (`pageNumber` to
    `page_number`). Both are the same rewrite, `replaceAll(/[A-Z]/g, ...)`,
    with a different separator in front of each lowered capital. */
module Naming {

  const ApiPrefix: string := "/api/"

  predicate IsUpper(c: char)
  {
    'A' <= c <= 'Z'
  }

  /** String.prototype.toLowerCase on an ASCII capital. */
  function Lower(c: char): (l: char)
    requires IsUpper(c)
    ensures 'a' <= l <= 'z'
  {
    (c as int + 32) as char
  }

  /** ASCII upper-casing; every other character is kept. */
  function Upper(c: char): (u: char)
  {
    if 'a' <= c <= 'z' then (c as int - 32) as char else c
  }

  /** The number of ASCII capitals in `s`. */
  function CountUpper(s: string): (n: nat)
    ensures n <= |s|
  {
    if s == [] then 0 else (if IsUpper(s[0]) then 1 else 0) + CountUpper(s[1..])
  }

  /** Each ASCII capital of `s` becomes `sep` followed by its lower-case
      form; every other character is kept as it is. */
  function Decamel(s: string, sep: char): (r: string)
    requires !IsUpper(sep)
    ensures |r| == |s| + CountUpper(s)
    ensures forall i :: 0 <= i < |r| ==> !IsUpper(r[i])
  {
    if s == [] then []
    else (if IsUpper(s[0]) then [sep, Lower(s[0])] else [s[0]]) + Decamel(s[1..], sep)
  }

  /** The inverse convention: each `sep` is dropped and the character after
      it is upper-cased. */
  function Recamel(r: string, sep: char): (s: string)
    decreases |r|
  {
    if r == [] then []
    else if r[0] == sep && |r| >= 2 then [Upper(r[1])] + Recamel(r[2..], sep)
    else [r[0]] + Recamel(r[1..], sep)
  }

  /** The rewrite works character by character: it distributes over
      concatenation, so the whole result is the rewrites of the single
      characters laid end to end. */
  lemma {:induction false} DecamelAppend(a: string, b: string, sep: char)
    requires !IsUpper(sep)
    ensures Decamel(a + b, sep) == Decamel(a, sep) + Decamel(b, sep)
  {
    if a == [] {
      assert a + b == b;
    } else {
      assert (a + b)[0] == a[0] && (a + b)[1..] == a[1..] + b;
      DecamelAppend(a[1..], b, sep);
    }
  }

  /** One character: a capital becomes two characters, anything else stays. */
  lemma DecamelChar(c: char, sep: char)
    requires !IsUpper(sep)
    ensures IsUpper(c) ==> Decamel([c], sep) == [sep, Lower(c)]
    ensures !IsUpper(c) ==> Decamel([c], sep) == [c]
  {
    assert [c][1..] == [];
  }

  /** Dropping each separator and upper-casing the next character recovers a
      name that contained no separator. */
  lemma {:induction false} RecamelDecamel(s: string, sep: char)
    requires !IsUpper(sep) && sep !in s
    ensures Recamel(Decamel(s, sep), sep) == s
  {
    if s != [] {
      var rest := Decamel(s[1..], sep);
      assert sep !in s[1..] by { assert forall i :: 0 <= i < |s| - 1 ==> s[1..][i] == s[i + 1]; }
      RecamelDecamel(s[1..], sep);
      if IsUpper(s[0]) {
        var r := [sep, Lower(s[0])] + rest;
        assert r[2..] == rest;
        assert Upper(Lower(s[0])) == s[0];
        assert Recamel(r, sep) == [s[0]] + s[1..];
      } else {
        var r := [s[0]] + rest;
        assert r[1..] == rest;
        assert Recamel(r, sep) == [s[0]] + s[1..];
      }
      assert [s[0]] + s[1..] == s;
    }
  }

  /** Two separator-free names never rewrite to the same string. */
  lemma DecamelInjective(a: string, b: string, sep: char)
    requires !IsUpper(sep) && sep !in a && sep !in b
    requires Decamel(a, sep) == Decamel(b, sep)
    ensures a == b
  {
    RecamelDecamel(a, sep);
    RecamelDecamel(b, sep);
  }

  /** routeName: the path under which an exported function is served. */
  function RouteName(functionName: string): (path: string)
    ensures |path| == |ApiPrefix| + |functionName| + CountUpper(functionName)
    ensures path[..|ApiPrefix|] == ApiPrefix
    ensures path[|ApiPrefix|..] == Decamel(functionName, '-')
    ensures forall i :: |ApiPrefix| <= i < |path| ==> !IsUpper(path[i])
  {
    ApiPrefix + Decamel(functionName, '-')
  }

  /** mapParamNameToURLParam: the query key under which a declared parameter
      is supplied. */
  function UrlParamName(param: string): (key: string)
    ensures |key| == |param| + CountUpper(param)
    ensures forall i :: 0 <= i < |key| ==> !IsUpper(key[i])
  {
    Decamel(param, '_')
  }

  /** The function name is recovered from its path when it has no hyphen:
      drop the prefix, drop each hyphen and upper-case what follows it. */
  lemma FunctionNameFromRoute(functionName: string)
    requires '-' !in functionName
    ensures Recamel(RouteName(functionName)[|ApiPrefix|..], '-') == functionName
  {
    RecamelDecamel(functionName, '-');
  }

  /** Distinct hyphen-free function names are served under distinct paths. */
  lemma RouteNameInjective(a: string, b: string)
    requires '-' !in a && '-' !in b
    requires RouteName(a) == RouteName(b)
    ensures a == b
  {
    FunctionNameFromRoute(a);
    FunctionNameFromRoute(b);
  }

  /** A parameter name without an underscore is recovered from its query key. */
  lemma ParamNameFromUrlParam(param: string)
    requires '_' !in param
    ensures Recamel(UrlParamName(param), '_') == param
  {
    RecamelDecamel(param, '_');
  }

  /** With underscores allowed the query-key rewrite is not injective:
      `a_b` and `aB` are both supplied as `a_b`. */
  lemma UrlParamNameCollides()
    ensures UrlParamName("a_b") == UrlParamName("aB") == "a_b"
  {
    assert Decamel("b", '_') == "b";
    assert Decamel("_b", '_') == "_b";
    assert Decamel("a_b", '_') == "a_b";
    assert Decamel("B", '_') == "_b";
    assert Decamel("aB", '_') == "a_b";
  }
}

/** The JavaScript string and array built-ins that the route layer relies on
    (String.prototype.indexOf, slice, split, trim and Array.prototype.join),
    with their ECMAScript behaviour on the edge cases: a missing search
    character gives -1, negative slice bounds count from the end, and a slice
    whose end lies before its start is empty. */
module JsString {

  /** The number of occurrences of `c` in `s`. */
  function Count(s: string, c: char): (n: nat)
    ensures n <= |s|
  {
    if s == [] then 0 else (if s[0] == c then 1 else 0) + Count(s[1..], c)
  }

  lemma {:induction false} CountAppend(a: string, b: string, c: char)
    ensures Count(a + b, c) == Count(a, c) + Count(b, c)
  {
    if a != [] {
      assert (a + b)[0] == a[0] && (a + b)[1..] == a[1..] + b;
      CountAppend(a[1..], b, c);
    } else {
      assert a + b == b;
    }
  }

  lemma {:induction false} CountAbsent(s: string, c: char)
    requires c !in s
    ensures Count(s, c) == 0
  {
    if s != [] {
      assert c !in s[1..] by { assert forall i :: 0 <= i < |s[1..]| ==> s[1..][i] == s[i + 1]; }
      CountAbsent(s[1..], c);
    }
  }

  /** String.prototype.indexOf for one character: the first position of `c`, or -1. */
  function IndexOf(s: string, c: char): (i: int)
    ensures -1 <= i < |s|
    ensures i == -1 <==> c !in s
    ensures 0 <= i ==> s[i] == c && c !in s[..i]
  {
    if s == [] then -1
    else if s[0] == c then 0
    else
      var j := IndexOf(s[1..], c);
      if j == -1 then -1
      else
        assert s[..j + 1] == [s[0]] + s[1..][..j];
        j + 1
  }

  /** How String.prototype.slice turns a bound into a position: a negative
      bound counts back from the end, and the result is clamped to [0, len]. */
  function SliceBound(len: nat, b: int): (p: nat)
    ensures p <= len
  {
    if b < 0 then (if len + b < 0 then 0 else len + b)
    else if b > len then len
    else b
  }

  /** String.prototype.slice(start, end): empty when the clamped end is not
      after the clamped start. */
  function Slice(s: string, start: int, end: int): (r: string)
    ensures |r| <= |s|
    ensures 0 <= start <= end <= |s| ==> r == s[start..end]
    ensures SliceBound(|s|, end) <= SliceBound(|s|, start) ==> r == []
    ensures SliceBound(|s|, start) < SliceBound(|s|, end) ==> r == s[SliceBound(|s|, start)..SliceBound(|s|, end)]
  {
    var from, to := SliceBound(|s|, start), SliceBound(|s|, end);
    if from < to then s[from..to] else []
  }

  /** String.prototype.split with a one-character separator: the pieces
      between consecutive separators, so an empty string gives [""]. */
  function Split(s: string, sep: char): (parts: seq<string>)
    ensures |parts| >= 1
    ensures forall i :: 0 <= i < |parts| ==> sep !in parts[i]
    decreases |s|
  {
    var i := IndexOf(s, sep);
    if i == -1 then [s] else [s[..i]] + Split(s[i + 1..], sep)
  }

  /** Array.prototype.join: the parts with `sep` between neighbours. */
  function Join(parts: seq<string>, sep: string): (s: string)
    ensures parts == [] ==> s == []
    ensures |parts| == 1 ==> s == parts[0]
    ensures |parts| >= 1 ==> |parts[0]| <= |s| && s[..|parts[0]|] == parts[0]
    ensures |parts| >= 1 ==> |parts[|parts| - 1]| <= |s| && s[|s| - |parts[|parts| - 1]|..] == parts[|parts| - 1]
  {
    if parts == [] then []
    else if |parts| == 1 then parts[0]
    else parts[0] + sep + Join(parts[1..], sep)
  }

  /** Concatenation regrouped: `a s (b s c)` is `(a s b) s c`. */
  lemma Regroup(a: string, sep: string, b: string, c: string)
    ensures a + sep + (b + sep + c) == a + sep + b + sep + c
  {
  }

  /** Joining one more piece adds the separator and that piece at the end,
      whatever the separator; with `Join([p], sep) == p` this fixes every
      join. */
  lemma {:induction false} JoinAppend(parts: seq<string>, p: string, sep: string)
    requires |parts| >= 1
    ensures Join(parts + [p], sep) == Join(parts, sep) + sep + p
    decreases |parts|
  {
    var t := parts + [p];
    assert t[0] == parts[0] && t[1..] == parts[1..] + [p];
    assert Join(t, sep) == parts[0] + sep + Join(parts[1..] + [p], sep);
    if |parts| == 1 {
      assert parts[1..] + [p] == [p];
    } else {
      var j := Join(parts[1..], sep);
      JoinAppend(parts[1..], p, sep);
      assert Join(parts, sep) == parts[0] + sep + j;
      Regroup(parts[0], sep, j, p);
    }
  }

  /** The first occurrence is the only position holding `c` with no `c`
      before it. */
  lemma IndexOfFirst(s: string, c: char, k: nat)
    requires k < |s| && s[k] == c && c !in s[..k]
    ensures IndexOf(s, c) == k
  {
  }

  /** A character absent from every piece and from the separator is absent
      from their join. */
  lemma {:induction false} JoinAvoids(parts: seq<string>, sep: string, c: char)
    requires c !in sep
    requires forall i :: 0 <= i < |parts| ==> c !in parts[i]
    ensures c !in Join(parts, sep)
  {
    if |parts| > 1 {
      JoinAvoids(parts[1..], sep, c);
    }
  }

  /** A string is what comes before position `i`, the character there,
      and what comes after. */
  lemma Around(s: string, i: nat)
    requires i < |s|
    ensures s[..i] + [s[i]] + s[i + 1..] == s
  {
  }

  /** split yields one piece more than there are separators. */
  lemma {:induction false} SplitCount(s: string, sep: char)
    ensures |Split(s, sep)| == Count(s, sep) + 1
    decreases |s|
  {
    var i := IndexOf(s, sep);
    if i == -1 {
      CountAbsent(s, sep);
    } else {
      Around(s, i);
      assert s == s[..i] + ([sep] + s[i + 1..]);
      CountAppend(s[..i], [sep] + s[i + 1..], sep);
      CountAppend([sep], s[i + 1..], sep);
      CountAbsent(s[..i], sep);
      SplitCount(s[i + 1..], sep);
    }
  }

  /** Joining the pieces of a split with the separator gives back the string. */
  lemma {:induction false} JoinSplit(s: string, sep: char)
    ensures Join(Split(s, sep), [sep]) == s
    decreases |s|
  {
    var i := IndexOf(s, sep);
    if i != -1 {
      var rest := Split(s[i + 1..], sep);
      var parts := Split(s, sep);
      JoinSplit(s[i + 1..], sep);
      assert parts == [s[..i]] + rest;
      assert parts[0] == s[..i] && parts[1..] == rest && |parts| >= 2;
      assert Join(parts, [sep]) == s[..i] + [sep] + Join(rest, [sep]);
      Around(s, i);
    }
  }

  /** Splitting a string that starts with a separator-free piece and a
      separator gives that piece, then the split of the rest. */
  lemma SplitCons(p: string, sep: char, tail: string)
    requires sep !in p
    ensures Split(p + [sep] + tail, sep) == [p] + Split(tail, sep)
  {
    var s := p + [sep] + tail;
    assert s[..|p|] == p;
    IndexOfFirst(s, sep, |p|);
    assert s[|p| + 1..] == tail;
  }

  /** A join of two or more pieces is the first piece, the separator and the
      join of the rest. */
  lemma JoinCons(parts: seq<string>, sep: string)
    requires |parts| >= 2
    ensures Join(parts, sep) == parts[0] + sep + Join(parts[1..], sep)
  {
  }

  /** The base case of SplitJoin: one separator-free piece. */
  lemma SplitJoinOne(parts: seq<string>, sep: char)
    requires |parts| == 1 && sep !in parts[0]
    ensures Split(Join(parts, [sep]), sep) == parts
  {
    assert IndexOf(parts[0], sep) == -1;
  }

  /** The inductive step of SplitJoin: a separator-free first piece in
      front of pieces that split back correctly. */
  lemma SplitJoinStep(parts: seq<string>, sep: char)
    requires |parts| >= 2 && sep !in parts[0]
    requires Split(Join(parts[1..], [sep]), sep) == parts[1..]
    ensures Split(Join(parts, [sep]), sep) == parts
  {
    JoinCons(parts, [sep]);
    SplitCons(parts[0], sep, Join(parts[1..], [sep]));
    assert parts == [parts[0]] + parts[1..];
  }

  /** Splitting a join of separator-free pieces gives back the pieces. */
  lemma {:induction false} SplitJoin(parts: seq<string>, sep: char)
    requires |parts| >= 1
    requires forall i :: 0 <= i < |parts| ==> sep !in parts[i]
    ensures Split(Join(parts, [sep]), sep) == parts
  {
    if |parts| == 1 {
      SplitJoinOne(parts, sep);
    } else {
      var rest := parts[1..];
      assert forall i :: 0 <= i < |rest| ==> sep !in rest[i] by {
        forall i | 0 <= i < |rest| ensures sep !in rest[i] {
          assert rest[i] == parts[i + 1];
        }
      }
      SplitJoin(rest, sep);
      SplitJoinStep(parts, sep);
    }
  }

  /** ECMAScript WhiteSpace and LineTerminator code points, the characters
      String.prototype.trim removes. */
  predicate IsSpace(c: char)
  {
    var n := c as int;
    n == 0x09 || n == 0x0A || n == 0x0B || n == 0x0C || n == 0x0D || n == 0x20
    || n == 0xA0 || n == 0x1680 || (0x2000 <= n <= 0x200A)
    || n == 0x2028 || n == 0x2029 || n == 0x202F || n == 0x205F
    || n == 0x3000 || n == 0xFEFF
  }

  /** No white space at either end. */
  predicate Trimmed(s: string)
  {
    s == [] || (!IsSpace(s[0]) && !IsSpace(s[|s| - 1]))
  }

  /** Drops the leading white space: what is left is a suffix of `s`, and
      everything dropped is white space. */
  function TrimStart(s: string): (r: string)
    ensures |r| <= |s| && r == s[|s| - |r|..]
    ensures forall i :: 0 <= i < |s| - |r| ==> IsSpace(s[i])
    ensures r == [] || !IsSpace(r[0])
  {
    if s != [] && IsSpace(s[0]) then TrimStart(s[1..]) else s
  }

  /** Drops the trailing white space: what is left is a prefix of `s`, and
      everything dropped is white space. */
  function TrimEnd(s: string): (r: string)
    ensures |r| <= |s| && r == s[..|r|]
    ensures forall i :: |r| <= i < |s| ==> IsSpace(s[i])
    ensures r == [] || !IsSpace(r[|r| - 1])
  {
    if s != [] && IsSpace(s[|s| - 1]) then TrimEnd(s[..|s| - 1]) else s
  }

  /** Every character of a slice occurs in the whole string. */
  lemma InfixChars(s: string, from: nat, to: nat)
    requires from <= to <= |s|
    ensures forall c :: c in s[from..to] ==> c in s
  {
    forall c | c in s[from..to] ensures c in s {
      var k :| 0 <= k < to - from && s[from..to][k] == c;
      assert s[from + k] == c;
    }
  }

  /** `r` is what is left of `s` once its first `a` characters and the
      characters after `r` are dropped, and all of those are white space. */
  predicate StripsTo(s: string, r: string, a: nat)
  {
    && a + |r| <= |s|
    && r == s[a..a + |r|]
    && (forall i :: 0 <= i < a ==> IsSpace(s[i]))
    && (forall i :: a + |r| <= i < |s| ==> IsSpace(s[i]))
  }

  /** Dropping white space from the front, then from the back, leaves an
      infix with only white space around it. */
  lemma BothEnds(s: string, t: string, r: string)
    requires |t| <= |s| && t == s[|s| - |t|..]
    requires forall i :: 0 <= i < |s| - |t| ==> IsSpace(s[i])
    requires |r| <= |t| && r == t[..|r|]
    requires forall i :: |r| <= i < |t| ==> IsSpace(t[i])
    ensures StripsTo(s, r, |s| - |t|)
  {
    var a := |s| - |t|;
    assert r == s[a..a + |r|];
    forall i | a + |r| <= i < |s| ensures IsSpace(s[i]) {
      assert s[i] == t[i - a];
    }
  }

  /** String.prototype.trim: the infix of `s` with no white space at either
      end that is left after removing white space from both ends. */
  function Trim(s: string): (r: string)
    ensures Trimmed(r)
    ensures forall c :: c in r ==> c in s
    ensures Trimmed(s) ==> r == s
    ensures exists a :: StripsTo(s, r, a)
  {
    var t := TrimStart(s);
    var r := TrimEnd(t);
    var a := |s| - |t|;
    BothEnds(s, t, r);
    InfixChars(s, a, a + |r|);
    assert r != [] ==> r[0] == t[0];
    r
  }
}

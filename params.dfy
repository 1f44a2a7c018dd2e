/** The parameter introspection of routes.ts (`params`): the declared
    parameter names of an exported function are read off its source text by
    cutting out what lies between the first '(' and the first ')', splitting
    that on ',' and trimming each piece. The text is an input here; the
    function object it comes from is not modelled. */
module ParamText {
  import opened JsString

  /** `textFunc.slice(textFunc.indexOf('(') + 1, textFunc.indexOf(')'))`. */
  function ParamSection(text: string): (section: string)
    ensures |section| <= |text|
    ensures ')' !in section
  {
    var close := IndexOf(text, ')');
    SliceBeforeClose(text, IndexOf(text, '(') + 1, close);
    Slice(text, IndexOf(text, '(') + 1, close)
  }

  /** A slice that ends at the first ')' (or, when there is none, anywhere)
      holds no ')'. */
  lemma SliceBeforeClose(text: string, start: int, close: int)
    requires close == IndexOf(text, ')')
    ensures ')' !in Slice(text, start, close)
  {
    var r := Slice(text, start, close);
    if r != [] {
      var from, to := SliceBound(|text|, start), SliceBound(|text|, close);
      if close == -1 {
        InfixChars(text, from, to);
      } else {
        assert to == close;
        assert r == text[..close][from..to];
        InfixChars(text[..close], from, to);
      }
    }
  }

  /** `params`: one trimmed, comma-free entry per comma-separated piece of
      the section, so never an empty list and one entry more than the
      section has commas. */
  function Params(text: string): (ps: seq<string>)
    ensures |ps| == Count(ParamSection(text), ',') + 1
    ensures forall i :: 0 <= i < |ps| ==> ',' !in ps[i] && Trimmed(ps[i])
  {
    var parts := Split(ParamSection(text), ',');
    SplitCount(ParamSection(text), ',');
    seq(|parts|, i requires 0 <= i < |parts| => Trim(parts[i]))
  }

  /** When '(' comes before ')', the section is exactly the text between them. */
  lemma ParamSectionBetween(text: string)
    requires '(' in text && ')' in text
    requires IndexOf(text, '(') < IndexOf(text, ')')
    ensures ParamSection(text) == text[IndexOf(text, '(') + 1..IndexOf(text, ')')]
  {
  }

  /** When the first ')' comes before the first '(', the slice is empty and
      the function is taken to have the single parameter "". */
  lemma ParamsCloseBeforeOpen(text: string)
    requires '(' in text && ')' in text
    requires IndexOf(text, ')') < IndexOf(text, '(')
    ensures Params(text) == [""]
  {
    assert ParamSection(text) == [];
    assert IndexOf([], ',') == -1;
  }

  /** With no parenthesis at all (an arrow function written `x => ...`)
      the slice runs from the start to just before the last character, and
      that whole piece, trimmed, is taken as the one parameter. */
  lemma ParamsWithoutParentheses(text: string)
    requires '(' !in text && ')' !in text && text != []
    ensures ParamSection(text) == text[..|text| - 1]
    ensures ',' !in text ==> Params(text) == [Trim(text[..|text| - 1])]
  {
    var section := text[..|text| - 1];
    assert ParamSection(text) == section;
    if ',' !in text {
      assert ',' !in section;
      assert IndexOf(section, ',') == -1;
    }
  }

  /** The section of `head(list)rest` is `list` when neither `head` nor
      `list` holds a ')' and `head` holds no '('. */
  lemma ParamSectionOfDeclaration(head: string, list: string, rest: string)
    requires '(' !in head && ')' !in head && ')' !in list
    ensures ParamSection(head + "(" + list + ")" + rest) == list
  {
    var text := head + "(" + list + ")" + rest;
    var open, close := |head|, |head| + 1 + |list|;
    assert text[..open] == head && text[open] == '(';
    IndexOfFirst(text, '(', open);
    assert text[..close] == head + "(" + list && text[close] == ')';
    IndexOfFirst(text, ')', close);
    assert text[open + 1..close] == list;
  }

  /** A declaration `head(d0,d1,...)rest` whose head has no parenthesis and
      whose pieces have no ',' or ')' yields exactly the trimmed pieces, in
      declaration order. */
  lemma ParamsOfDeclaration(head: string, decls: seq<string>, rest: string)
    requires '(' !in head && ')' !in head
    requires |decls| >= 1
    requires forall i :: 0 <= i < |decls| ==> ',' !in decls[i] && ')' !in decls[i]
    ensures Params(head + "(" + Join(decls, ",") + ")" + rest)
         == seq(|decls|, i requires 0 <= i < |decls| => Trim(decls[i]))
  {
    var list := Join(decls, ",");
    JoinAvoids(decls, ",", ')');
    ParamSectionOfDeclaration(head, list, rest);
    SplitJoin(decls, ',');
    assert Split(ParamSection(head + "(" + list + ")" + rest), ',') == decls;
  }

  /** A function declared with no parameters has the single parameter "". */
  lemma ParamsOfNoParameters(head: string, rest: string)
    requires '(' !in head && ')' !in head
    ensures Params(head + "()" + rest) == [""]
  {
    ParamSectionOfDeclaration(head, "", rest);
    assert head + "(" + "" + ")" + rest == head + "()" + rest;
    assert Split("", ',') == [""];
    assert Trim("") == "";
  }
}

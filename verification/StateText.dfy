/** AdapterExecInterface::getText, and State::print, which writes the same text: when does the text
    tell which state it is? */
module StateTexts {
  import opened Substrings

  /** A state's name and the texts its parameter values print as. */
  datatype Printed = Printed(name: string, params: seq<string>)

  function Joined(params: seq<string>): string {
    if params == [] then "" else if |params| == 1 then params[0] else params[0] + ", " + Joined(params[1..])
  }

  function TextOf(s: Printed): string {
    s.name + "(" + Joined(s.params) + ")"
  }

  lemma {:induction false} JoinedGrows(params: seq<string>, p: string)
    requires params != []
    ensures Joined(params + [p]) == Joined(params) + ", " + p
  {
    assert (params + [p])[1..] == params[1..] + [p];
    if |params| > 1 {
      JoinedGrows(params[1..], p);
    } else {
      assert params[1..] + [p] == [p];
    }
  }

  /** One more parameter of a list behind a non-empty part of it. */
  lemma JoinedUpTo(params: seq<string>, i: nat)
    requires 0 < i < |params|
    ensures Joined(params[..i + 1]) == Joined(params[..i]) + ", " + params[i]
  {
    assert params[..i + 1] == params[..i] + [params[i]];
    JoinedGrows(params[..i], params[i]);
  }

  /** The adapters' printer: the first parameter, then a separator before each of the others. */
  method GetText(s: Printed) returns (text: string)
    ensures text == TextOf(s)
  {
    text := s.name + "(";
    var it := 0;
    if it < |s.params| {
      text := text + s.params[it];
      it := it + 1;
      assert s.params[..1] == [s.params[0]];
      while it < |s.params|
        invariant 1 <= it <= |s.params|
        invariant text == s.name + "(" + Joined(s.params[..it])
      {
        JoinedUpTo(s.params, it);
        text := text + ", " + s.params[it];
        it := it + 1;
      }
    }
    assert s.params[..it] == s.params;
    text := text + ")";
  }

  /** The state's own printer: a separator after each parameter but the last. */
  method PrintText(s: Printed) returns (text: string)
    ensures text == TextOf(s)
  {
    text := s.name + "(";
    var i := 0;
    while i < |s.params|
      invariant 0 <= i <= |s.params|
      invariant text == s.name + "(" + Joined(s.params[..i]) + (if 0 < i < |s.params| then ", " else "")
    {
      if i > 0 {
        JoinedUpTo(s.params, i);
      } else {
        assert s.params[..1] == [s.params[0]];
      }
      text := text + s.params[i];
      i := i + 1;
      if i < |s.params| {
        text := text + ", ";
      }
    }
    assert s.params[..i] == s.params;
    text := text + ")";
  }

  // ------------------------------------------------------------ reading the text back

  /** The pieces between the separators; at least one. */
  function Pieces(s: string): (r: seq<string>)
    ensures r != []
    decreases |s|
  {
    var i := Find(s, ", ");
    if i < 0 then [s]
    else if i + 2 <= |s| then [s[..i]] + Pieces(s[i + 2..])
    else [s]
  }

  function Split(s: string): seq<string> {
    if s == "" then [] else Pieces(s)
  }

  /** A text cut at its first '(' and before its last character. */
  function Parse(text: string): Printed {
    var i := Find(text, "(");
    if 0 <= i < |text| - 1 then Printed(text[..i], Split(text[i + 1..|text| - 1]))
    else Printed(text, [])
  }

  /** The states whose text can be read back. */
  ghost predicate Readable(s: Printed) {
    && !Contains(s.name, "(")
    && (forall i :: 0 <= i < |s.params| ==> !Contains(s.params[i], ", "))
    && s.params != [""]
  }

  lemma SeparatorIsMark()
    ensures Mark(", ") && Mark("(")
  {
    assert ", "[1] != ", "[0];
  }

  lemma JoinedNonEmpty(params: seq<string>)
    requires params != [] && params != [""]
    ensures Joined(params) != ""
  {
    if |params| == 1 {
      assert params == [params[0]];
    }
  }

  lemma CutOff(p: string, rest: string)
    ensures var s := p + ", " + rest; s[..|p|] == p && s[|p| + 2..] == rest
  {
  }

  lemma NoPieces(p: string)
    requires !Contains(p, ", ")
    ensures Pieces(p) == [p]
  {
  }

  /** The first piece is what stands before the first separator. */
  lemma FirstPiece(p: string, rest: string)
    requires !Contains(p, ", ")
    ensures Pieces(p + ", " + rest) == [p] + Pieces(rest)
  {
    SeparatorIsMark();
    FindAfter(p, ", ", rest);
    CutOff(p, rest);
  }

  lemma {:induction false} PiecesOfJoined(params: seq<string>)
    requires params != []
    requires forall i :: 0 <= i < |params| ==> !Contains(params[i], ", ")
    ensures Pieces(Joined(params)) == params
  {
    if |params| == 1 {
      NoPieces(params[0]);
      assert params == [params[0]];
    } else {
      FirstPiece(params[0], Joined(params[1..]));
      PiecesOfJoined(params[1..]);
      assert params == [params[0]] + params[1..];
    }
  }

  lemma {:induction false} JoinedPieces(s: string)
    ensures Joined(Pieces(s)) == s
    decreases |s|
  {
    var i := Find(s, ", ");
    FindIsFirst(s, ", ");
    if i >= 0 {
      var rest := Pieces(s[i + 2..]);
      JoinedPieces(s[i + 2..]);
      assert ([s[..i]] + rest)[1..] == rest;
      assert s[i..i + 2] == ", ";
      assert s == s[..i] + s[i..i + 2] + s[i + 2..];
    }
  }

  lemma OccursInWhole(s: string, n: nat, m: string, f: nat)
    requires n <= |s| && OccursAt(s[..n], m, f)
    ensures OccursAt(s, m, f) && f + |m| <= n
  {
    assert s[f..f + |m|] == s[..n][f..f + |m|];
  }

  /** What the front of a text contains, the text contains there. */
  lemma FoundInFront(s: string, n: nat, m: string)
    requires n <= |s|
    ensures Contains(s[..n], m) ==> Contains(s, m) && Find(s, m) + |m| <= n
  {
    FindIsFirst(s, m);
    FindIsFirst(s[..n], m);
    if Find(s[..n], m) >= 0 {
      OccursInWhole(s, n, m, Find(s[..n], m));
    }
  }

  /** Nothing in front of the first occurrence contains it. */
  lemma NotBeforeFirst(s: string, m: string)
    requires Find(s, m) >= 0 && m != ""
    ensures Find(s, m) <= |s| && !Contains(s[..Find(s, m)], m)
  {
    FindIsFirst(s, m);
    FoundInFront(s, Find(s, m), m);
  }

  lemma {:induction false} PiecesHoldNoSeparator(s: string)
    ensures forall i :: 0 <= i < |Pieces(s)| ==> !Contains(Pieces(s)[i], ", ")
    decreases |s|
  {
    if Find(s, ", ") >= 0 {
      FindIsFirst(s, ", ");
      NotBeforeFirst(s, ", ");
      PiecesHoldNoSeparator(s[Find(s, ", ") + 2..]);
    }
  }

  /** Where the name ends in the text of a state without a '(' in its name. */
  lemma ParsedName(s: Printed)
    requires !Contains(s.name, "(")
    ensures Parse(TextOf(s)) == Printed(s.name, Split(Joined(s.params)))
  {
    var text := TextOf(s);
    assert text == s.name + "(" + (Joined(s.params) + ")");
    SeparatorIsMark();
    FindAfter(s.name, "(", Joined(s.params) + ")");
    assert text[..|s.name|] == s.name;
    assert text[|s.name| + 1..|text| - 1] == Joined(s.params);
  }

  /** Every text with a '(' before its last character ')' is the text of what it parses to, and that
      state is readable. */
  lemma ParsedIsReadable(text: string)
    requires text != "" && text[|text| - 1] == ')' && Contains(text, "(")
    ensures TextOf(Parse(text)) == text && Readable(Parse(text))
  {
    var i := Find(text, "(");
    FindIsFirst(text, "(");
    NotBeforeFirst(text, "(");
    assert text[i] == text[i..i + 1][0] == '(';
    var inner := text[i + 1..|text| - 1];
    assert text == text[..i] + "(" + inner + ")";
    if inner != "" {
      JoinedPieces(inner);
      PiecesHoldNoSeparator(inner);
      assert Joined([""]) == "";
    }
  }

  lemma TextHasParenthesis(s: Printed)
    ensures TextOf(s)[|TextOf(s)| - 1] == ')' && Contains(TextOf(s), "(")
  {
    var text := TextOf(s);
    FindIsFirst(text, "(");
    assert text[|s.name|..|s.name| + 1] == "(";
    assert OccursAt(text, "(", |s.name|);
  }

  /** A state's text is read back as that state exactly when it is readable. */
  lemma ReadBackIff(s: Printed)
    ensures Parse(TextOf(s)) == s <==> Readable(s)
  {
    TextHasParenthesis(s);
    ParsedIsReadable(TextOf(s));
    if Readable(s) {
      ParsedName(s);
      if s.params == [] {
        assert Joined(s.params) == "";
      } else {
        JoinedNonEmpty(s.params);
        PiecesOfJoined(s.params);
      }
    }
  }

  /** Two readable states with one text are one state. */
  lemma OneTextOneState(s: Printed, t: Printed)
    requires Readable(s) && Readable(t) && TextOf(s) == TextOf(t)
    ensures s == t
  {
    ReadBackIff(s);
    ReadBackIff(t);
  }

  /** No parameter and one parameter without text print alike. */
  lemma EmptyParameterMistaken(name: string)
    ensures TextOf(Printed(name, [])) == TextOf(Printed(name, [""])) && !Readable(Printed(name, [""]))
  {
    assert Joined([""]) == "";
  }

  /** Some readable state is printed like s; another state than s exactly when s is not readable. */
  lemma MistakenIff(s: Printed)
    ensures !Readable(s) <==> exists t :: t != s && Readable(t) && TextOf(t) == TextOf(s)
  {
    TextHasParenthesis(s);
    ParsedIsReadable(TextOf(s));
    ReadBackIff(s);
    if Readable(s) {
      forall t | Readable(t) && TextOf(t) == TextOf(s) ensures t == s {
        OneTextOneState(s, t);
      }
    }
  }
}

/** The text side of SimpleFileObserver.emit: the continuation indent applied
    to a formatted event (a newline becomes a newline and a tab) and the
    trailing newline that ends the written line, together with the reading
    that recovers the events from what was written. */
module TextLines {

  /** Left-to-right, non-overlapping substring replacement, as Python's
      str.replace does it for a non-empty pattern. */
  function Replace(s: string, pat: string, rep: string): string
    requires pat != []
    decreases |s|
  {
    if |s| < |pat| then s
    else if s[..|pat|] == pat then rep + Replace(s[|pat|..], pat, rep)
    else [s[0]] + Replace(s[1..], pat, rep)
  }

  /** The continuation indent: every newline becomes a newline and a tab. */
  function Indent(s: string): string
  {
    Replace(s, "\n", "\n\t")
  }

  /** The inverse reading: a newline followed by a tab becomes a newline. */
  function Unindent(s: string): string
  {
    Replace(s, "\n\t", "\n")
  }

  /** What Indent makes of a single character. */
  function Expand(c: char): string
  {
    if c == '\n' then "\n\t" else [c]
  }

  /** Number of newlines in s. */
  function Newlines(s: string): nat
  {
    multiset(s)['\n']
  }

  /** The exact text written for one event. */
  function Line(text: string): string
  {
    Indent(text) + "\n"
  }

  /** Every newline in s is immediately followed by a tab. */
  ghost predicate NoBareNewline(s: string)
  {
    forall j :: 0 <= j < |s| && s[j] == '\n' ==> j + 1 < |s| && s[j + 1] == '\t'
  }

  /** Everything written for a sequence of events, in order. */
  function Stream(texts: seq<string>): string
  {
    if texts == [] then [] else Line(texts[0]) + Stream(texts[1..])
  }

  /** True when a text begins with a tab, which a reader of the written
      stream cannot tell apart from a continuation of the previous line. */
  predicate StartsWithTab(s: string)
  {
    s != [] && s[0] == '\t'
  }

  /** Index of the first newline that is not followed by a tab (the end of the
      first logical line), or |s| when there is none. */
  function FirstBareNewline(s: string): (k: nat)
    ensures k <= |s|
    ensures k < |s| ==> s[k] == '\n' && (k + 1 == |s| || s[k + 1] != '\t')
    ensures forall j :: 0 <= j < k && s[j] == '\n' ==> j + 1 < |s| && s[j + 1] == '\t'
    decreases |s|
  {
    if s == [] then 0
    else if s[0] == '\n' && (|s| == 1 || s[1] != '\t') then 0
    else 1 + FirstBareNewline(s[1..])
  }

  /** Splits a written stream into its logical lines and undoes the indent of
      each; an unterminated last line is read as it stands. */
  function Decode(out: string): seq<string>
    decreases |out|
  {
    if out == [] then []
    else
      var k := FirstBareNewline(out);
      [Unindent(out[..k])] + (if k < |out| then Decode(out[k + 1..]) else [])
  }

  // ---------------------------------------------------------------------
  // Unfolding the two replacements one character at a time.

  lemma IndentUnfold(s: string)
    ensures Indent(s) == if s == [] then [] else Expand(s[0]) + Indent(s[1..])
  {
    if s != [] {
      assert s[..1] == [s[0]];
    }
  }

  lemma UnindentUnfold(s: string)
    ensures Unindent(s) ==
      if |s| < 2 then s
      else if s[0] == '\n' && s[1] == '\t' then "\n" + Unindent(s[2..])
      else [s[0]] + Unindent(s[1..])
  {
    if |s| >= 2 {
      assert s[..2] == [s[0], s[1]];
    }
  }

  // ---------------------------------------------------------------------
  // What the indent does.

  /** Indent works character by character: a single character becomes its
      expansion ... */
  lemma IndentChar(c: char)
    ensures Indent([c]) == Expand(c)
  {
    IndentUnfold([c]);
    IndentUnfold([]);
  }

  /** ... and the indent of a concatenation is the concatenation of the
      indents, so every other character is kept, in order. */
  lemma {:induction false} IndentAppend(a: string, b: string)
    ensures Indent(a + b) == Indent(a) + Indent(b)
    decreases |a|
  {
    if a == [] {
      assert a + b == b;
      IndentUnfold(a);
    } else {
      IndentUnfold(a + b);
      IndentUnfold(a);
      assert (a + b)[0] == a[0];
      assert (a + b)[1..] == a[1..] + b;
      IndentAppend(a[1..], b);
    }
  }

  /** The indent adds exactly one character per newline. */
  lemma {:induction false} IndentLength(s: string)
    ensures |Indent(s)| == |s| + Newlines(s)
    decreases |s|
  {
    IndentUnfold(s);
    if s != [] {
      assert s == [s[0]] + s[1..];
      assert multiset(s) == multiset([s[0]]) + multiset(s[1..]);
      IndentLength(s[1..]);
    }
  }

  /** Text without a newline is left as it is. */
  lemma {:induction false} IndentIdentity(s: string)
    requires '\n' !in s
    ensures Indent(s) == s
    decreases |s|
  {
    IndentUnfold(s);
    if s != [] {
      assert s[0] != '\n';
      assert '\n' !in s[1..] by {
        forall j | 0 <= j < |s[1..]| ensures s[1..][j] != '\n' {
          assert s[1..][j] == s[j + 1];
        }
      }
      IndentIdentity(s[1..]);
    }
  }

  /** After the indent no newline is bare: each is followed by a tab. */
  lemma {:induction false} IndentNoBareNewline(s: string)
    ensures NoBareNewline(Indent(s))
    decreases |s|
  {
    IndentUnfold(s);
    if s != [] {
      IndentNoBareNewline(s[1..]);
      var e, rest := Expand(s[0]), Indent(s[1..]);
      forall j | 0 <= j < |e + rest| && (e + rest)[j] == '\n'
        ensures j + 1 < |e + rest| && (e + rest)[j + 1] == '\t'
      {
        if j >= |e| {
          assert (e + rest)[j] == rest[j - |e|];
          assert (e + rest)[j + 1] == rest[j + 1 - |e|];
        }
      }
    }
  }

  /** The first character of an indented text is the first character of the
      text itself. */
  lemma IndentHead(s: string)
    requires s != []
    ensures Indent(s) != [] && Indent(s)[0] == s[0]
  {
    IndentUnfold(s);
  }

  /** Round trip: undoing the indent gives the original text back. */
  lemma {:induction false} UnindentIndent(s: string)
    ensures Unindent(Indent(s)) == s
    decreases |s|
  {
    IndentUnfold(s);
    if s != [] {
      var rest := Indent(s[1..]);
      UnindentIndent(s[1..]);
      if s[0] == '\n' {
        assert Indent(s) == "\n\t" + rest;
        UnindentUnfold("\n\t" + rest);
        assert ("\n\t" + rest)[2..] == rest;
      } else {
        var t := [s[0]] + rest;
        UnindentUnfold(t);
        if |t| < 2 {
          assert rest == [];
          UnindentUnfold(rest);
        } else {
          assert t[1..] == rest;
        }
      }
    }
  }

  /** Different texts are never written the same way. */
  lemma IndentInjective(a: string, b: string)
    requires Indent(a) == Indent(b)
    ensures a == b
  {
    UnindentIndent(a);
    UnindentIndent(b);
  }

  // ---------------------------------------------------------------------
  // One event, one written line.

  /** The written line has one character per character of the text, one more
      per newline in it, and the final newline. */
  lemma LineLength(text: string)
    ensures |Line(text)| == |text| + Newlines(text) + 1
  {
    IndentLength(text);
  }

  /** The written line ends in a newline, that newline is its only bare one,
      and the text comes back by dropping it and undoing the indent. */
  lemma LineIsOneLogicalLine(text: string)
    ensures Line(text) != [] && Line(text)[|Line(text)| - 1] == '\n'
    ensures NoBareNewline(Line(text)[..|Line(text)| - 1])
    ensures FirstBareNewline(Line(text)) == |Line(text)| - 1
    ensures Unindent(Line(text)[..|Line(text)| - 1]) == text
  {
    var line := Line(text);
    assert line[..|line| - 1] == Indent(text);
    IndentNoBareNewline(text);
    UnindentIndent(text);
  }

  /** Text without a newline is written as it is, plus the newline. */
  lemma LineWithoutNewline(text: string)
    requires '\n' !in text
    ensures Line(text) == text + "\n"
  {
    IndentIdentity(text);
  }

  /** log.msg('hello') is written as "hello\n". */
  lemma HelloLine()
    ensures Line("hello") == "hello\n"
  {
    LineWithoutNewline("hello");
  }

  // ---------------------------------------------------------------------
  // Many events, one stream.

  /** The first logical line of a written line followed by more output is the
      line itself, provided the rest does not begin with a tab. */
  lemma FirstBareNewlineOfLine(text: string, rest: string)
    requires rest == [] || rest[0] != '\t'
    ensures FirstBareNewline(Line(text) + rest) == |Indent(text)|
  {
    var out := Line(text) + rest;
    var n := |Indent(text)|;
    IndentNoBareNewline(text);
    assert out[n] == '\n';
    assert n + 1 == |out| || out[n + 1] == rest[0];
    forall j | 0 <= j < n && out[j] == '\n' ensures j + 1 < |out| && out[j + 1] == '\t' {
      assert out[j] == Indent(text)[j];
      assert j + 1 < n ==> out[j + 1] == Indent(text)[j + 1];
    }
  }

  /** The stream of a non-empty sequence begins with a tab exactly when its
      first text does. */
  lemma StreamHead(texts: seq<string>)
    requires texts != []
    ensures Stream(texts) != []
    ensures Stream(texts)[0] == '\t' <==> StartsWithTab(texts[0])
  {
    var t := texts[0];
    if t != [] {
      IndentHead(t);
    }
  }

  /** Reading the written stream back gives exactly the event texts, as long
      as no text after the first begins with a tab. */
  lemma {:induction false} DecodeStream(texts: seq<string>)
    requires forall i :: 0 < i < |texts| ==> !StartsWithTab(texts[i])
    ensures Decode(Stream(texts)) == texts
    decreases |texts|
  {
    if texts != [] {
      var t, rest := texts[0], Stream(texts[1..]);
      if texts[1..] != [] {
        StreamHead(texts[1..]);
      }
      FirstBareNewlineOfLine(t, rest);
      var out := Line(t) + rest;
      var n := |Indent(t)|;
      assert out[..n] == Indent(t);
      assert out[n + 1..] == rest;
      UnindentIndent(t);
      DecodeStream(texts[1..]);
    }
  }

  /** Without that proviso the stream is ambiguous: the event "a" followed by
      the event "\tb" is written exactly as the single event "a\nb". */
  lemma TabLeadingTextIsAmbiguous()
    ensures Stream(["a", "\tb"]) == Stream(["a\nb"])
  {
    LineWithoutNewline("a");
    LineWithoutNewline("\tb");
    IndentAppend("a", "\nb");
    IndentUnfold("\nb");
    LineWithoutNewline("b");
    assert ["a", "\tb"][1..] == ["\tb"];
    assert ["\tb"][1..] == [];
    assert ["a\nb"][1..] == [];
    assert "a\nb" == "a" + "\nb";
    assert "\nb"[1..] == "b";
  }
}

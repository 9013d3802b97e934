/**
 * Word-level comparison of one section of two leaflets (`compare_content` in
 * `Pro02/comparador_de_bulas.py`): both sides are cut into `\w+` tokens, a token
 * is common when its normal form occurs on both sides, and every other token is
 * highlighted and reported, red on the base side and green on the other.
 */
module LeafletCompare {
  import opened PyText
  import opened LeafletText

  /** One `\w+` match: its text, its normal form and the page of its line. */
  datatype Token = Token(text: string, norm: string, page: int)

  /** A section line as the comparison receives it: page, line number and text. */
  datatype NumberedLine = NumberedLine(page: int, index: int, text: string)

  // ----- tokens -----

  /** The tokens of the words `ws` of one line on page `page`. */
  function WordTokens(ws: seq<string>, page: int): (r: seq<Token>)
    ensures |r| == |ws|
    ensures forall i :: 0 <= i < |ws| ==> r[i] == Token(ws[i], NormalizeText(ws[i]), page)
  {
    if |ws| == 0 then []
    else WordTokens(ws[..|ws| - 1], page) + [Token(ws[|ws| - 1], NormalizeText(ws[|ws| - 1]), page)]
  }

  /** `tokens_from_lines`: the tokens of every line, line after line. */
  function Tokens(lines: seq<NumberedLine>): seq<Token>
  {
    if |lines| == 0 then []
    else
      var l := lines[|lines| - 1];
      Tokens(lines[..|lines| - 1]) + WordTokens(WordRuns(l.text), l.page)
  }

  /** The nested loop of `tokens_from_lines`. */
  method TokensFromLines(lines: seq<NumberedLine>) returns (tokens: seq<Token>)
    ensures tokens == Tokens(lines)
  {
    tokens := [];
    for i := 0 to |lines|
      invariant tokens == Tokens(lines[..i])
    {
      assert lines[..i + 1][..i] == lines[..i];
      var ws := WordRuns(lines[i].text);
      ghost var before := tokens;
      for j := 0 to |ws|
        invariant tokens == before + WordTokens(ws[..j], lines[i].page)
      {
        assert ws[..j + 1][..j] == ws[..j];
        tokens := tokens + [Token(ws[j], NormalizeText(ws[j]), lines[i].page)];
      }
      assert ws[..|ws|] == ws;
    }
    assert lines[..|lines|] == lines;
  }

  /** The normal form of a single `\w+` match: empty for a stopword, else the lowered word with one trailing `s` cut. */
  lemma NormOfWord(w: string)
    requires w != "" && forall i :: 0 <= i < |w| ==> IsWordChar(w[i])
    ensures NormalizeText(w) == if LowerStr(w) in Stopwords then "" else Unplural(LowerStr(w))
  {
    DropPunctWord(w);
    forall i | 0 <= i < |w| ensures Keeps(NonSpace, w[i]) {
      assert IsWordChar(w[i]);
    }
    RunsWhole(w, NonSpace);
    assert TextTokens([w]) == (if LowerStr(w) in Stopwords then [] else [Unplural(LowerStr(w))]) + TextTokens([]);
  }

  /** `DropPunct` leaves a string of word characters as it is. */
  lemma {:induction false} DropPunctWord(w: string)
    requires forall i :: 0 <= i < |w| ==> IsWordChar(w[i])
    ensures DropPunct(w) == w
  {
    if |w| > 0 {
      assert forall i :: 0 <= i < |w| - 1 ==> w[1..][i] == w[i + 1];
      DropPunctWord(w[1..]);
      assert [w[0]] + w[1..] == w;
    }
  }

  /**
   * Every token is a non-empty `\w+` match of one of the lines, carries that
   * line's page, and its normal form is that of its text.
   */
  lemma {:induction false} TokensOfLines(lines: seq<NumberedLine>)
    ensures forall t :: t in Tokens(lines) ==>
      t.norm == NormalizeText(t.text) && exists l :: l in lines && l.page == t.page && t.text in WordRuns(l.text)
  {
    if |lines| > 0 {
      var init, l := lines[..|lines| - 1], lines[|lines| - 1];
      TokensOfLines(init);
      forall t | t in Tokens(lines)
        ensures t.norm == NormalizeText(t.text) && exists l :: l in lines && l.page == t.page && t.text in WordRuns(l.text)
      {
        if t in Tokens(init) {
          var l' :| l' in init && l'.page == t.page && t.text in WordRuns(l'.text);
          assert l' in lines;
        } else {
          var ts := WordTokens(WordRuns(l.text), l.page);
          assert t in ts;
          var i :| 0 <= i < |ts| && ts[i] == t;
          assert t.text == WordRuns(l.text)[i];
        }
      }
    }
  }

  /** A token's text is made of word characters only, and its normal form is that of a single word. */
  lemma TokenNorms(lines: seq<NumberedLine>)
    ensures forall t :: t in Tokens(lines) ==>
      t.text != "" && t.norm == if LowerStr(t.text) in Stopwords then "" else Unplural(LowerStr(t.text))
  {
    TokensOfLines(lines);
    forall t | t in Tokens(lines)
      ensures t.text != "" && t.norm == if LowerStr(t.text) in Stopwords then "" else Unplural(LowerStr(t.text))
    {
      var l :| l in lines && l.page == t.page && t.text in WordRuns(l.text);
      RunsKept(l.text, WordChars);
      NormOfWord(t.text);
    }
  }

  // ----- `html.escape` -----

  /** The characters `html.escape` replaces. */
  predicate Special(c: char)
  {
    c == '&' || c == '<' || c == '>' || c == '"' || c == '\''
  }

  /** The replacement of one character. */
  function EscapeChar(c: char): (r: string)
    ensures r != "" && r[0] == (if Special(c) then '&' else c)
  {
    if c == '&' then "&amp;"
    else if c == '<' then "&lt;"
    else if c == '>' then "&gt;"
    else if c == '"' then "&quot;"
    else if c == '\'' then "&#x27;"
    else [c]
  }

  /** `html.escape(s)` with its default `quote=True`. */
  function Escape(s: string): string
  {
    if |s| == 0 then "" else EscapeChar(s[0]) + Escape(s[1..])
  }

  /** The decoding of the five entities `Escape` writes; any other character stands for itself. */
  function Unescape(s: string): string
    decreases |s|
  {
    if |s| == 0 then ""
    else if |s| >= 5 && s[..5] == "&amp;" then "&" + Unescape(s[5..])
    else if |s| >= 4 && s[..4] == "&lt;" then "<" + Unescape(s[4..])
    else if |s| >= 4 && s[..4] == "&gt;" then ">" + Unescape(s[4..])
    else if |s| >= 6 && s[..6] == "&quot;" then "\"" + Unescape(s[6..])
    else if |s| >= 6 && s[..6] == "&#x27;" then "'" + Unescape(s[6..])
    else [s[0]] + Unescape(s[1..])
  }

  lemma UnescapePlain(c: char, rest: string)
    requires !Special(c)
    ensures Unescape([c] + rest) == [c] + Unescape(rest)
  {
    var s := [c] + rest;
    assert s[0] == c && s[1..] == rest;
    assert !(|s| >= 4 && s[..4] == "&lt;") by { if |s| >= 4 { assert s[..4][0] == c; } }
  }

  lemma UnescapeAmp(rest: string)
    ensures Unescape("&amp;" + rest) == "&" + Unescape(rest)
  {
    var s := "&amp;" + rest;
    assert s[..5] == "&amp;" && s[5..] == rest;
  }

  lemma UnescapeAngle(e: string, c: char, rest: string)
    requires (e == "&lt;" && c == '<') || (e == "&gt;" && c == '>')
    ensures Unescape(e + rest) == [c] + Unescape(rest)
  {
    var s := e + rest;
    assert s[..4] == e && s[4..] == rest;
    assert !(|s| >= 5 && s[..5] == "&amp;") by { if |s| >= 5 { assert s[..5][1] == e[1]; } }
    if c == '>' {
      assert s[..4] != "&lt;" by { assert s[..4][1] == 'g'; }
    }
  }

  lemma UnescapeQuote(e: string, c: char, rest: string)
    requires (e == "&quot;" && c == '"') || (e == "&#x27;" && c == '\'')
    ensures Unescape(e + rest) == [c] + Unescape(rest)
  {
    var s := e + rest;
    assert s[..6] == e && s[6..] == rest;
    assert !(|s| >= 5 && s[..5] == "&amp;") by { assert s[..5][1] == e[1]; }
    assert !(|s| >= 4 && s[..4] == "&lt;") && !(|s| >= 4 && s[..4] == "&gt;") by { assert s[..4][1] == e[1]; }
    if c == '\'' {
      assert s[..6] != "&quot;" by { assert s[..6][1] == '#'; }
    }
  }

  /** One escaped character followed by anything decodes to that character followed by the decoding of the rest. */
  lemma UnescapeChar(c: char, rest: string)
    ensures Unescape(EscapeChar(c) + rest) == [c] + Unescape(rest)
  {
    if !Special(c) {
      UnescapePlain(c, rest);
    } else if c == '&' {
      UnescapeAmp(rest);
    } else if c == '<' || c == '>' {
      UnescapeAngle(EscapeChar(c), c, rest);
    } else {
      UnescapeQuote(EscapeChar(c), c, rest);
    }
  }

  /** Escaping loses nothing: decoding gives the original text back. */
  lemma {:induction false} UnescapeEscape(s: string)
    ensures Unescape(Escape(s)) == s
  {
    if |s| > 0 {
      UnescapeEscape(s[1..]);
      UnescapeChar(s[0], Escape(s[1..]));
    }
  }

  /** Escaping changes a text exactly when it holds a special character. */
  lemma {:induction false} EscapeIdentity(s: string)
    ensures Escape(s) == s <==> forall i :: 0 <= i < |s| ==> !Special(s[i])
    ensures |Escape(s)| >= |s|
  {
    if |s| > 0 {
      EscapeIdentity(s[1..]);
      assert s == [s[0]] + s[1..];
      if Special(s[0]) {
        assert |Escape(s)| > |s|;
      } else if Escape(s) == s {
        assert Escape(s[1..]) == Escape(s)[1..];
      }
    }
  }

  /** A `\w+` match holds no special character, so its escape is itself. */
  lemma EscapeWord(w: string)
    requires forall i :: 0 <= i < |w| ==> IsWordChar(w[i])
    ensures Escape(w) == w
  {
    EscapeIdentity(w);
  }

  // ----- marking -----

  /** Background colour of a base token the comparison lacks. */
  const RemovedColor := "#ffcccc"
  /** Background colour of a comparison token the base lacks. */
  const AddedColor := "#ccffcc"

  /** A highlighted token. */
  function Highlight(text: string, color: string): string
  {
    "<span style='background-color:" + color + ";'>" + Escape(text) + "</span>"
  }

  /** The html of one token: plain when its normal form is common to both sides, else highlighted. */
  function Part(t: Token, common: set<string>, color: string): string
  {
    if t.norm in common then Escape(t.text) else Highlight(t.text, color)
  }

  /** The html part of every token, in order. */
  function Parts(ts: seq<Token>, common: set<string>, color: string): (r: seq<string>)
    ensures |r| == |ts|
    ensures forall i :: 0 <= i < |ts| ==> r[i] == Part(ts[i], common, color)
  {
    if |ts| == 0 then [] else Parts(ts[..|ts| - 1], common, color) + [Part(ts[|ts| - 1], common, color)]
  }

  /** The tokens whose normal form is not common, in order. */
  function Unmatched(ts: seq<Token>, common: set<string>): seq<Token>
  {
    if |ts| == 0 then []
    else Unmatched(ts[..|ts| - 1], common) + (if ts[|ts| - 1].norm in common then [] else [ts[|ts| - 1]])
  }

  /** A token is reported exactly when it is one of `ts` and its normal form is not common. */
  lemma {:induction false} UnmatchedExactly(ts: seq<Token>, common: set<string>)
    ensures forall t :: t in Unmatched(ts, common) <==> t in ts && t.norm !in common
  {
    if |ts| > 0 {
      UnmatchedExactly(ts[..|ts| - 1], common);
      assert ts == ts[..|ts| - 1] + [ts[|ts| - 1]];
    }
  }

  /** The normal forms occurring among `ts`. */
  function NormSet(ts: seq<Token>): set<string>
  {
    set t | t in ts :: t.norm
  }

  /** What `compare_content` returns: the two html texts and the removed and the added tokens. */
  datatype Comparison = Comparison(baseHtml: string, compHtml: string, removed: seq<Token>, added: seq<Token>)

  /** The comparison of the base lines with the comparison lines. */
  function Compare(base: seq<NumberedLine>, comp: seq<NumberedLine>): Comparison
  {
    var bt, ct := Tokens(base), Tokens(comp);
    var common := NormSet(bt) * NormSet(ct);
    Comparison(Join(Parts(bt, common, RemovedColor), " "), Join(Parts(ct, common, AddedColor), " "),
      Unmatched(bt, common), Unmatched(ct, common))
  }

  /** One marking loop: a part per token, and the list of tokens outside `common`. */
  method MarkTokens(ts: seq<Token>, common: set<string>, color: string) returns (parts: seq<string>, unmatched: seq<Token>)
    ensures parts == Parts(ts, common, color) && unmatched == Unmatched(ts, common)
  {
    parts, unmatched := [], [];
    for i := 0 to |ts|
      invariant parts == Parts(ts[..i], common, color) && unmatched == Unmatched(ts[..i], common)
    {
      assert ts[..i + 1][..i] == ts[..i];
      var t := ts[i];
      if t.norm in common {
        parts := parts + [Escape(t.text)];
      } else {
        parts := parts + [Highlight(t.text, color)];
        unmatched := unmatched + [t];
      }
    }
    assert ts[..|ts|] == ts;
  }

  /** `compare_content`. */
  method CompareContent(base: seq<NumberedLine>, comp: seq<NumberedLine>) returns (c: Comparison)
    ensures c == Compare(base, comp)
  {
    var bt := TokensFromLines(base);
    var ct := TokensFromLines(comp);
    var common := (set t | t in bt :: t.norm) * (set t | t in ct :: t.norm);
    var bparts, removed := MarkTokens(bt, common, RemovedColor);
    var cparts, added := MarkTokens(ct, common, AddedColor);
    c := Comparison(Join(bparts, " "), Join(cparts, " "), removed, added);
  }

  /**
   * A base token is reported removed exactly when no comparison token has its
   * normal form, and a comparison token is reported added exactly when no base
   * token has its normal form.
   */
  lemma ChangesExactly(base: seq<NumberedLine>, comp: seq<NumberedLine>)
    ensures forall t :: t in Compare(base, comp).removed <==> t in Tokens(base) && t.norm !in NormSet(Tokens(comp))
    ensures forall t :: t in Compare(base, comp).added <==> t in Tokens(comp) && t.norm !in NormSet(Tokens(base))
  {
    var bt, ct := Tokens(base), Tokens(comp);
    var common := NormSet(bt) * NormSet(ct);
    UnmatchedExactly(bt, common);
    UnmatchedExactly(ct, common);
  }

  /** Swapping the two sides swaps what is removed and what is added. */
  lemma SwapSides(base: seq<NumberedLine>, comp: seq<NumberedLine>)
    ensures Compare(comp, base).removed == Compare(base, comp).added
    ensures Compare(comp, base).added == Compare(base, comp).removed
  {
    assert NormSet(Tokens(base)) * NormSet(Tokens(comp)) == NormSet(Tokens(comp)) * NormSet(Tokens(base));
  }

  /** A section compared with itself reports no change and highlights nothing. */
  lemma SelfCompare(lines: seq<NumberedLine>)
    ensures Compare(lines, lines).removed == [] && Compare(lines, lines).added == []
    ensures Compare(lines, lines).baseHtml == Compare(lines, lines).compHtml
  {
    var ts := Tokens(lines);
    var common := NormSet(ts) * NormSet(ts);
    UnmatchedExactly(ts, common);
    if Unmatched(ts, common) != [] {
      assert Unmatched(ts, common)[0] in Unmatched(ts, common);
    }
    forall i | 0 <= i < |ts| ensures Part(ts[i], common, RemovedColor) == Part(ts[i], common, AddedColor) {
      assert ts[i] in ts;
    }
    assert Parts(ts, common, RemovedColor) == Parts(ts, common, AddedColor);
  }

  /** Every part of a side's html is its token's text itself when common, and that text highlighted when not. */
  lemma PartsShowTokens(lines: seq<NumberedLine>, common: set<string>, color: string)
    ensures forall i :: 0 <= i < |Tokens(lines)| ==>
      Parts(Tokens(lines), common, color)[i] ==
        if Tokens(lines)[i].norm in common then Tokens(lines)[i].text
        else "<span style='background-color:" + color + ";'>" + Tokens(lines)[i].text + "</span>"
  {
    var ts := Tokens(lines);
    TokensOfLines(lines);
    forall i | 0 <= i < |ts|
      ensures Parts(ts, common, color)[i] ==
        if ts[i].norm in common then ts[i].text
        else "<span style='background-color:" + color + ";'>" + ts[i].text + "</span>"
    {
      assert ts[i] in ts;
      var l :| l in lines && l.page == ts[i].page && ts[i].text in WordRuns(l.text);
      RunsKept(l.text, WordChars);
      EscapeWord(ts[i].text);
      assert Parts(ts, common, color)[i] == Part(ts[i], common, color);
    }
  }
}

/**
 * Word normalisation of the leaflet comparator (`Pro02/comparador_de_bulas.py`):
 * punctuation is dropped, words are lowercased, Portuguese stopwords are left out
 * and one trailing `s` is cut, so that "Comprimidos" and "comprimido" compare equal.
 */
module LeafletText {
  import opened PyText

  /** The comparator's stopwords: articles, prepositions and their contractions, and "é". */
  const Stopwords: set<string> := {
    "a", "o", "e", "em", "de", "do", "da", "dos", "das", "um", "uma", "uns", "umas", "com",
    "para", "por", "no", "na", "nos", "nas", "ou", "se", "é"
  }

  /** `re.sub(r'[^\w\s]', '', s)`: every character that is neither a word character nor space is dropped. */
  function DropPunct(s: string): (r: string)
    ensures |r| <= |s|
  {
    if |s| == 0 then "" else (if IsWordChar(s[0]) || IsSpace(s[0]) then [s[0]] else "") + DropPunct(s[1..])
  }

  /** The characters `DropPunct` keeps are exactly the word and space characters of `s`. */
  lemma {:induction false} DropPunctKeeps(s: string, c: char)
    ensures c in DropPunct(s) <==> c in s && (IsWordChar(c) || IsSpace(c))
  {
    if |s| > 0 {
      DropPunctKeeps(s[1..], c);
      assert s == [s[0]] + s[1..];
    }
  }

  /** `t[:-1] if t.endswith('s') else t`. */
  function Unplural(t: string): (r: string)
  {
    if |t| > 0 && t[|t| - 1] == 's' then t[..|t| - 1] else t
  }

  /** The lowered words of `ws` that are not stopwords, each with one trailing `s` cut. */
  function TextTokens(ws: seq<string>): seq<string>
  {
    if |ws| == 0 then []
    else
      var l := LowerStr(ws[0]);
      (if l in Stopwords then [] else [Unplural(l)]) + TextTokens(ws[1..])
  }

  /** `normalize_text`: the kept tokens of the punctuation-free text, joined by single spaces. */
  function NormalizeText(s: string): string
  {
    Join(TextTokens(Words(DropPunct(s))), " ")
  }

  /** `normalize_title`: the same without the stopword test, after `strip` and `lower`. */
  function NormalizeTitle(s: string): string
  {
    Join(Map(Unplural, Words(LowerStr(Strip(DropPunct(s))))), " ")
  }

  /**
   * A token of `normalize_text` is exactly a lowered word that is not a stopword,
   * with one trailing `s` cut; the stopword test looks at the word before the cut.
   */
  lemma {:induction false} TextTokensFrom(ws: seq<string>, t: string)
    ensures t in TextTokens(ws) <==>
      exists w :: w in ws && LowerStr(w) !in Stopwords && t == Unplural(LowerStr(w))
  {
    if |ws| > 0 {
      TextTokensFrom(ws[1..], t);
      var l := LowerStr(ws[0]);
      assert TextTokens(ws) == (if l in Stopwords then [] else [Unplural(l)]) + TextTokens(ws[1..]);
      if exists w :: w in ws && LowerStr(w) !in Stopwords && t == Unplural(LowerStr(w)) {
        var w :| w in ws && LowerStr(w) !in Stopwords && t == Unplural(LowerStr(w));
        if w != ws[0] {
          assert w in ws[1..];
        }
      }
      if exists w :: w in ws[1..] && LowerStr(w) !in Stopwords && t == Unplural(LowerStr(w)) {
        var w :| w in ws[1..] && LowerStr(w) !in Stopwords && t == Unplural(LowerStr(w));
        assert w in ws;
      }
    }
  }

  /** Without stopwords among the lowered words, the text tokens are the cut lowered words. */
  lemma {:induction false} TokensWithoutStopwords(ws: seq<string>)
    requires forall w :: w in ws ==> LowerStr(w) !in Stopwords
    ensures TextTokens(ws) == Map(Unplural, Map(LowerStr, ws))
  {
    if |ws| > 0 {
      TokensWithoutStopwords(ws[1..]);
      assert Map(LowerStr, ws)[1..] == Map(LowerStr, ws[1..]);
    }
  }

  /**
   * `normalize_title` is `normalize_text` without the stopword filter: on a text
   * none of whose words is a stopword, the two agree.
   */
  lemma TitleIsTextWithoutStopwords(s: string)
    requires forall w :: w in Words(DropPunct(s)) ==> LowerStr(w) !in Stopwords
    ensures NormalizeTitle(s) == NormalizeText(s)
  {
    var x := DropPunct(s);
    RunsLower(Strip(x), NonSpace);
    WordsStrip(x);
    TokensWithoutStopwords(Words(x));
  }

  /** Only word characters and spaces are left after `DropPunct`; a run of non-space characters holds word characters only. */
  lemma WordsOfDropped(s: string)
    ensures forall w :: w in Words(DropPunct(s)) ==> forall i :: 0 <= i < |w| ==> IsWordChar(w[i])
  {
    var x := DropPunct(s);
    RunsKept(x, NonSpace);
    RunsChars(x, NonSpace);
    forall w, i | w in Words(x) && 0 <= i < |w|
      ensures IsWordChar(w[i])
    {
      DropPunctKeeps(s, w[i]);
      assert w[i] in x;
    }
  }

  /** Lowering then cutting keeps a word of word characters a word of word characters. */
  lemma CutLoweredWord(w: string)
    requires forall i :: 0 <= i < |w| ==> IsWordChar(w[i])
    ensures forall i :: 0 <= i < |Unplural(LowerStr(w))| ==> IsWordChar(Unplural(LowerStr(w))[i])
  {
    forall i | 0 <= i < |w|
      ensures IsWordChar(LowerStr(w)[i])
    {
      LowerKeepsClass(w[i]);
    }
  }

  /**
   * The output of `normalize_text` holds word characters and spaces only: one space
   * joins each pair of tokens, and a token that loses its only letter, a lone `s`,
   * leaves two spaces side by side.
   */
  lemma NormalizedChars(s: string)
    ensures forall c :: c in NormalizeText(s) ==> IsWordChar(c) || c == ' '
  {
    var ws := Words(DropPunct(s));
    WordsOfDropped(s);
    forall c | c in NormalizeText(s)
      ensures IsWordChar(c) || c == ' '
    {
      JoinChars(TextTokens(ws), " ", c);
      if c != ' ' {
        var t :| t in TextTokens(ws) && c in t;
        TextTokensFrom(ws, t);
        var w :| w in ws && LowerStr(w) !in Stopwords && t == Unplural(LowerStr(w));
        CutLoweredWord(w);
      }
    }
  }

  /** The title's words are the lowered words of the text without punctuation. */
  lemma TitleWords(s: string)
    ensures Words(LowerStr(Strip(DropPunct(s)))) == Map(LowerStr, Words(DropPunct(s)))
  {
    RunsLower(Strip(DropPunct(s)), NonSpace);
    WordsStrip(DropPunct(s));
  }

  /** Every title token is made of word characters. */
  lemma TitleTokensWordy(s: string)
    ensures forall t :: t in Map(Unplural, Map(LowerStr, Words(DropPunct(s)))) ==> forall j :: 0 <= j < |t| ==> IsWordChar(t[j])
  {
    var ws := Words(DropPunct(s));
    var ts := Map(Unplural, Map(LowerStr, ws));
    WordsOfDropped(s);
    forall i | 0 <= i < |ts|
      ensures forall j :: 0 <= j < |ts[i]| ==> IsWordChar(ts[i][j])
    {
      CutLoweredWord(ws[i]);
    }
  }

  /**
   * The output of `normalize_title` holds word characters and spaces only: one
   * space joins each pair of tokens, and a lone `s` token becomes empty and
   * leaves two spaces side by side.
   */
  lemma NormalizedTitleChars(s: string)
    ensures forall c :: c in NormalizeTitle(s) ==> IsWordChar(c) || c == ' '
  {
    var ts := Map(Unplural, Map(LowerStr, Words(DropPunct(s))));
    TitleWords(s);
    TitleTokensWordy(s);
    forall c | c in NormalizeTitle(s)
      ensures IsWordChar(c) || c == ' '
    {
      JoinChars(ts, " ", c);
    }
  }
}

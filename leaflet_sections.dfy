/**
 * `split_full_text_into_sections` of the leaflet comparator
 * (`Pro02/comparador_de_bulas.py`): the lines of a leaflet are sorted under the
 * ten standard section titles. A line is recognised as a title either as a
 * numbered heading whose words best match a title, or because a normalised title
 * occurs in it; every other non-blank line goes to the section last recognised.
 */
module LeafletSections {
  import opened Wrappers
  import opened PyText
  import opened LeafletText

  /** `SECTION_TITLES`, in order. */
  const SectionTitles: seq<string> := [
    "1. PARA QUE ESTE MEDICAMENTO É INDICADO?", "2. COMO ESTE MEDICAMENTO FUNCIONA?",
    "3. QUANDO NÃO DEVO USAR ESTE MEDICAMENTO?", "4. O QUE DEVO SABER ANTES DE USAR ESTE MEDICAMENTO?",
    "5. ONDE, COMO E POR QUANTO TEMPO POSSO GUARDAR ESTE MEDICAMENTO?", "6. COMO DEVO USAR ESTE MEDICAMENTO?",
    "7. O QUE DEVO FAZER QUANDO EU ME ESQUECER DE USAR ESTE MEDICAMENTO?",
    "8. QUAIS OS MALES QUE ESTE MEDICAMENTO PODE ME CAUSAR?",
    "9. O QUE FAZER SE ALGUÉM USAR UMA QUANTIDADE MAIOR DO QUE A INDICADA DESTE MEDICAMENTO?",
    "DIZERES LEGAIS"
  ]

  // ----- the numbered-heading pattern -----

  /** The index of the first non-digit at or after `i`, or `|s|`. */
  function SkipDigits(s: string, i: nat): (k: nat)
    requires i <= |s|
    ensures i <= k <= |s| && (k < |s| ==> !IsDigit(s[k]))
    decreases |s| - i
  {
    if i < |s| && IsDigit(s[i]) then SkipDigits(s, i + 1) else i
  }

  /** Where `^\s*\d+[\.,\)]?` ends in `s`, if `s` starts with a number at all. */
  function NumberEnd(s: string): (r: Option<nat>)
    ensures r.Some? ==> r.value <= |s|
  {
    var a := SkipSpaces(s, 0);
    var d := SkipDigits(s, a);
    if d == a then None
    else Some(if d < |s| && (s[d] == '.' || s[d] == ',' || s[d] == ')') then d + 1 else d)
  }

  /** The character class of a heading's text, `[A-ZÁÉÍÓÚÂÊÔÃÕÇ0-9 \-\,\./\(\)]` read without case. */
  predicate TitleChar(c: char)
  {
    || 'A' <= c <= 'Z' || 'a' <= c <= 'z' || '0' <= c <= '9'
    || c == ' ' || c == '-' || c == ',' || c == '.' || c == '/' || c == '(' || c == ')'
    || c in "ÁÉÍÓÚÂÊÔÃÕÇáéíóúâêôãõç"
  }

  predicate AllSpace(s: string, i: nat, j: nat)
    requires i <= j <= |s|
  {
    forall k :: i <= k < j ==> IsSpace(s[k])
  }

  predicate AllTitleChars(s: string, i: nat, j: nat)
    requires i <= j <= |s|
  {
    forall k :: i <= k < j ==> TitleChar(s[k])
  }

  /**
   * `title_pattern.match(s)`: a number, optionally followed by `.`, `,` or `)`, then
   * space, then heading characters up to the end, or up to a final newline.
   */
  predicate TitlePattern(s: string)
  {
    match NumberEnd(s)
    case None => false
    case Some(p) =>
      var e := if |s| > 0 && s[|s| - 1] == '\n' then |s| - 1 else |s|;
      exists w :: p < w < e && AllSpace(s, p, w) && AllTitleChars(s, w, e)
  }

  /** `re.sub(r'^\s*\d+[\.,\)]?\s*', '', s).strip()`: the heading's text after its number. */
  function AfterNumber(s: string): string
  {
    match NumberEnd(s)
    case None => Strip(s)
    case Some(p) => Strip(s[SkipSpaces(s, p)..])
  }

  // ----- matching a heading against the titles -----

  /** A title with its normal form as key. */
  function Keyed(t: string): (string, string)
  {
    (NormalizeTitle(t), t)
  }

  /** `norm_titles`: each title keyed by its normal form, in title order. */
  function NormTitles(titles: seq<string>): (r: seq<(string, string)>)
    ensures |r| == |titles| && forall i :: 0 <= i < |r| ==> r[i].1 == titles[i]
  {
    Map(Keyed, titles)
  }

  /** `n_after and (n_after in nt or nt in n_after)`. */
  predicate Compatible(na: string, nt: string)
  {
    na != "" && (Contains(nt, na) || Contains(na, nt))
  }

  function Elems(ws: seq<string>): set<string>
  {
    set w | w in ws
  }

  /** `len(set(n_after.split()) & set(nt.split()))`: the number of distinct words the two share. */
  function Score(na: string, nt: string): nat
  {
    |Elems(Words(na)) * Elems(Words(nt))|
  }

  /**
   * `(highest_score, best_match)` after the loop over `nts`: a title replaces the
   * best so far only with a strictly higher score.
   */
  function Best(na: string, nts: seq<(string, string)>): (r: (nat, Option<string>))
    ensures r.1.Some? ==> exists i :: 0 <= i < |nts| && nts[i].1 == r.1.value
  {
    if |nts| == 0 then (0, None) else Prefer(na, Best(na, nts[..|nts| - 1]), nts[|nts| - 1])
  }

  /** One round of the loop: the title `e` replaces `prev` only when compatible and strictly better. */
  function Prefer(na: string, prev: (nat, Option<string>), e: (string, string)): (nat, Option<string>)
  {
    if Compatible(na, e.0) && Score(na, e.0) > prev.0 then (Score(na, e.0), Some(e.1)) else prev
  }

  /**
   * The best match is the first compatible title with the highest score, and that
   * score is positive; there is none exactly when every compatible title scores 0.
   */
  lemma {:induction false} BestIsFirstHighest(na: string, nts: seq<(string, string)>)
    ensures var r := Best(na, nts);
      r.1.Some? ==>
        exists i :: 0 <= i < |nts| && nts[i].1 == r.1.value &&
          Compatible(na, nts[i].0) && Score(na, nts[i].0) == r.0 > 0 &&
          forall j :: 0 <= j < i && Compatible(na, nts[j].0) ==> Score(na, nts[j].0) < r.0
    ensures var r := Best(na, nts);
      forall j :: 0 <= j < |nts| && Compatible(na, nts[j].0) ==> Score(na, nts[j].0) <= r.0
    ensures Best(na, nts).1.None? <==> Best(na, nts).0 == 0
  {
    if |nts| > 0 {
      var init := nts[..|nts| - 1];
      BestIsFirstHighest(na, init);
      assert forall j :: 0 <= j < |init| ==> init[j] == nts[j];
    }
  }

  /** The first title whose normal form occurs in `ln`, in title order. */
  function FirstIn(ln: string, nts: seq<(string, string)>): (r: Option<string>)
    ensures r.Some? ==>
      exists i :: 0 <= i < |nts| && nts[i].1 == r.value && Contains(ln, nts[i].0) &&
        forall j :: 0 <= j < i ==> !Contains(ln, nts[j].0)
    ensures r.None? ==> forall j :: 0 <= j < |nts| ==> !Contains(ln, nts[j].0)
  {
    if |nts| == 0 then None
    else if Contains(ln, nts[0].0) then Some(nts[0].1)
    else
      var r := FirstIn(ln, nts[1..]);
      assert forall j :: 1 <= j < |nts| ==> nts[j] == nts[1..][j - 1];
      r
  }

  /**
   * The title a stripped, non-blank line announces: for a numbered heading, its
   * best-matching title; otherwise, or when none matches, the first title whose
   * normal form occurs in the normalised line.
   */
  function TitleOf(line: string, titles: seq<string>): (r: Option<string>)
    ensures r.Some? ==> r.value in titles
  {
    var numbered := if TitlePattern(line) then Best(NormalizeTitle(AfterNumber(line)), NormTitles(titles)).1 else None;
    if numbered.Some? then numbered else FirstIn(NormalizeTitle(line), NormTitles(titles))
  }

  /** The loop over `norm_titles` for a numbered heading whose normalised text is `na`. */
  method BestMatch(na: string, titles: seq<string>) returns (best: Option<string>)
    ensures best == Best(na, NormTitles(titles)).1
  {
    var nts := NormTitles(titles);
    var highest := 0;
    best := None;
    for k := 0 to |nts|
      invariant (highest, best) == Best(na, nts[..k])
    {
      BestStep(na, nts, k);
      var nt, orig := nts[k].0, nts[k].1;
      if Compatible(na, nt) {
        var score := Score(na, nt);
        if score > highest {
          highest, best := score, Some(orig);
        }
      }
    }
    assert nts[..|nts|] == nts;
  }

  /** One more title for the loop of `BestMatch`. */
  lemma BestStep(na: string, nts: seq<(string, string)>, k: nat)
    requires k < |nts|
    ensures Best(na, nts[..k + 1]) == Prefer(na, Best(na, nts[..k]), nts[k])
  {
    assert nts[..k + 1][..k] == nts[..k] && nts[..k + 1][k] == nts[k];
  }

  /** The fallback loop: the first title whose normal form occurs in the normalised line. */
  method FirstMatch(ln: string, titles: seq<string>) returns (found: Option<string>)
    ensures found == FirstIn(ln, NormTitles(titles))
  {
    var nts := NormTitles(titles);
    for k := 0 to |nts|
      invariant FirstIn(ln, nts) == FirstIn(ln, nts[k..])
    {
      assert nts[k..][1..] == nts[k + 1..];
      if Contains(ln, nts[k].0) {
        return Some(nts[k].1);
      }
    }
    return None;
  }

  /** The title recognition of one stripped, non-blank line. */
  method FindTitle(line: string, titles: seq<string>) returns (found: Option<string>)
    ensures found == TitleOf(line, titles)
  {
    found := None;
    if TitlePattern(line) {
      found := BestMatch(NormalizeTitle(AfterNumber(line)), titles);
    }
    if found.None? {
      found := FirstMatch(NormalizeTitle(line), titles);
    }
  }

  // ----- sorting the lines into sections -----

  /** What the loop keeps: `current` and the lines collected under each title. */
  type Scanned = (Option<string>, map<string, seq<string>>)

  /** `{title: [] for title in SECTION_TITLES}` */
  function NoBodies(titles: seq<string>): (m: map<string, seq<string>>)
    ensures m.Keys == Elems(titles)
  {
    map t | t in titles :: []
  }

  /**
   * One stripped line: skipped when blank; a title line makes its title current;
   * any other line is added to the current section, if there is one yet.
   */
  function Absorb(st: Scanned, line: string, titles: seq<string>): (r: Scanned)
    ensures r.1.Keys == st.1.Keys
  {
    if line == "" then st
    else match TitleOf(line, titles)
      case Some(t) => (Some(t), st.1)
      case None =>
        if st.0.Some? && st.0.value in st.1 then (st.0, st.1[st.0.value := st.1[st.0.value] + [line]]) else st
  }

  /** The loop's state after it has seen `lines`. */
  function Scan(lines: seq<string>, titles: seq<string>): (r: Scanned)
    ensures r.1.Keys == Elems(titles)
    ensures r.0.Some? ==> r.0.value in titles
  {
    if |lines| == 0 then (None, NoBodies(titles))
    else Absorb(Scan(lines[..|lines| - 1], titles), Strip(lines[|lines| - 1]), titles)
  }

  /** A body line is stripped and non-blank, and announces no title. */
  predicate ContentLine(l: string, titles: seq<string>)
  {
    l != "" && !IsSpace(l[0]) && !IsSpace(l[|l| - 1]) && TitleOf(l, titles).None?
  }

  /** Every collected line is a content line. */
  predicate AllContent(bodies: map<string, seq<string>>, titles: seq<string>)
  {
    forall t, l :: t in bodies && l in bodies[t] ==> ContentLine(l, titles)
  }

  /** Absorbing one stripped line adds only a content line to a body. */
  lemma AbsorbContent(st: Scanned, raw: string, titles: seq<string>)
    requires AllContent(st.1, titles)
    ensures AllContent(Absorb(st, Strip(raw), titles).1, titles)
  {
    var line := Strip(raw);
    if line != "" && TitleOf(line, titles).None? && st.0.Some? && st.0.value in st.1 {
      var c := st.0.value;
      var m := st.1[c := st.1[c] + [line]];
      assert ContentLine(line, titles);
      forall t, l | t in m && l in m[t] ensures ContentLine(l, titles) {
        if t == c && l !in st.1[c] {
          assert l == line;
        }
      }
    }
  }

  /** Blank lines and title lines never reach a body; body lines are stripped. */
  lemma {:induction false} BodyLines(lines: seq<string>, titles: seq<string>)
    ensures AllContent(Scan(lines, titles).1, titles)
  {
    if |lines| > 0 {
      BodyLines(lines[..|lines| - 1], titles);
      AbsorbContent(Scan(lines[..|lines| - 1], titles), lines[|lines| - 1], titles);
    }
  }

  /** While no title has been recognised, there is no current section and every body is empty. */
  lemma {:induction false} NothingBeforeFirstTitle(lines: seq<string>, titles: seq<string>)
    requires forall i :: 0 <= i < |lines| ==> Strip(lines[i]) == "" || TitleOf(Strip(lines[i]), titles).None?
    ensures Scan(lines, titles) == (None, NoBodies(titles))
  {
    if |lines| > 0 {
      var init := lines[..|lines| - 1];
      assert forall i :: 0 <= i < |init| ==> init[i] == lines[i];
      NothingBeforeFirstTitle(init, titles);
    }
  }

  /** A join of non-empty parts starts with the first part's first character and ends with the last part's last. */
  lemma {:induction false} JoinEnds(ls: seq<string>)
    requires |ls| > 0 && forall i :: 0 <= i < |ls| ==> ls[i] != ""
    ensures |Join(ls, "\n")| > 0
    ensures Join(ls, "\n")[0] == ls[0][0]
    ensures Join(ls, "\n")[|Join(ls, "\n")| - 1] == ls[|ls| - 1][|ls[|ls| - 1]| - 1]
  {
    if |ls| > 1 {
      var rest := ls[1..];
      assert forall i :: 0 <= i < |rest| ==> rest[i] == ls[i + 1];
      JoinEnds(rest);
      assert Join(ls, "\n") == ls[0] + "\n" + Join(rest, "\n");
      assert rest[|rest| - 1] == ls[|ls| - 1];
    }
  }

  /** Lines joined by newlines, each stripped and non-blank, are their own strip: the final `.strip()` changes nothing. */
  lemma JoinedContentStripped(ls: seq<string>, titles: seq<string>)
    requires forall l :: l in ls ==> ContentLine(l, titles)
    ensures Strip(Join(ls, "\n")) == Join(ls, "\n")
  {
    if |ls| > 0 {
      assert forall i :: 0 <= i < |ls| ==> ls[i] in ls;
      JoinEnds(ls);
      StripTrimmed(Join(ls, "\n"));
    }
  }

  /** The section texts: each title's collected lines joined by newlines and stripped. */
  function Texts(bodies: map<string, seq<string>>): (m: map<string, string>)
    ensures m.Keys == bodies.Keys
  {
    map t | t in bodies :: Strip(Join(bodies[t], "\n"))
  }

  /** The loop over the stripped lines: where each line goes. */
  method ScanLines(lines: seq<string>, titles: seq<string>) returns (bodies: map<string, seq<string>>)
    ensures bodies == Scan(lines, titles).1
  {
    bodies := NoBodies(titles);
    var current: Option<string> := None;
    for i := 0 to |lines|
      invariant (current, bodies) == Scan(lines[..i], titles)
    {
      assert lines[..i + 1][..i] == lines[..i];
      var line := Strip(lines[i]);
      if line != "" {
        var found := FindTitle(line, titles);
        if found.Some? {
          current := found;
        } else if current.Some? && current.value in bodies {
          bodies := bodies[current.value := bodies[current.value] + [line]];
        }
      }
    }
    assert lines[..|lines|] == lines;
  }

  /** The final dictionary: each title's lines joined by newlines, then stripped. */
  method JoinBodies(bodies: map<string, seq<string>>, titles: seq<string>) returns (sections: map<string, string>)
    requires bodies.Keys == Elems(titles)
    ensures sections == Texts(bodies)
  {
    sections := map[];
    for k := 0 to |titles|
      invariant sections.Keys == Elems(titles[..k])
      invariant forall t :: t in sections ==> sections[t] == Strip(Join(bodies[t], "\n"))
    {
      assert titles[..k + 1] == titles[..k] + [titles[k]];
      var t := titles[k];
      sections := sections[t := Strip(Join(bodies[t], "\n"))];
    }
    assert titles[..|titles|] == titles;
  }

  /**
   * `split_full_text_into_sections` over the titles `titles`: every title maps to
   * its collected lines joined by newlines and stripped.
   */
  method SplitSections(text: string, titles: seq<string>) returns (sections: map<string, string>)
    ensures sections == Texts(Scan(Lines(text), titles).1)
  {
    var bodies := ScanLines(Lines(text), titles);
    sections := JoinBodies(bodies, titles);
  }

  /** The final `.strip()` changes nothing: a section's text is exactly its body lines joined by newlines. */
  lemma SectionTextsAreJoinedBodies(lines: seq<string>, titles: seq<string>)
    ensures forall t :: t in Scan(lines, titles).1 ==>
      Texts(Scan(lines, titles).1)[t] == Join(Scan(lines, titles).1[t], "\n")
  {
    BodyLines(lines, titles);
    forall t | t in Scan(lines, titles).1
      ensures Texts(Scan(lines, titles).1)[t] == Join(Scan(lines, titles).1[t], "\n")
    {
      JoinedContentStripped(Scan(lines, titles).1[t], titles);
    }
  }

  /** The leaflet's sections: one entry per fixed section title, whatever the text. */
  method SplitLeaflet(text: string) returns (sections: map<string, string>)
    ensures sections.Keys == Elems(SectionTitles)
    ensures forall t :: t in sections ==> sections[t] == Join(Scan(Lines(text), SectionTitles).1[t], "\n")
  {
    sections := SplitSections(text, SectionTitles);
    SectionTextsAreJoinedBodies(Lines(text), SectionTitles);
  }
}

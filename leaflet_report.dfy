/**
 * The report of the leaflet comparator (`build_section_htmls` in
 * `Pro02/comparador_de_bulas.py`): both leaflets are split into their sections,
 * each section is compared word by word, and every removed or added word is
 * listed with the sorted pages of its document on which it occurs.
 */
module LeafletReport {
  import opened PyText
  import opened LeafletText
  import opened LeafletSections
  import opened LeafletCompare

  // ----- section lines -----

  /** `[(1, i, line) for i, line in enumerate(lines) if line.strip()]` */
  function NumberLines(ls: seq<string>): seq<NumberedLine>
  {
    if |ls| == 0 then []
    else
      var last := |ls| - 1;
      NumberLines(ls[..last]) + (if Strip(ls[last]) != "" then [NumberedLine(1, last, ls[last])] else [])
  }

  /** The numbered lines are exactly the non-blank lines, on page 1 and with their position. */
  lemma {:induction false} NumberLinesExactly(ls: seq<string>)
    ensures forall l :: l in NumberLines(ls) <==>
      l.page == 1 && 0 <= l.index < |ls| && l.text == ls[l.index] && Strip(l.text) != ""
  {
    if |ls| > 0 {
      var last := |ls| - 1;
      NumberLinesExactly(ls[..last]);
      forall l ensures l in NumberLines(ls) <==> l.page == 1 && 0 <= l.index < |ls| && l.text == ls[l.index] && Strip(l.text) != "" {
        if 0 <= l.index < last {
          assert ls[..last][l.index] == ls[l.index];
        }
      }
    }
  }

  // ----- the page index -----

  /** A `(line, page)` pair of a document. */
  datatype PageLine = PageLine(text: string, page: int)

  predicate Increasing(r: seq<int>)
  {
    forall i, j :: 0 <= i < j < |r| ==> r[i] < r[j]
  }

  /**
   * `pages.add(p)` on a page set kept in increasing order: `p` goes in its place
   * unless it is there already.
   */
  function Insert(r: seq<int>, p: int): seq<int>
  {
    if |r| == 0 then [p]
    else if p < r[0] then [p] + r
    else if p == r[0] then r
    else [r[0]] + Insert(r[1..], p)
  }

  /** Inserting keeps the order and adds exactly `p`. */
  lemma {:induction false} InsertAdds(r: seq<int>, p: int)
    requires Increasing(r)
    ensures Increasing(Insert(r, p))
    ensures forall x :: x in Insert(r, p) <==> x in r || x == p
  {
    if |r| > 0 && p < r[0] {
      forall x | x in r ensures p < x {
        var i :| 0 <= i < |r| && r[i] == x;
        assert i == 0 || r[0] < r[i];
      }
      ConsIncreasing(p, r);
    } else if |r| > 0 && p > r[0] {
      var rest := r[1..];
      IncreasingTail(r);
      InsertAdds(rest, p);
      ConsIncreasing(r[0], Insert(rest, p));
      assert r == [r[0]] + rest;
    }
  }

  /** The tail of an increasing sequence is increasing and lies above its head. */
  lemma IncreasingTail(r: seq<int>)
    requires Increasing(r) && |r| > 0
    ensures Increasing(r[1..]) && forall x :: x in r[1..] ==> r[0] < x
  {
    var rest := r[1..];
    forall i, j | 0 <= i < j < |rest| ensures rest[i] < rest[j] {
      assert rest[i] == r[i + 1] && rest[j] == r[j + 1];
    }
    forall x | x in rest ensures r[0] < x {
      var i :| 0 <= i < |rest| && rest[i] == x;
      assert r[i + 1] == x;
    }
  }

  /** A head below every element of an increasing tail makes an increasing sequence. */
  lemma ConsIncreasing(h: int, t: seq<int>)
    requires Increasing(t) && forall x :: x in t ==> h < x
    ensures Increasing([h] + t)
  {
    var u := [h] + t;
    forall i, j | 0 <= i < j < |u| ensures u[i] < u[j] {
      assert u[j] == t[j - 1] && u[j] in t;
      if i > 0 {
        assert u[i] == t[i - 1];
      }
    }
  }

  /** `norm_to_pages[normalize_text(w)].add(page)` for every word `w` of `ws`. */
  function AddPage(m: map<string, seq<int>>, ws: seq<string>, page: int): map<string, seq<int>>
  {
    if |ws| == 0 then m
    else
      var prev := AddPage(m, ws[..|ws| - 1], page);
      var n := NormalizeText(ws[|ws| - 1]);
      prev[n := Insert(if n in prev then prev[n] else [], page)]
  }

  /** The `defaultdict(set)` built over a document's lines. */
  function PageIndex(pl: seq<PageLine>): map<string, seq<int>>
  {
    if |pl| == 0 then map[]
    else AddPage(PageIndex(pl[..|pl| - 1]), WordRuns(pl[|pl| - 1].text), pl[|pl| - 1].page)
  }

  /** A word of normal form `n` occurs on a line of page `p`. */
  predicate OnPage(pl: seq<PageLine>, n: string, p: int)
  {
    exists l, w :: l in pl && l.page == p && w in WordRuns(l.text) && NormalizeText(w) == n
  }

  /** The normal forms of the words `ws`. */
  function NormsOf(ws: seq<string>): set<string>
  {
    set w | w in ws :: NormalizeText(w)
  }

  /** Every page list of the index is in increasing order. */
  predicate IndexSorted(m: map<string, seq<int>>)
  {
    forall n :: n in m ==> Increasing(m[n])
  }

  /** One `add`: the page lists stay ordered and only `n` gains `page`. */
  lemma AddOne(m: map<string, seq<int>>, n: string, page: int)
    requires IndexSorted(m)
    ensures var m' := m[n := Insert(if n in m then m[n] else [], page)];
      IndexSorted(m') && (forall k :: k in m' <==> k in m || k == n) &&
      forall k, p :: k in m' ==> (p in m'[k] <==> (k in m && p in m[k]) || (p == page && k == n))
  {
    InsertAdds(if n in m then m[n] else [], page);
  }

  /**
   * After adding the words `ws` on page `page`, a normal form is in the index
   * exactly when it was or one of `ws` has it, and it gains exactly `page`.
   */
  lemma {:induction false} AddPageExactly(m: map<string, seq<int>>, ws: seq<string>, page: int)
    requires IndexSorted(m)
    ensures IndexSorted(AddPage(m, ws, page))
    ensures forall n :: n in AddPage(m, ws, page) <==> n in m || n in NormsOf(ws)
    ensures forall n, p :: n in AddPage(m, ws, page) ==>
      (p in AddPage(m, ws, page)[n] <==> (n in m && p in m[n]) || (p == page && n in NormsOf(ws)))
  {
    if |ws| > 0 {
      var init, w := ws[..|ws| - 1], ws[|ws| - 1];
      assert ws == init + [w];
      assert NormsOf(ws) == NormsOf(init) + {NormalizeText(w)};
      AddPageExactly(m, init, page);
      var prev := AddPage(m, init, page);
      AddOne(prev, NormalizeText(w), page);
      var next := AddPage(m, ws, page);
      forall n, p | n in next
        ensures p in next[n] <==> (n in m && p in m[n]) || (p == page && n in NormsOf(ws))
      {
        if n in prev {
          assert p in prev[n] <==> (n in m && p in m[n]) || (p == page && n in NormsOf(init));
        } else {
          assert n !in m && n !in NormsOf(init);
        }
      }
    }
  }

  /**
   * The index holds a normal form exactly when one of its words occurs in the
   * document, and then exactly the pages on which it occurs.
   */
  lemma {:induction false} PageIndexExactly(pl: seq<PageLine>)
    ensures IndexSorted(PageIndex(pl))
    ensures forall n :: n in PageIndex(pl) <==> exists p :: OnPage(pl, n, p)
    ensures forall n, p :: n in PageIndex(pl) ==> (p in PageIndex(pl)[n] <==> OnPage(pl, n, p))
  {
    if |pl| > 0 {
      var init, last := pl[..|pl| - 1], pl[|pl| - 1];
      PageIndexExactly(init);
      AddPageExactly(PageIndex(init), WordRuns(last.text), last.page);
      assert pl == init + [last];
      forall n, p ensures OnPage(pl, n, p) <==> OnPage(init, n, p) || (p == last.page && n in NormsOf(WordRuns(last.text))) {
        if OnPage(pl, n, p) {
          var l, w :| l in pl && l.page == p && w in WordRuns(l.text) && NormalizeText(w) == n;
          if l != last {
            assert l in init;
          }
        }
        if OnPage(init, n, p) {
          var l, w :| l in init && l.page == p && w in WordRuns(l.text) && NormalizeText(w) == n;
          assert l in pl;
        }
      }
      forall n ensures n in PageIndex(pl) <==> exists p :: OnPage(pl, n, p) {
        if n in PageIndex(pl) {
          if n in PageIndex(init) {
            var p :| OnPage(init, n, p);
            assert OnPage(pl, n, p);
          } else {
            assert OnPage(pl, n, last.page);
          }
        }
        if exists p :: OnPage(pl, n, p) {
          var p :| OnPage(pl, n, p);
          assert OnPage(init, n, p) || n in NormsOf(WordRuns(last.text));
        }
      }
    }
  }

  /** The nested loop that fills `norm_to_pages`. */
  method IndexPages(pl: seq<PageLine>) returns (idx: map<string, seq<int>>)
    ensures idx == PageIndex(pl)
  {
    idx := map[];
    for i := 0 to |pl|
      invariant idx == PageIndex(pl[..i])
    {
      assert pl[..i + 1][..i] == pl[..i];
      var ws := WordRuns(pl[i].text);
      ghost var before := idx;
      for j := 0 to |ws|
        invariant idx == AddPage(before, ws[..j], pl[i].page)
      {
        assert ws[..j + 1][..j] == ws[..j];
        var n := NormalizeText(ws[j]);
        idx := idx[n := Insert(if n in idx then idx[n] else [], pl[i].page)];
      }
      assert ws[..|ws|] == ws;
    }
    assert pl[..|pl|] == pl;
  }

  // ----- sorted pages -----

  /** `tuple(sorted(norm_to_pages.get(norm, [1])))`: the page set is already in increasing order. */
  function Pages(n: string, idx: map<string, seq<int>>): seq<int>
  {
    if n in idx then idx[n] else [1]
  }

  /**
   * The pages of a normal form are the pages of the document on which it occurs,
   * in increasing order, or page 1 alone when it occurs on none.
   */
  lemma PagesOfDocument(n: string, pl: seq<PageLine>)
    ensures Increasing(Pages(n, PageIndex(pl))) && Pages(n, PageIndex(pl)) != []
    ensures (exists p :: OnPage(pl, n, p)) ==> forall p :: p in Pages(n, PageIndex(pl)) <==> OnPage(pl, n, p)
    ensures (forall p :: !OnPage(pl, n, p)) ==> Pages(n, PageIndex(pl)) == [1]
  {
    PageIndexExactly(pl);
    if n in PageIndex(pl) {
      var p :| OnPage(pl, n, p);
      assert p in PageIndex(pl)[n];
    }
  }

  // ----- the report -----

  const RemovedLabel := "Removido"
  const AddedLabel := "Adicionado"

  /** One line of the summary: section, normal form, kind of change and pages. */
  datatype Entry = Entry(section: string, norm: string, change: string, pages: seq<int>)

  /** The summary lines for the changed tokens `ts` of section `sec`. */
  function Entries(sec: string, ts: seq<Token>, change: string, idx: map<string, seq<int>>): (r: seq<Entry>)
    ensures |r| == |ts|
    ensures forall i :: 0 <= i < |ts| ==> r[i] == Entry(sec, ts[i].norm, change, Pages(ts[i].norm, idx))
  {
    if |ts| == 0 then []
    else Entries(sec, ts[..|ts| - 1], change, idx) + [Entry(sec, ts[|ts| - 1].norm, change, Pages(ts[|ts| - 1].norm, idx))]
  }

  /** What `build_section_htmls` returns: the two html texts and the summary. */
  datatype Report = Report(baseHtml: string, compHtml: string, summary: seq<Entry>)

  /** `sections.get(sec, "")` */
  function SectionText(sections: map<string, string>, sec: string): string
  {
    if sec in sections then sections[sec] else ""
  }

  /** The html heading and rule around one section's comparison. */
  function Framed(sec: string, html: string): string
  {
    "<h3>" + sec + "</h3>" + html + "<br><hr>"
  }

  /** The comparison of section `sec` of the two leaflets, its non-blank lines numbered on page 1. */
  function SectionComparison(bs: map<string, string>, cs: map<string, string>, sec: string): Comparison
  {
    Compare(NumberLines(Lines(SectionText(bs, sec))), NumberLines(Lines(SectionText(cs, sec))))
  }

  /** The report of section `sec`, given its comparison. */
  function SectionReport(sec: string, c: Comparison, bi: map<string, seq<int>>, ci: map<string, seq<int>>): Report
  {
    Report(Framed(sec, c.baseHtml), Framed(sec, c.compHtml),
      Entries(sec, c.removed, RemovedLabel, bi) + Entries(sec, c.added, AddedLabel, ci))
  }

  /** The reports of the sections `titles`, one after the other. */
  function Reports(titles: seq<string>, bs: map<string, string>, cs: map<string, string>,
                   bi: map<string, seq<int>>, ci: map<string, seq<int>>): Report
  {
    if |titles| == 0 then Report("", "", [])
    else
      var prev := Reports(titles[..|titles| - 1], bs, cs, bi, ci);
      var sec := titles[|titles| - 1];
      var r := SectionReport(sec, SectionComparison(bs, cs, sec), bi, ci);
      Report(prev.baseHtml + r.baseHtml, prev.compHtml + r.compHtml, prev.summary + r.summary)
  }

  /** `for _, norm, __ in changed: aggregate_summary.append(...)` */
  method AppendEntries(summary: seq<Entry>, sec: string, ts: seq<Token>, change: string, idx: map<string, seq<int>>)
    returns (r: seq<Entry>)
    ensures r == summary + Entries(sec, ts, change, idx)
  {
    r := summary;
    for i := 0 to |ts|
      invariant r == summary + Entries(sec, ts[..i], change, idx)
    {
      assert ts[..i + 1][..i] == ts[..i];
      r := r + [Entry(sec, ts[i].norm, change, Pages(ts[i].norm, idx))];
    }
    assert ts[..|ts|] == ts;
  }

  /** One round of the loop over the section titles, after the comparison. */
  method ReportSection(sec: string, c: Comparison, bi: map<string, seq<int>>, ci: map<string, seq<int>>)
    returns (r: Report)
    ensures r == SectionReport(sec, c, bi, ci)
  {
    var summary := AppendEntries([], sec, c.removed, RemovedLabel, bi);
    summary := AppendEntries(summary, sec, c.added, AddedLabel, ci);
    assert summary == Entries(sec, c.removed, RemovedLabel, bi) + Entries(sec, c.added, AddedLabel, ci);
    r := Report(Framed(sec, c.baseHtml), Framed(sec, c.compHtml), summary);
  }

  /** The loop over the section titles. */
  method ReportSections(titles: seq<string>, bs: map<string, string>, cs: map<string, string>,
                        bi: map<string, seq<int>>, ci: map<string, seq<int>>) returns (r: Report)
    ensures r == Reports(titles, bs, cs, bi, ci)
  {
    r := Report("", "", []);
    for k := 0 to |titles|
      invariant r == Reports(titles[..k], bs, cs, bi, ci)
    {
      assert titles[..k + 1][..k] == titles[..k];
      var sec := titles[k];
      var c := CompareContent(NumberLines(Lines(SectionText(bs, sec))), NumberLines(Lines(SectionText(cs, sec))));
      var s := ReportSection(sec, c, bi, ci);
      r := Report(r.baseHtml + s.baseHtml, r.compHtml + s.compHtml, r.summary + s.summary);
    }
    assert titles[..|titles|] == titles;
  }

  /** `build_section_htmls` over the section titles `titles`. */
  method BuildReport(baseText: string, compText: string, basePages: seq<PageLine>, compPages: seq<PageLine>, titles: seq<string>)
    returns (r: Report)
    ensures r == Reports(titles, Texts(Scan(Lines(baseText), titles).1), Texts(Scan(Lines(compText), titles).1),
      PageIndex(basePages), PageIndex(compPages))
  {
    var bs := SplitSections(baseText, titles);
    var cs := SplitSections(compText, titles);
    var bi := IndexPages(basePages);
    var ci := IndexPages(compPages);
    r := ReportSections(titles, bs, cs, bi, ci);
  }

  /** `build_section_htmls`: the report over the leaflet's fixed section titles. */
  method BuildSectionHtmls(baseText: string, compText: string, basePages: seq<PageLine>, compPages: seq<PageLine>)
    returns (r: Report)
    ensures r == Reports(SectionTitles, Texts(Scan(Lines(baseText), SectionTitles).1),
      Texts(Scan(Lines(compText), SectionTitles).1), PageIndex(basePages), PageIndex(compPages))
  {
    r := BuildReport(baseText, compText, basePages, compPages, SectionTitles);
  }

  // ----- what the summary says -----

  /** A summary line that is correct for its section: its pages are those of its normal form in its document. */
  predicate Faithful(e: Entry, titles: seq<string>, bi: map<string, seq<int>>, ci: map<string, seq<int>>)
  {
    e.section in titles &&
    ((e.change == RemovedLabel && e.pages == Pages(e.norm, bi)) || (e.change == AddedLabel && e.pages == Pages(e.norm, ci)))
  }

  /** Every summary line names one of the sections, says "Removido" or "Adicionado", and carries the pages of its document. */
  lemma {:induction false} SummaryFaithful(titles: seq<string>, bs: map<string, string>, cs: map<string, string>,
                                           bi: map<string, seq<int>>, ci: map<string, seq<int>>)
    ensures forall e :: e in Reports(titles, bs, cs, bi, ci).summary ==> Faithful(e, titles, bi, ci)
  {
    if |titles| > 0 {
      var init, sec := titles[..|titles| - 1], titles[|titles| - 1];
      SummaryFaithful(init, bs, cs, bi, ci);
      var prev := Reports(init, bs, cs, bi, ci);
      var c := SectionComparison(bs, cs, sec);
      var r := SectionReport(sec, c, bi, ci);
      forall e | e in prev.summary + r.summary ensures Faithful(e, titles, bi, ci) {
        if e in prev.summary {
          assert Faithful(e, init, bi, ci);
          assert e.section in init;
        } else {
          var rem, add := Entries(sec, c.removed, RemovedLabel, bi), Entries(sec, c.added, AddedLabel, ci);
          assert e in rem + add;
          if e in rem {
            var i :| 0 <= i < |rem| && rem[i] == e;
          } else {
            var i :| 0 <= i < |add| && add[i] == e;
          }
        }
      }
    }
  }

  /**
   * The pages of every summary line are increasing and non-empty: the pages of
   * its document on which its normal form occurs, or page 1 alone.
   */
  lemma SummaryPages(baseText: string, compText: string, basePages: seq<PageLine>, compPages: seq<PageLine>, titles: seq<string>)
    ensures var bi, ci := PageIndex(basePages), PageIndex(compPages);
      forall e :: e in Reports(titles, Texts(Scan(Lines(baseText), titles).1), Texts(Scan(Lines(compText), titles).1), bi, ci).summary ==>
        e.section in titles && Increasing(e.pages) && e.pages != [] &&
        (e.change == RemovedLabel || e.change == AddedLabel)
  {
    var bi, ci := PageIndex(basePages), PageIndex(compPages);
    var bs, cs := Texts(Scan(Lines(baseText), titles).1), Texts(Scan(Lines(compText), titles).1);
    SummaryFaithful(titles, bs, cs, bi, ci);
    forall e | e in Reports(titles, bs, cs, bi, ci).summary
      ensures e.section in titles && Increasing(e.pages) && e.pages != [] && (e.change == RemovedLabel || e.change == AddedLabel)
    {
      assert Faithful(e, titles, bi, ci);
      if e.change == RemovedLabel {
        PagesOfDocument(e.norm, basePages);
      } else {
        PagesOfDocument(e.norm, compPages);
      }
    }
  }

  /** A leaflet compared with itself: nothing is reported and both html texts agree. */
  lemma {:induction false} SameLeaflet(titles: seq<string>, bs: map<string, string>, bi: map<string, seq<int>>, ci: map<string, seq<int>>)
    ensures Reports(titles, bs, bs, bi, ci).summary == []
    ensures Reports(titles, bs, bs, bi, ci).baseHtml == Reports(titles, bs, bs, bi, ci).compHtml
  {
    if |titles| > 0 {
      var sec := titles[|titles| - 1];
      SameLeaflet(titles[..|titles| - 1], bs, bi, ci);
      SelfCompare(NumberLines(Lines(SectionText(bs, sec))));
    }
  }
}

/**
 * The document summariser's text handling (`Pro01/ExigenciaApp.py`): a document
 * is cut into chunks of at most `max_lines` lines, and each chunk is sent to the
 * model after an instruction chosen by the detail level.
 */
module Chunking {
  import opened Wrappers
  import opened PyText

  /** The default of `max_lines`. */
  const DefaultMaxLines := 500

  function Min(a: int, b: int): int
  {
    if a <= b then a else b
  }

  /** `lines[i:i+m]` for `i` in `range(0, len(lines), m)`: the first `m` lines (or all), then the slices of the rest. */
  function Slices(lines: seq<string>, m: nat): seq<seq<string>>
    requires m > 0
    decreases |lines|
  {
    if |lines| == 0 then [] else [lines[..Min(m, |lines|)]] + Slices(lines[Min(m, |lines|)..], m)
  }

  /**
   * `list(chunk_text(text, max_lines))`: `None` stands for the `ValueError` that
   * `range` raises on a zero step; a negative step gives an empty range.
   */
  function ChunkText(text: string, maxLines: int): (r: Option<seq<string>>)
    ensures r.None? <==> maxLines == 0
    ensures maxLines < 0 ==> r == Some([])
  {
    if maxLines == 0 then None
    else if maxLines < 0 then Some([])
    else
      Some(Joined(Slices(Lines(text), maxLines)))
  }

  /** Each slice joined by newlines. */
  function Joined(slices: seq<seq<string>>): (r: seq<string>)
    ensures |r| == |slices|
    ensures forall k :: 0 <= k < |slices| ==> r[k] == Join(slices[k], "\n")
  {
    seq(|slices|, k requires 0 <= k < |slices| => Join(slices[k], "\n"))
  }

  /** The generator `chunk_text`, drained into a list: one chunk per step of the `range` loop. */
  method ChunkLines(text: string, maxLines: int) returns (r: Option<seq<string>>)
    ensures r == ChunkText(text, maxLines)
  {
    if maxLines == 0 {
      return None;
    } else if maxLines < 0 {
      return Some([]);
    }
    var lines := Lines(text);
    var chunks: seq<string> := [];
    var i := 0;
    while i < |lines|
      invariant 0 <= i <= |lines|
      invariant chunks + Joined(Slices(lines[i..], maxLines)) == Joined(Slices(lines, maxLines))
      decreases |lines| - i
    {
      var end := if i + maxLines <= |lines| then i + maxLines else |lines|;
      var rest := lines[i..];
      assert Slices(rest, maxLines) == [lines[i..end]] + Slices(lines[end..], maxLines) by {
        assert rest[..Min(maxLines, |rest|)] == lines[i..end];
        assert rest[Min(maxLines, |rest|)..] == lines[end..];
      }
      assert Joined(Slices(rest, maxLines)) == [Join(lines[i..end], "\n")] + Joined(Slices(lines[end..], maxLines));
      chunks := chunks + [Join(lines[i..end], "\n")];
      i := end;
    }
    assert Slices(lines[i..], maxLines) == [];
    assert Joined([]) == [];
    assert chunks == Joined(Slices(lines, maxLines));
    assert ChunkText(text, maxLines) == Some(Joined(Slices(lines, maxLines)));
    return Some(chunks);
  }

  /**
   * Each slice is non-empty and holds at most `m` lines, every slice but the last
   * holds exactly `m`, and there are `ceil(n / m)` of them: `m` times their number
   * reaches `n`, and `m` times one less does not.
   */
  lemma {:induction false} SliceSizes(lines: seq<string>, m: nat)
    requires m > 0
    ensures forall k :: 0 <= k < |Slices(lines, m)| ==> 0 < |Slices(lines, m)[k]| <= m
    ensures forall k :: 0 <= k < |Slices(lines, m)| - 1 ==> |Slices(lines, m)[k]| == m
    ensures (|Slices(lines, m)| - 1) * m < |lines| <= |Slices(lines, m)| * m
    ensures |lines| == 0 <==> |Slices(lines, m)| == 0
    decreases |lines|
  {
    if |lines| > 0 {
      var c := Min(m, |lines|);
      var rest := Slices(lines[c..], m);
      SliceSizes(lines[c..], m);
      var ss := Slices(lines, m);
      assert ss == [lines[..c]] + rest;
      assert forall k :: 1 <= k < |ss| ==> ss[k] == rest[k - 1];
      if |rest| > 0 {
        assert |lines[..c]| == m;
        assert (|ss| - 1) * m == |rest| * m;
        assert |ss| * m == |rest| * m + m;
        assert (|rest| - 1) * m + m == |rest| * m;
      }
    }
  }

  /** The lines of the slices, in order. */
  function Flatten(ss: seq<seq<string>>): seq<string>
  {
    if |ss| == 0 then [] else ss[0] + Flatten(ss[1..])
  }

  /** Concatenating the slices in order gives back every line, in order. */
  lemma {:induction false} SlicesCover(lines: seq<string>, m: nat)
    requires m > 0
    ensures Flatten(Slices(lines, m)) == lines
    decreases |lines|
  {
    if |lines| > 0 {
      var c := Min(m, |lines|);
      var rest := Slices(lines[c..], m);
      SlicesCover(lines[c..], m);
      var ss := Slices(lines, m);
      assert ss == [lines[..c]] + rest;
      assert ss[0] == lines[..c] && ss[1..] == rest;
      assert Flatten(ss) == lines[..c] + Flatten(rest);
      assert lines[..c] + lines[c..] == lines;
    }
  }

  /** An empty text gives no chunk. */
  lemma EmptyTextNoChunks(maxLines: int)
    requires maxLines != 0
    ensures ChunkText("", maxLines) == Some([])
  {
    assert Lines("") == [];
    if maxLines > 0 {
      assert Slices(Lines(""), maxLines) == [];
      assert ChunkText("", maxLines).value == [];
    }
  }

  /** Every line of a slice is a line of the text. */
  lemma {:induction false} SliceLines(lines: seq<string>, m: nat)
    requires m > 0
    ensures forall s, l :: s in Slices(lines, m) && l in s ==> l in lines
    decreases |lines|
  {
    if |lines| > 0 {
      var c := Min(m, |lines|);
      SliceLines(lines[c..], m);
      forall s, l | s in Slices(lines, m) && l in s ensures l in lines {
        if s == lines[..c] {
          var i :| 0 <= i < |s| && s[i] == l;
          assert lines[i] == l;
        } else {
          assert s in Slices(lines[c..], m);
          var i :| 0 <= i < |lines[c..]| && lines[c..][i] == l;
          assert lines[c + i] == l;
        }
      }
    }
  }

  /**
   * Every chunk is its slice of lines joined by newlines, and splitting it at its
   * newlines gives that slice back.
   */
  lemma ChunksSplitBack(text: string, m: nat)
    requires m > 0
    ensures var slices := Slices(Lines(text), m);
      |ChunkText(text, m).value| == |slices| &&
      forall k :: 0 <= k < |slices| ==> SplitLines(ChunkText(text, m).value[k]) == slices[k]
  {
    var lines := Lines(text);
    var slices := Slices(lines, m);
    LinesPlain(text);
    SliceSizes(lines, m);
    SliceLines(lines, m);
    assert IsLineBreak('\n');
    forall k | 0 <= k < |slices| ensures SplitLines(Join(slices[k], "\n")) == slices[k] {
      assert slices[k] in slices;
      forall p | p in slices[k] ensures '\n' !in p {
        assert p in lines;
      }
      SplitJoined(slices[k]);
    }
  }

  // ----- prompts -----

  const ShortLevel := "Curto"
  const MediumLevel := "Médio"
  /** The default of `detail_level`. */
  const DefaultLevel := MediumLevel

  const ShortInstruction := "Resuma em no máximo 5 frases claras."
  const MediumInstruction := "Resuma em 5 a 8 parágrafos, incluindo Introdução, Métodos, Resultados e Conclusão."
  const DetailedInstruction :=
    "Produza uma análise detalhada, com pelo menos 2500 palavras. "
    + "Divida em seções com subtítulos claros, 3 a 6 parágrafos por seção, "
    + "incluindo exemplos e comparações sem omitir informações."

  /** The instruction for a detail level: any level other than the two named ones asks for the detailed analysis. */
  function Instruction(level: string): string
  {
    if level == ShortLevel then ShortInstruction
    else if level == MediumLevel then MediumInstruction
    else DetailedInstruction
  }

  const ChunkMarker := "\n\nTrecho:\n"

  /** The prompt of `summarize_text_chunk`. */
  function Prompt(chunk: string, level: string): string
  {
    Instruction(level) + ChunkMarker + chunk
  }

  /**
   * The prompt is one of the three instructions, the marker, then the chunk
   * unchanged: the chunk can be read back from the prompt, so two chunks give
   * the same prompt only when they are equal.
   */
  lemma PromptCarriesChunk(chunk: string, level: string)
    ensures var h := Instruction(level) + ChunkMarker;
      Prompt(chunk, level)[..|h|] == h && Prompt(chunk, level)[|h|..] == chunk
    ensures Instruction(level) in {ShortInstruction, MediumInstruction, DetailedInstruction}
    ensures forall other :: Prompt(other, level) == Prompt(chunk, level) ==> other == chunk
  {
    var h := Instruction(level) + ChunkMarker;
    forall other | Prompt(other, level) == Prompt(chunk, level) ensures other == chunk {
      assert Prompt(other, level)[|h|..] == other;
    }
  }

  const FinalHeader := "Combine e organize os seguintes resumos parciais em um resumo final detalhado:\n\n"

  /** The prompt of `summarize_final`: the header, then the partial summaries separated by blank lines. */
  function FinalPrompt(partials: seq<string>): string
  {
    FinalHeader + Join(partials, "\n\n")
  }

  /** `part` occurs in `s` starting at `i`. */
  predicate OccursAt(s: string, part: string, i: int)
  {
    0 <= i && i + |part| <= |s| && s[i..i + |part|] == part
  }

  /** `part in s` for strings: `part` occurs somewhere in `s`. */
  predicate Occurs(s: string, part: string)
  {
    exists i :: 0 <= i <= |s| && OccursAt(s, part, i)
  }

  /** Every part occurs, whole, in the join. */
  lemma {:induction false} JoinKeepsParts(parts: seq<string>, sep: string)
    ensures forall k :: 0 <= k < |parts| ==> Occurs(Join(parts, sep), parts[k])
  {
    if |parts| > 1 {
      var rest := Join(parts[1..], sep);
      JoinKeepsParts(parts[1..], sep);
      var j := Join(parts, sep);
      assert j == parts[0] + sep + rest;
      forall k | 0 <= k < |parts| ensures Occurs(j, parts[k]) {
        if k == 0 {
          assert OccursAt(j, parts[0], 0);
        } else {
          assert parts[1..][k - 1] == parts[k];
          assert Occurs(rest, parts[k]);
          var i :| 0 <= i <= |rest| && OccursAt(rest, parts[k], i);
          var off := |parts[0]| + |sep|;
          assert j[off..] == rest;
          assert j[off + i..off + i + |parts[k]|] == rest[i..i + |parts[k]|];
          assert OccursAt(j, parts[k], off + i);
        }
      }
    } else if |parts| == 1 {
      assert OccursAt(Join(parts, sep), parts[0], 0);
    }
  }

  /** The final prompt starts with its header and loses none of the partial summaries. */
  lemma FinalPromptKeepsSummaries(partials: seq<string>)
    ensures FinalPrompt(partials)[..|FinalHeader|] == FinalHeader
    ensures forall k :: 0 <= k < |partials| ==> Occurs(FinalPrompt(partials), partials[k])
  {
    var j := Join(partials, "\n\n");
    var r := FinalPrompt(partials);
    JoinKeepsParts(partials, "\n\n");
    forall k | 0 <= k < |partials| ensures Occurs(r, partials[k]) {
      assert Occurs(j, partials[k]);
      var i :| 0 <= i <= |j| && OccursAt(j, partials[k], i);
      var off := |FinalHeader|;
      assert r[off..] == j;
      assert r[off + i..off + i + |partials[k]|] == j[i..i + |partials[k]|];
      assert OccursAt(r, partials[k], off + i);
    }
  }
}

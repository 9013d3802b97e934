/**
 * The pieces of Python's string built-ins the programs rely on: `strip`,
 * `split("\n")`, `split()`, `splitlines()`, `join`, `lower`, the `in` test on
 * strings and the regular-expression classes `\s` and `\w`. Characters are read as
 * Latin-1: case mapping and word characters above U+00FF are not modelled.
 */
module PyText {

  // ----- whitespace and `str.strip` -----

  /** The characters `str.strip()` and `\s` treat as space: the ASCII whitespace and the separators Python also counts as space. */
  predicate IsSpace(c: char)
  {
    c == ' ' || c == '\t' || c == '\n' || c == '\r' || c == '\U{B}' || c == '\U{C}'
    || c == '\U{1C}' || c == '\U{1D}' || c == '\U{1E}' || c == '\U{1F}' || c == '\U{85}' || c == '\U{A0}'
  }

  /** The index of the first non-space character at or after `i`, or `|s|`. */
  function SkipSpaces(s: string, i: nat): (k: nat)
    requires i <= |s|
    ensures i <= k <= |s| && (k < |s| ==> !IsSpace(s[k]))
    ensures forall j :: i <= j < k ==> IsSpace(s[j])
    decreases |s| - i
  {
    if i < |s| && IsSpace(s[i]) then SkipSpaces(s, i + 1) else i
  }

  /** The index just after the last non-space character before `j`, or 0. */
  function TrimSpaces(s: string, j: nat): (k: nat)
    requires j <= |s|
    ensures k <= j && (k > 0 ==> !IsSpace(s[k - 1]))
    ensures forall i :: k <= i < j ==> IsSpace(s[i])
  {
    if j > 0 && IsSpace(s[j - 1]) then TrimSpaces(s, j - 1) else j
  }

  /** `s.strip()`: what lies between the leading and the trailing space. */
  function Strip(s: string): (r: string)
    ensures r == "" || (!IsSpace(r[0]) && !IsSpace(r[|r| - 1]))
  {
    var a, b := SkipSpaces(s, 0), TrimSpaces(s, |s|);
    if a < b then s[a..b] else ""
  }

  /** A string that starts and ends with a non-space character is its own strip. */
  lemma StripTrimmed(s: string)
    requires |s| > 0 && !IsSpace(s[0]) && !IsSpace(s[|s| - 1])
    ensures Strip(s) == s
  {
  }

  /** Stripping cuts space off both ends and nothing else: `s` is space, `Strip(s)`, space. */
  lemma StripParts(s: string) returns (a: nat, b: nat)
    ensures a <= b <= |s| && Strip(s) == s[a..b]
    ensures forall i :: 0 <= i < a ==> IsSpace(s[i])
    ensures forall i :: b <= i < |s| ==> IsSpace(s[i])
  {
    a, b := SkipSpaces(s, 0), TrimSpaces(s, |s|);
    if a >= b {
      a, b := |s|, |s|;
    }
  }

  /** The digits `0` to `9`: `\d` and what `int` accepts. */
  predicate IsDigit(c: char)
  {
    '0' <= c <= '9'
  }

  // ----- `str.split("\n")` -----

  /** The pieces of `t` between newlines, as `t.split("\n")` gives them. */
  function SplitLines(t: string): (ls: seq<string>)
    ensures |ls| > 0
  {
    if |t| == 0 then [""]
    else
      var rest := SplitLines(t[1..]);
      if t[0] == '\n' then [""] + rest else [[t[0]] + rest[0]] + rest[1..]
  }

  /** One unfolding of `SplitLines` on a text that starts with `c`. */
  lemma SplitLinesCons(c: char, t: string)
    ensures SplitLines([c] + t) ==
      if c == '\n' then [""] + SplitLines(t) else [[c] + SplitLines(t)[0]] + SplitLines(t)[1..]
  {
    assert ([c] + t)[0] == c && ([c] + t)[1..] == t;
  }

  /** A newline splits the text around it: `(u + "\n" + v).split("\n") == u.split("\n") + v.split("\n")`. */
  lemma {:induction false} SplitJoin(u: string, v: string)
    ensures SplitLines(u + "\n" + v) == SplitLines(u) + SplitLines(v)
    decreases |u|
  {
    if |u| == 0 {
      assert u + "\n" + v == ['\n'] + v;
      SplitLinesCons('\n', v);
      assert SplitLines(u) == [""];
    } else {
      SplitJoin(u[1..], v);
      SplitCons(u[0], u[1..], u[1..] + "\n" + v, SplitLines(v));
      assert [u[0]] + u[1..] == u && [u[0]] + (u[1..] + "\n" + v) == u + "\n" + v;
    }
  }

  /** One character in front of two texts whose line splits differ by a common suffix. */
  lemma SplitCons(c: char, a: string, b: string, w: seq<string>)
    requires SplitLines(b) == SplitLines(a) + w
    ensures SplitLines([c] + b) == SplitLines([c] + a) + w
  {
    SplitLinesCons(c, a);
    SplitLinesCons(c, b);
    if c == '\n' {
      SplitSuffix([""], SplitLines(a), w);
    } else {
      SplitGlue([c], SplitLines(a), w);
    }
  }

  /** `h + (r + w) == (h + r) + w`, the newline case of `SplitCons`. */
  lemma SplitSuffix(h: seq<string>, r: seq<string>, w: seq<string>)
    ensures h + (r + w) == (h + r) + w
  {
  }

  /** Gluing a prefix to the first piece commutes with appending pieces. */
  lemma SplitGlue(p: string, r: seq<string>, w: seq<string>)
    requires |r| > 0
    ensures [p + (r + w)[0]] + (r + w)[1..] == [p + r[0]] + r[1..] + w
  {
    assert (r + w)[0] == r[0] && (r + w)[1..] == r[1..] + w;
  }

  /** Text without a newline is one line. */
  lemma {:induction false} LinesOfPlain(t: string)
    requires '\n' !in t
    ensures SplitLines(t) == [t]
  {
    if |t| > 0 {
      assert t == [t[0]] + t[1..];
      LinesOfPlain(t[1..]);
      SplitLinesCons(t[0], t[1..]);
    }
  }

  // ----- `str.splitlines()` -----

  /** The line boundaries of `str.splitlines()`; `\r\n` counts as one. */
  predicate IsLineBreak(c: char)
  {
    c == '\n' || c == '\r' || c == '\U{B}' || c == '\U{C}' || c == '\U{1C}' || c == '\U{1D}' || c == '\U{1E}'
    || c == '\U{85}' || c == '\U{2028}' || c == '\U{2029}'
  }

  /** The lines of `t` after the current line `cur`: every boundary ends a line, the text's end ends a non-empty one. */
  function LinesFrom(t: string, cur: string): seq<string>
    decreases |t|
  {
    if |t| == 0 then (if cur == "" then [] else [cur])
    else if !IsLineBreak(t[0]) then LinesFrom(t[1..], cur + [t[0]])
    else if t[0] == '\r' && |t| > 1 && t[1] == '\n' then [cur] + LinesFrom(t[2..], "")
    else [cur] + LinesFrom(t[1..], "")
  }

  /** `t.splitlines()`: no line holds a line boundary, and a final boundary adds no empty line. */
  function Lines(t: string): seq<string>
  {
    LinesFrom(t, "")
  }

  lemma {:induction false} LinesFromPlain(t: string, cur: string)
    requires forall i :: 0 <= i < |cur| ==> !IsLineBreak(cur[i])
    ensures forall l :: l in LinesFrom(t, cur) ==> forall i :: 0 <= i < |l| ==> !IsLineBreak(l[i])
    decreases |t|
  {
    if |t| > 0 {
      if !IsLineBreak(t[0]) {
        LinesFromPlain(t[1..], cur + [t[0]]);
      } else if t[0] == '\r' && |t| > 1 && t[1] == '\n' {
        LinesFromPlain(t[2..], "");
      } else {
        LinesFromPlain(t[1..], "");
      }
    }
  }

  /** No line of `splitlines()` holds a line boundary, a newline in particular. */
  lemma LinesPlain(t: string)
    ensures forall l :: l in Lines(t) ==> forall i :: 0 <= i < |l| ==> !IsLineBreak(l[i])
  {
    LinesFromPlain(t, "");
  }

  // ----- `sep.join(parts)` and `map` -----

  /** `sep.join(parts)`. */
  function Join(parts: seq<string>, sep: string): string
  {
    if |parts| == 0 then "" else if |parts| == 1 then parts[0] else parts[0] + sep + Join(parts[1..], sep)
  }

  /** Every character of a join is a character of a part or of the separator. */
  lemma {:induction false} JoinChars(parts: seq<string>, sep: string, c: char)
    requires c in Join(parts, sep)
    ensures c in sep || exists p :: p in parts && c in p
  {
    if |parts| > 1 {
      var rest := Join(parts[1..], sep);
      assert Join(parts, sep) == parts[0] + sep + rest;
      if c !in parts[0] && c !in sep {
        JoinChars(parts[1..], sep, c);
        var p :| p in parts[1..] && c in p;
        assert p in parts;
      }
    }
  }

  /** Joining with a newline and splitting at newlines gives back the parts, when none holds a newline. */
  lemma {:induction false} SplitJoined(parts: seq<string>)
    requires |parts| > 0 && forall p :: p in parts ==> '\n' !in p
    ensures SplitLines(Join(parts, "\n")) == parts
  {
    if |parts| == 1 {
      LinesOfPlain(parts[0]);
    } else {
      SplitJoined(parts[1..]);
      SplitJoin(parts[0], Join(parts[1..], "\n"));
      LinesOfPlain(parts[0]);
      assert [parts[0]] + parts[1..] == parts;
    }
  }

  /** `f` applied to each element. */
  function Map<A, B>(f: A -> B, s: seq<A>): (r: seq<B>)
    ensures |r| == |s| && forall i :: 0 <= i < |s| ==> r[i] == f(s[i])
  {
    if |s| == 0 then [] else [f(s[0])] + Map(f, s[1..])
  }

  lemma MapAppend<A, B>(f: A -> B, a: seq<A>, b: seq<A>)
    ensures Map(f, a + b) == Map(f, a) + Map(f, b)
  {
    assert forall i :: 0 <= i < |a + b| ==> Map(f, a + b)[i] == (Map(f, a) + Map(f, b))[i];
  }

  // ----- `lower` and `\w` -----

  /** `c.lower()` on Latin-1: the ASCII capitals and the Latin-1 capitals À to Þ, except ×. */
  function Lower(c: char): char
  {
    if 'A' <= c <= 'Z' || ('\U{C0}' <= c <= '\U{DE}' && c != '\U{D7}') then (c as int + 32) as char else c
  }

  /** `s.lower()`. */
  function LowerStr(s: string): (r: string)
    ensures |r| == |s| && forall i :: 0 <= i < |s| ==> r[i] == Lower(s[i])
  {
    seq(|s|, i requires 0 <= i < |s| => Lower(s[i]))
  }

  /** The `\w` class on Latin-1: letters, digits, the Latin-1 letters and number signs, and `_`. */
  predicate IsWordChar(c: char)
  {
    || 'a' <= c <= 'z' || 'A' <= c <= 'Z' || '0' <= c <= '9' || c == '_'
    || c == '\U{AA}' || c == '\U{B2}' || c == '\U{B3}' || c == '\U{B5}' || c == '\U{B9}' || c == '\U{BA}'
    || '\U{BC}' <= c <= '\U{BE}'
    || ('\U{C0}' <= c <= '\U{FF}' && c != '\U{D7}' && c != '\U{F7}')
  }

  /** Lowering keeps word characters word characters and spaces spaces. */
  lemma LowerKeepsClass(c: char)
    ensures IsWordChar(Lower(c)) == IsWordChar(c)
    ensures IsSpace(Lower(c)) == IsSpace(c)
  {
  }

  // ----- runs: `str.split()` and `re.finditer(r'\w+', …)` -----

  /** What a run is made of: non-space characters (`split()`) or word characters (`\w+`). */
  datatype RunKind = NonSpace | WordChars

  predicate Keeps(k: RunKind, c: char)
  {
    if k == NonSpace then !IsSpace(c) else IsWordChar(c)
  }

  /** The maximal runs of `k`-characters in `s`, the current run being `cur`. */
  function RunsFrom(s: string, cur: string, k: RunKind): seq<string>
    decreases |s|
  {
    if |s| == 0 then (if cur == "" then [] else [cur])
    else if Keeps(k, s[0]) then RunsFrom(s[1..], cur + [s[0]], k)
    else (if cur == "" then [] else [cur]) + RunsFrom(s[1..], "", k)
  }

  function Runs(s: string, k: RunKind): seq<string>
  {
    RunsFrom(s, "", k)
  }

  /** `s.split()`: the whitespace-separated words. */
  function Words(s: string): seq<string>
  {
    Runs(s, NonSpace)
  }

  /** The matches of `\w+` in `s`, in order. */
  function WordRuns(s: string): seq<string>
  {
    Runs(s, WordChars)
  }

  lemma {:induction false} RunsFromKept(s: string, cur: string, k: RunKind)
    requires forall i :: 0 <= i < |cur| ==> Keeps(k, cur[i])
    ensures forall r :: r in RunsFrom(s, cur, k) ==> r != "" && forall i :: 0 <= i < |r| ==> Keeps(k, r[i])
    decreases |s|
  {
    if |s| > 0 {
      if Keeps(k, s[0]) {
        RunsFromKept(s[1..], cur + [s[0]], k);
      } else {
        RunsFromKept(s[1..], "", k);
      }
    }
  }

  /** Every run is non-empty and made of its kind's characters only. */
  lemma RunsKept(s: string, k: RunKind)
    ensures forall r :: r in Runs(s, k) ==> r != "" && forall i :: 0 <= i < |r| ==> Keeps(k, r[i])
  {
    RunsFromKept(s, "", k);
  }

  lemma {:induction false} RunsFromChars(s: string, cur: string, k: RunKind)
    ensures forall r, c :: r in RunsFrom(s, cur, k) && c in r ==> c in cur || c in s
    decreases |s|
  {
    if |s| > 0 {
      if Keeps(k, s[0]) {
        RunsFromChars(s[1..], cur + [s[0]], k);
      } else {
        RunsFromChars(s[1..], "", k);
      }
      assert forall c :: c in s[1..] ==> c in s;
    }
  }

  /** Every character of a run is a character of the text. */
  lemma RunsChars(s: string, k: RunKind)
    ensures forall r, c :: r in Runs(s, k) && c in r ==> c in s
  {
    RunsFromChars(s, "", k);
  }

  lemma {:induction false} RunsFromWhole(s: string, cur: string, k: RunKind)
    requires forall i :: 0 <= i < |s| ==> Keeps(k, s[i])
    ensures RunsFrom(s, cur, k) == if cur + s == "" then [] else [cur + s]
    decreases |s|
  {
    if |s| > 0 {
      assert Keeps(k, s[0]);
      assert forall i :: 0 <= i < |s| - 1 ==> s[1..][i] == s[i + 1];
      RunsFromWhole(s[1..], cur + [s[0]], k);
      assert cur + [s[0]] + s[1..] == cur + s;
    } else {
      assert cur + s == cur;
    }
  }

  /** A non-empty string of `k`-characters is one run: a `\w+` match is its own only word. */
  lemma RunsWhole(s: string, k: RunKind)
    requires s != "" && forall i :: 0 <= i < |s| ==> Keeps(k, s[i])
    ensures Runs(s, k) == [s]
  {
    RunsFromWhole(s, "", k);
    assert "" + s == s;
  }

  lemma {:induction false} RunsFromLower(s: string, cur: string, k: RunKind)
    ensures RunsFrom(LowerStr(s), LowerStr(cur), k) == Map(LowerStr, RunsFrom(s, cur, k))
    decreases |s|
  {
    var ls := LowerStr(s);
    if |s| == 0 {
      assert ls == "";
      if cur != "" {
        assert LowerStr(cur) != "";
      }
    } else {
      LowerKeepsClass(s[0]);
      assert ls[0] == Lower(s[0]) && ls[1..] == LowerStr(s[1..]);
      if Keeps(k, s[0]) {
        assert LowerStr(cur) + [ls[0]] == LowerStr(cur + [s[0]]);
        RunsFromLower(s[1..], cur + [s[0]], k);
      } else {
        RunsFromLower(s[1..], "", k);
        assert LowerStr("") == "";
        var head: seq<string> := if cur == "" then [] else [cur];
        assert Map(LowerStr, head) == if LowerStr(cur) == "" then [] else [LowerStr(cur)];
        MapAppend(LowerStr, head, RunsFrom(s[1..], "", k));
      }
    }
  }

  /** Lowering commutes with splitting into runs. */
  lemma RunsLower(s: string, k: RunKind)
    ensures Runs(LowerStr(s), k) == Map(LowerStr, Runs(s, k))
  {
    RunsFromLower(s, "", k);
    assert LowerStr("") == "";
  }

  lemma {:induction false} RunsSkip(sp: string, t: string, k: RunKind)
    requires forall i :: 0 <= i < |sp| ==> !Keeps(k, sp[i])
    ensures RunsFrom(sp + t, "", k) == RunsFrom(t, "", k)
    decreases |sp|
  {
    if |sp| > 0 {
      assert (sp + t)[0] == sp[0] && (sp + t)[1..] == sp[1..] + t;
      RunsSkip(sp[1..], t, k);
    } else {
      assert sp + t == t;
    }
  }

  lemma {:induction false} RunsDrop(t: string, sp: string, cur: string, k: RunKind)
    requires forall i :: 0 <= i < |sp| ==> !Keeps(k, sp[i])
    ensures RunsFrom(t + sp, cur, k) == RunsFrom(t, cur, k)
    decreases |t|
  {
    if |t| > 0 {
      assert (t + sp)[0] == t[0] && (t + sp)[1..] == t[1..] + sp;
      if Keeps(k, t[0]) {
        RunsDrop(t[1..], sp, cur + [t[0]], k);
      } else {
        RunsDrop(t[1..], sp, "", k);
      }
    } else {
      assert t + sp == sp;
      if |sp| > 0 {
        RunsSkip(sp[1..], "", k);
        assert sp[1..] + "" == sp[1..];
      }
    }
  }

  /** `s.strip().split() == s.split()`. */
  lemma WordsStrip(s: string)
    ensures Words(Strip(s)) == Words(s)
  {
    var a, b := StripParts(s);
    assert s == s[..a] + (s[a..b] + s[b..]);
    RunsSkip(s[..a], s[a..b] + s[b..], NonSpace);
    RunsDrop(s[a..b], s[b..], "", NonSpace);
  }

  // ----- `needle in hay` -----

  /** `needle in hay` for strings: `needle` occurs as a contiguous piece of `hay`. */
  predicate Contains(hay: string, needle: string)
    decreases |hay|
  {
    |needle| <= |hay| && (hay[..|needle|] == needle || Contains(hay[1..], needle))
  }
}

/**
 * The scores file of `utils.py`: one `name;score` line per finished game,
 * appended by `salvar_placar` and read back by `carregar_placares`. The file is
 * modelled as its text (`None` when it does not exist); opening, appending and
 * I/O errors are not modelled.
 */
module Scores {
  import opened Wrappers
  import opened PyText

  // ----- integers -----

  function DigitValue(c: char): nat
    requires IsDigit(c)
  {
    c as int - '0' as int
  }

  /** The decimal digits of `n`, most significant first. */
  function Digits(n: nat): (s: string)
    ensures |s| > 0 && forall i :: 0 <= i < |s| ==> IsDigit(s[i])
  {
    if n < 10 then [('0' as int + n) as char] else Digits(n / 10) + [('0' as int + n % 10) as char]
  }

  /** `str(n)`. */
  function IntToString(n: int): (s: string)
    ensures |s| > 0 && IsDigit(s[|s| - 1]) && (s[0] == '-' || IsDigit(s[0]))
    ensures forall i :: 0 <= i < |s| ==> s[i] != ';' && s[i] != '\n' && s[i] != '\r'
  {
    if n < 0 then "-" + Digits(-n) else Digits(n)
  }

  /** Digits with single underscores between them, as `int` accepts them. */
  predicate Numeral(s: string)
  {
    && |s| > 0 && IsDigit(s[0]) && IsDigit(s[|s| - 1])
    && (forall i :: 0 <= i < |s| ==> IsDigit(s[i]) || s[i] == '_')
    && SingleUnderscores(s)
  }

  /** No two underscores in a row. */
  predicate SingleUnderscores(s: string)
  {
    |s| < 2 || (!(s[0] == '_' && s[1] == '_') && SingleUnderscores(s[1..]))
  }

  /** The value of a numeral, underscores skipped. */
  function NumeralValue(s: string): nat
    requires forall i :: 0 <= i < |s| ==> IsDigit(s[i]) || s[i] == '_'
  {
    if |s| == 0 then 0
    else if s[|s| - 1] == '_' then NumeralValue(s[..|s| - 1])
    else NumeralValue(s[..|s| - 1]) * 10 + DigitValue(s[|s| - 1])
  }

  /** `int(s)`: surrounding space is ignored, one optional sign, then a numeral; anything else is a `ValueError`. */
  function ParseInt(s: string): (r: Option<int>)
    ensures r.Some? ==> Strip(s) != ""
  {
    var t := Strip(s);
    if |t| > 0 && (t[0] == '-' || t[0] == '+') then
      if Numeral(t[1..]) then Some(if t[0] == '-' then -(NumeralValue(t[1..]) as int) else NumeralValue(t[1..]) as int) else None
    else if Numeral(t) then Some(NumeralValue(t))
    else None
  }

  lemma {:induction false} DigitsValue(n: nat)
    ensures Numeral(Digits(n)) && NumeralValue(Digits(n)) == n
  {
    var s := Digits(n);
    DigitsSingle(s);
    if n >= 10 {
      DigitsValue(n / 10);
      assert s[..|s| - 1] == Digits(n / 10);
    }
  }

  lemma {:induction false} DigitsSingle(s: string)
    requires forall i :: 0 <= i < |s| ==> IsDigit(s[i])
    ensures SingleUnderscores(s)
  {
    if |s| >= 2 {
      DigitsSingle(s[1..]);
    }
  }

  /** `int(str(n)) == n`. */
  lemma IntRoundTrip(n: int)
    ensures ParseInt(IntToString(n)) == Some(n)
  {
    if n < 0 {
      NegativeRoundTrip(n);
    } else {
      NaturalRoundTrip(n);
    }
  }

  lemma NaturalRoundTrip(n: nat)
    ensures ParseInt(Digits(n)) == Some(n)
  {
    var s := Digits(n);
    StripTrimmed(s);
    DigitsValue(n);
    ParseNumeral(s);
  }

  lemma NegativeRoundTrip(n: int)
    requires n < 0
    ensures ParseInt("-" + Digits(-n)) == Some(n)
  {
    DigitsValue(-n);
    ParseNegative(Digits(-n), -n);
  }

  /** An unsigned numeral without surrounding space parses to its value. */
  lemma ParseNumeral(s: string)
    requires Strip(s) == s && Numeral(s)
    ensures ParseInt(s) == Some(NumeralValue(s))
  {
    assert s[0] != '-' && s[0] != '+';
  }

  /** A minus sign and a numeral parse to the negated value. */
  lemma ParseNegative(d: string, v: nat)
    requires Numeral(d) && NumeralValue(d) == v
    ensures ParseInt("-" + d) == Some(-(v as int))
  {
    var s := "-" + d;
    StripTrimmed(s);
    assert s[0] == '-' && s[1..] == d;
  }

  // ----- the line format -----

  /** The line `salvar_placar` appends: `f"{nome};{score}\n"`. */
  function Line(name: string, score: int): string
  {
    name + ";" + IntToString(score) + "\n"
  }

  /** The first index of `c` in `s`. */
  function IndexOf(s: string, c: char): (i: nat)
    requires c in s
    ensures i < |s| && s[i] == c && c !in s[..i]
  {
    if s[0] == c then 0 else IndexOf(s[1..], c) + 1
  }

  /**
   * One line of the file: stripped, skipped when empty or without `;`, split at the
   * first `;`, and skipped when the part after it is not an integer.
   */
  function ParseLine(l: string): (r: Option<(string, int)>)
    ensures r.Some? ==> ';' !in r.value.0
  {
    var ln := Strip(l);
    if |ln| == 0 || ';' !in ln then None
    else
      var k := IndexOf(ln, ';');
      match ParseInt(ln[k + 1..])
      case Some(v) => Some((ln[..k], v))
      case None => None
  }

  /** The values of the present elements, in order. */
  function Survivors<T>(ps: seq<Option<T>>): (r: seq<T>)
    ensures |r| <= |ps|
  {
    if |ps| == 0 then [] else (if ps[0].Some? then [ps[0].value] else []) + Survivors(ps[1..])
  }

  lemma {:induction false} SurvivorsAppend<T>(p: seq<Option<T>>, q: seq<Option<T>>)
    ensures Survivors(p + q) == Survivors(p) + Survivors(q)
  {
    if |p| > 0 {
      var pq := p + q;
      assert pq[0] == p[0] && pq[1..] == p[1..] + q;
      SurvivorsAppend(p[1..], q);
      var head: seq<T> := if p[0].Some? then [p[0].value] else [];
      calc {
        Survivors(pq);
        head + Survivors(p[1..] + q);
        head + (Survivors(p[1..]) + Survivors(q));
        (head + Survivors(p[1..])) + Survivors(q);
      }
    } else {
      assert p + q == q;
    }
  }

  /** The element survivor `i` comes from. */
  lemma {:induction false} SurvivorSource<T>(ps: seq<Option<T>>, i: nat) returns (j: nat)
    requires i < |Survivors(ps)|
    ensures i <= j < |ps| && ps[j] == Some(Survivors(ps)[i])
    decreases |ps|
  {
    var rest := Survivors(ps[1..]);
    if ps[0].Some? {
      assert Survivors(ps) == [ps[0].value] + rest;
      if i == 0 {
        j := 0;
      } else {
        var k := SurvivorSource(ps[1..], i - 1);
        j := k + 1;
      }
    } else {
      assert Survivors(ps) == rest;
      var k := SurvivorSource(ps[1..], i);
      j := k + 1;
    }
  }

  /** The entries of the surviving lines, in file order. */
  function ParseLines(ls: seq<string>): seq<(string, int)>
  {
    Survivors(Map(ParseLine, ls))
  }

  /**
   * The text a file opened in text mode yields: universal newlines turn `\r\n` and a
   * lone `\r` into `\n`, so every kind of line ending ends a line.
   */
  function Universal(t: string): (u: string)
    ensures '\r' !in u && |u| <= |t|
  {
    if |t| == 0 then ""
    else if t[0] == '\r' && |t| > 1 && t[1] == '\n' then "\n" + Universal(t[2..])
    else if t[0] == '\r' then "\n" + Universal(t[1..])
    else [t[0]] + Universal(t[1..])
  }

  /** A text without carriage returns is read back unchanged. */
  lemma {:induction false} UniversalPlain(t: string)
    requires '\r' !in t
    ensures Universal(t) == t
  {
    if |t| > 0 {
      UniversalPlain(t[1..]);
      assert [t[0]] + t[1..] == t;
    }
  }

  /**
   * Reading is line by line: text that does not end in a carriage return is
   * translated independently of what follows it.
   */
  lemma {:induction false} UniversalAppend(a: string, b: string)
    requires |a| == 0 || a[|a| - 1] != '\r'
    ensures Universal(a + b) == Universal(a) + Universal(b)
  {
    if |a| == 0 {
      assert a + b == b;
    } else if a[0] == '\r' {
      assert |a| > 1;
      var ab := a + b;
      assert ab[0] == a[0] && ab[1] == a[1];
      if a[1] == '\n' {
        assert ab[2..] == a[2..] + b;
        UniversalAppend(a[2..], b);
      } else {
        assert ab[1..] == a[1..] + b;
        UniversalAppend(a[1..], b);
      }
    } else {
      var ab := a + b;
      assert ab[0] == a[0] && ab[1..] == a[1..] + b;
      UniversalAppend(a[1..], b);
    }
  }

  /** A text ending in a line break still ends in one once read. */
  lemma {:induction false} UniversalComplete(t: string)
    requires |t| > 0 && t[|t| - 1] == '\n'
    ensures |Universal(t)| > 0 && Universal(t)[|Universal(t)| - 1] == '\n'
  {
    if t[0] == '\r' && |t| > 1 && t[1] == '\n' {
      if |t| > 2 {
        UniversalComplete(t[2..]);
      }
    } else if |t| > 1 {
      UniversalComplete(t[1..]);
    }
  }

  /** `carregar_placares`: a missing file has no entries. */
  function Entries(file: Option<string>): seq<(string, int)>
  {
    if file.None? then [] else ParseLines(SplitLines(ReadText(file).value))
  }

  /**
   * Every entry is the parse of a line at or after its own position: no entry is
   * invented, and none has `;` in its name.
   */
  lemma EntriesFromLines(ls: seq<string>)
    ensures |ParseLines(ls)| <= |ls|
    ensures forall i :: 0 <= i < |ParseLines(ls)| ==> exists j :: i <= j < |ls| && ParseLine(ls[j]) == Some(ParseLines(ls)[i])
    ensures forall e :: e in ParseLines(ls) ==> ';' !in e.0
  {
    var ps := Map(ParseLine, ls);
    forall i | 0 <= i < |ParseLines(ls)|
      ensures exists j :: i <= j < |ls| && ParseLine(ls[j]) == Some(ParseLines(ls)[i])
    {
      var j := SurvivorSource(ps, i);
      assert ParseLine(ls[j]) == ps[j];
    }
    forall e | e in ParseLines(ls)
      ensures ';' !in e.0
    {
      var i :| 0 <= i < |ParseLines(ls)| && ParseLines(ls)[i] == e;
      var j := SurvivorSource(ps, i);
      assert ParseLine(ls[j]) == Some(e);
    }
  }

  /** Names the format can carry: no separator, no line break of either kind, no leading space. */
  predicate PlainName(name: string)
  {
    ';' !in name && '\n' !in name && '\r' !in name && (|name| == 0 || !IsSpace(name[0]))
  }

  /** The one line written for `(name, score)` reads back as exactly that entry. */
  lemma LineRoundTrip(name: string, score: int)
    requires PlainName(name)
    ensures ParseLine(name + ";" + IntToString(score)) == Some((name, score))
  {
    var num := IntToString(score);
    var ln := name + ";" + num;
    StripTrimmed(ln);
    assert ln[|name|] == ';';
    assert ln[..|name|] == name;
    assert IndexOf(ln, ';') == |name|;
    assert ln[|name| + 1..] == num;
    IntRoundTrip(score);
  }

  /** The file after `salvar_placar`: created when missing, else the line is appended. */
  function Append(file: Option<string>, line: string): (r: Option<string>)
    ensures r.Some?
  {
    if file.None? then Some(line) else Some(file.value + line)
  }

  /** A file whose every line is complete: empty, or ending in a newline. */
  predicate Complete(file: Option<string>)
  {
    file.None? || |file.value| == 0 || file.value[|file.value| - 1] == '\n'
  }

  /**
   * Saving then loading: appending `name;score` to a complete file adds exactly
   * `(name, score)` after the entries already there, and leaves the file complete.
   */
  lemma SaveThenLoad(file: Option<string>, name: string, score: int)
    requires Complete(file) && PlainName(name)
    ensures Entries(Append(file, Line(name, score))) == Entries(file) + [(name, score)]
    ensures Complete(Append(file, Line(name, score)))
  {
    var body := name + ";" + IntToString(score);
    var line := Line(name, score);
    assert line == body + "\n";
    assert '\r' !in line by {
      assert forall i :: 0 <= i < |line| ==> line[i] in name || line[i] in IntToString(score) || line[i] in ";\n";
    }
    var read := ReadText(file);
    ReadAfterSave(file, line);
    SplitOnSave(read, body);
    SplitOnSave(file, body);
    var before := LinesBefore(read);
    assert Entries(Append(file, line)) == ParseLines(before + [body, ""]);
    assert Entries(file) == ParseLines(before + [""]);
    LineRoundTrip(name, score);
    assert ParseLine("") == None;
    KeepLast(ParseLine, before, body, "", (name, score));
  }

  /** The file's text as it is read, or `None` when there is no file. */
  function ReadText(file: Option<string>): (r: Option<string>)
    ensures r.None? <==> file.None?
  {
    if file.None? then None else Some(Universal(file.value))
  }

  /**
   * Reading a complete file with a plain line appended gives the earlier text as read
   * followed by that line, and the earlier text as read is complete too.
   */
  lemma ReadAfterSave(file: Option<string>, line: string)
    requires Complete(file) && '\r' !in line
    ensures Complete(ReadText(file))
    ensures ReadText(Append(file, line)) == Append(ReadText(file), line)
  {
    UniversalPlain(line);
    if file.Some? && |file.value| > 0 {
      UniversalAppend(file.value, line);
      UniversalComplete(file.value);
    } else if file.Some? {
      assert file.value + line == line;
    }
  }

  /** Appending an accepted element and a rejected one adds the accepted value only. */
  lemma KeepLast<A, B>(f: A -> Option<B>, before: seq<A>, x: A, y: A, e: B)
    requires f(x) == Some(e) && f(y).None?
    ensures Survivors(Map(f, before + [y])) == Survivors(Map(f, before))
    ensures Survivors(Map(f, before + [x, y])) == Survivors(Map(f, before)) + [e]
  {
    KeepAppend(f, before, [y]);
    KeepAppend(f, before, [x, y]);
    KeepAppend(f, [x], [y]);
    assert [x] + [y] == [x, y];
  }

  /** The complete lines of a complete file. */
  function LinesBefore(file: Option<string>): seq<string>
    requires Complete(file)
  {
    if file.None? || |file.value| == 0 then [] else SplitLines(file.value[..|file.value| - 1])
  }

  /** How the split of a complete file changes when a line is appended. */
  lemma SplitOnSave(file: Option<string>, body: string)
    requires Complete(file) && '\n' !in body
    ensures file.Some? ==> SplitLines(file.value) == LinesBefore(file) + [""]
    ensures SplitLines(Append(file, body + "\n").value) == LinesBefore(file) + [body, ""]
    ensures Complete(Append(file, body + "\n"))
  {
    var line := body + "\n";
    LinesOfPlain(body);
    SplitJoin(body, "");
    assert body + "\n" + "" == line;
    if file.Some? && |file.value| > 0 {
      var t := file.value;
      var u := t[..|t| - 1];
      assert t == u + "\n" + "";
      SplitJoin(u, "");
      assert t + line == u + "\n" + line;
      SplitJoin(u, line);
    } else if file.Some? {
      assert file.value + line == line;
    }
  }

  /** Applying `f` and keeping the present values distributes over concatenation. */
  lemma KeepAppend<A, B>(f: A -> Option<B>, a: seq<A>, b: seq<A>)
    ensures Survivors(Map(f, a + b)) == Survivors(Map(f, a)) + Survivors(Map(f, b))
  {
    MapAppend(f, a, b);
    SurvivorsAppend(Map(f, a), Map(f, b));
  }

  /** One more element: what `f` gives for it is kept when present. */
  lemma KeepStep<A, B>(f: A -> Option<B>, ls: seq<A>, i: nat)
    requires i < |ls|
    ensures Survivors(Map(f, ls[..i + 1])) == Survivors(Map(f, ls[..i])) + (if f(ls[i]).Some? then [f(ls[i]).value] else [])
  {
    assert ls[..i + 1] == ls[..i] + [ls[i]];
    KeepAppend(f, ls[..i], [ls[i]]);
  }

  /** `carregar_placares`: the entries built line by line, skipping what does not parse. */
  method LoadScores(file: Option<string>) returns (entries: seq<(string, int)>)
    ensures entries == Entries(file)
  {
    if file.None? {
      return [];
    }
    var lines := SplitLines(Universal(file.value));
    entries := [];
    for i := 0 to |lines|
      invariant entries == ParseLines(lines[..i])
    {
      KeepStep(ParseLine, lines, i);
      var parsed := ParseLine(lines[i]);
      if parsed.Some? {
        entries := entries + [parsed.value];
      }
    }
    assert lines[..|lines|] == lines;
  }
}

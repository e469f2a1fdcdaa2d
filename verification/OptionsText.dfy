/** Reading options from text, one `key=value` a line (config/util.rs). */
module OptionsText {
  import opened InValues

  type Options = map<string, string>

  // ---------------------------------------------------------------- lines

  function IndexOf(s: string, stops: string): (i: nat)
    ensures i <= |s|
    ensures i < |s| ==> s[i] in stops
    ensures forall j :: 0 <= j < i ==> s[j] !in stops
  {
    if s == [] || s[0] in stops then 0 else 1 + IndexOf(s[1..], stops)
  }

  function WithoutReturn(line: string): string {
    if line != [] && line[|line| - 1] == '\r' then line[..|line| - 1] else line
  }

  /** The lines of a text, without their ends; a last line needs no end, and is no line if it is empty. */
  function Lines(text: string): seq<string>
    decreases |text|
  {
    if text == [] then []
    else
      var i := IndexOf(text, "\n");
      if i == |text| then [text] else [WithoutReturn(text[..i])] + Lines(text[i + 1..])
  }

  // ---------------------------------------------------------------- one line

  predicate Skipped(line: string) {
    var t := Trim(line);
    t == [] || t[0] == '#'
  }

  function KeyOf(line: string, stops: string): string {
    var t := Trim(line);
    Trim(t[..IndexOf(t, stops)])
  }

  function ValueOf(line: string, stops: string): string {
    var t := Trim(line);
    var i := IndexOf(t, stops);
    if i == |t| then [] else Trim(t[i + 1..])
  }

  function WithLine(options: Options, line: string, stops: string): Options {
    if Skipped(line) then options else options[KeyOf(line, stops) := ValueOf(line, stops)]
  }

  function WithLines(options: Options, lines: seq<string>, stops: string): Options
    decreases |lines|
  {
    if lines == [] then options else WithLines(WithLine(options, lines[0], stops), lines[1..], stops)
  }

  function Parse(text: string, stops: string): Options {
    WithLines(map[], Lines(text), stops)
  }

  method ParseDataForOptions(text: string, stops: string) returns (options: Options)
    ensures options == Parse(text, stops)
  {
    var lines := Lines(text);
    options := map[];
    assert lines[0..] == lines;
    for i := 0 to |lines|
      invariant WithLines(options, lines[i..], stops) == Parse(text, stops)
    {
      assert lines[i..][1..] == lines[i + 1..];
      var t := Trim(lines[i]);
      if t == [] || t[0] == '#' {
        continue;
      }
      var at := IndexOf(t, stops);
      var key := Trim(t[..at]);
      var value := if at == |t| then [] else Trim(t[at + 1..]);
      options := options[key := value];
    }
  }

  // ---------------------------------------------------------------- writing

  datatype Line = Entry(key: string, value: string) | Remark(text: string)

  function Written(line: Line): string {
    match line
    case Entry(k, v) => k + "=" + v
    case Remark(t) => t
  }

  function Write(lines: seq<Line>): string {
    if lines == [] then [] else Written(lines[0]) + "\n" + Write(lines[1..])
  }

  /** What the entries say, a later one for a key overriding an earlier one. */
  function Meaning(options: Options, lines: seq<Line>): Options
    decreases |lines|
  {
    if lines == [] then options
    else Meaning(if lines[0].Entry? then options[lines[0].key := lines[0].value] else options, lines[1..])
  }

  /** Keys and values that can be written: trimmed and on one line, the key free of separators and no comment. */
  predicate WellFormed(key: string, value: string, stops: string) {
    && Trimmed(key) && Trimmed(value)
    && '\n' !in key && '\n' !in value
    && (forall c :: c in key ==> c !in stops)
    && (key == [] || key[0] != '#')
  }

  predicate WellWritten(line: Line, stops: string) {
    match line
    case Entry(k, v) => WellFormed(k, v, stops)
    case Remark(t) => '\n' !in t && Skipped(t)
  }

  // ---------------------------------------------------------------- trimming a written line

  lemma {:induction false} TrimKeeps(s: string)
    requires s != [] && !IsSpace(s[0]) && !IsSpace(s[|s| - 1])
    ensures Trim(s) == s
  {
  }

  lemma TrimmedEnds(s: string)
    requires Trimmed(s) && s != []
    ensures !IsSpace(s[0]) && !IsSpace(s[|s| - 1])
  {
    TrimStartLength(s);
    TrimEndLength(TrimStart(s));
  }

  lemma {:induction false} TrimStartLength(s: string)
    ensures |TrimStart(s)| <= |s|
    ensures |TrimStart(s)| == |s| ==> TrimStart(s) == s && (s == [] || !IsSpace(s[0]))
  {
    if s != [] && IsSpace(s[0]) {
      TrimStartLength(s[1..]);
    }
  }

  lemma {:induction false} TrimEndLength(s: string)
    ensures |TrimEnd(s)| <= |s|
    ensures |TrimEnd(s)| == |s| ==> TrimEnd(s) == s && (s == [] || !IsSpace(s[|s| - 1]))
  {
    if s != [] && IsSpace(s[|s| - 1]) {
      TrimEndLength(s[..|s| - 1]);
    }
  }

  lemma {:induction false} TrimStartDropsReturn(s: string)
    ensures Trim(WithoutReturn(s)) == Trim(s)
  {
    if s != [] && s[|s| - 1] == '\r' {
      TrimAppendSpace(s[..|s| - 1], '\r');
      assert s == s[..|s| - 1] + ['\r'];
    }
  }

  lemma {:induction false} TrimAppendSpace(s: string, c: char)
    requires IsSpace(c)
    ensures Trim(s + [c]) == Trim(s)
  {
    if s == [] {
      assert TrimStart([c]) == TrimStart([c][1..]);
    } else if IsSpace(s[0]) {
      assert (s + [c])[1..] == s[1..] + [c];
      TrimAppendSpace(s[1..], c);
    } else {
      assert (s + [c])[..|s|] == s;
    }
  }

  /** An entry's line is read back as that entry, also when what ends the line includes a return. */
  lemma EntryIsRead(key: string, value: string, stops: string)
    requires WellFormed(key, value, stops) && '=' in stops
    ensures var line := WithoutReturn(key + "=" + value);
      !Skipped(line) && KeyOf(line, stops) == key && ValueOf(line, stops) == value
  {
    var line := key + "=" + value;
    TrimStartDropsReturn(line);
    WrittenEntryIsTrimmed(key, value);
    IndexAfter(key, "=" + value, stops);
    assert line == key + ("=" + value);
    assert line[..|key|] == key;
    assert line[|key| + 1..] == value;
  }

  lemma WrittenEntryIsTrimmed(key: string, value: string)
    requires Trimmed(key) && Trimmed(value)
    ensures Trim(key + "=" + value) == key + "=" + value
  {
    var line := key + "=" + value;
    if key != [] {
      TrimmedEnds(key);
      assert line[0] == key[0];
    } else {
      assert line[0] == '=';
    }
    if value != [] {
      TrimmedEnds(value);
      assert line[|line| - 1] == value[|value| - 1];
    } else {
      assert line[|line| - 1] == '=';
    }
    TrimKeeps(line);
  }

  lemma {:induction false} IndexAfter(a: string, b: string, stops: string)
    requires b != [] && b[0] in stops && forall c :: c in a ==> c !in stops
    ensures IndexOf(a + b, stops) == |a|
  {
    if a == [] {
      assert a + b == b;
    } else {
      assert (a + b)[1..] == a[1..] + b;
      IndexAfter(a[1..], b, stops);
    }
  }

  lemma LinesStep(line: string, rest: string)
    requires '\n' !in line
    ensures Lines(line + "\n" + rest) == [WithoutReturn(line)] + Lines(rest)
  {
    var text := line + "\n" + rest;
    IndexAfter(line, "\n" + rest, "\n");
    assert text == line + ("\n" + rest);
    assert text[..|line|] == line && text[|line| + 1..] == rest;
  }

  /**
   * Reading what was written gives the meaning of the entries, in whatever order they stand and
   * whatever blank and comment lines stand between them.
   */
  lemma {:induction false} ParseUndoesWrite(options: Options, lines: seq<Line>, stops: string)
    requires '=' in stops && forall line :: line in lines ==> WellWritten(line, stops)
    ensures WithLines(options, Lines(Write(lines)), stops) == Meaning(options, lines)
    decreases |lines|
  {
    if lines != [] {
      var line := lines[0];
      assert line in lines;
      assert '\n' !in Written(line);
      LinesStep(Written(line), Write(lines[1..]));
      var first, rest := WithoutReturn(Written(line)), Lines(Write(lines[1..]));
      assert ([first] + rest)[1..] == rest;
      if line.Entry? {
        EntryIsRead(line.key, line.value, stops);
      } else {
        TrimStartDropsReturn(line.text);
      }
      ParseUndoesWrite(WithLine(options, first, stops), lines[1..], stops);
    }
  }

  // ---------------------------------------------------------------- lines written by hand

  lemma {:induction false} TrimStartDropsBlank(a: string, s: string)
    requires Blank(a)
    ensures TrimStart(a + s) == TrimStart(s)
  {
    if a == [] {
      assert a + s == s;
    } else {
      assert (a + s)[1..] == a[1..] + s;
      TrimStartDropsBlank(a[1..], s);
    }
  }

  lemma {:induction false} TrimDropsBlankEnd(s: string, d: string)
    requires Blank(d)
    ensures Trim(s + d) == Trim(s)
    decreases |d|
  {
    if d == [] {
      assert s + d == s;
    } else {
      var front := d[..|d| - 1];
      assert s + d == (s + front) + [d[|d| - 1]];
      TrimDropsBlankEnd(s, front);
      TrimAppendSpace(s + front, d[|d| - 1]);
    }
  }

  lemma TrimAround(a: string, s: string, d: string)
    requires Blank(a) && Blank(d)
    ensures Trim(a + s + d) == Trim(s)
  {
    TrimDropsBlankEnd(a + s, d);
    TrimStartDropsBlank(a, s);
  }

  /** The stretch of a line from its key, or the separator when there is none, to its value, or the separator. */
  lemma CoreOf(k: string, b: string, sep: char, c: string, v: string) returns (left: string, right: string)
    requires Blank(b) && Blank(c) && !IsSpace(sep) && Trimmed(k) && Trimmed(v)
    ensures left == (if k == [] then [] else k + b) && right == (if v == [] then [] else c + v)
    ensures Trim(k + b + [sep] + c + v) == left + ([sep] + right)
    ensures Trim(left) == k && Trim(right) == v
  {
    left, right := if k == [] then [] else k + b, if v == [] then [] else c + v;
    var core := left + ([sep] + right);
    var before, behind := if k == [] then b else [], if v == [] then c else [];
    assert k + b + [sep] + c + v == before + core + behind;
    TrimAround(before, core, behind);
    if k != [] {
      TrimmedEnds(k);
      assert core[0] == k[0];
      TrimDropsBlankEnd(k, b);
    }
    if v != [] {
      TrimmedEnds(v);
      assert core[|core| - 1] == v[|v| - 1];
      TrimStartDropsBlank(c, v);
    }
    TrimKeeps(core);
  }

  lemma CoreIsRead(line: string, left: string, sep: char, right: string, stops: string)
    requires Trim(line) == left + ([sep] + right)
    requires sep in stops && forall x :: x in left ==> x !in stops
    requires (if left == [] then sep else left[0]) != '#'
    ensures !Skipped(line) && KeyOf(line, stops) == Trim(left) && ValueOf(line, stops) == Trim(right)
  {
    var t := left + ([sep] + right);
    IndexAfter(left, [sep] + right, stops);
    assert t[..|left|] == left && t[|left| + 1..] == right;
    assert t[0] == if left == [] then sep else left[0];
  }

  /**
   * A line is read as its key and value whatever blanks stand around them and whichever separator is
   * used; the first separator counts, so the value may hold others.
   */
  lemma PaddedEntryIsRead(
    a: string, k: string, b: string, sep: char, c: string, v: string, d: string, stops: string)
    requires Blank(a) && Blank(b) && Blank(c) && Blank(d) && Trimmed(k) && Trimmed(v)
    requires sep in stops && !IsSpace(sep) && forall x :: x in k + b ==> x !in stops
    requires if k == [] then sep != '#' else k[0] != '#'
    ensures var line := a + (k + b + [sep] + c + v) + d;
      !Skipped(line) && KeyOf(line, stops) == k && ValueOf(line, stops) == v
  {
    var left, right := CoreOf(k, b, sep, c, v);
    TrimAround(a, k + b + [sep] + c + v, d);
    CoreIsRead(a + (k + b + [sep] + c + v) + d, left, sep, right, stops);
  }

  /** A line without a separator is a key with an empty value. */
  lemma LoneKeyIsRead(a: string, k: string, d: string, stops: string)
    requires Blank(a) && Blank(d) && Trimmed(k) && k != [] && k[0] != '#'
    requires forall x :: x in k ==> x !in stops
    ensures var line := a + k + d;
      !Skipped(line) && KeyOf(line, stops) == k && ValueOf(line, stops) == []
  {
    TrimAround(a, k, d);
    var i := IndexOf(k, stops);
    assert i == |k| && k[..i] == k;
  }

  /** Blank lines, and lines whose first character that is not blank is a hash, say nothing. */
  lemma RemarkIsSkipped(a: string, text: string)
    requires Blank(a)
    ensures Skipped(a) && Skipped(a + "#" + text)
  {
    TrimAround(a, [], []);
    assert a + [] + [] == a;
    assert a + "#" + text == a + ("#" + text);
    TrimStartDropsBlank(a, "#" + text);
    HeadSurvives("#" + text);
  }

  /** A text is cut after each line feed, with a return before it gone; what follows the last one is a line if not empty. */
  lemma LinesMeaning(line: string, rest: string)
    requires '\n' !in line
    ensures Lines(line + "\n" + rest) == [if line != [] && line[|line| - 1] == '\r' then line[..|line| - 1] else line] + Lines(rest)
    ensures Lines(line) == if line == [] then [] else [line]
  {
    LinesStep(line, rest);
    assert IndexOf(line, "\n") == |line|;
  }

  // ---------------------------------------------------------------- only well-formed options are ever read

  ghost predicate AllWellFormed(options: Options, stops: string) {
    forall k :: k in options ==> WellFormed(k, options[k], stops)
  }

  lemma {:induction false} LinesHaveNoBreaks(text: string)
    ensures forall line :: line in Lines(text) ==> '\n' !in line
    decreases |text|
  {
    if text != [] {
      var i := IndexOf(text, "\n");
      if i == |text| {
        assert forall c :: c in text ==> exists j :: 0 <= j < i && text[j] == c;
      } else {
        LinesHaveNoBreaks(text[i + 1..]);
        assert forall c :: c in text[..i] ==> exists j :: 0 <= j < i && text[j] == c;
      }
    }
  }

  lemma {:induction false} TrimTakes(s: string)
    ensures forall c :: c in Trim(s) ==> c in s
  {
    TrimStartTakes(s);
    TrimEndMeaning(TrimStart(s));
  }

  lemma {:induction false} TrimStartTakes(s: string)
    ensures forall c :: c in TrimStart(s) ==> c in s
  {
    if s != [] && IsSpace(s[0]) {
      TrimStartTakes(s[1..]);
    }
  }

  lemma LineGivesWellFormed(line: string, stops: string)
    requires '\n' !in line && !Skipped(line)
    ensures WellFormed(KeyOf(line, stops), ValueOf(line, stops), stops)
  {
    var t := Trim(line);
    var i := IndexOf(t, stops);
    TrimTakes(line);
    TrimTakes(t[..i]);
    TrimIsIdempotent(t[..i]);
    TrimIsIdempotent(line);
    TrimmedEnds(t);
    if i < |t| {
      TrimTakes(t[i + 1..]);
      TrimIsIdempotent(t[i + 1..]);
    }
    if i > 0 {
      HeadSurvives(t[..i]);
    }
    assert forall c :: c in t[..i] ==> exists j :: 0 <= j < i && t[j] == c;
  }

  lemma {:induction false} HeadSurvives(s: string)
    requires s != [] && !IsSpace(s[0])
    ensures TrimEnd(s) != [] && TrimEnd(s)[0] == s[0]
  {
    if IsSpace(s[|s| - 1]) {
      HeadSurvives(s[..|s| - 1]);
    }
  }

  lemma {:induction false} WithLinesKeepsWellFormed(options: Options, lines: seq<string>, stops: string)
    requires AllWellFormed(options, stops) && forall line :: line in lines ==> '\n' !in line
    ensures AllWellFormed(WithLines(options, lines, stops), stops)
    decreases |lines|
  {
    if lines != [] {
      assert lines[0] in lines;
      if !Skipped(lines[0]) {
        LineGivesWellFormed(lines[0], stops);
      }
      WithLinesKeepsWellFormed(WithLine(options, lines[0], stops), lines[1..], stops);
    }
  }

  /** Entries that list the keys and values of a map. */
  ghost predicate Lists(lines: seq<Line>, options: Options) {
    && (forall line :: line in lines ==> line.Entry? && line.key in options && options[line.key] == line.value)
    && Meaning(map[], lines) == options
  }

  /** Writing a map entry by entry and reading it again gives the map back exactly when it is well-formed. */
  lemma RoundTripIff(options: Options, lines: seq<Line>, stops: string)
    requires '=' in stops && Lists(lines, options)
    ensures Parse(Write(lines), stops) == options <==> AllWellFormed(options, stops)
  {
    if AllWellFormed(options, stops) {
      ParseUndoesWrite(map[], lines, stops);
    } else {
      LinesHaveNoBreaks(Write(lines));
      WithLinesKeepsWellFormed(map[], Lines(Write(lines)), stops);
    }
  }
}

/** The text of an IN list: escaping values, joining them with commas, and splitting them again (expr/filter.rs). */
module InValues {
  import opened Sequences

  // ---------------------------------------------------------------- white space

  /** The characters with the Unicode property White_Space, which trimming removes. */
  predicate IsSpace(c: char) {
    var u := c as int;
    || 9 <= u <= 13 || u == 32 || u == 0x85 || u == 0xA0 || u == 0x1680
    || 0x2000 <= u <= 0x200A || u == 0x2028 || u == 0x2029 || u == 0x202F || u == 0x205F || u == 0x3000
  }

  function TrimStart(s: string): string {
    if s != [] && IsSpace(s[0]) then TrimStart(s[1..]) else s
  }

  function TrimEnd(s: string): string {
    if s != [] && IsSpace(s[|s| - 1]) then TrimEnd(s[..|s| - 1]) else s
  }

  function Trim(s: string): string {
    TrimEnd(TrimStart(s))
  }

  /** Trimming leaves the longest inner stretch that neither begins nor ends with white space. */
  lemma {:induction false} TrimEndMeaning(s: string)
    ensures TrimEnd(s) <= s
    ensures TrimEnd(s) != [] ==> !IsSpace(TrimEnd(s)[|TrimEnd(s)| - 1])
    ensures forall c :: c in s[|TrimEnd(s)|..] ==> IsSpace(c)
  {
    if s != [] && IsSpace(s[|s| - 1]) {
      TrimEndMeaning(s[..|s| - 1]);
    }
  }

  lemma {:induction false} TrimIsIdempotent(s: string)
    ensures Trim(Trim(s)) == Trim(s)
  {
    TrimStartMeaning(s);
    TrimEndMeaning(TrimStart(s));
    TrimEndMeaning(Trim(s));
  }

  lemma {:induction false} TrimStartMeaning(s: string)
    ensures TrimStart(s) != [] ==> !IsSpace(TrimStart(s)[0])
  {
    if s != [] && IsSpace(s[0]) {
      TrimStartMeaning(s[1..]);
    }
  }

  predicate Blank(s: string) {
    forall c :: c in s ==> IsSpace(c)
  }

  lemma {:induction false} TrimStartIsSuffix(s: string) returns (a: string)
    ensures s == a + TrimStart(s) && Blank(a)
  {
    if s != [] && IsSpace(s[0]) {
      a := TrimStartIsSuffix(s[1..]);
      assert s == [s[0]] + (a + TrimStart(s));
      a := [s[0]] + a;
    } else {
      a := [];
    }
  }

  /** Only white space goes, and all of it goes: what is left of a text is its stretch between blank ends. */
  lemma TrimMeaning(s: string) returns (a: string, b: string)
    ensures s == a + Trim(s) + b && Blank(a) && Blank(b)
    ensures Trim(s) != [] ==> !IsSpace(Trim(s)[0]) && !IsSpace(Trim(s)[|Trim(s)| - 1])
  {
    var t := TrimStart(s);
    a := TrimStartIsSuffix(s);
    TrimStartMeaning(s);
    TrimEndMeaning(t);
    b := t[|Trim(s)|..];
    assert t == Trim(s) + b;
    assert s == a + Trim(s) + b;
  }

  predicate Trimmed(s: string) {
    Trim(s) == s
  }

  // ---------------------------------------------------------------- the splitter

  /** One trimmed segment, or nothing. */
  function Segment(s: string): seq<string> {
    if Trim(s) == [] then [] else [Trim(s)]
  }

  /** The values still to come from `s`, given the segment read so far. */
  function SplitFrom(current: string, s: string): seq<string>
    decreases |s|
  {
    if s == [] then Segment(current)
    else if s[0] == '\\' then
      if |s| > 1 && (s[1] == ',' || s[1] == '\\') then SplitFrom(current + [s[1]], s[2..])
      else SplitFrom(current + ['\\'], s[1..])
    else if s[0] == ',' then Segment(current) + SplitFrom([], s[1..])
    else SplitFrom(current + [s[0]], s[1..])
  }

  function Split(s: string): seq<string> {
    SplitFrom([], s)
  }

  method SplitInValues(s: string) returns (out: seq<string>)
    ensures out == Split(s)
  {
    out := [];
    var current: string := [];
    var i := 0;
    while i < |s|
      invariant i <= |s|
      invariant out + SplitFrom(current, s[i..]) == Split(s)
    {
      var c := s[i];
      i := i + 1;
      assert s[i - 1..][1..] == s[i..];
      if c == '\\' {
        if i < |s| && s[i] == ',' {
          assert s[i - 1..][2..] == s[i + 1..];
          i := i + 1;
          current := current + [','];
        } else if i < |s| && s[i] == '\\' {
          assert s[i - 1..][2..] == s[i + 1..];
          i := i + 1;
          current := current + ['\\'];
        } else {
          current := current + ['\\'];
        }
      } else if c == ',' {
        var trimmed := Trim(current);
        ghost var was := out;
        if trimmed != [] {
          out := out + [trimmed];
        }
        assert out == was + Segment(current);
        current := [];
      } else {
        current := current + [c];
      }
    }
    var trimmed := Trim(current);
    if trimmed != [] {
      out := out + [trimmed];
    }
  }

  // ---------------------------------------------------------------- the printer

  function EscapeChar(c: char): string {
    if c == '\\' || c == ',' then ['\\', c] else [c]
  }

  function Escape(v: string): string {
    if v == [] then [] else EscapeChar(v[0]) + Escape(v[1..])
  }

  lemma EscapeStep(v: string, i: nat)
    requires i < |v|
    ensures Escape(v[i..]) == EscapeChar(v[i]) + Escape(v[i + 1..])
  {
    assert v[i..][1..] == v[i + 1..];
  }

  method EscapeInValue(v: string) returns (out: string)
    ensures out == Escape(v)
  {
    out := [];
    for i := 0 to |v|
      invariant out + Escape(v[i..]) == Escape(v)
    {
      var c := v[i];
      EscapeStep(v, i);
      Regroup(out, EscapeChar(c), Escape(v[i + 1..]));
      match c {
        case '\\' => out := out + "\\\\";
        case ',' => out := out + "\\,";
        case _ => out := out + [c];
      }
    }
  }

  function Join(values: seq<string>): string {
    if values == [] then []
    else if |values| == 1 then Escape(values[0])
    else Escape(values[0]) + "," + Join(values[1..])
  }

  // ---------------------------------------------------------------- the two undo each other

  /** One character of a value, escaped as it has to be, is read back as itself. */
  lemma SplitEscapedChar(current: string, c: char, rest: string)
    ensures SplitFrom(current, EscapeChar(c) + rest) == SplitFrom(current + [c], rest)
  {
    var s := EscapeChar(c) + rest;
    if c == '\\' || c == ',' {
      assert s[0] == '\\' && s[1] == c && s[2..] == rest;
    } else {
      assert s[0] == c && s[1..] == rest;
    }
  }

  /** Escaped text is read back into the current segment, whatever follows it. */
  lemma {:induction false} SplitEscaped(current: string, v: string, rest: string)
    ensures SplitFrom(current, Escape(v) + rest) == SplitFrom(current + v, rest)
    decreases |v|
  {
    if v == [] {
      assert Escape(v) + rest == rest && current + v == current;
    } else {
      FirstAndRest(v);
      Regroup(current, [v[0]], v[1..]);
      Regroup(EscapeChar(v[0]), Escape(v[1..]), rest);
      SplitEscapedChar(current, v[0], Escape(v[1..]) + rest);
      SplitEscaped(current + [v[0]], v[1..], rest);
    }
  }

  /** What a list of values comes back as: each trimmed, the empty ones gone. */
  function Cleaned(values: seq<string>): seq<string> {
    if values == [] then [] else Segment(values[0]) + Cleaned(values[1..])
  }

  /** Splitting undoes joining, for every list of values. */
  lemma {:induction false} SplitUndoesJoin(values: seq<string>)
    ensures Split(Join(values)) == Cleaned(values)
  {
    if values == [] {
      assert Join(values) == [];
    } else if |values| == 1 {
      SplitEscaped([], values[0], []);
      assert Escape(values[0]) + [] == Escape(values[0]);
      assert [] + values[0] == values[0];
      assert Cleaned(values[1..]) == [];
    } else {
      var rest := "," + Join(values[1..]);
      SplitEscaped([], values[0], rest);
      assert Join(values) == Escape(values[0]) + rest;
      assert [] + values[0] == values[0];
      assert rest[1..] == Join(values[1..]);
      SplitUndoesJoin(values[1..]);
    }
  }

  predicate Clean(values: seq<string>) {
    forall v :: v in values ==> v != [] && Trimmed(v)
  }

  lemma {:induction false} CleanedIsIdentityIff(values: seq<string>)
    ensures |Cleaned(values)| <= |values|
    ensures Cleaned(values) == values <==> Clean(values)
  {
    if values != [] {
      var v, rest := values[0], values[1..];
      CleanedIsIdentityIff(rest);
      TrimIsIdempotent(v);
      assert values == [v] + rest;
      if Segment(v) == [v] {
        assert Cleaned(values)[1..] == Cleaned(rest);
        assert Clean(values) <==> Clean(rest);
      } else {
        assert v in values && (v == [] || !Trimmed(v));
        if Segment(v) != [] {
          assert Cleaned(values)[0] == Trim(v);
        }
      }
    }
  }

  lemma {:induction false} SplitFromIsClean(current: string, s: string)
    ensures Clean(SplitFrom(current, s))
    decreases |s|
  {
    TrimIsIdempotent(current);
    if s == [] {
    } else if s[0] == '\\' {
      if |s| > 1 && (s[1] == ',' || s[1] == '\\') {
        SplitFromIsClean(current + [s[1]], s[2..]);
      } else {
        SplitFromIsClean(current + ['\\'], s[1..]);
      }
    } else if s[0] == ',' {
      SplitFromIsClean([], s[1..]);
    } else {
      SplitFromIsClean(current + [s[0]], s[1..]);
    }
  }

  /** On any text at all, printing what was split and splitting again changes nothing. */
  lemma SplitJoinSplit(s: string)
    ensures Clean(Split(s))
    ensures Split(Join(Split(s))) == Split(s)
  {
    SplitFromIsClean([], s);
    SplitUndoesJoin(Split(s));
    CleanedIsIdentityIff(Split(s));
  }

  // ---------------------------------------------------------------- texts that nobody escaped

  /** A character of a text as the splitter should take it: kept as it stands, or told by a backslash before it. */
  datatype Taken = Kept(c: char) | Escaped(c: char)

  function TakenFrom(t: Taken): string {
    match t
    case Kept(c) => [c]
    case Escaped(c) => ['\\', c]
  }

  function Raw(ts: seq<Taken>): string {
    if ts == [] then [] else TakenFrom(ts[0]) + Raw(ts[1..])
  }

  function Value(ts: seq<Taken>): string {
    if ts == [] then [] else [ts[0].c] + Value(ts[1..])
  }

  /** What can stand before others: only a comma or a backslash is escaped, and neither is kept where it means more. */
  predicate CanPrecede(t: Taken, rest: seq<Taken>) {
    match t
    case Escaped(c) => c == ',' || c == '\\'
    case Kept(c) => c != ',' && (c == '\\' ==> rest == [] || (rest[0].Kept? && rest[0].c != '\\'))
  }

  predicate Proper(ts: seq<Taken>) {
    ts == [] || (CanPrecede(ts[0], ts[1..]) && Proper(ts[1..]))
  }

  /** The backslash at its end does not escape a comma that follows. */
  predicate Closed(ts: seq<Taken>) {
    ts == [] || ts[|ts| - 1] != Kept('\\')
  }

  /** One step of the splitter takes one such character. */
  lemma TakeOne(current: string, t: Taken, rest: string)
    requires t.Escaped? ==> t.c == ',' || t.c == '\\'
    requires t.Kept? ==> t.c != ',' && (t.c == '\\' ==> rest == [] || (rest[0] != ',' && rest[0] != '\\'))
    ensures SplitFrom(current, TakenFrom(t) + rest) == SplitFrom(current + [t.c], rest)
  {
    var s := TakenFrom(t) + rest;
    match t
    case Kept(c) => assert s[0] == c && s[1..] == rest;
    case Escaped(c) => assert s[0] == '\\' && s[1] == c && s[2..] == rest;
  }

  lemma RawStarts(ts: seq<Taken>, rest: string)
    requires ts != [] && ts[0].Kept?
    ensures (Raw(ts) + rest)[0] == ts[0].c
  {
  }

  /** A segment is read character by character: exactly the escaped pairs become one, all else is kept. */
  lemma {:induction false} SegmentIsTaken(current: string, ts: seq<Taken>, rest: string)
    requires Proper(ts) && (rest == [] || (rest[0] == ',' && Closed(ts)))
    ensures SplitFrom(current, Raw(ts) + rest) == SplitFrom(current + Value(ts), rest)
    decreases |ts|
  {
    if ts == [] {
      assert Raw(ts) + rest == rest && current + Value(ts) == current;
    } else {
      var t, tail := ts[0], ts[1..];
      if tail != [] && tail[0].Kept? {
        RawStarts(tail, rest);
      }
      if t == Kept('\\') && tail == [] {
        assert Raw(tail) + rest == rest;
      }
      Regroup(TakenFrom(t), Raw(tail), rest);
      Regroup(current, [t.c], Value(tail));
      TakeOne(current, t, Raw(tail) + rest);
      SegmentIsTaken(current + [t.c], tail, rest);
    }
  }

  /** Segments written one after the other with commas between them. */
  function RawList(segments: seq<seq<Taken>>): string
    requires segments != []
  {
    if |segments| == 1 then Raw(segments[0]) else Raw(segments[0]) + ("," + RawList(segments[1..]))
  }

  function Values(segments: seq<seq<Taken>>): seq<string> {
    if segments == [] then [] else [Value(segments[0])] + Values(segments[1..])
  }

  predicate ProperList(segments: seq<seq<Taken>>) {
    && segments != []
    && (forall i :: 0 <= i < |segments| ==> Proper(segments[i]))
    && (forall i :: 0 <= i < |segments| - 1 ==> Closed(segments[i]))
  }

  /** A text is cut at its bare commas, and each piece is read, trimmed, and dropped when blank. */
  lemma {:induction false} SplitTakesSegments(segments: seq<seq<Taken>>)
    requires ProperList(segments)
    ensures Split(RawList(segments)) == Cleaned(Values(segments))
  {
    var first, others := segments[0], segments[1..];
    var v := Value(first);
    assert [] + v == v;
    assert Values(segments)[1..] == Values(others);
    if |segments| == 1 {
      assert Raw(first) + [] == Raw(first);
      SegmentIsTaken([], first, []);
      assert Cleaned(Values(others)) == [];
    } else {
      var rest := "," + RawList(others);
      SegmentIsTaken([], first, rest);
      assert rest[1..] == RawList(others);
      assert ProperList(others);
      SplitTakesSegments(others);
    }
  }

  lemma WithFirst(t: Taken, segments: seq<seq<Taken>>) returns (more: seq<seq<Taken>>)
    requires ProperList(segments)
    requires t.Escaped? ==> t.c == ',' || t.c == '\\'
    requires t.Kept? ==> t.c != ','
    requires t == Kept('\\') ==> RawList(segments) == [] || (RawList(segments)[0] != ',' && RawList(segments)[0] != '\\')
    ensures ProperList(more) && RawList(more) == TakenFrom(t) + RawList(segments)
  {
    var first, others := segments[0], segments[1..];
    more := [[t] + first] + others;
    assert more[1..] == others && ([t] + first)[1..] == first;
    Regroup(TakenFrom(t), Raw(first), if others == [] then [] else "," + RawList(others));
    if t == Kept('\\') && first != [] {
      assert RawList(segments)[0] == TakenFrom(first[0])[0];
    }
    assert Proper([t] + first);
    forall i | 0 < i < |more| ensures more[i] == segments[i] {
    }
    if |more| > 1 && first == [] {
      assert RawList(segments)[0] == ',';
    }
    assert RawList(more) == Raw(more[0]) + (if others == [] then [] else "," + RawList(others));
  }

  /** Every text is such a list of segments, so the splitter's answer is known for all of them. */
  lemma {:induction false} EveryTextIsSegments(s: string) returns (segments: seq<seq<Taken>>)
    ensures ProperList(segments) && RawList(segments) == s
    decreases |s|
  {
    if s == [] {
      segments := [[]];
    } else if s[0] == ',' {
      var rest := EveryTextIsSegments(s[1..]);
      segments := [[]] + rest;
      assert segments[1..] == rest;
      assert Raw([]) + ("," + RawList(rest)) == s;
    } else if s[0] == '\\' && |s| > 1 && (s[1] == ',' || s[1] == '\\') {
      var rest := EveryTextIsSegments(s[2..]);
      segments := WithFirst(Escaped(s[1]), rest);
      assert s == ['\\', s[1]] + s[2..];
    } else {
      var rest := EveryTextIsSegments(s[1..]);
      segments := WithFirst(Kept(s[0]), rest);
      FirstAndRest(s);
    }
  }

  /** A text without commas and without two backslashes in a row is one value, itself but for blank ends. */
  lemma PlainTextIsOneValue(s: string)
    requires ',' !in s && forall i :: 0 <= i < |s| - 1 ==> !(s[i] == '\\' && s[i + 1] == '\\')
    ensures Split(s) == if Trim(s) == [] then [] else [Trim(s)]
  {
    var ts := AllKept(s);
    SegmentIsTaken([], ts, []);
    assert Raw(ts) + [] == s && [] + Value(ts) == s;
  }

  lemma {:induction false} AllKept(s: string) returns (ts: seq<Taken>)
    requires ',' !in s && forall i :: 0 <= i < |s| - 1 ==> !(s[i] == '\\' && s[i + 1] == '\\')
    ensures |ts| == |s| && (forall i :: 0 <= i < |s| ==> ts[i] == Kept(s[i]))
    ensures Proper(ts) && Raw(ts) == s && Value(ts) == s
  {
    if s == [] {
      ts := [];
    } else {
      var rest := AllKept(s[1..]);
      ts := [Kept(s[0])] + rest;
      assert ts[1..] == rest;
      FirstAndRest(s);
    }
  }
}

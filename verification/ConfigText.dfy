/**
 What the configuration reader of install.c promises, on texts: one binding per line, white space
 around keys and values ignored, comment and blank lines skipped, the first match wins.
 */
module ConfigText {

  const MAX_SIZE := 65536

  const NUL: char := '\0'
  const NEWLINE: char := '\n'

  datatype Outcome =
    | Value(text: string)
    | Malformed(line: string)      // a line without '=' was reached before the key
    | TooLarge
    | NullDereference              // the text has no line at all and the first token is NULL

  /** isspace in the "C" locale. */
  predicate IsSpace(c: char) {
    c as int == 32 || 9 <= c as int <= 13
  }

  /** Space, tab, newline, vertical tab, form feed and carriage return, as isspace has them. */
  lemma SpacesAre(c: char)
    ensures IsSpace(c) <==> c == ' ' || c == '\t' || c == '\n' || c == 11 as char || c == 12 as char || c == '\r'
  {
  }

  function TrimLeft(s: string): string {
    if |s| > 0 && IsSpace(s[0]) then TrimLeft(s[1..]) else s
  }

  function TrimRight(s: string): string {
    if |s| > 0 && IsSpace(s[|s| - 1]) then TrimRight(s[..|s| - 1]) else s
  }

  /** The first position of c, or the length of s. */
  function IndexOf(s: string, c: char): (i: nat)
    ensures i <= |s| && c !in s[..i] && (i < |s| ==> s[i] == c)
  {
    if |s| == 0 || s[0] == c then 0 else
      var i := 1 + IndexOf(s[1..], c);
      assert s[..i] == [s[0]] + s[1..][..i - 1];
      i
  }

  /** The C string at the start of a buffer. */
  function CString(buffer: string): string {
    buffer[..IndexOf(buffer, NUL)]
  }

  /** The non-empty lines of a text. */
  function Lines(text: string): seq<string>
    decreases |text|
  {
    if |text| == 0 then []
    else if text[0] == NEWLINE then Lines(text[1..])
    else var n := IndexOf(text, NEWLINE); [text[..n]] + Lines(text[n..])
  }

  datatype Parsed = Skipped | Bad(line: string) | Bound(key: string, value: string)

  function ParseLine(line: string): Parsed {
    var l := TrimLeft(line);
    if |l| == 0 || l[0] == '#' then Skipped
    else
      var e := IndexOf(l, '=');
      if e == |l| then Bad(l) else Bound(TrimRight(l[..e]), TrimRight(TrimLeft(l[e + 1..])))
  }

  function Find(lines: seq<string>, key: string): Outcome {
    if |lines| == 0 then Value("")
    else
      match ParseLine(lines[0])
      case Skipped => Find(lines[1..], key)
      case Bad(line) => Malformed(line)
      case Bound(k, v) => if k == key then Value(v) else Find(lines[1..], key)
  }

  /** The result of looking a key up in a file. */
  function Lookup(file: string, key: string): Outcome {
    if |file| > MAX_SIZE then TooLarge
    else
      var lines := Lines(CString(file));
      if |lines| == 0 then NullDereference else Find(lines, key)
  }

  // ---------------------------------------------------------------- when a lookup goes wrong

  /** There is no first line exactly when the text is nothing but newlines. */
  lemma {:induction false} NoLinesIffOnlyNewlines(text: string)
    ensures |Lines(text)| == 0 <==> forall i :: 0 <= i < |text| ==> text[i] == NEWLINE
    decreases |text|
  {
    if |text| > 0 && text[0] == NEWLINE {
      NoLinesIffOnlyNewlines(text[1..]);
      assert forall i :: 0 < i < |text| ==> text[i] == text[1..][i - 1];
    }
  }

  predicate Binds(line: string, key: string) {
    var p := ParseLine(line);
    p.Bound? && p.key == key
  }

  /** Every line without '=' comes after a line binding the key. */
  predicate NoEarlierBadLine(lines: seq<string>, key: string) {
    forall i :: 0 <= i < |lines| && ParseLine(lines[i]).Bad? ==> exists j :: 0 <= j < i && Binds(lines[j], key)
  }

  /** Exactly then is the lookup answered. */
  lemma {:induction false} FindAnswersIff(lines: seq<string>, key: string)
    ensures Find(lines, key).Value? <==> NoEarlierBadLine(lines, key)
  {
    if |lines| > 0 {
      var tail := lines[1..];
      FindAnswersIff(tail, key);
      if !ParseLine(lines[0]).Bad? && !Binds(lines[0], key) {
        if NoEarlierBadLine(tail, key) {
          forall i | 0 <= i < |lines| && ParseLine(lines[i]).Bad?
            ensures exists j :: 0 <= j < i && Binds(lines[j], key)
          {
            assert tail[i - 1] == lines[i];
            var j :| 0 <= j < i - 1 && Binds(tail[j], key);
            assert lines[j + 1] == tail[j];
          }
        } else {
          var i :| 0 <= i < |tail| && ParseLine(tail[i]).Bad? && !exists j :: 0 <= j < i && Binds(tail[j], key);
          assert lines[i + 1] == tail[i];
          forall j | 0 <= j < i + 1 ensures !Binds(lines[j], key) {
            if j > 0 { assert lines[j] == tail[j - 1]; }
          }
        }
      }
    }
  }

  /** Line i decides the lookup: it binds the key or is malformed, and no earlier line does or is. */
  predicate Decides(lines: seq<string>, key: string, i: int) {
    && 0 <= i < |lines| && (Binds(lines[i], key) || ParseLine(lines[i]).Bad?)
    && Undecided(lines, key, i)
  }

  predicate Undecided(lines: seq<string>, key: string, i: nat)
    requires i <= |lines|
  {
    forall j :: 0 <= j < i ==> !Binds(lines[j], key) && !ParseLine(lines[j]).Bad?
  }

  lemma {:induction false} UndecidedLinesAreSkipped(lines: seq<string>, key: string, i: nat)
    requires i <= |lines| && Undecided(lines, key, i)
    ensures Find(lines, key) == Find(lines[i..], key)
  {
    hide ParseLine;
    if i > 0 {
      forall j | 0 <= j < i - 1 ensures !Binds(lines[1..][j], key) && !ParseLine(lines[1..][j]).Bad? {
        assert lines[1..][j] == lines[j + 1];
      }
      UndecidedLinesAreSkipped(lines[1..], key, i - 1);
      assert lines[1..][i - 1..] == lines[i..];
      assert !Binds(lines[0], key) && !ParseLine(lines[0]).Bad?;
    } else {
      assert lines[0..] == lines;
    }
  }

  /** The first deciding line gives the value, or the malformed text. */
  lemma FirstDecides(lines: seq<string>, key: string, i: int)
    requires Decides(lines, key, i)
    ensures Binds(lines[i], key) ==> Find(lines, key) == Value(ParseLine(lines[i]).value)
    ensures ParseLine(lines[i]).Bad? ==> Find(lines, key) == Malformed(ParseLine(lines[i]).line)
  {
    hide ParseLine;
    UndecidedLinesAreSkipped(lines, key, i);
    assert lines[i..][0] == lines[i];
  }

  /** Without a deciding line the value is empty. */
  lemma NoneDecides(lines: seq<string>, key: string)
    requires Undecided(lines, key, |lines|)
    ensures Find(lines, key) == Value("")
  {
    UndecidedLinesAreSkipped(lines, key, |lines|);
  }

  lemma {:induction false} DecidingLine(lines: seq<string>, key: string, i: nat)
    requires i <= |lines|
    ensures Undecided(lines, key, i) || exists k :: k < i && Decides(lines, key, k)
  {
    hide ParseLine;
    if i > 0 {
      DecidingLine(lines, key, i - 1);
      if Undecided(lines, key, i - 1) && !Undecided(lines, key, i) {
        assert Decides(lines, key, i - 1);
      }
    }
  }

  /** Exactly when each outcome comes about, and with which text. */
  lemma LookupIff(file: string, key: string, text: string)
    ensures var lines := Lines(CString(file)); var small := |file| <= MAX_SIZE;
            && (Lookup(file, key) == TooLarge <==> !small)
            && (Lookup(file, key) == NullDereference
                <==> small && forall i :: 0 <= i < IndexOf(file, NUL) ==> file[i] == NEWLINE)
            && (Lookup(file, key) == Malformed(text)
                <==> small && exists i :: Decides(lines, key, i) && ParseLine(lines[i]) == Bad(text))
            && (Lookup(file, key) == Value(text)
                <==> small && |lines| > 0
                     && (|| (exists i :: Decides(lines, key, i) && ParseLine(lines[i]) == Bound(key, text))
                         || (Undecided(lines, key, |lines|) && text == "")))
  {
    hide ParseLine;
    hide Find;
    hide Lines;
    hide IndexOf;
    var lines := Lines(CString(file));
    NoLinesIffOnlyNewlines(CString(file));
    assert forall i :: 0 <= i < IndexOf(file, NUL) ==> CString(file)[i] == file[i];
    DecidingLine(lines, key, |lines|);
    if Undecided(lines, key, |lines|) {
      NoneDecides(lines, key);
    } else {
      var k :| Decides(lines, key, k);
      FirstDecides(lines, key, k);
      forall i | Decides(lines, key, i) ensures i == k {
        OneDecides(lines, key, i, k);
      }
    }
  }

  lemma OneDecides(lines: seq<string>, key: string, i: int, k: int)
    requires Decides(lines, key, i) && Decides(lines, key, k)
    ensures i == k
  {
    hide ParseLine;
  }

  /** The empty file has no line, so the reader follows a null pointer. */
  lemma EmptyFileFollowsNull(key: string)
    ensures Lookup("", key) == NullDereference
  {
  }

  // ---------------------------------------------------------------- printing

  /** One line of a well-formed file, with its free choice of white space. */
  datatype Item =
    | Note(text: string)
    | Binding(lead: string, key: string, pad: string, gap: string, value: string, trail: string)

  function PrintItem(item: Item): string {
    match item
    case Note(text) => text
    case Binding(lead, key, pad, gap, value, trail) => lead + key + pad + "=" + gap + value + trail
  }

  function Print(items: seq<Item>): string {
    if |items| == 0 then "" else PrintItem(items[0]) + [NEWLINE] + Print(items[1..])
  }

  /** White space that stays within a line. */
  predicate Blank(s: string) {
    forall i :: 0 <= i < |s| ==> IsSpace(s[i]) && s[i] != NEWLINE
  }

  predicate OneLine(s: string) {
    NEWLINE !in s && NUL !in s
  }

  predicate Trimmed(s: string) {
    |s| > 0 ==> !IsSpace(s[0]) && !IsSpace(s[|s| - 1])
  }

  predicate WellFormed(item: Item) {
    match item
    case Note(text) => OneLine(text) && (var l := TrimLeft(text); |l| == 0 || l[0] == '#')
    case Binding(lead, key, pad, gap, value, trail) =>
      && Blank(lead) && Blank(pad) && Blank(gap) && Blank(trail)
      && OneLine(key) && Trimmed(key) && '=' !in key && (|key| > 0 ==> key[0] != '#')
      && OneLine(value) && Trimmed(value)
  }

  /** The value of the first binding of a key, or the empty string. */
  function FirstValue(items: seq<Item>, key: string): string {
    if |items| == 0 then ""
    else if items[0].Binding? && items[0].key == key then items[0].value
    else FirstValue(items[1..], key)
  }

  lemma {:induction false} TrimLeftBlank(s: string, t: string)
    requires Blank(s)
    ensures TrimLeft(s + t) == TrimLeft(t)
  {
    if |s| == 0 {
      assert s + t == t;
    } else {
      assert (s + t)[1..] == s[1..] + t;
      TrimLeftBlank(s[1..], t);
    }
  }

  lemma {:induction false} TrimRightBlank(s: string, t: string)
    requires Blank(t)
    ensures TrimRight(s + t) == TrimRight(s)
    decreases |t|
  {
    if |t| == 0 {
      assert s + t == s;
    } else {
      var u := t[..|t| - 1];
      assert (s + t)[..|s + t| - 1] == s + u;
      TrimRightBlank(s, u);
    }
  }

  lemma {:induction false} IndexAfter(s: string, c: char, t: string)
    requires c !in s
    ensures IndexOf(s + [c] + t, c) == |s|
  {
    var u := s + [c] + t;
    if |s| > 0 {
      assert u[1..] == s[1..] + [c] + t;
      IndexAfter(s[1..], c, t);
    }
  }

  /** The line l consists of key, padding, '=' and the text after it. */
  predicate SplitsInto(l: string, key: string, after: string) {
    var e := IndexOf(l, '=');
    |l| > 0 && l[0] != '#' && e < |l| && TrimRight(l[..e]) == key && l[e + 1..] == after
  }

  lemma KeySplits(key: string, pad: string, after: string)
    requires Trimmed(key) && '=' !in key && (|key| > 0 ==> key[0] != '#') && Blank(pad)
    ensures SplitsInto(TrimLeft(key + pad + "=" + after), key, after)
  {
    var l := key + pad + "=" + after;
    if |key| == 0 {
      assert l == pad + ("=" + after);
      TrimLeftBlank(pad, "=" + after);
      assert ("=" + after)[1..] == after;
    } else {
      assert l == (key + pad) + ['='] + after;
      assert '=' !in key + pad;
      IndexAfter(key + pad, '=', after);
      assert l[..|key + pad|] == key + pad;
      TrimRightBlank(key, pad);
      assert TrimLeft(l) == l;
    }
  }

  lemma AfterTrims(gap: string, value: string, trail: string)
    requires Blank(gap) && Trimmed(value) && Blank(trail)
    ensures TrimRight(TrimLeft(gap + value + trail)) == value
  {
    assert gap + value + trail == gap + (value + trail);
    TrimLeftBlank(gap, value + trail);
    ValueTrims(value, trail);
  }

  /** A printed binding parses to its key and value whatever the white space around them. */
  lemma BindingParses(item: Item)
    requires WellFormed(item) && item.Binding?
    ensures ParseLine(PrintItem(item)) == Bound(item.key, item.value)
  {
    hide TrimLeft;
    hide TrimRight;
    hide IndexOf;
    var Binding(lead, key, pad, gap, value, trail) := item;
    var after := gap + value + trail;
    var rest := key + pad + "=" + after;
    assert PrintItem(item) == lead + rest;
    TrimLeftBlank(lead, rest);
    KeySplits(key, pad, after);
    AfterTrims(gap, value, trail);
  }

  lemma ValueTrims(value: string, trail: string)
    requires Trimmed(value) && Blank(trail)
    ensures TrimRight(TrimLeft(value + trail)) == value
  {
    if |value| == 0 {
      assert value + trail == trail + "";
      TrimLeftBlank(trail, "");
    } else {
      assert (value + trail)[0] == value[0];
      TrimRightBlank(value, trail);
    }
  }

  lemma NotesAreSkipped(item: Item)
    requires WellFormed(item) && item.Note?
    ensures ParseLine(PrintItem(item)) == Skipped
  {
  }

  /** A line without newlines, ended by one, is the first of the lines, unless it is empty. */
  lemma LinesOfLine(line: string, rest: string)
    requires NEWLINE !in line
    ensures Lines(line + [NEWLINE] + rest) == (if |line| == 0 then [] else [line]) + Lines(rest)
  {
    var text := line + [NEWLINE] + rest;
    if |line| == 0 {
      assert text[1..] == rest;
    } else {
      IndexAfter(line, NEWLINE, rest);
      assert text[..|line|] == line && text[|line|..][1..] == rest;
    }
  }

  lemma PrintedIsOneLine(item: Item)
    requires WellFormed(item)
    ensures NEWLINE !in PrintItem(item) && NUL !in PrintItem(item)
  {
  }

  lemma {:induction false} FindInPrinted(items: seq<Item>, key: string)
    requires forall i :: 0 <= i < |items| ==> WellFormed(items[i])
    ensures Find(Lines(Print(items)), key) == Value(FirstValue(items, key))
  {
    if |items| > 0 {
      var line, tail := PrintItem(items[0]), items[1..];
      PrintedIsOneLine(items[0]);
      LinesOfLine(line, Print(tail));
      FindInPrinted(tail, key);
      if items[0].Note? { NotesAreSkipped(items[0]); } else { BindingParses(items[0]); }
      if |line| > 0 {
        assert Lines(Print(items)) == [line] + Lines(Print(tail));
        assert Lines(Print(items))[1..] == Lines(Print(tail));
      }
    }
  }

  lemma {:induction false} PrintHasNoNul(items: seq<Item>)
    requires forall i :: 0 <= i < |items| ==> WellFormed(items[i])
    ensures NUL !in Print(items)
  {
    if |items| > 0 {
      PrintedIsOneLine(items[0]);
      PrintHasNoNul(items[1..]);
    }
  }

  /** Looking a key up in a printed file gives the value of its first binding, or the empty string. */
  lemma LookupUndoesPrint(items: seq<Item>, key: string)
    requires forall i :: 0 <= i < |items| ==> WellFormed(items[i])
    requires |Print(items)| <= MAX_SIZE && exists i :: 0 <= i < |items| && |PrintItem(items[i])| > 0
    ensures Lookup(Print(items), key) == Value(FirstValue(items, key))
  {
    PrintHasNoNul(items);
    var text := Print(items);
    assert text[..IndexOf(text, NUL)] == text;
    HasALine(items);
    FindInPrinted(items, key);
  }

  lemma {:induction false} HasALine(items: seq<Item>)
    requires forall i :: 0 <= i < |items| ==> WellFormed(items[i])
    requires exists i :: 0 <= i < |items| && |PrintItem(items[i])| > 0
    ensures |Lines(Print(items))| > 0
  {
    PrintedIsOneLine(items[0]);
    LinesOfLine(PrintItem(items[0]), Print(items[1..]));
    if |PrintItem(items[0])| == 0 {
      var i :| 0 <= i < |items| && |PrintItem(items[i])| > 0;
      assert items[1..][i - 1] == items[i];
      HasALine(items[1..]);
    }
  }
}

/**
 The configuration reader of install.c as it runs: a NUL-terminated buffer cut up in place by strtok
 and by the NULs the trimming writes, refining the lookup on texts.
 Positions in the buffer stand for the C pointers.
 */
module ConfigReader {
  import opened ConfigText

  /** A C string occupies b[p .. e]: no NUL inside, one at e. */
  predicate IsCString(b: array<char>, p: nat, e: nat)
    reads b
  {
    p <= e < b.Length && b[e] == NUL && forall i :: p <= i < e ==> b[i] != NUL
  }

  // ---------------------------------------------------------------- the C library on buffers

  /** while (*p && isspace(*p)) ++p */
  method SkipSpaces(b: array<char>, p: nat, ghost e: nat) returns (q: nat)
    requires IsCString(b, p, e)
    ensures p <= q <= e && b[q..e] == TrimLeft(b[p..e]) && (q < e ==> !IsSpace(b[q]))
  {
    q := p;
    while b[q] != NUL && IsSpace(b[q])
      invariant p <= q <= e && TrimLeft(b[q..e]) == TrimLeft(b[p..e])
      decreases e - q
    {
      assert b[q..e][1..] == b[q + 1..e];
      q := q + 1;
    }
  }

  /** strchr(p, c): the position of c, or the end of the string when there is none (NULL in C). */
  method StrChr(b: array<char>, p: nat, c: char, ghost e: nat) returns (q: nat, found: bool)
    requires IsCString(b, p, e) && c != NUL
    ensures q == p + IndexOf(b[p..e], c) && found == (q < e)
  {
    q := p;
    while b[q] != NUL && b[q] != c
      invariant p <= q <= e && q + IndexOf(b[q..e], c) == p + IndexOf(b[p..e], c)
      decreases e - q
    {
      assert b[q..e][1..] == b[q + 1..e];
      q := q + 1;
    }
    found := b[q] == c;
  }

  method StrLen(b: array<char>, p: nat, ghost e: nat) returns (n: nat)
    requires IsCString(b, p, e)
    ensures n == e - p
  {
    n := 0;
    while b[p + n] != NUL
      invariant p + n <= e
      decreases e - n
    {
      n := n + 1;
    }
  }

  /** strcmp(key, p) == 0 */
  method StrEq(key: string, b: array<char>, p: nat, ghost e: nat) returns (eq: bool)
    requires IsCString(b, p, e) && NUL !in key
    ensures eq == (key == b[p..e])
  {
    var i := 0;
    while i < |key| && b[p + i] == key[i]
      invariant i <= |key| && p + i <= e && key[..i] == b[p..p + i]
    {
      assert key[i] in key;
      i := i + 1;
    }
    eq := i == |key| && b[p + i] == NUL;
    assert i == |key| ==> key == key[..i];
    assert key == b[p..e] ==> forall k :: 0 <= k < |key| ==> key[k] == b[p + k];
  }

  /** while (last > first && isspace(*last)) --last; last[1] = NUL, on the text b[first .. stop]. */
  method TrimEnd(b: array<char>, first: nat, stop: nat) returns (end: nat)
    requires first <= stop < b.Length && (first < stop ==> !IsSpace(b[first]))
    requires forall i :: first <= i < stop ==> b[i] != NUL
    modifies b
    ensures first <= end <= stop && b[first..end] == TrimRight(old(b[first..stop]))
    ensures IsCString(b, first, end)
    ensures forall i :: 0 <= i < b.Length && i != end ==> b[i] == old(b[i])
  {
    var last := stop - 1;
    ghost var text := b[first..stop];
    while last > first && IsSpace(b[last])
      invariant first - 1 <= last < stop && (first < stop ==> first <= last)
      invariant TrimRight(b[first..last + 1]) == TrimRight(text) && b[..] == old(b[..])
    {
      assert b[first..last + 1][..last - first] == b[first..last];
      last := last - 1;
    }
    end := last + 1;
    b[end] := NUL;
    assert b[first..end] == old(b[first..end]);
  }

  /** strtok on the newline: the next line from position p, cut off in place. */
  method NextLine(b: array<char>, p: nat, ghost e: nat) returns (found: bool, line: nat, ghost stop: nat, save: nat)
    requires IsCString(b, p, e)
    modifies b
    ensures found == (|Lines(old(b[p..e]))| > 0)
    ensures found ==> p <= line < stop <= save <= e && IsCString(b, line, stop)
    ensures found ==> (save == stop + 1 || save == stop == e) && IsCString(b, save, e)
    ensures found ==> b[line..stop] == old(b[line..stop]) && b[save..e] == old(b[save..e])
    ensures found ==> Lines(old(b[p..e])) == [old(b[line..stop])] + Lines(old(b[save..e]))
  {
    hide Lines;
    hide IndexOf;
    line := SkipNewlines(b, p, e);
    found := b[line] != NUL;
    if !found {
      LinesEmpty(b[line..e]);
      stop, save := line, line;
      return;
    }
    var q, cut := StrChr(b, line, NEWLINE, e);
    stop := q;
    FirstLine(b[line..e], stop - line);
    assert b[line..e][..stop - line] == b[line..stop] && b[line..e][stop - line..] == b[stop..e];
    if cut {
      assert b[stop..e][1..] == b[stop + 1..e];
      b[q] := NUL;
      save := q + 1;
    } else {
      save := q;
    }
  }

  lemma LinesEmpty(text: string)
    requires text == []
    ensures Lines(text) == []
  {
  }

  /** The first line of a text that does not start with a newline, and the lines after it. */
  lemma FirstLine(text: string, n: nat)
    requires |text| > 0 && text[0] != NEWLINE && n == IndexOf(text, NEWLINE)
    ensures 0 < n <= |text|
    ensures Lines(text) == [text[..n]] + Lines(text[n..])
    ensures n < |text| ==> Lines(text[n..]) == Lines(text[n..][1..])
  {
  }

  method SkipNewlines(b: array<char>, p: nat, ghost e: nat) returns (q: nat)
    requires IsCString(b, p, e)
    ensures p <= q <= e && b[q] != NEWLINE && Lines(b[q..e]) == Lines(b[p..e])
  {
    q := p;
    while b[q] == NEWLINE
      invariant p <= q <= e && Lines(b[q..e]) == Lines(b[p..e])
      decreases e - q
    {
      assert b[q..e][1..] == b[q + 1..e];
      q := q + 1;
    }
  }

  // ---------------------------------------------------------------- the reader

  datatype Step = Continue | Done(outcome: Outcome)

  /** Cuts the key off before the '=' and compares it. */
  method TestKey(b: array<char>, start: nat, equal: nat, key: string) returns (same: bool)
    requires start <= equal < b.Length && (start < equal ==> !IsSpace(b[start])) && NUL !in key
    requires forall i :: start <= i < equal ==> b[i] != NUL
    modifies b
    ensures same == (key == TrimRight(old(b[start..equal])))
    ensures forall i :: 0 <= i < b.Length && !(start <= i <= equal) ==> b[i] == old(b[i])
  {
    var keyEnd := TrimEnd(b, start, equal);
    same := StrEq(key, b, start, keyEnd);
  }

  /** The value from position p to the end of the line, trimmed in place. */
  method ReadValue(b: array<char>, p: nat, ghost stop: nat) returns (value: string)
    requires IsCString(b, p, stop)
    modifies b
    ensures value == TrimRight(TrimLeft(old(b[p..stop]))) && b[stop] == NUL
    ensures forall i :: 0 <= i < b.Length && !(p <= i <= stop) ==> b[i] == old(b[i])
  {
    var first := SkipSpaces(b, p, stop);
    var n := StrLen(b, first, stop);
    var end := TrimEnd(b, first, first + n);
    value := b[first..end];
  }

  /** What a line means, from the line without its leading blanks. */
  lemma ParseTrimmed(line: string, l: string)
    requires l == TrimLeft(line)
    ensures |l| == 0 || l[0] == '#' ==> ParseLine(line) == Skipped
    ensures |l| > 0 && l[0] != '#' && IndexOf(l, '=') == |l| ==> ParseLine(line) == Bad(l)
    ensures |l| > 0 && l[0] != '#' && IndexOf(l, '=') < |l| ==>
              var e := IndexOf(l, '=');
              ParseLine(line) == Bound(TrimRight(l[..e]), TrimRight(TrimLeft(l[e + 1..])))
  {
  }

  /** The body of the loop on one line, b[line .. stop]. */
  method HandleLine(b: array<char>, line: nat, key: string, ghost stop: nat) returns (step: Step)
    requires IsCString(b, line, stop) && NUL !in key
    modifies b
    ensures forall i :: 0 <= i < b.Length && !(line <= i <= stop) ==> b[i] == old(b[i])
    ensures b[stop] == NUL
    ensures step == StepFor(ParseLine(old(b[line..stop])), key)
  {
    hide ParseLine;
    hide TrimLeft;
    hide TrimRight;
    hide IndexOf;
    var start := SkipSpaces(b, line, stop);
    ghost var l := b[start..stop];
    ParseTrimmed(b[line..stop], l);
    if b[start] == NUL || b[start] == '#' {
      return Continue;
    }
    var equal, found := StrChr(b, start, '=', stop);
    if !found {
      var n := StrLen(b, start, stop);
      return Done(Malformed(b[start..start + n]));
    }
    ghost var e := equal - start;
    assert l[..e] == b[start..equal] && l[e + 1..] == b[equal + 1..stop];
    step := HandleBinding(b, start, equal, key, stop);
  }

  /** A line b[start .. stop] that has its '=' at equal. */
  method HandleBinding(b: array<char>, start: nat, equal: nat, key: string, ghost stop: nat) returns (step: Step)
    requires IsCString(b, start, stop) && start <= equal < stop && !IsSpace(b[start]) && NUL !in key
    modifies b
    ensures forall i :: 0 <= i < b.Length && !(start <= i <= stop) ==> b[i] == old(b[i])
    ensures b[stop] == NUL
    ensures step == if TrimRight(old(b[start..equal])) == key
                    then Done(Value(TrimRight(TrimLeft(old(b[equal + 1..stop]))))) else Continue
  {
    var same := TestKey(b, start, equal, key);
    if !same {
      return Continue;
    }
    assert b[equal + 1..stop] == old(b[equal + 1..stop]);
    var value := ReadValue(b, equal + 1, stop);
    step := Done(Value(value));
  }

  function StepFor(p: Parsed, key: string): Step {
    match p
    case Skipped => Continue
    case Bad(l) => Done(Malformed(l))
    case Bound(k, v) => if k == key then Done(Value(v)) else Continue
  }

  /** Looks the key up in a file's contents; key is a C string. */
  method GetCfg(file: string, key: string) returns (out: Outcome)
    requires NUL !in key
    ensures out == Lookup(file, key)
  {
    hide Lines;
    hide IndexOf;
    if |file| > MAX_SIZE {
      return TooLarge;
    }
    var buffer := Load(file);
    ghost var end := IndexOf(file, NUL);
    assert buffer[0..end] == CString(file);
    var found, line, stop, save := NextLine(buffer, 0, end);
    if !found {
      return NullDereference;
    }
    ghost var all := Find(Lines(CString(file)), key);
    while true
      invariant line < stop <= save <= end && (save == stop + 1 || save == stop == end)
      invariant IsCString(buffer, line, stop) && IsCString(buffer, save, end)
      invariant all == Find([buffer[line..stop]] + Lines(buffer[save..end]), key)
      decreases end - line
    {
      ghost var text, after := buffer[line..stop], buffer[save..end];
      ghost var rest := Lines(after);
      assert ([text] + rest)[0] == text && ([text] + rest)[1..] == rest;
      var step := HandleLine(buffer, line, key, stop);
      if step.Done? {
        return step.outcome;
      }
      assert buffer[save..end] == after;
      found, line, stop, save := NextLine(buffer, save, end);
      if !found {
        return Value("");
      }
    }
  }

  /** The file's bytes followed by a terminating NUL. */
  method Load(file: string) returns (buffer: array<char>)
    ensures fresh(buffer) && buffer[..] == file + [NUL]
    ensures IsCString(buffer, 0, IndexOf(file, NUL))
  {
    buffer := new char[|file| + 1];
    for i := 0 to |file|
      invariant buffer[..i] == file[..i]
    {
      buffer[i] := file[i];
    }
    buffer[|file|] := NUL;
    ghost var e := IndexOf(file, NUL);
    forall i | 0 <= i < e ensures buffer[i] != NUL {
      assert buffer[i] == file[i] && file[i] in file[..e];
    }
  }
}

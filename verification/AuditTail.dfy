// The audit log: JSON lines appended to a file that rotates, and a tail reader that looks
// only at a window before the end of the file.
module AuditTail {
  import opened Options

  newtype byte = b: int | 0 <= b < 256

  const NL: byte := 10
  const CR: byte := 13
  const CHUNK := 64 * 1024
  const ENTRY := 512

  // ------------------------------------------------------------------ lines

  // The length of the line break at position i, if there is one: what str.splitlines()
  // breaks on once the bytes are decoded as UTF-8 (line feed, vertical tab, form feed,
  // carriage return with or without a line feed, the separators 1C-1E, U+0085, U+2028, U+2029).
  function BreakAt(s: seq<byte>, i: nat): nat
    requires i < |s|
    ensures i + BreakAt(s, i) <= |s|
  {
    if s[i] == CR then if i + 1 < |s| && s[i + 1] == NL then 2 else 1
    else if 10 <= s[i] <= 12 || 28 <= s[i] <= 30 then 1
    else if s[i] == 0xC2 && i + 1 < |s| && s[i + 1] == 0x85 then 2
    else if s[i] == 0xE2 && i + 2 < |s| && s[i + 1] == 0x80 && (s[i + 2] == 0xA8 || s[i + 2] == 0xA9) then 3
    else 0
  }

  // The lines from position i on; `start` is where the current line began.
  function LinesFrom(s: seq<byte>, start: nat, i: nat): seq<seq<byte>>
    requires start <= i <= |s|
    decreases |s| - i
  {
    if i == |s| then if start == i then [] else [s[start..]]
    else
      var n := BreakAt(s, i);
      if n == 0 then LinesFrom(s, start, i + 1) else [s[start..i]] + LinesFrom(s, i + n, i + n)
  }

  function Lines(s: seq<byte>): seq<seq<byte>> { LinesFrom(s, 0, 0) }

  function Newlines(s: seq<byte>): nat {
    if s == [] then 0 else (if s[0] == NL then 1 else 0) + Newlines(s[1..])
  }

  function Last<T>(s: seq<T>, n: nat): seq<T> { if |s| <= n then s else s[|s| - n..] }

  ghost predicate Splits(s: seq<byte>, p: seq<byte>, q: seq<byte>, start: nat, i: nat)
    requires s == p + q && start <= i <= |p|
  {
    LinesFrom(s, start, i) == LinesFrom(p, start, i) + Lines(q)
  }

  lemma SplitStep(s: seq<byte>, p: seq<byte>, q: seq<byte>, start: nat, i: nat, n: nat)
    requires s == p + q && start <= i < |p| && p[|p| - 1] == NL && n == BreakAt(p, i)
    requires if n == 0 then Splits(s, p, q, start, i + 1) else Splits(s, p, q, i + n, i + n)
    ensures Splits(s, p, q, start, i)
  {
    BreakBeforeNewline(s, p, q, i);
    LinesStep(p, start, i, n);
    LinesStep(s, start, i, n);
    if n > 0 {
      assert s[start..i] == p[start..i];
      Regroup([p[start..i]], LinesFrom(p, i + n, i + n), Lines(q));
    }
  }

  // A line feed is always a complete break of its own end: what follows it splits alone.
  lemma {:induction false} SplitAfterNewline(s: seq<byte>, p: seq<byte>, q: seq<byte>, start: nat, i: nat)
    requires s == p + q && start <= i <= |p| && |p| > 0 && p[|p| - 1] == NL
    requires i == |p| ==> start == i
    ensures Splits(s, p, q, start, i)
    decreases |p| - i
  {
    if i == |p| {
      Shift(s, |p|, q, 0, 0);
    } else {
      var n := BreakAt(p, i);
      if n == 0 {
        SplitAfterNewline(s, p, q, start, i + 1);
      } else {
        SplitAfterNewline(s, p, q, i + n, i + n);
      }
      SplitStep(s, p, q, start, i, n);
    }
  }

  lemma BreakBeforeNewline(s: seq<byte>, p: seq<byte>, q: seq<byte>, i: nat)
    requires s == p + q && i < |p| && p[|p| - 1] == NL
    ensures BreakAt(s, i) == BreakAt(p, i)
  {
  }

  lemma BreakShifted(s: seq<byte>, d: nat, q: seq<byte>, i: nat)
    requires d + |q| == |s| && s[d..] == q && i < |q|
    ensures BreakAt(s, d + i) == BreakAt(q, i)
  {
    assert s[d + i] == s[d..][i];
    assert i + 1 < |q| ==> s[d + i + 1] == s[d..][i + 1];
    assert i + 2 < |q| ==> s[d + i + 2] == s[d..][i + 2];
  }

  lemma SliceShifted(s: seq<byte>, d: nat, q: seq<byte>, start: nat, i: nat)
    requires d + |q| == |s| && s[d..] == q && start <= i <= |q|
    ensures s[d + start..d + i] == q[start..i]
  {
    assert s[d..][start..i] == s[d + start..d + i];
  }

  lemma LinesEnd(s: seq<byte>, start: nat)
    requires start <= |s|
    ensures LinesFrom(s, start, |s|) == if start == |s| then [] else [s[start..|s|]]
  {
    assert s[start..] == s[start..|s|];
  }

  // What LinesFrom does at one position, without unfolding it further.
  lemma LinesStep(s: seq<byte>, start: nat, i: nat, n: nat)
    requires start <= i < |s| && n == BreakAt(s, i)
    ensures LinesFrom(s, start, i) ==
            if n == 0 then LinesFrom(s, start, i + 1) else [s[start..i]] + LinesFrom(s, i + n, i + n)
  {
  }

  ghost predicate SameLines(s: seq<byte>, d: nat, q: seq<byte>, start: nat, i: nat)
    requires d + |q| == |s| && start <= i <= |q|
  {
    LinesFrom(s, d + start, d + i) == LinesFrom(q, start, i)
  }

  lemma ShiftStep(s: seq<byte>, d: nat, q: seq<byte>, start: nat, i: nat, n: nat)
    requires d + |q| == |s| && s[d..] == q && start <= i < |q| && n == BreakAt(q, i)
    requires if n == 0 then SameLines(s, d, q, start, i + 1) else SameLines(s, d, q, i + n, i + n)
    ensures SameLines(s, d, q, start, i)
  {
    BreakShifted(s, d, q, i);
    SliceShifted(s, d, q, start, i);
    LinesStep(q, start, i, n);
    LinesStep(s, d + start, d + i, n);
  }

  lemma {:induction false} Shift(s: seq<byte>, d: nat, q: seq<byte>, start: nat, i: nat)
    requires d + |q| == |s| && s[d..] == q && start <= i <= |q|
    ensures SameLines(s, d, q, start, i)
    decreases |q| - i
  {
    if i == |q| {
      SliceShifted(s, d, q, start, |q|);
      LinesEnd(s, d + start);
      LinesEnd(q, start);
    } else {
      var n := BreakAt(q, i);
      if n == 0 {
        Shift(s, d, q, start, i + 1);
      } else {
        Shift(s, d, q, i + n, i + n);
      }
      ShiftStep(s, d, q, start, i, n);
    }
  }

  // There are at least as many lines as line feeds.
  lemma {:induction false} NewlinesMakeLines(s: seq<byte>, start: nat, i: nat)
    requires start <= i <= |s|
    ensures |LinesFrom(s, start, i)| >= Newlines(s[i..])
    decreases |s| - i
  {
    if i < |s| {
      assert s[i..][1..] == s[i + 1..];
      var n := BreakAt(s, i);
      if n == 0 {
        NewlinesMakeLines(s, start, i + 1);
      } else {
        NewlinesMakeLines(s, i + n, i + n);
        OneNewlinePerBreak(s, i);
      }
    }
  }

  lemma OneNewlinePerBreak(s: seq<byte>, i: nat)
    requires i < |s| && BreakAt(s, i) > 0
    ensures Newlines(s[i..]) <= 1 + Newlines(s[i + BreakAt(s, i)..])
  {
    var n := BreakAt(s, i);
    NewlineAt(s, i);
    if n >= 2 {
      NewlineAt(s, i + 1);
    }
    if n >= 3 {
      NewlineAt(s, i + 2);
    }
  }

  lemma NewlineAt(s: seq<byte>, i: nat)
    requires i < |s|
    ensures Newlines(s[i..]) == (if s[i] == NL then 1 else 0) + Newlines(s[i + 1..])
  {
    assert s[i..][1..] == s[i + 1..];
  }

  // ------------------------------------------------------------------ the window is enough

  lemma {:induction false} FirstNewline(s: seq<byte>) returns (k: nat)
    requires Newlines(s) > 0
    ensures k < |s| && s[k] == NL && Newlines(s[k + 1..]) == Newlines(s) - 1
  {
    if s[0] == NL {
      k := 0;
    } else {
      k := FirstNewline(s[1..]);
      k := k + 1;
      assert s[1..][k..] == s[k + 1..];
    }
  }

  lemma LastOfConcat<T>(a: seq<T>, b: seq<T>, n: nat)
    requires |b| >= n
    ensures Last(a + b, n) == Last(b, n)
  {
    assert (a + b)[|a + b| - n..] == b[|b| - n..];
  }

  // A window holding more line feeds than lines wanted ends in the same lines as the file.
  lemma WindowIsEnough(before: seq<byte>, chunk: seq<byte>, limit: nat)
    requires Newlines(chunk) > limit
    ensures Last(Lines(chunk), limit) == Last(Lines(before + chunk), limit)
  {
    var k := FirstNewline(chunk);
    var head, rest := chunk[..k + 1], chunk[k + 1..];
    NewlinesMakeLines(rest, 0, 0);
    assert rest[0..] == rest;
    EndsIn(chunk, head, rest, limit);
    assert before + chunk == (before + head) + rest;
    EndsIn(before + chunk, before + head, rest, limit);
  }

  lemma EndsIn(s: seq<byte>, head: seq<byte>, rest: seq<byte>, limit: nat)
    requires s == head + rest && |head| > 0 && head[|head| - 1] == NL && |Lines(rest)| >= limit
    ensures Last(Lines(s), limit) == Last(Lines(rest), limit)
  {
    SplitAfterNewline(s, head, rest, 0, 0);
    LastOfConcat(Lines(head), Lines(rest), limit);
  }

  // ------------------------------------------------------------------ the reader

  function Min(a: int, b: int): int { if a <= b then a else b }
  function Max(a: int, b: int): int { if a >= b then a else b }

  function Clamp(limit: int, maxTail: int): int { Max(1, Min(limit, maxTail)) }

  method CountNewlines(s: seq<byte>) returns (n: nat)
    ensures n == Newlines(s)
  {
    n := 0;
    for i := 0 to |s|
      invariant n + Newlines(s[i..]) == Newlines(s)
    {
      assert s[i..][1..] == s[i + 1..];
      if s[i] == NL {
        n := n + 1;
      }
    }
  }

  // Doubles a window before the end of the file until it holds enough.
  method ReadTailBytes(file: seq<byte>, limit: nat) returns (chunk: seq<byte>)
    ensures |chunk| <= |file| && chunk == file[|file| - |chunk|..]
    ensures chunk == file || Newlines(chunk) > limit
  {
    var size := |file|;
    var window := Min(size, Max(CHUNK, limit * ENTRY));
    while true
      invariant 0 <= window <= size && (size > 0 ==> window > 0)
      decreases size - window
    {
      chunk := file[size - window..];
      var n := CountNewlines(chunk);
      if window >= size || n > limit {
        return;
      }
      window := Min(size, window * 2);
    }
  }

  // The entries a list of lines holds, newest first; lines that do not parse are skipped.
  function Parsed<E>(lines: seq<seq<byte>>, parse: seq<byte> -> Option<E>): seq<E> {
    if lines == [] then [] else Entry(lines[|lines| - 1], parse) + Parsed(lines[..|lines| - 1], parse)
  }

  function Entry<E>(line: seq<byte>, parse: seq<byte> -> Option<E>): seq<E> {
    if parse(line).Some? then [parse(line).value] else []
  }

  // What tail() means: over the whole file, if there is one.
  function TailOf<E>(file: Option<seq<byte>>, limit: int, maxTail: int, parse: seq<byte> -> Option<E>): seq<E> {
    if file.None? then [] else Parsed(Last(Lines(file.value), Clamp(limit, maxTail)), parse)
  }

  function Reversed<E>(s: seq<E>): seq<E> { if s == [] then [] else [s[|s| - 1]] + Reversed(s[..|s| - 1]) }

  lemma {:induction false} ReversedConcat<E>(s: seq<E>, e: E)
    ensures Reversed(s + [e]) == [e] + Reversed(s)
  {
    assert (s + [e])[..|s|] == s;
  }

  lemma ParsedNext<E>(lines: seq<seq<byte>>, i: nat, parse: seq<byte> -> Option<E>)
    requires i < |lines|
    ensures Parsed(lines[..i + 1], parse) ==
            (if parse(lines[i]).Some? then [parse(lines[i]).value] else []) + Parsed(lines[..i], parse)
  {
    assert lines[..i + 1][..i] == lines[..i];
  }

  class AuditLog {
    const maxTail: int
    const maxBytes: int
    var file: Option<seq<byte>>     // the log, if it exists
    var previous: Option<seq<byte>> // the one rotated generation

    constructor (maxTail: int, maxBytes: int, file: Option<seq<byte>>, previous: Option<seq<byte>>)
      ensures this.maxTail == maxTail && this.maxBytes == maxBytes && this.file == file && this.previous == previous
    {
      this.maxTail, this.maxBytes, this.file, this.previous := maxTail, maxBytes, file, previous;
    }

    // Reading a bounded window from the end is the same as reading everything, for every file
    // content and every limit.
    method Tail<E>(limit: int, parse: seq<byte> -> Option<E>) returns (entries: seq<E>)
      ensures entries == TailOf(file, limit, maxTail, parse)
    {
      var n := Clamp(limit, maxTail);
      if file.None? {
        return [];
      }
      var chunk := ReadTailBytes(file.value, n);
      ghost var before := file.value[..|file.value| - |chunk|];
      assert before + chunk == file.value;
      if chunk != file.value {
        WindowIsEnough(before, chunk, n);
      }
      var lines := Last(Lines(chunk), n);
      entries := [];
      for i := 0 to |lines|
        invariant Reversed(entries) == Parsed(lines[..i], parse)
      {
        ParsedNext(lines, i, parse);
        var entry := parse(lines[i]);
        if entry.Some? {
          ReversedConcat(entries, entry.value);
          entries := entries + [entry.value];
        }
      }
      assert lines[..|lines|] == lines;
      entries := Reversed(entries);
    }

    // Appends one line, rotating first when the file has reached its size. A failed rotation
    // does not stop the append; a failed append changes nothing but the rotation.
    method Record(line: seq<byte>, rotates: bool, appends: bool)
      modifies this
      ensures var full := old(file).Some? && |old(file).value| >= maxBytes && rotates;
              var base := if full || old(file).None? then [] else old(file).value;
              && previous == (if full then old(file) else old(previous))
              && file == if appends then Some(base + line + [NL]) else if full then None else old(file)
    {
      if file.Some? && |file.value| >= maxBytes && rotates {
        previous := file;
        file := None;
      }
      if appends {
        file := Some((if file.Some? then file.value else []) + line + [NL]);
      }
    }
  }

  // ------------------------------------------------------------------ record, then tail

  // A serialised entry starts with an ASCII character and contains no line break.
  ghost predicate OneLine(line: seq<byte>) {
    line != [] && line[0] < 128 && line[0] != NL && forall i :: 0 <= i < |line| ==> BreakAt(line, i) == 0
  }

  // The part of a file after its last line break.
  function TornFrom(s: seq<byte>, start: nat, i: nat): seq<byte>
    requires start <= i <= |s|
    decreases |s| - i
  {
    if i == |s| then s[start..]
    else
      var n := BreakAt(s, i);
      if n == 0 then TornFrom(s, start, i + 1) else TornFrom(s, i + n, i + n)
  }

  function Torn(s: seq<byte>): seq<byte> { TornFrom(s, 0, 0) }

  lemma {:induction false} LineRuns(s: seq<byte>, start: nat, i: nat, line: seq<byte>)
    requires start <= i <= |s| && s[i..] == line + [NL] && forall j :: i <= j < |s| - 1 ==> BreakAt(s, j) == 0
    ensures LinesFrom(s, start, i) == [s[start..|s| - 1]]
    decreases |s| - i
  {
    assert s[|s| - 1] == s[i..][|line|] == NL;
    if i < |s| - 1 {
      assert s[i + 1..] == line[1..] + [NL];
      LineRuns(s, start, i + 1, line[1..]);
    }
  }

  lemma BreakBeforeLine(s: seq<byte>, base: seq<byte>, line: seq<byte>, i: nat)
    requires s == base + line + [NL] && OneLine(line) && i < |base|
    ensures BreakAt(s, i) == BreakAt(base, i)
  {
    assert s[|base|] == line[0];
  }

  lemma LineAppended(s: seq<byte>, base: seq<byte>, line: seq<byte>, start: nat)
    requires s == base + line + [NL] && OneLine(line) && start <= |base|
    ensures LinesFrom(s, start, |base|) == [base[start..] + line]
  {
    var i := |base|;
    assert s[i..] == line + [NL];
    forall j | i <= j < |s| - 1 ensures BreakAt(s, j) == 0 {
      assert s[j] == line[j - i] && BreakAt(line, j - i) == 0;
    }
    LineRuns(s, start, i, line);
    assert s[start..|s| - 1] == base[start..] + line;
  }

  ghost predicate GluedTo(s: seq<byte>, base: seq<byte>, line: seq<byte>, start: nat, i: nat)
    requires start <= i <= |base| <= |s|
  {
    Last(LinesFrom(s, start, i), 1) == [TornFrom(base, start, i) + line]
  }

  lemma GlueStep(s: seq<byte>, base: seq<byte>, line: seq<byte>, start: nat, i: nat, n: nat)
    requires s == base + line + [NL] && OneLine(line) && start <= i < |base| && n == BreakAt(base, i)
    requires if n == 0 then GluedTo(s, base, line, start, i + 1) else GluedTo(s, base, line, i + n, i + n)
    ensures GluedTo(s, base, line, start, i)
  {
    BreakBeforeLine(s, base, line, i);
    LinesStep(s, start, i, n);
  }

  // Whatever the file ends in, the next record is glued to what was torn.
  lemma {:induction false} AppendedLine(s: seq<byte>, base: seq<byte>, line: seq<byte>, start: nat, i: nat)
    requires s == base + line + [NL] && OneLine(line) && start <= i <= |base|
    ensures GluedTo(s, base, line, start, i)
    decreases |base| - i
  {
    if i == |base| {
      LineAppended(s, base, line, start);
    } else {
      var n := BreakAt(base, i);
      if n == 0 {
        AppendedLine(s, base, line, start, i + 1);
      } else {
        AppendedLine(s, base, line, i + n, i + n);
      }
      GlueStep(s, base, line, start, i, n);
    }
  }

  function AllButLast<T>(s: seq<T>): seq<T> { if s == [] then [] else s[..|s| - 1] }

  // The last line of a file just appended to is the record, glued to what was torn.
  lemma NewestLine(base: seq<byte>, line: seq<byte>, n: nat)
    requires OneLine(line) && n > 0
    ensures var lines := Last(Lines(base + line + [NL]), n); lines != [] && lines[|lines| - 1] == Torn(base) + line
  {
    AppendedLine(base + line + [NL], base, line, 0, 0);
    var all := Lines(base + line + [NL]);
    assert Last(all, 1) == [Torn(base) + line];
    assert Last(all, 1)[0] == all[|all| - 1];
  }

  // A record just appended comes first in what tail() shows exactly when the parser makes it
  // out through what a write cut off before it left behind; other entries follow it as before.
  lemma RecordedIsNewest<E>(base: seq<byte>, line: seq<byte>, limit: int, maxTail: int, parse: seq<byte> -> Option<E>, entry: E)
    requires OneLine(line)
    ensures var file, n, read := base + line + [NL], Clamp(limit, maxTail), parse(Torn(base) + line);
            var shown, earlier := TailOf(Some(file), limit, maxTail, parse), Parsed(AllButLast(Last(Lines(file), n)), parse);
            && (shown == [entry] + earlier <==> read == Some(entry))
            && (shown == earlier <==> read.None?)
    ensures Torn(base) == [] ==> Torn(base) + line == line
  {
    NewestLine(base, line, Clamp(limit, maxTail));
    var file := base + line + [NL];
    var lines := Last(Lines(file), Clamp(limit, maxTail));
    var shown, earlier := TailOf(Some(file), limit, maxTail, parse), Parsed(AllButLast(lines), parse);
    var read := parse(Torn(base) + line);
    if read.Some? {
      assert shown == [read.value] + earlier && |shown| == 1 + |earlier|;
      assert shown == [entry] + earlier ==> shown[0] == entry;
    } else {
      assert shown == earlier && |[entry] + earlier| == 1 + |earlier|;
    }
  }

  // A file whose last record was completed has nothing torn.
  lemma {:induction false} CompletedIsNotTorn(s: seq<byte>, start: nat, i: nat)
    requires start <= i <= |s| && (i < |s| ==> s[|s| - 1] == NL) && (i == |s| ==> start == i)
    ensures TornFrom(s, start, i) == []
    decreases |s| - i
  {
    if i < |s| {
      var n := BreakAt(s, i);
      if n == 0 {
        CompletedIsNotTorn(s, start, i + 1);
      } else {
        CompletedIsNotTorn(s, i + n, i + n);
      }
    }
  }

  // ------------------------------------------------------------------ what tail() shows

  // Every byte string that ends a line.
  predicate EndsLine(b: seq<byte>) {
    b in {[10], [11], [12], [13], [13, 10], [28], [29], [30], [0xC2, 0x85], [0xE2, 0x80, 0xA8], [0xE2, 0x80, 0xA9]}
  }

  // A break is recognised only where one of them stands, at its length,
  lemma BreakIsOne(s: seq<byte>, i: nat)
    requires i < |s| && BreakAt(s, i) > 0
    ensures i + BreakAt(s, i) <= |s| && EndsLine(s[i..i + BreakAt(s, i)])
  {
    var n := BreakAt(s, i);
    if n == 1 {
      assert s[i..i + 1] == [s[i]];
    } else if n == 2 {
      assert s[i..i + 2] == [s[i], s[i + 1]];
    } else {
      assert s[i..i + 3] == [s[i], s[i + 1], s[i + 2]];
    }
  }

  // and wherever one of them stands, in full.
  lemma OneIsABreak(s: seq<byte>, i: nat, b: seq<byte>)
    requires i + |b| <= |s| && EndsLine(b) && s[i..i + |b|] == b
    ensures |b| <= BreakAt(s, i)
  {
    assert s[i..i + |b|][0] == s[i] == b[0];
    if |b| > 1 {
      assert s[i..i + |b|][1] == s[i + 1] == b[1];
    }
    if |b| > 2 {
      assert s[i..i + |b|][2] == s[i + 2] == b[2];
    }
  }

  lemma {:induction false} LineUpToBreak(s: seq<byte>, start: nat, i: nat, end: nat)
    requires start <= i <= end < |s| && BreakAt(s, end) > 0 && forall j :: i <= j < end ==> BreakAt(s, j) == 0
    ensures LinesFrom(s, start, i) == [s[start..end]] + LinesFrom(s, end + BreakAt(s, end), end + BreakAt(s, end))
    decreases end - i
  {
    if i < end {
      LineUpToBreak(s, start, i + 1, end);
    }
  }

  lemma {:induction false} LineToTheEnd(s: seq<byte>, start: nat, i: nat)
    requires start <= i <= |s| && start < |s| && forall j :: i <= j < |s| ==> BreakAt(s, j) == 0
    ensures LinesFrom(s, start, i) == [s[start..]]
    decreases |s| - i
  {
    if i < |s| {
      LineToTheEnd(s, start, i + 1);
    }
  }

  // The lines of a text are what stands before its first break, then the lines of what stands
  // after it; a text without a break is one line, and an empty one none.
  lemma LinesAre(s: seq<byte>)
    ensures s == [] ==> Lines(s) == []
    ensures s != [] && (forall j :: 0 <= j < |s| ==> BreakAt(s, j) == 0) ==> Lines(s) == [s]
    ensures forall end :: 0 <= end < |s| && BreakAt(s, end) > 0 && (forall j :: 0 <= j < end ==> BreakAt(s, j) == 0) ==>
              Lines(s) == [s[..end]] + Lines(s[end + BreakAt(s, end)..])
  {
    if s != [] && forall j :: 0 <= j < |s| ==> BreakAt(s, j) == 0 {
      LineToTheEnd(s, 0, 0);
      assert s[0..] == s;
    }
    forall end | 0 <= end < |s| && BreakAt(s, end) > 0 && forall j :: 0 <= j < end ==> BreakAt(s, j) == 0
      ensures Lines(s) == [s[..end]] + Lines(s[end + BreakAt(s, end)..])
    {
      LineUpToBreak(s, 0, 0, end);
      var n := end + BreakAt(s, end);
      Shift(s, n, s[n..], 0, 0);
      assert s[0..end] == s[..end];
    }
  }

  // How many lines a limit asks for: itself, at least one, at most the log's own maximum.
  function Wanted(limit: int, maxTail: int): int {
    if limit < 1 || maxTail < 1 then 1 else if limit > maxTail then maxTail else limit
  }

  lemma {:induction false} ParsedAll<E>(lines: seq<seq<byte>>, parse: seq<byte> -> Option<E>)
    requires forall i :: 0 <= i < |lines| ==> parse(lines[i]).Some?
    ensures |Parsed(lines, parse)| == |lines|
    ensures forall k :: 0 <= k < |lines| ==> parse(lines[|lines| - 1 - k]) == Some(Parsed(lines, parse)[k])
  {
    if lines != [] {
      var init := lines[..|lines| - 1];
      ParsedAll(init, parse);
      var rest := Parsed(init, parse);
      assert Parsed(lines, parse) == [parse(lines[|lines| - 1]).value] + rest;
      forall k | 0 <= k < |lines| ensures parse(lines[|lines| - 1 - k]) == Some(Parsed(lines, parse)[k]) {
        if k > 0 {
          assert lines[|lines| - 1 - k] == init[|init| - 1 - (k - 1)];
        }
      }
    }
  }

  lemma ParsedLast<E>(lines: seq<seq<byte>>, parse: seq<byte> -> Option<E>)
    requires lines != []
    ensures Parsed(lines, parse) == Entry(lines[|lines| - 1], parse) + Parsed(lines[..|lines| - 1], parse)
  {
  }

  lemma {:induction false} ParsedConcat<E>(a: seq<seq<byte>>, b: seq<seq<byte>>, parse: seq<byte> -> Option<E>)
    ensures Parsed(a + b, parse) == Parsed(b, parse) + Parsed(a, parse)
  {
    if b == [] {
      assert a + b == a;
    } else {
      var c, x := b[..|b| - 1], Entry(b[|b| - 1], parse);
      ParsedConcat(a, c, parse);
      assert Parsed(b, parse) == x + Parsed(c, parse) by {
        ParsedLast(b, parse);
      }
      assert Parsed(a + b, parse) == x + Parsed(a + c, parse) by {
        ParsedLast(a + b, parse);
        assert (a + b)[..|a + b| - 1] == a + c;
      }
      Regroup(x, Parsed(c, parse), Parsed(a, parse));
    }
  }

  lemma Regroup<T>(a: seq<T>, b: seq<T>, c: seq<T>)
    ensures a + (b + c) == a + b + c
  {
  }

  // tail() shows the entry of the last line first, the one before it next, and so on, for as
  // many of the file's last lines as are wanted; there are no fewer unless the file is shorter.
  lemma TailIsNewestFirst<E>(file: seq<byte>, limit: int, maxTail: int, parse: seq<byte> -> Option<E>)
    requires forall i :: 0 <= i < |Lines(file)| ==> parse(Lines(file)[i]).Some?
    ensures var lines, shown, n := Lines(file), TailOf(Some(file), limit, maxTail, parse), Wanted(limit, maxTail);
            && |shown| == (if |lines| < n then |lines| else n)
            && forall k :: 0 <= k < |shown| ==> parse(lines[|lines| - 1 - k]) == Some(shown[k])
  {
    ClampIs(limit, maxTail);
    LastParsed(Lines(file), Wanted(limit, maxTail), parse);
  }

  lemma ClampIs(limit: int, maxTail: int)
    ensures Clamp(limit, maxTail) == Wanted(limit, maxTail)
  {
  }

  lemma LastParsed<E>(lines: seq<seq<byte>>, n: nat, parse: seq<byte> -> Option<E>)
    requires forall i :: 0 <= i < |lines| ==> parse(lines[i]).Some?
    ensures var shown := Parsed(Last(lines, n), parse);
            && |shown| == (if |lines| < n then |lines| else n)
            && forall k :: 0 <= k < |shown| ==> parse(lines[|lines| - 1 - k]) == Some(shown[k])
  {
    var last := Last(lines, n);
    forall i | 0 <= i < |last| ensures last[i] == lines[|lines| - |last| + i] {
    }
    ParsedAll(last, parse);
    forall k | 0 <= k < |last| ensures parse(lines[|lines| - 1 - k]) == Some(Parsed(last, parse)[k]) {
      assert last[|last| - 1 - k] == lines[|lines| - 1 - k];
    }
  }

  // A line that does not parse takes one of the places and shows nothing; nothing else moves.
  lemma UnparsableLineIsSkipped<E>(before: seq<seq<byte>>, line: seq<byte>, after: seq<seq<byte>>, parse: seq<byte> -> Option<E>)
    requires parse(line).None?
    ensures Parsed(before + [line] + after, parse) == Parsed(before + after, parse)
  {
    assert Parsed(before + [line], parse) == Parsed(before, parse) by {
      LastUnparsable(before, line, parse);
    }
    ParsedConcat(before + [line], after, parse);
    ParsedConcat(before, after, parse);
  }

  lemma LastUnparsable<E>(before: seq<seq<byte>>, line: seq<byte>, parse: seq<byte> -> Option<E>)
    requires parse(line).None?
    ensures Parsed(before + [line], parse) == Parsed(before, parse)
  {
    var lines := before + [line];
    assert lines[|lines| - 1] == line && lines[..|lines| - 1] == before;
    ParsedLast(lines, parse);
    assert Entry(line, parse) + Parsed(before, parse) == Parsed(before, parse);
  }
}

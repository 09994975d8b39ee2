/** The line framing of the watch stream, ui/src/lib/k8s-client.ts: what is handed to the parser does not depend on
    how the network cut the stream into chunks. */
module WatchStream {

  predicate NoNewline(s: string) {
    forall i :: 0 <= i < |s| ==> s[i] != '\n'
  }

  /** s.split('\n') */
  function Split(s: string): (pieces: seq<string>)
    ensures |pieces| > 0
    ensures forall i :: 0 <= i < |pieces| ==> NoNewline(pieces[i])
  {
    if s == "" then [""]
    else
      var rest := Split(s[1..]);
      if s[0] == '\n' then [""] + rest
      else [[s[0]] + rest[0]] + rest[1..]
  }

  /** pieces.join('\n') */
  function JoinLines(pieces: seq<string>): string
    requires |pieces| > 0
  {
    if |pieces| == 1 then pieces[0] else pieces[0] + "\n" + JoinLines(pieces[1..])
  }

  /** Splitting loses nothing ... */
  lemma {:induction false} SplitThenJoin(s: string)
    ensures JoinLines(Split(s)) == s
  {
    if s != "" {
      var rest := Split(s[1..]);
      SplitThenJoin(s[1..]);
      if s[0] == '\n' {
        assert Split(s)[1..] == rest;
      } else {
        assert Split(s)[1..] == rest[1..];
      }
    }
  }

  /** ... and is the only way to cut a text into newline-free lines. */
  lemma {:induction false} JoinThenSplit(pieces: seq<string>)
    requires |pieces| > 0 && forall i :: 0 <= i < |pieces| ==> NoNewline(pieces[i])
    ensures Split(JoinLines(pieces)) == pieces
    decreases |JoinLines(pieces)|, |pieces|
  {
    var s := JoinLines(pieces);
    if pieces[0] == "" {
      if |pieces| > 1 {
        assert s[1..] == JoinLines(pieces[1..]);
        JoinThenSplit(pieces[1..]);
      }
    } else {
      var shorter := [pieces[0][1..]] + pieces[1..];
      assert shorter[1..] == pieces[1..];
      assert s[1..] == JoinLines(shorter) && s[0] == pieces[0][0];
      JoinThenSplit(shorter);
      assert [s[0]] + shorter[0] == pieces[0];
    }
  }

  /** The newline-terminated lines of a text, and the text after the last newline. */
  function Lines(s: string): seq<string> {
    Split(s)[..|Split(s)| - 1]
  }

  function Tail(s: string): string {
    Split(s)[|Split(s)| - 1]
  }

  lemma SplitLetter(c: char, s: string)
    requires c != '\n'
    ensures Split([c] + s) == [[c] + Split(s)[0]] + Split(s)[1..]
  {
    assert ([c] + s)[1..] == s;
  }

  lemma SplitNewline(s: string)
    ensures Split("\n" + s) == [""] + Split(s)
  {
    assert ("\n" + s)[1..] == s;
  }

  lemma ReplaceFirst(lines: seq<string>, more: seq<string>, m: nat, x: string)
    requires 0 < m <= |lines|
    ensures [x] + (lines[..m] + more)[1..] == ([x] + lines[1..])[..m] + more
  {}

  lemma ChangedFirst(a: seq<string>, first: string)
    requires |a| > 1
    ensures var b := [first] + a[1..];
            b[..|b| - 1] == [first] + a[..|a| - 1][1..] && b[|b| - 1] == a[|a| - 1]
  {}

  /** A letter before a text with a newline changes its first line only. */
  lemma LetterBeforeLines(c: char, rest: string)
    requires c != '\n' && |Split(rest)| > 1
    ensures Lines([c] + rest) == [[c] + Split(rest)[0]] + Lines(rest)[1..] && Tail([c] + rest) == Tail(rest)
  {
    SplitLetter(c, rest);
    ChangedFirst(Split(rest), [c] + Split(rest)[0]);
  }

  lemma AppendToLines(c: char, rest: string, b: string)
    requires c != '\n' && |Split(rest)| > 1 && Split(rest + b) == Lines(rest) + Split(Tail(rest) + b)
    ensures Split([c] + (rest + b)) == Lines([c] + rest) + Split(Tail([c] + rest) + b)
  {
    SplitLetter(c, rest + b);
    LetterBeforeLines(c, rest);
    ReplaceFirst(Split(rest), Split(Tail(rest) + b), |Split(rest)| - 1, [c] + Split(rest)[0]);
  }

  lemma AppendToUnfinished(c: char, rest: string, b: string)
    requires c != '\n' && |Split(rest)| == 1 && Split(rest + b) == Lines(rest) + Split(Tail(rest) + b)
    ensures Split([c] + (rest + b)) == Lines([c] + rest) + Split(Tail([c] + rest) + b)
  {
    SplitLetter(c, rest);
    SplitLetter(c, rest + b);
    SplitLetter(c, Tail(rest) + b);
    assert Tail([c] + rest) + b == [c] + (Tail(rest) + b);
  }

  lemma AppendAfterNewline(rest: string, b: string)
    requires Split(rest + b) == Lines(rest) + Split(Tail(rest) + b)
    ensures Split("\n" + rest + b) == Lines("\n" + rest) + Split(Tail("\n" + rest) + b)
  {
    SplitNewline(rest);
    SplitNewline(rest + b);
    assert "\n" + rest + b == "\n" + (rest + b);
  }

  /** Text that arrives later can only extend the unfinished line. */
  lemma {:induction false} SplitAppend(a: string, b: string)
    ensures Split(a + b) == Lines(a) + Split(Tail(a) + b)
  {
    if a == "" {
      assert a + b == b;
    } else {
      assert a == [a[0]] + a[1..];
      SplitAppend(a[1..], b);
      if a[0] == '\n' {
        AppendAfterNewline(a[1..], b);
      } else {
        assert a + b == [a[0]] + (a[1..] + b);
        if |Split(a[1..])| == 1 {
          AppendToUnfinished(a[0], a[1..], b);
        } else {
          AppendToLines(a[0], a[1..], b);
        }
      }
    }
  }

  /** The characters that String.prototype.trim removes. */
  predicate IsWhiteSpace(c: char) {
    || c in "\t\n\r \U{000B}\U{000C}\U{00A0}\U{1680}\U{2028}\U{2029}\U{202F}\U{205F}\U{3000}\U{FEFF}"
    || '\U{2000}' <= c <= '\U{200A}'
  }

  predicate IsBlank(line: string) {
    forall i :: 0 <= i < |line| ==> IsWhiteSpace(line[i])
  }

  function NonBlank(lines: seq<string>): seq<string> {
    if lines == [] then []
    else NonBlank(lines[..|lines| - 1]) + if IsBlank(lines[|lines| - 1]) then [] else [lines[|lines| - 1]]
  }

  lemma {:induction false} NonBlankSum(a: seq<string>, b: seq<string>)
    ensures NonBlank(a + b) == NonBlank(a) + NonBlank(b)
  {
    if b == [] {
      assert a + b == a;
    } else {
      var m := |b| - 1;
      assert (a + b)[..|a| + m] == a + b[..m];
      NonBlankSum(a, b[..m]);
    }
  }

  lemma OneLine(line: string)
    ensures NonBlank([line]) == if IsBlank(line) then [] else [line]
  {
    assert [line][..0] == [];
  }

  /** What one line among others adds. */
  lemma LineInPlace(a: seq<string>, line: string, b: seq<string>)
    ensures NonBlank(a + [line] + b) == NonBlank(a) + NonBlank([line]) + NonBlank(b)
  {
    NonBlankSum(a + [line], b);
    NonBlankSum(a, [line]);
  }

  /** A line is handed on, in its place, as soon as one of its characters is none of those that trim removes, by code
      point: tab to carriage return, space, and the Unicode spaces and line separators. */
  lemma SolidLineIsKept(a: seq<string>, line: string, b: seq<string>, i: nat)
    requires i < |line|
    requires var c := line[i] as int;
             && c !in {9, 10, 11, 12, 13, 32, 160, 5760, 8232, 8233, 8239, 8287, 12288, 65279}
             && !(8192 <= c <= 8202)
    ensures NonBlank(a + [line] + b) == NonBlank(a) + [line] + NonBlank(b)
  {
    assert !IsWhiteSpace(line[i]);
    OneLine(line);
    LineInPlace(a, line, b);
  }

  /** So is every line with a printable ASCII character, blanks around and inside it or not. */
  lemma PrintableLineIsKept(a: seq<string>, line: string, b: seq<string>, i: nat)
    requires i < |line| && '!' <= line[i] <= '~'
    ensures NonBlank(a + [line] + b) == NonBlank(a) + [line] + NonBlank(b)
  {
    SolidLineIsKept(a, line, b, i);
  }

  /** The empty line, and a line made of such characters only, is dropped. */
  lemma SpaceLineIsDropped(a: seq<string>, line: string, b: seq<string>)
    requires forall i :: 0 <= i < |line| ==>
               var c := line[i] as int;
               || c in {9, 10, 11, 12, 13, 32, 160, 5760, 8232, 8233, 8239, 8287, 12288, 65279}
               || 8192 <= c <= 8202
    ensures NonBlank(a + [line] + b) == NonBlank(a) + NonBlank(b)
  {
    forall i | 0 <= i < |line|
      ensures IsWhiteSpace(line[i])
    {
      var c := line[i] as int;
      if 8192 <= c <= 8202 {
        assert '\U{2000}' <= line[i] <= '\U{200A}';
      }
      assert line[i] == c as char;
    }
    OneLine(line);
    LineInPlace(a, line, b);
    assert NonBlank(a) + [] == NonBlank(a);
  }

  function Concat(chunks: seq<string>): string {
    if chunks == [] then "" else Concat(chunks[..|chunks| - 1]) + chunks[|chunks| - 1]
  }

  class Watch {
    var buffer: string
    var parsed: seq<string>  // the lines handed to the parser, in order

    constructor ()
      ensures buffer == "" && parsed == []
    {
      buffer, parsed := "", [];
    }

    /** One turn of the read loop. */
    method Receive(chunk: string)
      modifies this
      ensures buffer == Tail(old(buffer) + chunk)
      ensures parsed == old(parsed) + NonBlank(Lines(old(buffer) + chunk))
    {
      buffer := buffer + chunk;
      var lines := Split(buffer);
      buffer := lines[|lines| - 1];
      lines := lines[..|lines| - 1];
      var i := 0;
      while i < |lines|
        invariant 0 <= i <= |lines|
        invariant buffer == Tail(old(buffer) + chunk) && lines == Lines(old(buffer) + chunk)
        invariant parsed == old(parsed) + NonBlank(lines[..i])
      {
        assert lines[..i + 1][..i] == lines[..i];
        if !IsBlank(lines[i]) {
          parsed := parsed + [lines[i]];
        }
        i := i + 1;
      }
      assert lines[..i] == lines;
    }

    /** The whole read loop: only the concatenation of the chunks matters. */
    method Run(chunks: seq<string>)
      requires buffer == "" && parsed == []
      modifies this
      ensures parsed == NonBlank(Lines(Concat(chunks)))
      ensures buffer == Tail(Concat(chunks))
    {
      var i := 0;
      while i < |chunks|
        invariant 0 <= i <= |chunks|
        invariant parsed == NonBlank(Lines(Concat(chunks[..i]))) && buffer == Tail(Concat(chunks[..i]))
      {
        var before := Concat(chunks[..i]);
        assert chunks[..i + 1][..i] == chunks[..i];
        ReceiveExtends(before, chunks[i]);
        Receive(chunks[i]);
        i := i + 1;
      }
      assert chunks[..i] == chunks;
    }
  }

  /** Receiving a chunk after `before` is receiving both at once. */
  lemma ReceiveExtends(before: string, chunk: string)
    ensures NonBlank(Lines(before + chunk)) == NonBlank(Lines(before)) + NonBlank(Lines(Tail(before) + chunk))
    ensures Tail(before + chunk) == Tail(Tail(before) + chunk)
  {
    SplitAppend(before, chunk);
    NonBlankSum(Lines(before), Lines(Tail(before) + chunk));
    assert Lines(before + chunk) == Lines(before) + Lines(Tail(before) + chunk);
  }

  /** What the loop hands on, chunk by chunk. */
  function Handed(chunks: seq<string>, buffer: string): (r: (seq<string>, string)) {
    if chunks == [] then ([], buffer)
    else
      var later := Handed(chunks[1..], Tail(buffer + chunks[0]));
      (NonBlank(Lines(buffer + chunks[0])) + later.0, later.1)
  }

  lemma {:induction false} ConcatFromFront(chunk: string, chunks: seq<string>)
    ensures Concat([chunk] + chunks) == chunk + Concat(chunks)
  {
    var all := [chunk] + chunks;
    if chunks != [] {
      ConcatFromFront(chunk, chunks[..|chunks| - 1]);
      assert all[..|all| - 1] == [chunk] + chunks[..|chunks| - 1];
    } else {
      assert all[..0] == [];
    }
  }

  lemma UnfinishedLine(buffer: string)
    requires NoNewline(buffer)
    ensures Split(buffer) == [buffer]
  {
    JoinThenSplit([buffer]);
  }

  lemma {:induction false} HandedIsFraming(chunks: seq<string>, buffer: string)
    requires NoNewline(buffer)
    ensures Handed(chunks, buffer) == (NonBlank(Lines(buffer + Concat(chunks))), Tail(buffer + Concat(chunks)))
    decreases |chunks|
  {
    if chunks == [] {
      UnfinishedLine(buffer);
      assert buffer + Concat(chunks) == buffer;
    } else {
      var chunk, rest := chunks[0], chunks[1..];
      var s := buffer + chunk;
      HandedIsFraming(rest, Tail(s));
      ReceiveExtends(s, Concat(rest));
      assert buffer + Concat(chunks) == s + Concat(rest) by {
        ConcatFromFront(chunk, rest);
        assert chunks == [chunk] + rest;
      }
    }
  }

  /** Two ways of cutting the same stream hand on the same lines and keep the same rest. */
  lemma ChunkingDoesNotMatter(a: seq<string>, b: seq<string>)
    requires Concat(a) == Concat(b)
    ensures Handed(a, "") == Handed(b, "")
  {
    HandedIsFraming(a, "");
    HandedIsFraming(b, "");
  }

  // ---- Splitting, by the newlines alone

  /** A text without a newline is one piece ... */
  lemma SplitOfOne(a: string)
    requires forall i :: 0 <= i < |a| ==> a[i] != '\n'
    ensures Split(a) == [a]
  {
    UnfinishedLine(a);
  }

  lemma {:induction false} JoinOfSum(a: seq<string>, b: seq<string>)
    requires |a| > 0 && |b| > 0
    ensures JoinLines(a + b) == JoinLines(a) + "\n" + JoinLines(b)
  {
    assert (a + b)[1..] == a[1..] + b && (a + b)[0] == a[0];
    if |a| == 1 {
      assert a[1..] + b == b;
    } else {
      JoinOfSum(a[1..], b);
      SumOfStrings(a[0], JoinLines(a[1..]), JoinLines(b));
    }
  }

  lemma SumOfStrings(x: string, y: string, z: string)
    ensures x + "\n" + (y + "\n" + z) == x + "\n" + y + "\n" + z
  {}

  /** ... and a newline separates the pieces before it from those after it. These two laws fix every split. */
  lemma SplitAtNewline(a: string, b: string)
    ensures Split(a + "\n" + b) == Split(a) + Split(b)
  {
    SplitThenJoin(a);
    SplitThenJoin(b);
    JoinOfSum(Split(a), Split(b));
    JoinThenSplit(Split(a) + Split(b));
  }

  /** What has been received up to a newline are lines, and what follows them is kept. */
  lemma LinesAtNewline(a: string, b: string)
    ensures Lines(a + "\n" + b) == Split(a) + Lines(b) && Tail(a + "\n" + b) == Tail(b)
  {
    SplitAtNewline(a, b);
    LastOfSum(Split(a), Split(b));
  }

  lemma LastOfSum(a: seq<string>, b: seq<string>)
    requires |b| > 0
    ensures (a + b)[..|a + b| - 1] == a + b[..|b| - 1] && (a + b)[|a + b| - 1] == b[|b| - 1]
  {}

  lemma NothingYet(b: string)
    requires forall i :: 0 <= i < |b| ==> b[i] != '\n'
    ensures Lines(b) == [] && Tail(b) == b
  {
    SplitOfOne(b);
  }

  /** A line of a stream, between what comes before it and after it. */
  lemma StreamSplits(before: string, line: string, after: string)
    requires forall k :: 0 <= k < |line| ==> line[k] != '\n'
    ensures Lines(before + "\n" + (line + "\n" + after)) == Split(before) + [line] + Lines(after)
  {
    LinesAtNewline(before, line + "\n" + after);
    LinesAtNewline(line, after);
    SplitOfOne(line);
    SumOfThree(Split(before), [line], Lines(after));
  }

  lemma SumOfThree(a: seq<string>, b: seq<string>, c: seq<string>)
    ensures a + (b + c) == a + b + c
  {}

  /** Whatever came before a line and comes after it, and however the stream is cut into chunks: a line with a printable
      character is handed on between what the rest gives. */
  lemma StreamHandsOn(chunks: seq<string>, before: string, line: string, after: string, i: nat)
    requires Concat(chunks) == before + "\n" + (line + "\n" + after)
    requires (forall k :: 0 <= k < |line| ==> line[k] != '\n') && i < |line| && '!' <= line[i] <= '~'
    ensures NonBlank(Lines(Concat(chunks))) == NonBlank(Split(before)) + [line] + NonBlank(Lines(after))
  {
    StreamSplits(before, line, after);
    PrintableLineIsKept(Split(before), line, Lines(after), i);
  }

  /** A line of spaces, tabs and carriage returns is not. */
  lemma StreamDrops(chunks: seq<string>, before: string, line: string, after: string)
    requires Concat(chunks) == before + "\n" + (line + "\n" + after)
    requires forall k :: 0 <= k < |line| ==> line[k] == ' ' || line[k] == '\t' || line[k] == '\r'
    ensures NonBlank(Lines(Concat(chunks))) == NonBlank(Split(before)) + NonBlank(Lines(after))
  {
    StreamSplits(before, line, after);
    SpaceLineIsDropped(Split(before), line, Lines(after));
  }
}

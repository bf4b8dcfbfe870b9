/** The event-stream text the relay prints (src/api/exceptions.py) and the reader that takes it line
    by line (infra/loadtest/locustfile.py): WHATWG HTML, sections 9.2.5 and 9.2.6. */
module SseReader {
  import opened PyText
  import opened SseRelay
  import Seqs

  // ---------------------------------------------------------------------
  // Printing
  // ---------------------------------------------------------------------

  /** Stream ids count up in the second part within a millisecond. */
  const SEQUENCES := 0x1_0000_0000_0000_0000

  function IdText(id: nat): string {
    Decimal(id / SEQUENCES) + ("-" + Decimal(id % SEQUENCES))
  }

  function SseEvent(event: string, data: string): string {
    ("event: " + event) + ("\n" + (("data: " + data) + ("\n" + ("" + ("\n" + "")))))
  }

  function Print(b: Block): string {
    match b
    case Comment(text) => (": " + text) + ("\n" + ("" + ("\n" + "")))
    case Event(id, event, data) =>
      if id.None? then SseEvent(event, data)
      else ("id: " + IdText(id.value)) + ("\n" + SseEvent(event, data))
  }

  function PrintAll(blocks: seq<Block>, n: nat): string
    requires n <= |blocks|
  {
    if n == 0 then "" else PrintAll(blocks, n - 1) + Print(blocks[n - 1])
  }

  /** A text on one line that stripping does not change. JSON objects and event names are such. */
  predicate IsField(s: string) {
    s != "" && '\n' !in s && !IsSpace(s[0]) && !IsSpace(s[|s| - 1])
  }

  predicate Printable(b: Block) {
    match b
    case Comment(text) => '\n' !in text
    case Event(_, event, data) => IsField(event) && IsField(data)
  }

  // ---------------------------------------------------------------------
  // Reading lines
  // ---------------------------------------------------------------------

  function SplitLines(s: string): seq<string>
    decreases |s|
  {
    if s == "" then []
    else
      var i := IndexOf(s, '\n');
      if i == |s| then [s] else [s[..i]] + SplitLines(s[i + 1..])
  }

  datatype Status = Open | Usage | Failed(detail: string)

  /** The reader's variables, and the events it has seen. */
  datatype Reader = Reader(event: Option<string>, data: Option<string>, lastId: Option<string>,
                           seen: seq<(string, string)>, status: Status)

  const START := Reader(None, None, None, [], Open)

  /** The reader returns at the persisted usage event or an error. */
  function StatusAt(event: string, data: string, persisted: set<string>): Status {
    if event == "usage" && data in persisted then Usage else if event == "error" then Failed(data) else Open
  }

  function ReadLine(r: Reader, line: string, persisted: set<string>): Reader {
    if r.status != Open then r
    else if line == "" then r.(event := None, data := None)
    else if ":" <= line then r
    else if "id:" <= line then r.(lastId := Some(Strip(line[3..])))
    else if "event:" <= line then r.(event := Some(Strip(line[6..])))
    else
      var now := if "data:" <= line then r.(data := Some(Strip(line[5..]))) else r;
      if now.event.None? || now.data.None? then now
      else
        var e, d := now.event.value, now.data.value;
        now.(seen := now.seen + [(e, d)], status := StatusAt(e, d, persisted))
  }

  function ReadLines(r: Reader, lines: seq<string>, n: nat, persisted: set<string>): Reader
    requires n <= |lines|
  {
    if n == 0 then r else ReadLine(ReadLines(r, lines, n - 1, persisted), lines[n - 1], persisted)
  }

  method ReadChatStream(lines: seq<string>, persisted: set<string>)
    returns (status: Status, lastEventId: Option<string>, ghost seen: seq<(string, string)>)
    ensures status == ReadLines(START, lines, |lines|, persisted).status
    ensures lastEventId == ReadLines(START, lines, |lines|, persisted).lastId
    ensures seen == ReadLines(START, lines, |lines|, persisted).seen
  {
    var eventType: Option<string>, dataLine: Option<string> := None, None;
    status, lastEventId, seen := Open, None, [];
    for n := 0 to |lines|
      invariant ReadLines(START, lines, n, persisted) == Reader(eventType, dataLine, lastEventId, seen, Open)
      invariant status == Open
    {
      var line := lines[n];
      if line == "" {
        eventType, dataLine := None, None;
        continue;
      }
      if ":" <= line {
        continue;
      }
      if "id:" <= line {
        lastEventId := Some(Strip(line[3..]));
        continue;
      }
      if "event:" <= line {
        eventType := Some(Strip(line[6..]));
        continue;
      }
      if "data:" <= line {
        dataLine := Some(Strip(line[5..]));
      }
      if eventType.None? || dataLine.None? {
        continue;
      }
      seen := seen + [(eventType.value, dataLine.value)];
      if eventType.value == "usage" && dataLine.value in persisted {
        status := Usage;
        ReadLinesStays(START, lines, n + 1, |lines|, persisted);
        return;
      }
      if eventType.value == "error" {
        status := Failed(dataLine.value);
        ReadLinesStays(START, lines, n + 1, |lines|, persisted);
        return;
      }
    }
  }

  /** Once the reader has returned, further lines change nothing. */
  lemma {:induction false} ReadLinesStays(r: Reader, lines: seq<string>, n: nat, m: nat, persisted: set<string>)
    requires n <= m <= |lines| && ReadLines(r, lines, n, persisted).status != Open
    ensures ReadLines(r, lines, m, persisted) == ReadLines(r, lines, n, persisted)
    decreases m
  {
    if n < m {
      ReadLinesStays(r, lines, n, m - 1, persisted);
    }
  }

  lemma {:induction false} ReadLinesConcat(r: Reader, a: seq<string>, b: seq<string>, n: nat, persisted: set<string>)
    requires n <= |b|
    ensures ReadLines(r, a + b, |a| + n, persisted)
         == ReadLines(ReadLines(r, a, |a|, persisted), b, n, persisted)
  {
    if n > 0 {
      ReadLinesConcat(r, a, b, n - 1, persisted);
    } else {
      ReadLinesOfPrefix(r, a, a + b, |a|, persisted);
    }
  }

  lemma {:induction false} ReadLinesOfPrefix(r: Reader, a: seq<string>, b: seq<string>, n: nat, persisted: set<string>)
    requires n <= |a| && n <= |b| && forall i :: 0 <= i < n ==> a[i] == b[i]
    ensures ReadLines(r, a, n, persisted) == ReadLines(r, b, n, persisted)
  {
    if n > 0 {
      ReadLinesOfPrefix(r, a, b, n - 1, persisted);
    }
  }

  // ---------------------------------------------------------------------
  // Lines of a printed block
  // ---------------------------------------------------------------------

  function BlockLines(b: Block): seq<string> {
    match b
    case Comment(text) => [": " + text, ""]
    case Event(id, event, data) =>
      if id.None? then ["event: " + event, "data: " + data, ""]
      else ["id: " + IdText(id.value), "event: " + event, "data: " + data, ""]
  }

  lemma {:induction false} IndexOfBreak(line: string, rest: string)
    requires '\n' !in line
    ensures IndexOf(line + ("\n" + rest), '\n') == |line|
  {
    if line != "" {
      Seqs.SplitFirst(line);
      Seqs.ConsConcat(line[0], line[1..], "\n" + rest);
      assert line[0] in line && forall c :: c in line[1..] ==> c in line;
      IndexOfBreak(line[1..], rest);
    } else {
      Seqs.ConsConcat('\n', "", rest);
    }
  }

  lemma LineThen(line: string, rest: string)
    requires '\n' !in line
    ensures SplitLines(line + ("\n" + rest)) == [line] + SplitLines(rest)
  {
    IndexOfBreak(line, rest);
    var s := line + ("\n" + rest);
    assert s[..|line|] == line;
    assert s[|line| + 1..] == rest;
  }

  lemma FieldLineHasNoBreak(name: string, value: string)
    requires '\n' !in name && '\n' !in value
    ensures '\n' !in name + value
  {
  }

  lemma IdTextIsField(id: nat)
    ensures IsField(IdText(id))
  {
    var high, low := Decimal(id / SEQUENCES), Decimal(id % SEQUENCES);
    var s := IdText(id);
    assert s[0] == high[0] && s[|s| - 1] == low[|low| - 1];
    assert forall i :: 0 <= i < |s| ==> s[i] == '-' || IsDigit(s[i]);
  }

  lemma LinesOfEvent(event: string, data: string)
    requires IsField(event) && IsField(data)
    ensures SplitLines(SseEvent(event, data)) == ["event: " + event, "data: " + data, ""]
  {
    FieldLineHasNoBreak("event: ", event);
    FieldLineHasNoBreak("data: ", data);
    LineThen("", "");
    LineThen("data: " + data, "" + ("\n" + ""));
    LineThen("event: " + event, ("data: " + data) + ("\n" + ("" + ("\n" + ""))));
  }

  lemma LinesOfBlock(b: Block)
    requires Printable(b)
    ensures SplitLines(Print(b)) == BlockLines(b)
  {
    match b
    case Comment(text) =>
      FieldLineHasNoBreak(": ", text);
      LineThen("", "");
      LineThen(": " + text, "" + ("\n" + ""));
    case Event(id, event, data) =>
      LinesOfEvent(event, data);
      if id.Some? {
        IdTextIsField(id.value);
        FieldLineHasNoBreak("id: ", IdText(id.value));
        LineThen("id: " + IdText(id.value), SseEvent(event, data));
      }
  }

  lemma BreakSplits(a: string, i: nat)
    requires i < |a| && a[i] == '\n'
    ensures a == a[..i] + ("\n" + a[i + 1..])
    ensures a[i + 1..] == "" || a[i + 1..][|a| - i - 2] == a[|a| - 1]
  {
  }

  lemma SplitStep(line: string, rest: string, b: string)
    requires '\n' !in line
    ensures SplitLines(line + ("\n" + rest) + b) == [line] + SplitLines(rest + b)
  {
    Seqs.Associates("\n", rest, b);
    Seqs.Associates(line, "\n" + rest, b);
    LineThen(line, rest + b);
  }

  /** Text that ends its last line can be split apart from what follows it. */
  lemma {:induction false} SplitConcat(a: string, b: string)
    requires a == "" || a[|a| - 1] == '\n'
    ensures SplitLines(a + b) == SplitLines(a) + SplitLines(b)
    decreases |a|
  {
    if a == "" {
      Seqs.Associates(b, "", "");
    } else {
      var i := FirstBreak(a);
      BreakSplits(a, i);
      var line, rest := a[..i], a[i + 1..];
      SplitConcat(rest, b);
      SplitStep(line, rest, b);
      LineThen(line, rest);
      Seqs.Associates([line], SplitLines(rest), SplitLines(b));
    }
  }

  lemma {:induction false} FirstBreak(a: string) returns (i: nat)
    requires a != "" && a[|a| - 1] == '\n'
    ensures i < |a| && a[i] == '\n' && '\n' !in a[..i]
  {
    i := 0;
    while a[i] != '\n'
      invariant i < |a| && '\n' !in a[..i]
      decreases |a| - i
    {
      assert a[..i + 1] == a[..i] + [a[i]];
      i := i + 1;
    }
  }

  // ---------------------------------------------------------------------
  // Reading a printed block
  // ---------------------------------------------------------------------

  lemma StripField(value: string)
    requires IsField(value)
    ensures Strip(" " + value) == value
  {
    assert (" " + value)[1..] == value;
    StripKeepsNonSpace(value);
  }

  lemma NotPrefix(p: string, s: string)
    requires p != "" && s != "" && p[0] != s[0]
    ensures !(p <= s)
  {
  }

  lemma IdLine(value: string)
    ensures var line := "id: " + value;
      line != "" && !(":" <= line) && "id:" <= line && line[3..] == " " + value
  {
    assert ("id: " + value)[3..] == " " + value;
    NotPrefix(":", "id: " + value);
  }

  lemma EventLine(value: string)
    ensures var line := "event: " + value;
      line != "" && !(":" <= line) && !("id:" <= line) && "event:" <= line && line[6..] == " " + value
  {
    assert ("event: " + value)[6..] == " " + value;
    NotPrefix(":", "event: " + value);
    NotPrefix("id:", "event: " + value);
  }

  lemma DataLine(value: string)
    ensures var line := "data: " + value;
      line != "" && !(":" <= line) && !("id:" <= line) && !("event:" <= line) && "data:" <= line && line[5..] == " " + value
  {
    assert ("data: " + value)[5..] == " " + value;
    NotPrefix(":", "data: " + value);
    NotPrefix("id:", "data: " + value);
    NotPrefix("event:", "data: " + value);
  }

  lemma CommentLine(text: string)
    ensures ": " + text != "" && ":" <= ": " + text
  {
  }

  /** What one block means to the reader. */
  function ReadBlock(r: Reader, b: Block, persisted: set<string>): Reader {
    if r.status != Open then r
    else
      match b
      case Comment(_) => r.(event := None, data := None)
      case Event(id, event, data) =>
        var status := StatusAt(event, data, persisted);
        Reader(if status == Open then None else Some(event), if status == Open then None else Some(data),
               if id.Some? then Some(IdText(id.value)) else r.lastId, r.seen + [(event, data)], status)
  }

  lemma ReadThreeLines(r: Reader, event: string, data: string, persisted: set<string>)
    requires r.status == Open && r.data.None? && IsField(event) && IsField(data)
    ensures ReadLine(ReadLine(ReadLine(r, "event: " + event, persisted), "data: " + data, persisted), "", persisted)
         == ReadBlock(r, Event(None, event, data), persisted)
  {
    EventLine(event);
    DataLine(data);
    StripField(event);
    StripField(data);
    var r1 := ReadLine(r, "event: " + event, persisted);
    assert r1 == r.(event := Some(event));
    var r2 := ReadLine(r1, "data: " + data, persisted);
    assert r2 == r1.(data := Some(data), seen := r.seen + [(event, data)], status := StatusAt(event, data, persisted));
  }

  lemma ReadIdLine(r: Reader, id: nat, persisted: set<string>)
    requires r.status == Open
    ensures ReadLine(r, "id: " + IdText(id), persisted) == r.(lastId := Some(IdText(id)))
  {
    IdLine(IdText(id));
    IdTextIsField(id);
    StripField(IdText(id));
  }

  lemma ReadLinesOfBlock(r: Reader, b: Block, persisted: set<string>)
    requires Printable(b) && (r.status == Open ==> r.event.None? && r.data.None?)
    ensures ReadLines(r, BlockLines(b), |BlockLines(b)|, persisted) == ReadBlock(r, b, persisted)
  {
    var lines := BlockLines(b);
    if r.status != Open {
      ReadLinesStays(r, lines, 0, |lines|, persisted);
    } else {
      match b
      case Comment(text) =>
        CommentLine(text);
        TwoLines(r, lines, persisted);
      case Event(id, event, data) =>
        if id.None? {
          ThreeLines(r, lines, persisted);
          ReadThreeLines(r, event, data, persisted);
        } else {
          FourLines(r, lines, persisted);
          ReadIdLine(r, id.value, persisted);
          ReadThreeLines(r.(lastId := Some(IdText(id.value))), event, data, persisted);
        }
    }
  }

  lemma TwoLines(r: Reader, lines: seq<string>, persisted: set<string>)
    requires |lines| == 2
    ensures ReadLines(r, lines, 2, persisted) == ReadLine(ReadLine(r, lines[0], persisted), lines[1], persisted)
  {
    assert ReadLines(r, lines, 1, persisted) == ReadLine(ReadLines(r, lines, 0, persisted), lines[0], persisted);
  }

  lemma ThreeLines(r: Reader, lines: seq<string>, persisted: set<string>)
    requires |lines| == 3
    ensures ReadLines(r, lines, 3, persisted)
         == ReadLine(ReadLine(ReadLine(r, lines[0], persisted), lines[1], persisted), lines[2], persisted)
  {
    assert ReadLines(r, lines, 1, persisted) == ReadLine(ReadLines(r, lines, 0, persisted), lines[0], persisted);
    assert ReadLines(r, lines, 2, persisted) == ReadLine(ReadLines(r, lines, 1, persisted), lines[1], persisted);
  }

  lemma FourLines(r: Reader, lines: seq<string>, persisted: set<string>)
    requires |lines| == 4
    ensures var r1 := ReadLine(r, lines[0], persisted);
      ReadLines(r, lines, 4, persisted)
        == ReadLine(ReadLine(ReadLine(r1, lines[1], persisted), lines[2], persisted), lines[3], persisted)
  {
    assert ReadLines(r, lines, 1, persisted) == ReadLine(ReadLines(r, lines, 0, persisted), lines[0], persisted);
    assert ReadLines(r, lines, 2, persisted) == ReadLine(ReadLines(r, lines, 1, persisted), lines[1], persisted);
    assert ReadLines(r, lines, 3, persisted) == ReadLine(ReadLines(r, lines, 2, persisted), lines[2], persisted);
  }

  // ---------------------------------------------------------------------
  // Reading a printed stream
  // ---------------------------------------------------------------------

  function ReadBlocks(blocks: seq<Block>, n: nat, persisted: set<string>): (r: Reader)
    requires n <= |blocks|
    ensures r.status == Open ==> r.event.None? && r.data.None?
  {
    if n == 0 then START else ReadBlock(ReadBlocks(blocks, n - 1, persisted), blocks[n - 1], persisted)
  }

  lemma {:induction false} PrintEndsLine(blocks: seq<Block>, n: nat)
    requires n <= |blocks|
    ensures var s := PrintAll(blocks, n); s == "" || s[|s| - 1] == '\n'
  {
    if n > 0 {
      LastOfPrint(blocks[n - 1]);
    }
  }

  lemma LastOfPrint(b: Block)
    ensures Print(b) != "" && Print(b)[|Print(b)| - 1] == '\n'
  {
  }

  function AllLines(blocks: seq<Block>, n: nat): seq<string>
    requires n <= |blocks|
  {
    if n == 0 then [] else AllLines(blocks, n - 1) + BlockLines(blocks[n - 1])
  }

  predicate AllPrintable(blocks: seq<Block>) {
    forall i :: 0 <= i < |blocks| ==> Printable(blocks[i])
  }

  lemma LinesOfOneMore(blocks: seq<Block>, j: nat, n: nat)
    requires n == j + 1 <= |blocks| && Printable(blocks[j]) && SplitLines(PrintAll(blocks, j)) == AllLines(blocks, j)
    ensures SplitLines(PrintAll(blocks, n)) == AllLines(blocks, n)
  {
    PrintEndsLine(blocks, j);
    SplitConcat(PrintAll(blocks, j), Print(blocks[j]));
    LinesOfBlock(blocks[j]);
  }

  lemma LinesOfNone(blocks: seq<Block>)
    ensures SplitLines(PrintAll(blocks, 0)) == AllLines(blocks, 0)
  {
  }

  lemma {:induction false} LinesOfAll(blocks: seq<Block>, n: nat)
    requires n <= |blocks| && AllPrintable(blocks)
    ensures SplitLines(PrintAll(blocks, n)) == AllLines(blocks, n)
  {
    if n == 0 {
      LinesOfNone(blocks);
    } else {
      var j := n - 1;
      LinesOfAll(blocks, j);
      LinesOfOneMore(blocks, j, n);
    }
  }

  lemma ReadOneMore(blocks: seq<Block>, j: nat, n: nat, persisted: set<string>)
    requires n == j + 1 <= |blocks| && Printable(blocks[j])
    requires ReadLines(START, AllLines(blocks, j), |AllLines(blocks, j)|, persisted) == ReadBlocks(blocks, j, persisted)
    ensures ReadLines(START, AllLines(blocks, n), |AllLines(blocks, n)|, persisted) == ReadBlocks(blocks, n, persisted)
  {
    var before, more := AllLines(blocks, j), BlockLines(blocks[j]);
    ReadLinesConcat(START, before, more, |more|, persisted);
    ReadLinesOfBlock(ReadBlocks(blocks, j, persisted), blocks[j], persisted);
  }

  /** Reading the lines of the blocks is reading the blocks. */
  lemma {:induction false} ReadAllLines(blocks: seq<Block>, n: nat, persisted: set<string>)
    requires n <= |blocks| && AllPrintable(blocks)
    ensures ReadLines(START, AllLines(blocks, n), |AllLines(blocks, n)|, persisted) == ReadBlocks(blocks, n, persisted)
  {
    if n > 0 {
      ReadAllLines(blocks, n - 1, persisted);
      ReadOneMore(blocks, n - 1, n, persisted);
    }
  }

  /** The events among the first n blocks, and the id text of the last that has one. */
  function EventsOf(blocks: seq<Block>, n: nat): seq<(string, string)>
    requires n <= |blocks|
  {
    if n == 0 then []
    else EventsOf(blocks, n - 1) + match blocks[n - 1] case Comment(_) => [] case Event(_, event, data) => [(event, data)]
  }

  function LastIdOf(blocks: seq<Block>, n: nat): Option<string>
    requires n <= |blocks|
  {
    if n == 0 then None
    else match blocks[n - 1]
      case Comment(_) => LastIdOf(blocks, n - 1)
      case Event(id, _, _) => if id.Some? then Some(IdText(id.value)) else LastIdOf(blocks, n - 1)
  }

  /** The first terminal block, or the number of blocks when there is none. */
  function FirstTerminal(blocks: seq<Block>, persisted: set<string>): (i: nat)
    ensures i <= |blocks|
    ensures i < |blocks| ==> IsTerminal(blocks[i], persisted)
    ensures forall k :: 0 <= k < i ==> !IsTerminal(blocks[k], persisted)
  {
    FirstTerminalFrom(blocks, 0, persisted)
  }

  function FirstTerminalFrom(blocks: seq<Block>, from: nat, persisted: set<string>): (i: nat)
    requires from <= |blocks|
    ensures from <= i <= |blocks|
    ensures i < |blocks| ==> IsTerminal(blocks[i], persisted)
    ensures forall k :: from <= k < i ==> !IsTerminal(blocks[k], persisted)
    decreases |blocks| - from
  {
    if from == |blocks| || IsTerminal(blocks[from], persisted) then from else FirstTerminalFrom(blocks, from + 1, persisted)
  }

  lemma {:induction false} ReadBeforeTerminal(blocks: seq<Block>, n: nat, persisted: set<string>)
    requires n <= |blocks| && forall k :: 0 <= k < n ==> !IsTerminal(blocks[k], persisted)
    ensures ReadBlocks(blocks, n, persisted)
         == Reader(None, None, LastIdOf(blocks, n), EventsOf(blocks, n), Open)
  {
    if n > 0 {
      ReadBeforeTerminal(blocks, n - 1, persisted);
    }
  }

  lemma {:induction false} ReadBlocksStay(blocks: seq<Block>, n: nat, m: nat, persisted: set<string>)
    requires n <= m <= |blocks| && ReadBlocks(blocks, n, persisted).status != Open
    ensures ReadBlocks(blocks, m, persisted) == ReadBlocks(blocks, n, persisted)
    decreases m
  {
    if n < m {
      ReadBlocksStay(blocks, n, m - 1, persisted);
    }
  }

  lemma BlocksReadUpToTerminal(blocks: seq<Block>, persisted: set<string>)
    ensures var r := ReadBlocks(blocks, |blocks|, persisted);
            var t := FirstTerminal(blocks, persisted);
            var n := if t < |blocks| then t + 1 else t;
      && r.seen == EventsOf(blocks, n)
      && r.lastId == LastIdOf(blocks, n)
      && r.status == (if t < |blocks| then StatusAt(blocks[t].event, blocks[t].data, persisted) else Open)
      && (r.status == Open <==> t == |blocks|)
  {
    var t := FirstTerminal(blocks, persisted);
    ReadBeforeTerminal(blocks, t, persisted);
    if t < |blocks| {
      var next := t + 1;
      assert next - 1 == t;
      ReadBlocksStay(blocks, next, |blocks|, persisted);
    }
  }

  /** The line reader, applied to the printed blocks with their comments, sees exactly the events up
      to and including the first terminal one, in order; its status says which that was, and its last
      event id is the last one up to there. */
  lemma ReaderRecoversEvents(blocks: seq<Block>, persisted: set<string>)
    requires AllPrintable(blocks)
    ensures var lines := SplitLines(PrintAll(blocks, |blocks|));
            var r := ReadLines(START, lines, |lines|, persisted);
            var t := FirstTerminal(blocks, persisted);
            var n := if t < |blocks| then t + 1 else t;
      && r.seen == EventsOf(blocks, n)
      && r.lastId == LastIdOf(blocks, n)
      && r.status == (if t < |blocks| then StatusAt(blocks[t].event, blocks[t].data, persisted) else Open)
      && (r.status == Open <==> t == |blocks|)
  {
    LinesOfAll(blocks, |blocks|);
    ReadAllLines(blocks, |blocks|, persisted);
    BlocksReadUpToTerminal(blocks, persisted);
  }

  // ---------------------------------------------------------------------
  // Ids
  // ---------------------------------------------------------------------

  /** The id a client sends back, as the log orders it. */
  function IdOf(text: string): Option<nat> {
    var i := IndexOf(text, '-');
    if i == |text| || !AllDigits(text[..i]) || !AllDigits(text[i + 1..]) then None
    else Some(ParseNat(text[..i]) * SEQUENCES + ParseNat(text[i + 1..]))
  }

  lemma {:induction false} IndexOfDash(a: string, b: string)
    requires AllDigits(a)
    ensures IndexOf(a + ("-" + b), '-') == |a|
  {
    if a != "" {
      Seqs.SplitFirst(a);
      Seqs.ConsConcat(a[0], a[1..], "-" + b);
      IndexOfDash(a[1..], b);
    } else {
      Seqs.ConsConcat('-', "", b);
    }
  }

  /** The id a reader hands back for resuming is the id that was printed. */
  lemma IdRoundTrip(id: nat)
    ensures IdOf(IdText(id)) == Some(id)
  {
    var high, low := Decimal(id / SEQUENCES), Decimal(id % SEQUENCES);
    IndexOfDash(high, low);
    assert IdText(id)[..|high|] == high;
    assert IdText(id)[|high| + 1..] == low;
    ParseDecimal(id / SEQUENCES);
    ParseDecimal(id % SEQUENCES);
  }

  lemma ReadPart(r: Reader, id: nat, event: string, data: string, n: nat, persisted: set<string>)
    requires r.status == Open && r.event.None? && r.data.None? && IsField(event) && IsField(data) && n <= 4
    ensures var part := ReadLines(r, BlockLines(Event(Some(id), event, data)), n, persisted);
      && part.lastId == (if n == 0 then r.lastId else Some(IdText(id)))
      && part.seen == (if n <= 2 then r.seen else r.seen + [(event, data)])
  {
    var lines := BlockLines(Event(Some(id), event, data));
    ReadIdLine(r, id, persisted);
    EventLine(event);
    DataLine(data);
    StripField(event);
    StripField(data);
    var r1 := ReadLines(r, lines, 1, persisted);
    assert ReadLines(r, lines, 0, persisted) == r && r1 == ReadLine(r, lines[0], persisted);
    var r2 := ReadLines(r, lines, 2, persisted);
    assert r2 == ReadLine(r1, lines[1], persisted);
    var r3 := ReadLines(r, lines, 3, persisted);
    assert r3 == ReadLine(r2, lines[2], persisted);
    var r4 := ReadLines(r, lines, 4, persisted);
    assert r4 == ReadLine(r3, lines[3], persisted) && r4.seen == r3.seen;
  }

  lemma ReadingGoesOn(before: seq<string>, part: seq<string>, n: nat, r: Reader, persisted: set<string>)
    requires n == |part| && ReadLines(START, before, |before|, persisted) == r
    ensures ReadLines(START, before + part, |before + part|, persisted) == ReadLines(r, part, n, persisted)
  {
    ReadLinesConcat(START, before, part, n, persisted);
  }

  /** Cut inside a block that comes after any others, none of which is terminal, the reader's last id is
      already that block's while it has seen only the events before it exactly when the cut falls after
      the id line and before the data line; resuming there would skip the event. */
  lemma CutInsideBlock(blocks: seq<Block>, id: nat, event: string, data: string, n: nat, persisted: set<string>)
    requires AllPrintable(blocks) && FirstTerminal(blocks, persisted) == |blocks|
    requires LastIdOf(blocks, |blocks|) != Some(IdText(id))
    requires IsField(event) && IsField(data) && n <= 4
    ensures var lines := AllLines(blocks, |blocks|) + BlockLines(Event(Some(id), event, data))[..n];
            var r := ReadLines(START, lines, |lines|, persisted);
      (r.lastId == Some(IdText(id)) && r.seen == EventsOf(blocks, |blocks|)) <==> 1 <= n <= 2
  {
    var before, block := AllLines(blocks, |blocks|), BlockLines(Event(Some(id), event, data));
    var r := Reader(None, None, LastIdOf(blocks, |blocks|), EventsOf(blocks, |blocks|), Open);
    ReadAllLines(blocks, |blocks|, persisted);
    ReadBeforeTerminal(blocks, |blocks|, persisted);
    ReadingGoesOn(before, block[..n], n, r, persisted);
    ReadLinesOfPrefix(r, block[..n], block, n, persisted);
    ReadPart(r, id, event, data, n, persisted);
  }

  // ---------------------------------------------------------------------
  // From the log to the reader
  // ---------------------------------------------------------------------

  lemma {:induction false} SamePrefixReads(a: seq<Block>, b: seq<Block>, n: nat)
    requires n <= |a| && n <= |b| && forall i :: 0 <= i < n ==> a[i] == b[i]
    ensures EventsOf(a, n) == EventsOf(b, n) && LastIdOf(a, n) == LastIdOf(b, n)
  {
    if n > 0 {
      SamePrefixReads(a, b, n - 1);
    }
  }

  /** Without the relay's own events, the events are those of the log. */
  lemma {:induction false} EventsOfLog(out: seq<Block>)
    requires forall i :: 0 <= i < |out| ==> out[i].Event? ==> out[i].id.Some?
    ensures var events := LogEvents(out);
      EventsOf(out, |out|) == EventsOf(events, |events|) && LastIdOf(out, |out|) == LastIdOf(events, |events|)
  {
    if out != [] {
      var n := |out| - 1;
      var front, b := out[..n], out[n];
      EventsOfLog(front);
      SamePrefixReads(out, front, n);
      var events := LogEvents(front);
      if b.Event? {
        SamePrefixReads(events + [b], events, |events|);
        assert LogEvents(out) == events + [b];
      } else {
        assert LogEvents(out) == events;
      }
    }
  }

  /** The relay's own error, which has no id and can only come last. */
  function OwnError(out: seq<Block>): seq<(string, string)> {
    if out == [] then []
    else
      match out[|out| - 1]
      case Comment(_) => []
      case Event(id, event, data) => if id.None? then [(event, data)] else []
  }

  lemma EventsRelayed(out: seq<Block>, persisted: set<string>)
    requires out != [] && Quiet(out, |out| - 1, persisted)
    ensures var events := LogEvents(out);
      && EventsOf(out, |out|) == EventsOf(events, |events|) + OwnError(out)
      && LastIdOf(out, |out|) == LastIdOf(events, |events|)
  {
    var n := |out| - 1;
    assert forall i :: 0 <= i < n ==> IsQuiet(out[i], persisted);
    if OwnError(out) == [] {
      EventsOfLog(out);
    } else {
      EventsOfLog(out[..n]);
      SamePrefixReads(out, out[..n], n);
      assert LogEvents(out) == LogEvents(out[..n]);
    }
  }

  lemma TerminalComesLast(out: seq<Block>, persisted: set<string>)
    requires out != [] && Quiet(out, |out| - 1, persisted)
    ensures var t := FirstTerminal(out, persisted);
      && (if t < |out| then t + 1 else t) == |out|
      && (t < |out| <==> IsTerminal(out[|out| - 1], persisted))
  {
    var t := FirstTerminal(out, persisted);
    assert t < |out| - 1 ==> IsQuiet(out[t], persisted);
  }

  lemma ReaderReadsOut(out: seq<Block>, persisted: set<string>)
    requires out != [] && Quiet(out, |out| - 1, persisted) && AllPrintable(out)
    ensures var lines := SplitLines(PrintAll(out, |out|));
            var r, events, b := ReadLines(START, lines, |lines|, persisted), LogEvents(out), out[|out| - 1];
      && r.seen == EventsOf(events, |events|) + OwnError(out)
      && r.lastId == LastIdOf(events, |events|)
      && r.status == if IsTerminal(b, persisted) then StatusAt(b.event, b.data, persisted) else Open
  {
    ReaderRecoversEvents(out, persisted);
    TerminalComesLast(out, persisted);
    EventsRelayed(out, persisted);
  }

  lemma StatusOfEnd(log: seq<Entry>, polls: seq<Poll>, lastId: nat, out: seq<Block>, last: nat, outcome: Outcome,
                    persisted: set<string>)
    requires Relays(log, polls, lastId, out, last, outcome, persisted)
    ensures var b := out[|out| - 1];
      && (outcome == ClientClosed ==> !IsTerminal(b, persisted) && OwnError(out) == [])
      && (outcome == Complete ==> IsTerminal(b, persisted) && StatusAt(b.event, b.data, persisted) == Usage)
      && (outcome == Error ==> IsTerminal(b, persisted) && StatusAt(b.event, b.data, persisted) == Failed(b.data))
  {
    assert outcome == ClientClosed ==> IsQuiet(out[|out| - 1], persisted);
  }

  /** End to end: whatever the polls, reading the printed output of one connection line by line sees the
      well-formed log entries after `lastId` up to the first stop or to where the relay got, in order and
      nothing else but the relay's own error if that ended it; the last id is that of the last of them;
      and the reader's status tells how the relay ended. */
  lemma ReaderReadsRelay(log: seq<Entry>, polls: seq<Poll>, lastId: nat, out: seq<Block>, last: nat, outcome: Outcome,
                         persisted: set<string>)
    requires Relays(log, polls, lastId, out, last, outcome, persisted) && AllPrintable(out)
    ensures var lines := SplitLines(PrintAll(out, |out|));
            var r := ReadLines(START, lines, |lines|, persisted);
            var events := Deliverable(log, Position(log, |log|, lastId), Position(log, |log|, last), persisted);
      && r.seen == EventsOf(events, |events|) + OwnError(out)
      && r.lastId == LastIdOf(events, |events|)
      && (outcome == ClientClosed ==> r.status == Open && OwnError(out) == [])
      && (outcome == Complete ==> r.status == Usage)
      && (outcome == Error ==> r.status.Failed?)
  {
    ReaderReadsOut(out, persisted);
    StatusOfEnd(log, polls, lastId, out, last, outcome, persisted);
  }
}

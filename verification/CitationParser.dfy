/** The streaming parser of `[S1]` citation markup (src/services/chat/citation_parser.py). */
module CitationParser {
  import opened PyText

  const MAX_BRACKET_LEN := 30

  datatype Span = Span(start: nat, end: nat, refs: seq<string>)
  datatype Output = Output(text: string, spans: seq<Span>)

  // ---------------------------------------------------------------------
  // The citation grammar
  // ---------------------------------------------------------------------

  /** What `S` matches when case is ignored; U+017F is the long s. */
  predicate IsLetterS(c: char) {
    c == 'S' || c == 's' || c == '\U{017F}'
  }

  function LeadingDigits(s: string): (n: nat)
    ensures n <= |s|
  {
    if s == "" || !IsDigit(s[0]) then 0 else 1 + LeadingDigits(s[1..])
  }

  /** `S1`, `S1,S2`, `s1, S22`: references separated by a comma and optional whitespace. */
  predicate IsCitation(content: string)
    decreases |content|
  {
    content != "" && IsLetterS(content[0]) &&
    var n := 1 + LeadingDigits(content[1..]);
    n > 1 && (n == |content| || (content[n] == ',' && IsCitation(LStrip(content[n + 1..]))))
  }

  function UpperChar(c: char): char {
    if 'a' <= c <= 'z' then (c as int - 32) as char else if c == '\U{017F}' then 'S' else c
  }

  function Upper(s: string): (r: string)
    ensures |r| == |s|
  {
    if s == "" then "" else [UpperChar(s[0])] + Upper(s[1..])
  }

  /** The non-empty comma-separated parts, stripped and upper-cased. */
  function ParseRefs(content: string): seq<string> {
    var i := IndexOf(content, ',');
    var part := Strip(content[..i]);
    (if part != "" then [Upper(part)] else []) + if i < |content| then ParseRefs(content[i + 1..]) else []
  }

  // ---------------------------------------------------------------------
  // One character at a time
  // ---------------------------------------------------------------------

  /** The parser between two characters; `offset` counts the clean text emitted so far. */
  datatype State = State(
    inBracket: bool, buffer: string, offset: nat, lastEnd: nat, pending: seq<string>, pendingPos: nat)

  const START := State(false, "", 0, 0, [], 0)

  /** A state and what was emitted on the way to it. */
  datatype Stepped = Stepped(st: State, out: Output)

  function Flushed(st: State): seq<Span> {
    if st.pending == [] then [] else [Span(st.lastEnd, st.pendingPos, st.pending)]
  }

  /** Emit non-citation text: pending citations close first. */
  function Emit(st: State, text: string, inBracket: bool): Stepped {
    Stepped(State(inBracket, "", st.offset + |text|, if st.pending == [] then st.lastEnd else st.pendingPos, [], st.pendingPos),
            Output(text, Flushed(st)))
  }

  /** A bracket closes: a citation becomes pending, anything else is text. */
  function Closed(st: State): Stepped {
    var content := Strip(st.buffer);
    if IsCitation(content) then
      Stepped(State(false, "", st.offset, st.lastEnd, st.pending + ParseRefs(content),
                    if st.pending == [] then st.offset else st.pendingPos),
              Output("", []))
    else Emit(st, "[" + st.buffer + "]", false)
  }

  function Step(st: State, ch: char): Stepped {
    if !st.inBracket then
      if ch == '[' then Stepped(st.(inBracket := true, buffer := ""), Output("", []))
      else Emit(st, [ch], false)
    else if ch == ']' then Closed(st)
    else if ch == '[' then Emit(st, "[" + st.buffer, true)
    else if |st.buffer| >= MAX_BRACKET_LEN then Emit(st, "[" + st.buffer + [ch], false)
    else Stepped(st.(buffer := st.buffer + [ch]), Output("", []))
  }

  function Append(a: Output, b: Output): Output {
    Output(a.text + b.text, a.spans + b.spans)
  }

  function Run(st: State, s: string): Stepped
    decreases |s|
  {
    if s == "" then Stepped(st, Output("", []))
    else
      var first := Step(st, s[0]);
      var rest := Run(first.st, s[1..]);
      Stepped(rest.st, Append(first.out, rest.out))
  }

  /** A run that comes after some output. */
  function Then(before: Output, run: Stepped): Stepped {
    Stepped(run.st, Append(before, run.out))
  }

  lemma AppendAssociates(a: Output, b: Output, c: Output)
    ensures Append(a, Append(b, c)) == Append(Append(a, b), c)
    ensures Append(a, Output("", [])) == a && Append(Output("", []), a) == a
  {
  }

  lemma ThenStep(before: Output, st: State, s: string)
    requires s != ""
    ensures var step := Step(st, s[0]);
      Then(before, Run(st, s)) == Then(Append(before, step.out), Run(step.st, s[1..]))
  {
    var step := Step(st, s[0]);
    AppendAssociates(before, step.out, Run(step.st, s[1..]).out);
  }

  /** One more character of a chunk has been read. */
  lemma ThenNext(before: Output, st: State, chunk: string, i: nat, next: nat)
    requires i < |chunk| && next == i + 1
    ensures var step := Step(st, chunk[i]);
      Then(before, Run(st, chunk[i..])) == Then(Append(before, step.out), Run(step.st, chunk[next..]))
  {
    assert chunk[i..][0] == chunk[i] && chunk[i..][1..] == chunk[next..];
    ThenStep(before, st, chunk[i..]);
  }

  /** What the parser holds back: an unfinished bracket. */
  function Held(st: State): string {
    if st.inBracket then "[" + st.buffer else ""
  }

  /** What `finalize` emits. */
  function Finished(st: State): Output {
    Output(Held(st), Flushed(st))
  }

  /** The whole answer at once. */
  function Parsed(raw: string): Output {
    var run := Run(START, raw);
    Append(run.out, Finished(run.st))
  }

  class BracketCitationParser {
    var inBracket: bool
    var bracketBuffer: string
    var cleanOffset: nat
    var lastSpanEnd: nat
    var pendingRefs: seq<string>
    var pendingPos: nat
    var spans: seq<Span>
    var finalized: bool

    /** The state once `shown` more characters of the current chunk are out. */
    ghost function StateAfter(shown: nat): State
      reads this
    {
      State(inBracket, bracketBuffer, cleanOffset + shown, lastSpanEnd, pendingRefs, pendingPos)
    }

    constructor ()
      ensures StateAfter(0) == START && spans == [] && !finalized
    {
      inBracket, bracketBuffer, cleanOffset, lastSpanEnd := false, "", 0, 0;
      pendingRefs, pendingPos, spans, finalized := [], 0, [], false;
    }

    method FlushPending() returns (span: Span)
      modifies `lastSpanEnd, `pendingRefs
      ensures span == Span(old(lastSpanEnd), pendingPos, old(pendingRefs))
      ensures lastSpanEnd == pendingPos && pendingRefs == []
    {
      span := Span(lastSpanEnd, pendingPos, pendingRefs);
      lastSpanEnd := pendingPos;
      pendingRefs := [];
    }

    /** Close pending citations, show `text` and leave the bracket it came from. */
    method Show(text: string, visible: string, completed: seq<Span>, stay: bool)
      returns (visible': string, completed': seq<Span>)
      modifies `inBracket, `bracketBuffer, `lastSpanEnd, `pendingRefs
      ensures var step := Emit(old(StateAfter(|visible|)), text, stay);
        && StateAfter(|visible'|) == step.st
        && visible' == visible + step.out.text && completed' == completed + step.out.spans
    {
      completed' := completed;
      if pendingRefs != [] {
        var span := FlushPending();
        completed' := completed' + [span];
      }
      visible' := visible + text;
      bracketBuffer := "";
      inBracket := stay;
    }

    method OnText(ch: char, visible: string, completed: seq<Span>) returns (visible': string, completed': seq<Span>)
      requires !inBracket && Valid()
      modifies `inBracket, `bracketBuffer, `lastSpanEnd, `pendingRefs
      ensures var step := Step(old(StateAfter(|visible|)), ch);
        && StateAfter(|visible'|) == step.st
        && visible' == visible + step.out.text && completed' == completed + step.out.spans
    {
      visible', completed' := visible, completed;
      if ch == '[' {
        inBracket := true;
        bracketBuffer := "";
      } else {
        visible', completed' := Show([ch], visible, completed, false);
      }
    }

    method OnClose(visible: string, completed: seq<Span>) returns (visible': string, completed': seq<Span>)
      requires inBracket
      modifies `inBracket, `bracketBuffer, `lastSpanEnd, `pendingRefs, `pendingPos
      ensures var step := Closed(old(StateAfter(|visible|)));
        && StateAfter(|visible'|) == step.st
        && visible' == visible + step.out.text && completed' == completed + step.out.spans
    {
      visible', completed' := visible, completed;
      var content := Strip(bracketBuffer);
      if IsCitation(content) {
        var refs := ParseRefs(content);
        var pos := cleanOffset + |visible|;
        if pendingRefs != [] {
          pendingRefs := pendingRefs + refs;
        } else {
          pendingRefs := refs;
          pendingPos := pos;
        }
        bracketBuffer := "";
        inBracket := false;
      } else {
        visible', completed' := Show("[" + bracketBuffer + "]", visible, completed, false);
      }
    }

    method OnBracket(ch: char, visible: string, completed: seq<Span>) returns (visible': string, completed': seq<Span>)
      requires inBracket
      modifies `inBracket, `bracketBuffer, `lastSpanEnd, `pendingRefs, `pendingPos
      ensures var step := Step(old(StateAfter(|visible|)), ch);
        && StateAfter(|visible'|) == step.st
        && visible' == visible + step.out.text && completed' == completed + step.out.spans
    {
      visible', completed' := visible, completed;
      if ch == ']' {
        visible', completed' := OnClose(visible, completed);
      } else if ch == '[' {
        visible', completed' := Show("[" + bracketBuffer, visible, completed, true);
      } else if |bracketBuffer| >= MAX_BRACKET_LEN {
        visible', completed' := Show("[" + bracketBuffer + [ch], visible, completed, false);
      } else {
        bracketBuffer := bracketBuffer + [ch];
      }
    }

    ghost predicate Valid()
      reads this
    {
      !inBracket ==> bracketBuffer == ""
    }

    /** None stands for the RuntimeError of a parser already finalized. */
    method Feed(chunk: string) returns (r: Option<Output>)
      requires Valid()
      modifies this
      ensures Valid() && finalized == old(finalized)
      ensures old(finalized) ==> r == None && StateAfter(0) == old(StateAfter(0)) && spans == old(spans)
      ensures !old(finalized) ==>
        && r == Some(Run(old(StateAfter(0)), chunk).out)
        && StateAfter(0) == Run(old(StateAfter(0)), chunk).st
        && spans == old(spans) + r.value.spans
    {
      if finalized {
        return None;
      }
      var visible, completed := "", [];
      ghost var whole := Run(StateAfter(0), chunk);
      for i := 0 to |chunk|
        invariant Valid() && !finalized && spans == old(spans) && cleanOffset == old(cleanOffset)
        invariant whole == Then(Output(visible, completed), Run(StateAfter(|visible|), chunk[i..]))
      {
        ghost var next := i + 1;
        ThenNext(Output(visible, completed), StateAfter(|visible|), chunk, i, next);
        if inBracket {
          visible, completed := OnBracket(chunk[i], visible, completed);
        } else {
          visible, completed := OnText(chunk[i], visible, completed);
        }
      }
      assert chunk[|chunk|..] == "";
      AppendAssociates(Output(visible, completed), Output("", []), Output("", []));
      cleanOffset := cleanOffset + |visible|;
      spans := spans + completed;
      r := Some(Output(visible, completed));
    }

    method Finalize() returns (r: Option<Output>)
      requires Valid()
      modifies this
      ensures Valid() && finalized
      ensures old(finalized) ==> r == None && spans == old(spans)
      ensures !old(finalized) ==> r == Some(Finished(old(StateAfter(0)))) && spans == old(spans) + r.value.spans
    {
      if finalized {
        return None;
      }
      finalized := true;
      var visible, completed := "", [];
      if inBracket {
        visible := "[" + bracketBuffer;
      }
      if pendingRefs != [] {
        var span := FlushPending();
        completed := [span];
      }
      cleanOffset := cleanOffset + |visible|;
      spans := spans + completed;
      inBracket := false;
      bracketBuffer := "";
      r := Some(Output(visible, completed));
    }
  }

  function Joined(chunks: seq<string>): string {
    if chunks == [] then "" else Joined(chunks[..|chunks| - 1]) + chunks[|chunks| - 1]
  }

  lemma {:induction false} RunConcat(st: State, a: string, b: string)
    ensures var first := Run(st, a);
      Run(st, a + b) == Then(first.out, Run(first.st, b))
    decreases |a|
  {
    if a == "" {
      assert a + b == b;
      AppendAssociates(Run(st, b).out, Output("", []), Output("", []));
    } else {
      assert (a + b)[0] == a[0] && (a + b)[1..] == a[1..] + b;
      var step := Step(st, a[0]);
      RunConcat(step.st, a[1..], b);
      AppendAssociates(step.out, Run(step.st, a[1..]).out, Run(Run(st, a).st, b).out);
    }
  }

  /** The streaming loop: every chunk is fed, then the parser is finalized. However the raw answer
      was cut into chunks, the clean text and the spans are those of the whole answer at once. */
  method StreamAnswer(chunks: seq<string>) returns (clean: string, spans: seq<Span>)
    ensures Output(clean, spans) == Parsed(Joined(chunks))
  {
    var parser := new BracketCitationParser();
    clean := "";
    for i := 0 to |chunks|
      invariant fresh(parser) && parser.Valid() && !parser.finalized
      invariant Run(START, Joined(chunks[..i])) == Stepped(parser.StateAfter(0), Output(clean, parser.spans))
    {
      assert chunks[..i + 1][..i] == chunks[..i];
      RunConcat(START, Joined(chunks[..i]), chunks[i]);
      var result := parser.Feed(chunks[i]);
      clean := clean + result.value.text;
    }
    assert chunks[..|chunks|] == chunks;
    var final := parser.Finalize();
    clean := clean + final.value.text;
    spans := parser.spans;
  }
}

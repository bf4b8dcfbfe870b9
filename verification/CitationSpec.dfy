/** What the streaming citation parser computes, said without its state: the pieces of the raw
    answer, found by looking ahead, and the spans of the runs of adjacent citations among them. */
module CitationSpec {
  import opened PyText
  import opened Seqs
  import opened CitationParser

  /** A raw answer is text, character by character, and citation brackets. */
  datatype Piece = Text(c: char) | Cite(inner: string)

  function Chars(s: string): (r: seq<Piece>)
    ensures |r| == |s|
  {
    if s == "" then [] else [Text(s[0])] + Chars(s[1..])
  }

  predicate IsBracket(c: char) {
    c == '[' || c == ']'
  }

  /** How many characters come before the first bracket. */
  function BracketRun(s: string): (n: nat)
    ensures n <= |s|
    ensures forall i :: 0 <= i < n ==> !IsBracket(s[i])
    ensures n < |s| ==> IsBracket(s[n])
  {
    if s == "" || IsBracket(s[0]) then 0 else 1 + BracketRun(s[1..])
  }

  /** The pieces at the front and how many characters they take, by looking ahead from a `[` to
      the next bracket, at most 30 characters on. */
  function FirstPieces(raw: string): (r: (seq<Piece>, nat))
    requires raw != ""
    ensures 1 <= r.1 <= |raw|
  {
    if raw[0] != '[' then (Chars(raw[..1]), 1)
    else
      var n := BracketRun(raw[1..]);
      if n > MAX_BRACKET_LEN then (Chars(raw[..MAX_BRACKET_LEN + 2]), MAX_BRACKET_LEN + 2)
      else if n + 1 == |raw| then (Chars(raw), |raw|)
      else if raw[n + 1] == '[' then (Chars(raw[..n + 1]), n + 1)
      else if IsCitation(Strip(raw[1..n + 1])) then ([Cite(raw[1..n + 1])], n + 2)
      else (Chars(raw[..n + 2]), n + 2)
  }

  function Pieces(raw: string): seq<Piece>
    decreases |raw|
  {
    if raw == "" then []
    else
      var (ps, k) := FirstPieces(raw);
      ps + Pieces(raw[k..])
  }

  function Raw(ps: seq<Piece>): string {
    if ps == [] then ""
    else (match ps[0] case Text(c) => [c] case Cite(inner) => "[" + inner + "]") + Raw(ps[1..])
  }

  function Clean(ps: seq<Piece>): string {
    if ps == [] then ""
    else (match ps[0] case Text(c) => [c] case Cite(_) => "") + Clean(ps[1..])
  }

  function RefsOf(inner: string): seq<string> {
    ParseRefs(Strip(inner))
  }

  /** The number of citations at the front, with nothing between them. */
  function CiteRun(ps: seq<Piece>): (n: nat)
    ensures n <= |ps|
  {
    if ps == [] || ps[0].Text? then 0 else 1 + CiteRun(ps[1..])
  }

  function AllRefs(ps: seq<Piece>): seq<string> {
    if ps == [] then [] else (if ps[0].Cite? then RefsOf(ps[0].inner) else []) + AllRefs(ps[1..])
  }

  /** One span for each run of adjacent citations, from the end of the span before. */
  function SpansOf(ps: seq<Piece>, pos: nat, start: nat): seq<Span>
    decreases |ps|
  {
    if ps == [] then []
    else if ps[0].Text? then SpansOf(ps[1..], pos + 1, start)
    else
      var n := CiteRun(ps);
      [Span(start, pos, AllRefs(ps[..n]))] + SpansOf(ps[n..], pos, pos)
  }

  // ---------------------------------------------------------------------
  // The parser reads the pieces
  // ---------------------------------------------------------------------

  /** What is still to come out in state `st` when `ps` are the remaining pieces. */
  function Rendered(st: State, ps: seq<Piece>): Output
    decreases |ps|
  {
    if ps == [] then Output("", Flushed(st))
    else
      match ps[0]
      case Text(c) =>
        var shown := Emit(st, [c], false);
        Append(shown.out, Rendered(shown.st, ps[1..]))
      case Cite(inner) => Rendered(Cited(st, inner), ps[1..])
  }

  function Cited(st: State, inner: string): State {
    State(false, "", st.offset, st.lastEnd, st.pending + RefsOf(inner), if st.pending == [] then st.offset else st.pendingPos)
  }

  /** Pending citations sit at the current position, and a bracket being read is short. */
  predicate StateOk(st: State) {
    && (st.pending != [] ==> st.pendingPos == st.offset)
    && (st.inBracket ==> |st.buffer| <= MAX_BRACKET_LEN && forall i :: 0 <= i < |st.buffer| ==> !IsBracket(st.buffer[i]))
    && (!st.inBracket ==> st.buffer == "")
  }

  function Outside(st: State): State {
    st.(inBracket := false, buffer := "")
  }

  lemma EmitTwice(st: State, a: string, b: string)
    ensures var first := Emit(st, a, false); var rest := Emit(first.st, b, false);
      Emit(st, a + b, false) == Then(first.out, rest)
  {
  }

  lemma CharsFirst(s: string, ps: seq<Piece>)
    requires s != ""
    ensures (Chars(s) + ps)[0] == Text(s[0]) && (Chars(s) + ps)[1..] == Chars(s[1..]) + ps
    ensures s == [s[0]] + s[1..]
    ensures |s| == 1 ==> Chars(s[1..]) + ps == ps && s == [s[0]]
  {
    ConsConcat(Text(s[0]), Chars(s[1..]), ps);
    SplitFirst(s);
  }

  lemma RenderedText1(st: State, c: char, ps: seq<Piece>)
    requires ps != [] && ps[0] == Text(c)
    ensures var shown := Emit(st, [c], false);
      Rendered(st, ps) == Append(shown.out, Rendered(shown.st, ps[1..]))
  {
  }

  /** Text rendered in one go or piece by piece. */
  lemma {:induction false} RenderedChars(st: State, s: string, ps: seq<Piece>)
    requires s != ""
    ensures var shown := Emit(st, s, false);
      Rendered(st, Chars(s) + ps) == Append(shown.out, Rendered(shown.st, ps))
    decreases |s|
  {
    var first := Emit(st, [s[0]], false);
    CharsFirst(s, ps);
    RenderedText1(st, s[0], Chars(s) + ps);
    if |s| > 1 {
      RenderedChars(first.st, s[1..], ps);
      var rest := Emit(first.st, s[1..], false);
      EmitTwice(st, [s[0]], s[1..]);
      AppendAssociates(first.out, rest.out, Rendered(rest.st, ps));
    }
  }

  /** What comes out of state `st` until the end, `finalize` included. */
  function Rest(st: State, s: string): Output {
    Append(Run(st, s).out, Finished(Run(st, s).st))
  }

  lemma RestStep(st: State, s: string)
    requires s != ""
    ensures Rest(st, s) == Append(Step(st, s[0]).out, Rest(Step(st, s[0]).st, s[1..]))
  {
    var step := Step(st, s[0]);
    AppendAssociates(step.out, Run(step.st, s[1..]).out, Finished(Run(st, s).st));
  }

  lemma {:induction false} RunBeforeBracket(b: string, s: string)
    requires forall i :: 0 <= i < |b| ==> !IsBracket(b[i])
    ensures BracketRun(b + s) == |b| + BracketRun(s)
  {
    if b == "" {
      assert b + s == s;
    } else {
      assert (b + s)[1..] == b[1..] + s;
      RunBeforeBracket(b[1..], s);
    }
  }

  predicate Plain(b: string) {
    forall i :: 0 <= i < |b| ==> !IsBracket(b[i])
  }

  /** An open bracket whose text so far is `b`, and the rest of the answer `s`. */
  lemma OpenBracket(b: string, s: string)
    requires Plain(b)
    ensures var raw := "[" + b + s;
      && raw[0] == '[' && BracketRun(raw[1..]) == |b| + BracketRun(s)
      && raw[..|b| + 1] == "[" + b && raw[|b| + 1..] == s && raw[1..|b| + 1] == b
      && (s != "" ==> raw[|b| + 1] == s[0] && raw[..|b| + 2] == "[" + b + [s[0]] && raw[|b| + 2..] == s[1..])
  {
    var raw := "[" + b + s;
    RunBeforeBracket(b, s);
    assert raw[1..] == b + s;
    CutAfter("[" + b, s);
  }

  lemma CutAfter(a: string, s: string)
    ensures (a + s)[..|a|] == a && (a + s)[|a|..] == s
    ensures s != "" ==> (a + s)[|a|] == s[0] && (a + s)[..|a| + 1] == a + [s[0]] && (a + s)[|a| + 1..] == s[1..]
  {
  }

  lemma PiecesUnclosed(b: string)
    requires Plain(b) && |b| <= MAX_BRACKET_LEN
    ensures Pieces("[" + b) == Chars("[" + b)
  {
    OpenBracket(b, "");
    assert "[" + b + "" == "[" + b;
    assert Chars("[" + b) + [] == Chars("[" + b);
  }

  lemma PiecesReopened(b: string, s: string)
    requires Plain(b) && |b| <= MAX_BRACKET_LEN && s != "" && s[0] == '['
    ensures Pieces("[" + b + s) == Chars("[" + b) + Pieces(s)
  {
    OpenBracket(b, s);
  }

  lemma FirstPiecesClosed(raw: string, n: nat, b: string, whole: string)
    requires n <= MAX_BRACKET_LEN && n + 1 < |raw| && raw[0] == '[' && raw[n + 1] == ']'
    requires BracketRun(raw[1..]) == n && raw[1..n + 1] == b && raw[..n + 2] == whole
    ensures FirstPieces(raw) == (if IsCitation(Strip(b)) then [Cite(b)] else Chars(whole), n + 2)
  {
  }

  lemma PiecesClosed(b: string, s: string)
    requires Plain(b) && |b| <= MAX_BRACKET_LEN && s != "" && s[0] == ']'
    ensures Pieces("[" + b + s) == (if IsCitation(Strip(b)) then [Cite(b)] else Chars("[" + b + "]")) + Pieces(s[1..])
  {
    OpenBracket(b, s);
    var raw := "[" + b + s;
    assert [s[0]] == "]";
    FirstPiecesClosed(raw, |b|, b, "[" + b + "]");
  }

  lemma PiecesTooLong(b: string, s: string)
    requires Plain(b) && |b| == MAX_BRACKET_LEN && s != "" && !IsBracket(s[0])
    ensures Pieces("[" + b + s) == Chars("[" + b + [s[0]]) + Pieces(s[1..])
  {
    OpenBracket(b, s);
  }

  /** From any state, the parser emits what the pieces of the held-back and coming text render to. */
  lemma {:induction false} ParserRendersPieces(st: State, s: string)
    requires StateOk(st)
    ensures Rest(st, s) == Rendered(Outside(st), Pieces(Held(st) + s))
    decreases |s|
  {
    if s == "" {
      FinishRendersPieces(st);
    } else {
      RestStep(st, s);
      var step := Step(st, s[0]);
      StepKeepsOk(st, s[0]);
      ParserRendersPieces(step.st, s[1..]);
      StepRendersPieces(st, s);
    }
  }

  lemma FinishRendersPieces(st: State)
    requires StateOk(st)
    ensures Rest(st, "") == Rendered(Outside(st), Pieces(Held(st) + ""))
  {
    AppendAssociates(Finished(st), Output("", []), Output("", []));
    assert Held(st) + "" == Held(st);
    if st.inBracket {
      PiecesUnclosed(st.buffer);
      RenderedChars(Outside(st), Held(st), []);
      assert Chars(Held(st)) + [] == Chars(Held(st));
    }
  }

  lemma StepKeepsOk(st: State, ch: char)
    requires StateOk(st)
    ensures StateOk(Step(st, ch).st)
  {
  }

  /** The step's text and what its state renders to are what the pieces render to. */
  predicate Renders(st: State, ps: seq<Piece>, step: Stepped, rest: seq<Piece>) {
    Rendered(Outside(st), ps) == Append(step.out, Rendered(Outside(step.st), rest))
  }

  lemma SilentStep(st: State, ps: seq<Piece>, step: Stepped, rest: seq<Piece>)
    requires step.out == Output("", []) && Rendered(Outside(st), ps) == Rendered(Outside(step.st), rest)
    ensures Renders(st, ps, step, rest)
  {
    AppendAssociates(Rendered(Outside(step.st), rest), Output("", []), Output("", []));
  }

  /** In a bracket, text comes out when the bracket turns out not to be a citation. */
  lemma ShownStep(st: State, text: string, inBracket: bool, rest: seq<Piece>)
    requires text != ""
    ensures Renders(st, Chars(text) + rest, Emit(st, text, inBracket), rest)
  {
    RenderedChars(Outside(st), text, rest);
  }

  lemma CitedStep(st: State, rest: seq<Piece>)
    requires st.inBracket && IsCitation(Strip(st.buffer))
    ensures Renders(st, [Cite(st.buffer)] + rest, Closed(st), rest)
  {
    assert ([Cite(st.buffer)] + rest)[1..] == rest;
    SilentStep(st, [Cite(st.buffer)] + rest, Closed(st), rest);
  }

  /** The step on s[0] renders the pieces of what is held back and s. */
  predicate StepRenders(st: State, s: string)
    requires s != ""
  {
    var step := Step(st, s[0]);
    Renders(st, Pieces(Held(st) + s), step, Pieces(Held(step.st) + s[1..]))
  }

  lemma TextStepRenders(st: State, s: string)
    requires StateOk(st) && !st.inBracket && s != "" && s[0] != '['
    ensures StepRenders(st, s)
  {
    assert Held(st) + s == s && Held(Step(st, s[0]).st) + s[1..] == s[1..];
    assert s[..1] == [s[0]];
    ShownStep(st, [s[0]], false, Pieces(s[1..]));
  }

  /** Nothing comes out and nothing is lost: the character is held back. */
  lemma HeldStepRenders(st: State, s: string)
    requires StateOk(st) && s != ""
    requires var step := Step(st, s[0]);
      step.out == Output("", []) && Held(step.st) == Held(st) + [s[0]] && Outside(step.st) == Outside(st)
    ensures StepRenders(st, s)
  {
    var step := Step(st, s[0]);
    assert Held(step.st) + s[1..] == Held(st) + s by { assert s == [s[0]] + s[1..]; }
    SilentStep(st, Pieces(Held(st) + s), step, Pieces(Held(st) + s));
  }

  lemma ReopenStepRenders(st: State, s: string)
    requires StateOk(st) && st.inBracket && s != "" && s[0] == '['
    ensures StepRenders(st, s)
  {
    PiecesReopened(st.buffer, s);
    assert Held(Step(st, s[0]).st) + s[1..] == s;
    ShownStep(st, "[" + st.buffer, true, Pieces(s));
  }

  lemma CloseStepRenders(st: State, s: string)
    requires StateOk(st) && st.inBracket && s != "" && s[0] == ']'
    ensures StepRenders(st, s)
  {
    PiecesClosed(st.buffer, s);
    assert Held(Step(st, s[0]).st) + s[1..] == s[1..];
    if IsCitation(Strip(st.buffer)) {
      CitedStep(st, Pieces(s[1..]));
    } else {
      ShownStep(st, "[" + st.buffer + "]", false, Pieces(s[1..]));
    }
  }

  lemma OverlongStepRenders(st: State, s: string)
    requires StateOk(st) && st.inBracket && s != "" && !IsBracket(s[0]) && |st.buffer| >= MAX_BRACKET_LEN
    ensures StepRenders(st, s)
  {
    PiecesTooLong(st.buffer, s);
    assert Held(Step(st, s[0]).st) + s[1..] == s[1..];
    ShownStep(st, "[" + st.buffer + [s[0]], false, Pieces(s[1..]));
  }

  lemma StepRendersPieces(st: State, s: string)
    requires StateOk(st) && s != ""
    ensures StepRenders(st, s)
  {
    if !st.inBracket && s[0] != '[' { TextStepRenders(st, s); }
    else if !st.inBracket { HeldStepRenders(st, s); }
    else if s[0] == '[' { ReopenStepRenders(st, s); }
    else if s[0] == ']' { CloseStepRenders(st, s); }
    else if |st.buffer| >= MAX_BRACKET_LEN { OverlongStepRenders(st, s); }
    else { HeldStepRenders(st, s); }
  }

  // ---------------------------------------------------------------------
  // Text and spans
  // ---------------------------------------------------------------------

  lemma {:induction false} RenderedText(st: State, ps: seq<Piece>)
    ensures Rendered(st, ps).text == Clean(ps)
    decreases |ps|
  {
    if ps != [] {
      match ps[0]
      case Text(c) => RenderedText(Emit(st, [c], false).st, ps[1..]);
      case Cite(inner) => RenderedText(Cited(st, inner), ps[1..]);
    }
  }

  predicate RefsFound(ps: seq<Piece>) {
    forall i :: 0 <= i < |ps| ==> ps[i].Cite? ==> RefsOf(ps[i].inner) != []
  }

  /** The spans to come: those of the runs, the first of which goes on with what is pending. */
  function SpansAfter(st: State, ps: seq<Piece>): seq<Span> {
    if st.pending == [] then SpansOf(ps, st.offset, st.lastEnd)
    else
      var n := CiteRun(ps);
      [Span(st.lastEnd, st.offset, st.pending + AllRefs(ps[..n]))] + SpansOf(ps[n..], st.offset, st.offset)
  }

  lemma SpansAfterText(st: State, ps: seq<Piece>)
    requires StateOk(st) && !st.inBracket && ps != [] && ps[0].Text?
    ensures var shown := Emit(st, [ps[0].c], false);
      SpansAfter(st, ps) == shown.out.spans + SpansAfter(shown.st, ps[1..])
  {
    assert ps[..0] == [] && ps[0..] == ps;
    assert st.pending + [] == st.pending;
  }

  lemma CiteRunSplit(ps: seq<Piece>)
    requires ps != [] && ps[0].Cite?
    ensures var n := CiteRun(ps);
      && n == 1 + CiteRun(ps[1..])
      && ps[n..] == ps[1..][n - 1..]
      && AllRefs(ps[..n]) == RefsOf(ps[0].inner) + AllRefs(ps[1..][..n - 1])
  {
    SliceAfterFirst(ps, CiteRun(ps));
  }

  lemma SpansAfterCite(st: State, ps: seq<Piece>)
    requires StateOk(st) && !st.inBracket && ps != [] && ps[0].Cite? && RefsOf(ps[0].inner) != []
    ensures SpansAfter(st, ps) == SpansAfter(Cited(st, ps[0].inner), ps[1..])
  {
    CiteRunSplit(ps);
    var refs, n := RefsOf(ps[0].inner), CiteRun(ps);
    Associates(st.pending, refs, AllRefs(ps[1..][..n - 1]));
    Associates(refs, [], []);
  }

  lemma {:induction false} RenderedSpans(st: State, ps: seq<Piece>)
    requires StateOk(st) && !st.inBracket && RefsFound(ps)
    ensures Rendered(st, ps).spans == SpansAfter(st, ps)
    decreases |ps|
  {
    if ps != [] {
      match ps[0]
      case Text(c) =>
        RenderedSpans(Emit(st, [c], false).st, ps[1..]);
        SpansAfterText(st, ps);
      case Cite(inner) =>
        RenderedSpans(Cited(st, inner), ps[1..]);
        SpansAfterCite(st, ps);
    } else {
      assert ps[..0] == [] && st.pending + [] == st.pending;
    }
  }

  // ---------------------------------------------------------------------
  // The pieces of an answer
  // ---------------------------------------------------------------------

  lemma CitationHasRefs(content: string)
    requires IsCitation(content)
    ensures ParseRefs(content) != []
  {
    var i := IndexOf(content, ',');
    StripKeepsNonSpace(content[..i]);
  }

  lemma BracketRebuilds(raw: string, k: nat)
    requires 2 <= k <= |raw| && raw[0] == '[' && raw[k - 1] == ']'
    ensures raw[..k] == "[" + raw[1..k - 1] + "]"
    ensures Raw([Cite(raw[1..k - 1])]) == raw[..k]
  {
    assert [Cite(raw[1..k - 1])][1..] == [];
  }

  /** The first pieces rebuild the characters they take, and their citations have references. */
  lemma FirstPiecesRebuild(raw: string)
    requires raw != ""
    ensures var (ps, k) := FirstPieces(raw); Raw(ps) == raw[..k] && RefsFound(ps)
  {
    var (ps, k) := FirstPieces(raw);
    CharsAreText(raw[..k]);
    assert raw[..|raw|] == raw;
    if ps != Chars(raw[..k]) {
      BracketRebuilds(raw, k);
      CitationHasRefs(Strip(raw[1..k - 1]));
    }
  }

  lemma {:induction false} PiecesHaveRefs(raw: string)
    ensures RefsFound(Pieces(raw))
    decreases |raw|
  {
    if raw != "" {
      FirstPiecesRebuild(raw);
      PiecesHaveRefs(raw[FirstPieces(raw).1..]);
    }
  }

  lemma {:induction false} CharsAreText(s: string)
    ensures forall i :: 0 <= i < |s| ==> Chars(s)[i].Text?
    ensures Raw(Chars(s)) == s && Clean(Chars(s)) == s && Removed(Chars(s)) == 0
  {
    if s != "" {
      CharsAreText(s[1..]);
    }
  }

  /** How many raw characters the citations of an answer take up. */
  function Removed(ps: seq<Piece>): nat {
    if ps == [] then 0 else (if ps[0].Cite? then |ps[0].inner| + 2 else 0) + Removed(ps[1..])
  }

  lemma {:induction false} RawConcat(a: seq<Piece>, b: seq<Piece>)
    ensures Raw(a + b) == Raw(a) + Raw(b)
  {
    if a == [] {
      assert a + b == b;
    } else {
      assert (a + b)[1..] == a[1..] + b;
      RawConcat(a[1..], b);
    }
  }

  lemma RebuildJoined(raw: string, k: nat, ps: seq<Piece>, rest: seq<Piece>)
    requires k <= |raw| && Raw(ps) == raw[..k] && Raw(rest) == raw[k..]
    ensures Raw(ps + rest) == raw
  {
    RawConcat(ps, rest);
    assert raw[..k] + raw[k..] == raw;
  }

  /** Nothing is lost: the pieces put back together are the raw answer. */
  lemma {:induction false} PiecesRebuildRaw(raw: string)
    ensures Raw(Pieces(raw)) == raw
    decreases |raw|
  {
    if raw != "" {
      var (ps, k) := FirstPieces(raw);
      FirstPiecesRebuild(raw);
      PiecesRebuildRaw(raw[k..]);
      RebuildJoined(raw, k, ps, Pieces(raw[k..]));
    }
  }

  lemma {:induction false} RawLength(ps: seq<Piece>)
    ensures |Raw(ps)| == |Clean(ps)| + Removed(ps)
  {
    if ps != [] {
      RawLength(ps[1..]);
    }
  }

  // ---------------------------------------------------------------------
  // Main results
  // ---------------------------------------------------------------------

  /** The streaming parser shows exactly the text pieces and one span per run of citations. */
  lemma ParsedIsReference(raw: string)
    ensures Parsed(raw) == Output(Clean(Pieces(raw)), SpansOf(Pieces(raw), 0, 0))
  {
    ParserRendersPieces(START, raw);
    assert Held(START) + raw == raw;
    PiecesHaveRefs(raw);
    RenderedText(START, Pieces(raw));
    RenderedSpans(START, Pieces(raw));
  }

  /** At every moment of the stream, the characters read are those emitted, those of removed
      citations, and at most 31 held back; and what is shown so far with what is held back is the
      text of the answer so far. */
  lemma CharactersAreConserved(raw: string)
    ensures var run := Run(START, raw);
      && |raw| == |run.out.text| + Removed(Pieces(raw)) + |Held(run.st)|
      && |Held(run.st)| <= 31
      && run.out.text + Held(run.st) == Clean(Pieces(raw))
  {
    ParsedIsReference(raw);
    PiecesRebuildRaw(raw);
    RawLength(Pieces(raw));
    RunKeepsOk(START, raw);
  }

  lemma StepEmits(st: State, ch: char)
    requires StateOk(st)
    ensures Step(st, ch).st.offset == st.offset + |Step(st, ch).out.text|
    ensures forall span <- Step(st, ch).out.spans :: span.end <= st.offset
  {
  }

  lemma {:induction false} RunKeepsOk(st: State, s: string)
    requires StateOk(st)
    ensures StateOk(Run(st, s).st)
    ensures Run(st, s).st.offset == st.offset + |Run(st, s).out.text|
    ensures forall span <- Run(st, s).out.spans :: span.end <= st.offset + |Run(st, s).out.text|
    decreases |s|
  {
    if s != "" {
      var step := Step(st, s[0]);
      StepKeepsOk(st, s[0]);
      StepEmits(st, s[0]);
      RunKeepsOk(step.st, s[1..]);
      var rest := Run(step.st, s[1..]);
      assert Run(st, s) == Stepped(rest.st, Append(step.out, rest.out));
    }
  }

  /** A span is emitted no earlier than the text it ends at. */
  lemma SpansFollowText(raw: string)
    ensures forall span <- Run(START, raw).out.spans :: span.end <= |Run(START, raw).out.text|
  {
    RunKeepsOk(START, raw);
  }

  /** Each span starts where the one before ended, ends strictly later than it (and not before
      `lo`), lies within the text and carries references. */
  predicate Tiles(spans: seq<Span>, start: nat, lo: nat, hi: nat) {
    spans == [] ||
    (spans[0].start == start && lo <= spans[0].end <= hi && spans[0].refs != []
     && Tiles(spans[1..], spans[0].end, spans[0].end + 1, hi))
  }

  function RefsIn(spans: seq<Span>): seq<string> {
    if spans == [] then [] else spans[0].refs + RefsIn(spans[1..])
  }

  lemma {:induction false} AllRefsConcat(a: seq<Piece>, b: seq<Piece>)
    ensures AllRefs(a + b) == AllRefs(a) + AllRefs(b)
  {
    if a == [] {
      assert a + b == b;
    } else {
      assert (a + b)[1..] == a[1..] + b;
      AllRefsConcat(a[1..], b);
    }
  }

  lemma {:induction false} CleanOfCites(ps: seq<Piece>)
    ensures Clean(ps) == Clean(ps[CiteRun(ps)..])
    ensures var n := CiteRun(ps); n < |ps| ==> ps[n].Text?
  {
    if ps != [] && ps[0].Cite? {
      CleanOfCites(ps[1..]);
      SliceAfterFirst(ps, CiteRun(ps));
    }
  }

  /** What a run of citations leaves to be tiled. */
  lemma AfterRun(ps: seq<Piece>)
    requires RefsFound(ps) && ps != [] && ps[0].Cite?
    ensures var n := CiteRun(ps);
      && 0 < n && AllRefs(ps[..n]) != []
      && RefsFound(ps[n..]) && Clean(ps[n..]) == Clean(ps)
      && (ps[n..] == [] || ps[n..][0].Text?)
  {
    CleanOfCites(ps);
    CiteRunSplit(ps);
  }

  lemma AfterText(ps: seq<Piece>)
    requires RefsFound(ps) && ps != [] && ps[0].Text?
    ensures RefsFound(ps[1..]) && |Clean(ps)| == 1 + |Clean(ps[1..])|
  {
  }

  lemma {:induction false} SpansTile(ps: seq<Piece>, pos: nat, start: nat, lo: nat, hi: nat)
    requires RefsFound(ps) && lo <= pos + (if ps != [] && ps[0].Cite? then 0 else 1)
    requires hi == pos + |Clean(ps)|
    ensures Tiles(SpansOf(ps, pos, start), start, lo, hi)
    decreases |ps|
  {
    if ps == [] {
    } else if ps[0].Text? {
      AfterText(ps);
      SpansTile(ps[1..], pos + 1, start, lo, hi);
    } else {
      AfterRun(ps);
      var n := CiteRun(ps);
      SpansTile(ps[n..], pos, pos, pos + 1, hi);
      TilesFrom(Span(start, pos, AllRefs(ps[..n])), SpansOf(ps[n..], pos, pos), lo, hi);
    }
  }

  lemma TilesFrom(span: Span, spans: seq<Span>, lo: nat, hi: nat)
    requires lo <= span.end <= hi && span.refs != [] && Tiles(spans, span.end, span.end + 1, hi)
    ensures Tiles([span] + spans, span.start, lo, hi)
  {
    assert ([span] + spans)[1..] == spans;
  }

  lemma RefsInFirst(span: Span, spans: seq<Span>)
    ensures RefsIn([span] + spans) == span.refs + RefsIn(spans)
  {
    assert ([span] + spans)[1..] == spans;
  }

  lemma AllRefsSplit(ps: seq<Piece>, n: nat)
    requires n <= |ps|
    ensures AllRefs(ps) == AllRefs(ps[..n]) + AllRefs(ps[n..])
  {
    assert ps == ps[..n] + ps[n..];
    AllRefsConcat(ps[..n], ps[n..]);
  }

  lemma {:induction false} SpansCarryRefs(ps: seq<Piece>, pos: nat, start: nat)
    ensures RefsIn(SpansOf(ps, pos, start)) == AllRefs(ps)
    decreases |ps|
  {
    if ps == [] {
    } else if ps[0].Text? {
      SpansCarryRefs(ps[1..], pos + 1, start);
      Associates(AllRefs(ps[1..]), [], []);
    } else {
      var n := CiteRun(ps);
      SpansCarryRefs(ps[n..], pos, pos);
      AllRefsSplit(ps, n);
      RefsInFirst(Span(start, pos, AllRefs(ps[..n])), SpansOf(ps[n..], pos, pos));
    }
  }

  lemma SpansTileFromZero(ps: seq<Piece>)
    requires RefsFound(ps)
    ensures Tiles(SpansOf(ps, 0, 0), 0, 0, |Clean(ps)|)
  {
    SpansTile(ps, 0, 0, 0, |Clean(ps)|);
  }

  /** The spans tile the clean text from 0, in strictly increasing order. */
  lemma SpansTileCleanText(raw: string)
    ensures Tiles(Parsed(raw).spans, 0, 0, |Parsed(raw).text|)
  {
    ParsedIsReference(raw);
    PiecesHaveRefs(raw);
    SpansTileFromZero(Pieces(raw));
  }

  /** The spans carry the references of all citations, each once and in order. */
  lemma SpansCarryAllRefs(raw: string)
    ensures RefsIn(Parsed(raw).spans) == AllRefs(Pieces(raw))
  {
    ParsedIsReference(raw);
    SpansCarryRefs(Pieces(raw), 0, 0);
  }

  // ---------------------------------------------------------------------
  // Printing and reading back
  // ---------------------------------------------------------------------

  /** One reference of a mark: white space before it (after the comma), a letter S in either case, digits. */
  datatype Ref = Ref(gap: string, letter: char, digits: string)

  /** What stands in a bracket: references, with white space around them. */
  datatype Mark = Mark(before: string, refs: seq<Ref>, after: string)

  predicate RefOk(r: Ref) {
    AllSpace(r.gap) && r.letter in {'S', 's', '\U{017F}'} && r.digits != "" && AllDigits(r.digits)
  }

  predicate RefsOk(refs: seq<Ref>) {
    refs != [] && forall i :: 0 <= i < |refs| ==> RefOk(refs[i])
  }

  predicate MarkOk(m: Mark) {
    AllSpace(m.before) && AllSpace(m.after) && RefsOk(m.refs)
  }

  function RefText(r: Ref): string {
    [r.letter] + r.digits
  }

  /** The references, with a comma and a gap before each but the first. */
  function JoinedRefs(refs: seq<Ref>): string {
    if refs == [] then ""
    else
      RefText(refs[0]) + if |refs| == 1 then "" else "," + (refs[1].gap + JoinedRefs(refs[1..]))
  }

  function MarkText(m: Mark): string {
    m.before + (JoinedRefs(m.refs) + m.after)
  }

  /** The sources a mark names. */
  function Labels(refs: seq<Ref>): (r: seq<string>)
    ensures |r| == |refs|
  {
    if refs == [] then [] else ["S" + refs[0].digits] + Labels(refs[1..])
  }

  // Which brackets are citations, and of what

  lemma {:induction false} LStripSpaces(gap: string, s: string)
    requires AllSpace(gap)
    ensures LStrip(gap + s) == LStrip(s)
  {
    if gap == "" {
      Associates(s, "", "");
    } else {
      ConsConcat(gap[0], gap[1..], s);
      SplitFirst(gap);
      LStripSpaces(gap[1..], s);
    }
  }

  lemma {:induction false} RStripSpaces(s: string, gap: string)
    requires AllSpace(gap)
    ensures RStrip(s + gap) == RStrip(s)
  {
    if gap == "" {
      Associates(s, "", "");
    } else {
      var n := |gap| - 1;
      assert (s + gap)[..|s + gap| - 1] == s + gap[..n];
      RStripSpaces(s, gap[..n]);
    }
  }

  lemma StripAround(before: string, s: string, after: string)
    requires AllSpace(before) && AllSpace(after) && s != "" && !IsSpace(s[0]) && !IsSpace(s[|s| - 1])
    ensures Strip(before + (s + after)) == s
  {
    LStripSpaces(before, s + after);
    RStripSpaces(s, after);
  }

  lemma LetterNoSpace(c: char)
    requires c in {'S', 's', '\U{017F}'}
    ensures IsLetterS(c) && !IsSpace(c) && c != ',' && !IsBracket(c) && UpperChar(c) == 'S'
  {
  }

  lemma JoinOfOne(refs: seq<Ref>)
    requires |refs| == 1
    ensures JoinedRefs(refs) == RefText(refs[0]) && Labels(refs) == ["S" + refs[0].digits]
  {
    assert Labels(refs[1..]) == [];
  }

  lemma JoinOfMore(refs: seq<Ref>)
    requires |refs| > 1
    ensures JoinedRefs(refs) == RefText(refs[0]) + ("," + (refs[1].gap + JoinedRefs(refs[1..])))
    ensures Labels(refs) == ["S" + refs[0].digits] + Labels(refs[1..])
  {
  }

  lemma RefIs(r: Ref)
    requires RefOk(r)
    ensures var first := RefText(r);
      && first != "" && IsLetterS(first[0]) && !IsSpace(first[0]) && !IsSpace(first[|first| - 1])
      && ',' !in first && Plain(first) && Upper(first) == "S" + r.digits && first[1..] == r.digits
  {
    LetterNoSpace(r.letter);
    DigitsOnly(r.digits);
    var first := RefText(r);
    assert first[1..] == r.digits;
    assert first[|first| - 1] == r.digits[|r.digits| - 1];
  }

  /** A reference up to a comma or the end. */
  lemma RefReads(r: Ref, rest: string)
    requires RefOk(r) && (rest == "" || rest[0] == ',')
    ensures var first := RefText(r);
      && LeadingDigits((first + rest)[1..]) == |r.digits|
      && (first + rest)[0] == r.letter && (first + rest)[|first|..] == rest
  {
    RefIs(r);
    assert (RefText(r) + rest)[1..] == r.digits + rest;
    DigitsBefore(r.digits, rest);
  }

  lemma {:induction false} DigitsBefore(digits: string, rest: string)
    requires AllDigits(digits) && (rest == "" || !IsDigit(rest[0]))
    ensures LeadingDigits(digits + rest) == |digits|
  {
    if digits == "" {
      Associates(rest, "", "");
    } else {
      ConsConcat(digits[0], digits[1..], rest);
      SplitFirst(digits);
      DigitsBefore(digits[1..], rest);
    }
  }

  lemma {:induction false} NoCommaBefore(s: string, rest: string)
    requires ',' !in s && (rest == "" || rest[0] == ',')
    ensures IndexOf(s + rest, ',') == |s|
  {
    if s == "" {
      Associates(rest, "", "");
    } else {
      ConsConcat(s[0], s[1..], rest);
      SplitFirst(s);
      NoCommaBefore(s[1..], rest);
    }
  }

  lemma EndsOf(first: string, gap: string, more: string)
    requires first != "" && !IsSpace(first[0]) && Plain(first) && AllSpace(gap)
    requires more != "" && !IsSpace(more[|more| - 1]) && Plain(more)
    ensures var s := first + ("," + (gap + more));
      s != "" && !IsSpace(s[0]) && !IsSpace(s[|s| - 1]) && Plain(s)
  {
    SpacesPlain(gap);
    PlainConcat(gap, more);
    PlainConcat(",", gap + more);
    PlainConcat(first, "," + (gap + more));
    var s := first + ("," + (gap + more));
    assert s[|s| - 1] == more[|more| - 1];
  }

  lemma PlainConcat(a: string, b: string)
    requires Plain(a) && Plain(b)
    ensures Plain(a + b)
  {
  }

  lemma {:induction false} JoinEnds(refs: seq<Ref>)
    requires RefsOk(refs)
    ensures var s := JoinedRefs(refs);
      s != "" && !IsSpace(s[0]) && !IsSpace(s[|s| - 1]) && Plain(s)
  {
    RefIs(refs[0]);
    if |refs| > 1 {
      JoinEnds(refs[1..]);
      JoinOfMore(refs);
      EndsOf(RefText(refs[0]), refs[1].gap, JoinedRefs(refs[1..]));
    } else {
      JoinOfOne(refs);
    }
  }

  lemma SpacesPlain(s: string)
    requires AllSpace(s)
    ensures Plain(s) && ',' !in s
  {
  }

  lemma OneIsCitation(r: Ref)
    requires RefOk(r)
    ensures IsCitation(RefText(r))
  {
    RefIs(r);
    RefReads(r, "");
    assert RefText(r) + "" == RefText(r);
  }

  lemma MoreIsCitation(r: Ref, gap: string, more: string)
    requires RefOk(r) && AllSpace(gap) && more != "" && !IsSpace(more[0]) && IsCitation(more)
    ensures IsCitation(RefText(r) + ("," + (gap + more)))
  {
    var first, rest := RefText(r), "," + (gap + more);
    RefIs(r);
    RefReads(r, rest);
    LStripSpaces(gap, more);
    var content := first + rest;
    var n := 1 + |r.digits|;
    assert content[n..] == rest && content[n] == ',';
    assert content[n + 1..] == rest[1..] == gap + more;
  }

  lemma {:induction false} JoinIsCitation(refs: seq<Ref>)
    requires RefsOk(refs)
    ensures IsCitation(JoinedRefs(refs))
  {
    if |refs| == 1 {
      JoinOfOne(refs);
      OneIsCitation(refs[0]);
    } else {
      JoinIsCitation(refs[1..]);
      JoinEnds(refs[1..]);
      JoinOfMore(refs);
      MoreIsCitation(refs[0], refs[1].gap, JoinedRefs(refs[1..]));
    }
  }

  lemma PartParsed(whole: string, front: string, part: string, rest: string)
    requires whole == front + rest && IndexOf(whole, ',') == |front| && Strip(front) == part != ""
    ensures ParseRefs(whole) == [Upper(part)] + if rest == "" then [] else ParseRefs(rest[1..])
  {
    assert whole[..|front|] == front && (rest != "" ==> whole[|front| + 1..] == rest[1..]);
  }

  lemma LabelsUpToComma(gap: string, r: Ref, rest: string)
    requires AllSpace(gap) && RefOk(r) && (rest == "" || rest[0] == ',')
    ensures ParseRefs(gap + (RefText(r) + rest)) == ["S" + r.digits] + if rest == "" then [] else ParseRefs(rest[1..])
  {
    var first := RefText(r);
    var front := gap + first;
    RefIs(r);
    SpacesPlain(gap);
    NoCommaBefore(front, rest);
    Associates(gap, first, rest);
    StripAround(gap, first, "");
    assert gap + (first + "") == front;
    PartParsed(gap + (first + rest), front, first, rest);
  }

  /** Each reference comes out once, in order, as S and its digits. */
  lemma {:induction false} JoinHasLabels(gap: string, refs: seq<Ref>)
    requires AllSpace(gap) && RefsOk(refs)
    ensures ParseRefs(gap + JoinedRefs(refs)) == Labels(refs)
    decreases |refs|
  {
    if |refs| == 1 {
      JoinOfOne(refs);
      LabelsUpToComma(gap, refs[0], "");
      assert RefText(refs[0]) + "" == RefText(refs[0]);
    } else {
      var more := refs[1].gap + JoinedRefs(refs[1..]);
      JoinHasLabels(refs[1].gap, refs[1..]);
      JoinOfMore(refs);
      LabelsUpToComma(gap, refs[0], "," + more);
      assert ("," + more)[1..] == more;
    }
  }

  /** Stripping leaves off only white space at the front. */
  lemma {:induction false} LStripDrops(s: string) returns (gap: string)
    ensures AllSpace(gap) && s == gap + LStrip(s)
  {
    if s != "" && IsSpace(s[0]) {
      gap := LStripDrops(s[1..]);
      SplitFirst(s);
      gap := [s[0]] + gap;
    } else {
      gap := "";
    }
  }

  lemma {:induction false} RStripDrops(s: string) returns (gap: string)
    ensures AllSpace(gap) && s == RStrip(s) + gap
  {
    if s != "" && IsSpace(s[|s| - 1]) {
      gap := RStripDrops(s[..|s| - 1]);
      assert s == s[..|s| - 1] + [s[|s| - 1]];
      gap := gap + [s[|s| - 1]];
    } else {
      gap := "";
    }
  }

  lemma {:induction false} LeadingDigitsAre(s: string)
    ensures AllDigits(s[..LeadingDigits(s)])
  {
    if s != "" && IsDigit(s[0]) {
      LeadingDigitsAre(s[1..]);
      var n := LeadingDigits(s[1..]);
      assert forall i :: 1 <= i < n + 1 ==> s[i] == s[1..][..n][i - 1];
    }
  }

  lemma LetterIs(c: char)
    requires IsLetterS(c)
    ensures c in {'S', 's', '\U{017F}'}
  {
  }

  /** A citation starts with a reference; a comma, a gap and another citation may follow. */
  lemma CitationSplits(content: string) returns (first: Ref, tail: string)
    requires IsCitation(content)
    ensures RefOk(first) && RefText(first) + tail == content
    ensures tail != "" ==> tail[0] == ',' && |LStrip(tail[1..])| < |content| && IsCitation(LStrip(tail[1..]))
  {
    var n := 1 + LeadingDigits(content[1..]);
    first, tail := Ref("", content[0], content[1..n]), content[n..];
    LetterIs(content[0]);
    LeadingDigitsAre(content[1..]);
    assert content[1..n] == content[1..][..n - 1];
    assert content == [content[0]] + content[1..n] + content[n..];
    assert tail != "" ==> tail[1..] == content[n + 1..];
  }

  lemma JoinGrows(first: Ref, more: seq<Ref>, gap: string)
    requires RefOk(first) && RefsOk(more) && AllSpace(gap)
    ensures var refs := [first] + ([more[0].(gap := gap)] + more[1..]);
      RefsOk(refs) && JoinedRefs(refs) == RefText(first) + ("," + (gap + JoinedRefs(more)))
  {
    var rest := [more[0].(gap := gap)] + more[1..];
    var refs := [first] + rest;
    assert refs[1..] == rest && rest[1..] == more[1..];
    SameJoin(more, rest);
    JoinOfMore(refs);
    forall i | 0 <= i < |refs| ensures RefOk(refs[i]) {
      assert i > 1 ==> refs[i] == more[i - 1];
    }
  }

  lemma {:induction false} CitationIsJoin(content: string) returns (refs: seq<Ref>)
    requires IsCitation(content)
    ensures RefsOk(refs) && JoinedRefs(refs) == content
    decreases |content|
  {
    var first, tail := CitationSplits(content);
    if tail == "" {
      refs := [first];
      JoinOfOne(refs);
      assert RefText(first) + "" == RefText(first);
    } else {
      var more := CitationIsJoin(LStrip(tail[1..]));
      var gap := LStripDrops(tail[1..]);
      SplitFirst(tail);
      refs := [first] + ([more[0].(gap := gap)] + more[1..]);
      JoinGrows(first, more, gap);
    }
  }

  /** The gap of the first reference is not part of the join. */
  lemma SameJoin(a: seq<Ref>, b: seq<Ref>)
    requires a != [] && |a| == |b| && b[0] == a[0].(gap := b[0].gap) && b[1..] == a[1..]
    ensures JoinedRefs(a) == JoinedRefs(b)
  {
    assert |a| > 1 ==> a[1] == a[1..][0] == b[1];
  }

  /** Between brackets of 30 characters or fewer, exactly the marks are citations, of the sources they name. */
  lemma MarkReads(m: Mark)
    requires MarkOk(m)
    ensures var b := MarkText(m); IsCitation(Strip(b)) && RefsOf(b) == Labels(m.refs) && Plain(b)
  {
    var join := JoinedRefs(m.refs);
    JoinEnds(m.refs);
    StripAround(m.before, join, m.after);
    JoinIsCitation(m.refs);
    JoinHasLabels("", m.refs);
    assert "" + join == join;
    MarkIsPlain(m.before, join, m.after);
  }

  lemma MarkIsPlain(before: string, join: string, after: string)
    requires AllSpace(before) && AllSpace(after) && Plain(join)
    ensures Plain(before + (join + after))
  {
    SpacesPlain(before);
    SpacesPlain(after);
    PlainConcat(join, after);
    PlainConcat(before, join + after);
  }

  lemma CitationIsMark(b: string) returns (m: Mark)
    requires IsCitation(Strip(b))
    ensures MarkOk(m) && MarkText(m) == b
  {
    var refs := CitationIsJoin(Strip(b));
    var before := LStripDrops(b);
    var after := RStripDrops(LStrip(b));
    m := Mark(before, refs, after);
  }

  /** Some text and the marks after it. */
  datatype Passage = Passage(text: string, marks: seq<Mark>)

  function SourcesOf(ms: seq<Mark>): seq<string> {
    if ms == [] then [] else Labels(ms[0].refs) + SourcesOf(ms[1..])
  }

  function Marks(ms: seq<Mark>): string {
    if ms == [] then "" else "[" + MarkText(ms[0]) + "]" + Marks(ms[1..])
  }

  /** The passages, each followed by its marks in brackets, and a last uncited text. */
  function Printed(ps: seq<Passage>, tail: string): string {
    if ps == [] then tail else ps[0].text + (Marks(ps[0].marks) + Printed(ps[1..], tail))
  }

  function PlainText(ps: seq<Passage>, tail: string): string {
    if ps == [] then tail else ps[0].text + PlainText(ps[1..], tail)
  }

  function PassageSpans(ps: seq<Passage>, pos: nat): seq<Span> {
    if ps == [] then []
    else
      var end := pos + |ps[0].text|;
      [Span(pos, end, SourcesOf(ps[0].marks))] + PassageSpans(ps[1..], end)
  }

  /** Marks short enough to be recognized. */
  predicate Citable(ms: seq<Mark>) {
    ms != [] && forall i :: 0 <= i < |ms| ==> MarkOk(ms[i]) && |MarkText(ms[i])| <= 30
  }

  /** Texts without `[`; every passage cites something, and all but the first have some text, since
      citations that touch are one run. */
  predicate Printable(ps: seq<Passage>, tail: string) {
    && '[' !in tail
    && (forall i :: 0 <= i < |ps| ==> '[' !in ps[i].text && Citable(ps[i].marks) && (i > 0 ==> ps[i].text != ""))
  }

  lemma {:induction false} DigitsOnly(s: string)
    requires AllDigits(s)
    ensures LeadingDigits(s) == |s| && Upper(s) == s
    ensures forall i :: 0 <= i < |s| ==> !IsBracket(s[i]) && s[i] != ',' && !IsSpace(s[i])
  {
    if s != "" {
      DigitsOnly(s[1..]);
      assert s == [s[0]] + s[1..];
    }
  }

  function Cites(ms: seq<Mark>): (r: seq<Piece>)
    ensures |r| == |ms|
  {
    if ms == [] then [] else [Cite(MarkText(ms[0]))] + Cites(ms[1..])
  }

  lemma {:induction false} PiecesOfText(text: string, rest: string)
    requires '[' !in text
    ensures Pieces(text + rest) == Chars(text) + Pieces(rest)
  {
    if text == "" {
      assert text + rest == rest;
      assert Chars(text) + Pieces(rest) == Pieces(rest);
    } else {
      var raw := text + rest;
      assert raw[1..] == text[1..] + rest && raw[..1] == [text[0]];
      PiecesOfText(text[1..], rest);
      CharsFirst(text, Pieces(rest));
      assert Chars([text[0]]) == [Text(text[0])] by { assert [text[0]][1..] == ""; }
      assert Chars(text) + Pieces(rest) == [Text(text[0])] + (Chars(text[1..]) + Pieces(rest));
    }
  }

  lemma MarksFirst(ms: seq<Mark>, rest: string)
    requires ms != []
    ensures Marks(ms) + rest == "[" + MarkText(ms[0]) + ("]" + (Marks(ms[1..]) + rest))
  {
  }

  lemma CitesFirst(ms: seq<Mark>, rest: seq<Piece>)
    requires ms != []
    ensures Cites(ms) + rest == [Cite(MarkText(ms[0]))] + (Cites(ms[1..]) + rest)
  {
  }

  lemma {:induction false} PiecesOfMarks(ms: seq<Mark>, rest: string)
    requires forall i :: 0 <= i < |ms| ==> MarkOk(ms[i]) && |MarkText(ms[i])| <= 30
    ensures Pieces(Marks(ms) + rest) == Cites(ms) + Pieces(rest)
  {
    if ms == [] {
      Associates(rest, "", "");
      Associates(Pieces(rest), [], []);
    } else {
      var more := Marks(ms[1..]) + rest;
      PiecesOfMarks(ms[1..], rest);
      MarkReads(ms[0]);
      PiecesClosed(MarkText(ms[0]), "]" + more);
      CutInSecond("]", more, 0);
      MarksFirst(ms, rest);
      CitesFirst(ms, Pieces(rest));
    }
  }

  /** The pieces of a printed document. */
  function PassagePieces(ps: seq<Passage>, tail: string): seq<Piece> {
    if ps == [] then Chars(tail) else Chars(ps[0].text) + (Cites(ps[0].marks) + PassagePieces(ps[1..], tail))
  }

  lemma PrintableRest(ps: seq<Passage>, tail: string)
    requires Printable(ps, tail) && ps != []
    ensures Printable(ps[1..], tail)
  {
    assert forall i :: 0 <= i < |ps| - 1 ==> ps[1..][i] == ps[i + 1];
  }

  lemma {:induction false} PiecesOfPrinted(ps: seq<Passage>, tail: string)
    requires Printable(ps, tail)
    ensures Pieces(Printed(ps, tail)) == PassagePieces(ps, tail)
  {
    if ps == [] {
      PiecesOfText(tail, "");
      assert tail + "" == tail && Chars(tail) + [] == Chars(tail);
    } else {
      PrintableRest(ps, tail);
      PiecesOfPrinted(ps[1..], tail);
      PiecesOfMarks(ps[0].marks, Printed(ps[1..], tail));
      PiecesOfText(ps[0].text, Marks(ps[0].marks) + Printed(ps[1..], tail));
    }
  }

  lemma {:induction false} SpansOfChars(s: string, rest: seq<Piece>, pos: nat, start: nat)
    ensures SpansOf(Chars(s) + rest, pos, start) == SpansOf(rest, pos + |s|, start)
    ensures Clean(Chars(s) + rest) == s + Clean(rest)
    decreases |s|
  {
    if s == "" {
      assert Chars(s) + rest == rest;
      assert s + Clean(rest) == Clean(rest);
    } else {
      CharsFirst(s, rest);
      SpansOfChars(s[1..], rest, pos + 1, start);
      assert [s[0]] + (s[1..] + Clean(rest)) == s + Clean(rest);
    }
  }

  lemma {:induction false} RunOfCites(ms: seq<Mark>, rest: seq<Piece>)
    requires rest != [] ==> rest[0].Text?
    ensures CiteRun(Cites(ms) + rest) == |ms|
    ensures Clean(Cites(ms) + rest) == Clean(rest)
  {
    if ms == [] {
      Associates(rest, [], []);
    } else {
      CitesFirst(ms, rest);
      ConsConcat(Cite(MarkText(ms[0])), Cites(ms[1..]), rest);
      RunOfCites(ms[1..], rest);
      Associates(Clean(rest), [], []);
    }
  }

  lemma {:induction false} RefsOfCites(ms: seq<Mark>)
    requires forall i :: 0 <= i < |ms| ==> MarkOk(ms[i])
    ensures AllRefs(Cites(ms)) == SourcesOf(ms)
  {
    if ms != [] {
      MarkReads(ms[0]);
      RefsOfCites(ms[1..]);
      CutInSecond([Cite(MarkText(ms[0]))], Cites(ms[1..]), 0);
    }
  }

  lemma SpansOfRun(ms: seq<Mark>, rest: seq<Piece>, pos: nat, start: nat)
    requires ms != [] && (rest != [] ==> rest[0].Text?) && forall i :: 0 <= i < |ms| ==> MarkOk(ms[i])
    ensures SpansOf(Cites(ms) + rest, pos, start) == [Span(start, pos, SourcesOf(ms))] + SpansOf(rest, pos, pos)
  {
    RunOfCites(ms, rest);
    RefsOfCites(ms);
    var ps := Cites(ms) + rest;
    assert ps[..|ms|] == Cites(ms) && ps[|ms|..] == rest && ps[0] == Cites(ms)[0];
  }

  lemma FirstIsText(ps: seq<Passage>, tail: string)
    requires ps != [] ==> ps[0].text != ""
    ensures PassagePieces(ps, tail) != [] ==> PassagePieces(ps, tail)[0].Text?
  {
  }

  lemma {:induction false} SpansOfPassages(ps: seq<Passage>, tail: string, pos: nat)
    requires Printable(ps, tail)
    ensures SpansOf(PassagePieces(ps, tail), pos, pos) == PassageSpans(ps, pos)
    decreases |ps|
  {
    if ps == [] {
      SpansOfChars(tail, [], pos, pos);
      ConsConcat(Text(' '), [], Chars(tail));
    } else {
      PrintableRest(ps, tail);
      var rest, end := PassagePieces(ps[1..], tail), pos + |ps[0].text|;
      FirstIsText(ps[1..], tail);
      SpansOfPassages(ps[1..], tail, end);
      SpansOfPassage(ps[0], rest, pos, end);
    }
  }

  lemma SpansOfPassage(p: Passage, rest: seq<Piece>, pos: nat, end: nat)
    requires Citable(p.marks) && (rest != [] ==> rest[0].Text?) && end == pos + |p.text|
    ensures SpansOf(Chars(p.text) + (Cites(p.marks) + rest), pos, pos)
         == [Span(pos, end, SourcesOf(p.marks))] + SpansOf(rest, end, end)
  {
    SpansOfChars(p.text, Cites(p.marks) + rest, pos, pos);
    SpansOfRun(p.marks, rest, end, pos);
  }

  lemma {:induction false} CleanOfPassages(ps: seq<Passage>, tail: string)
    requires Printable(ps, tail)
    ensures Clean(PassagePieces(ps, tail)) == PlainText(ps, tail)
    decreases |ps|
  {
    if ps == [] {
      CharsAreText(tail);
    } else {
      PrintableRest(ps, tail);
      var rest := PassagePieces(ps[1..], tail);
      FirstIsText(ps[1..], tail);
      CleanOfPassages(ps[1..], tail);
      SpansOfChars(ps[0].text, Cites(ps[0].marks) + rest, 0, 0);
      RunOfCites(ps[0].marks, rest);
    }
  }

  /** Round trip: printing text with its citations and parsing it gives back the text, and each
      passage's bounds with exactly its sources. */
  lemma RoundTrip(ps: seq<Passage>, tail: string)
    requires Printable(ps, tail)
    ensures Parsed(Printed(ps, tail)) == Output(PlainText(ps, tail), PassageSpans(ps, 0))
  {
    ParsedIsReference(Printed(ps, tail));
    PiecesOfPrinted(ps, tail);
    SpansOfPassages(ps, tail, 0);
    CleanOfPassages(ps, tail);
  }

  // One bracket

  /** What the parser makes of a text with one bracket. */
  function OneBracket(before: string, b: string, after: string): string {
    before + ("[" + b + ("]" + after))
  }

  lemma PiecesOfBracket(before: string, b: string, after: string)
    requires '[' !in before && '[' !in after && Plain(b) && |b| <= 30
    ensures Pieces(OneBracket(before, b, after))
         == Chars(before) + ((if IsCitation(Strip(b)) then [Cite(b)] else Chars("[" + b + "]")) + Chars(after))
  {
    PiecesOfText(before, "[" + b + ("]" + after));
    PiecesClosed(b, "]" + after);
    CutInSecond("]", after, 0);
    PiecesOfText(after, "");
    assert after + "" == after && Chars(after) + [] == Chars(after);
  }

  /** A bracket of at most 30 characters that holds a mark gives one span, up to the bracket, with exactly
      the sources named there, and is not shown. */
  lemma MarkIsCited(before: string, m: Mark, after: string)
    requires '[' !in before && '[' !in after && MarkOk(m) && |MarkText(m)| <= 30
    ensures Parsed(OneBracket(before, MarkText(m), after)) == Output(before + after, [Span(0, |before|, Labels(m.refs))])
  {
    var ps := [Passage(before, [m])];
    assert ps[1..] == [] && [m][1..] == [];
    assert Marks([m]) == "[" + MarkText(m) + "]" + "" == "[" + MarkText(m) + "]";
    assert Printed(ps, after) == before + (Marks([m]) + after);
    assert Marks([m]) + after == "[" + MarkText(m) + ("]" + after);
    assert SourcesOf([m]) == Labels(m.refs) + [] == Labels(m.refs);
    RoundTrip(ps, after);
  }

  lemma ShownAsItIs(raw: string)
    requires Pieces(raw) == Chars(raw)
    ensures Parsed(raw) == Output(raw, [])
  {
    ParsedIsReference(raw);
    CharsAreText(raw);
    SpansOfChars(raw, [], 0, 0);
    assert Chars(raw) + [] == Chars(raw);
  }

  lemma {:induction false} CharsConcat(a: string, b: string)
    ensures Chars(a + b) == Chars(a) + Chars(b)
  {
    if a == "" {
      Associates(b, "", "");
      Associates(Chars(b), [], []);
    } else {
      CharsFirst(a, Chars(b));
      SplitFirst(a);
      ConsConcat(a[0], a[1..], b);
      CharsConcat(a[1..], b);
      ConsConcat(Text(a[0]), Chars(a[1..]), Chars(b));
    }
  }

  lemma SplitBracket(b: string, after: string, first: string, c: char, s: string)
    requires |b| > 30 && first == b[..30] && c == b[30] && s == b[31..] + ("]" + after)
    ensures "[" + b + ("]" + after) == "[" + first + ([c] + s)
    ensures "[" + first + ([c] + s) == "[" + first + [c] + s && ([c] + s)[1..] == s
  {
    assert b == first + ([c] + b[31..]);
  }

  lemma PiecesOfLongBracket(b: string, after: string)
    requires '[' !in after && Plain(b) && |b| > 30
    ensures Pieces("[" + b + ("]" + after)) == Chars("[" + b + ("]" + after))
  {
    var first, c, s := b[..30], b[30], b[31..] + ("]" + after);
    SplitBracket(b, after, first, c, s);
    PiecesTooLong(first, [c] + s);
    PiecesOfText(s, "");
    assert s + "" == s && Chars(s) + [] == Chars(s);
    CharsConcat("[" + first + [c], s);
  }

  /** Any other bracket is shown as it is. */
  lemma OtherBracketIsShown(before: string, b: string, after: string)
    requires '[' !in before && '[' !in after && '[' !in b && ']' !in b
    requires |b| > 30 || !exists m :: MarkOk(m) && MarkText(m) == b
    ensures Parsed(OneBracket(before, b, after)) == Output(OneBracket(before, b, after), [])
  {
    var raw, rest := OneBracket(before, b, after), "[" + b + ("]" + after);
    if |b| > 30 {
      PiecesOfLongBracket(b, after);
      PiecesOfText(before, rest);
    } else {
      if IsCitation(Strip(b)) {
        var m := CitationIsMark(b);
        assert false;
      }
      PiecesOfBracket(before, b, after);
      CharsConcat("[" + b + "]", after);
      assert "[" + b + "]" + after == rest;
    }
    CharsConcat(before, rest);
    ShownAsItIs(raw);
  }
}

/** The stripper of `<think>` blocks (src/services/chat/events.py) and the answer stream it feeds
    (src/services/chat/tasks.py). */
module ThinkStripper {
  import opened PyText
  import opened Seqs
  import CitationParser

  const OPEN := "<think>"
  const CLOSE := "</think>"

  function StripNewlines(s: string): (r: string)
    ensures |r| <= |s|
  {
    if s != "" && s[0] == '\n' then StripNewlines(s[1..]) else s
  }

  // What stripping means: every block, and the newlines after it, removed from the text.

  function WithoutBlocks(text: string): string
    decreases |text|
  {
    var i := Find(text, OPEN);
    if i < 0 then text else text[..i] + AfterBlock(text[i + |OPEN|..])
  }

  function AfterBlock(text: string): string
    decreases |text|
  {
    var i := Find(text, CLOSE);
    if i < 0 then "" else WithoutBlocks(StripNewlines(text[i + |CLOSE|..]))
  }

  /** The stripper between two chunks: its text buffer is always empty there. */
  datatype State = State(inThink: bool, stripNewlines: bool)

  const START := State(false, false)

  datatype Fed = Fed(out: string, st: State)

  function Feed(st: State, text: string): Fed
    decreases |text|, st.stripNewlines
  {
    if text == "" then Fed("", st)
    else if st.inThink then
      var end := Find(text, CLOSE);
      if end < 0 then Fed("", st) else Feed(State(false, true), text[end + |CLOSE|..])
    else if st.stripNewlines then
      var rest := StripNewlines(text);
      if rest == "" then Fed("", State(false, false)) else Feed(State(false, false), rest)
    else
      var start := Find(text, OPEN);
      if start < 0 then Fed(text, st)
      else
        var rest := Feed(State(true, false), text[start + |OPEN|..]);
        Fed(text[..start] + rest.out, rest.st)
  }

  class ThinkingStripper {
    var inThink: bool
    var stripLeadingNewlines: bool
    var buf: string

    ghost function Model(): State
      reads this
    {
      State(inThink, stripLeadingNewlines)
    }

    constructor ()
      ensures Model() == START && buf == ""
    {
      inThink, stripLeadingNewlines, buf := false, false, "";
    }

    method FeedChunk(text: string) returns (out: string)
      requires buf == ""
      modifies this
      ensures buf == "" && Fed(out, Model()) == Feed(old(Model()), text)
    {
      buf := buf + text;
      out := "";
      ghost var whole := Feed(Model(), text);
      assert "" + text == text && "" + whole.out == whole.out;
      while buf != ""
        invariant whole == Fed(out + Feed(Model(), buf).out, Feed(Model(), buf).st)
        decreases |buf|, inThink || stripLeadingNewlines
      {
        if inThink {
          var end := Find(buf, CLOSE);
          if end == -1 {
            buf := "";
            break;
          }
          inThink := false;
          stripLeadingNewlines := true;
          buf := buf[end + |CLOSE|..];
        } else {
          if stripLeadingNewlines {
            buf := StripNewlines(buf);
            stripLeadingNewlines := false;
            if buf == "" {
              break;
            }
          }
          var start := Find(buf, OPEN);
          if start == -1 {
            Associates(out, buf, "");
            out := out + buf;
            buf := "";
            break;
          }
          Associates(out, buf[..start], Feed(State(true, false), buf[start + |OPEN|..]).out);
          out := out + buf[..start];
          inThink := true;
          buf := buf[start + |OPEN|..];
        }
      }
    }
  }

  lemma {:induction false} FeedRemovesBlocks(text: string)
    ensures Feed(START, text).out == WithoutBlocks(text)
    ensures Feed(State(true, false), text).out == AfterBlock(text)
    decreases |text|
  {
    var start := Find(text, OPEN);
    if start >= 0 {
      FeedRemovesBlocks(text[start + |OPEN|..]);
    }
    var end := Find(text, CLOSE);
    if end >= 0 {
      var rest := text[end + |CLOSE|..];
      FeedRemovesBlocks(StripNewlines(rest));
    }
  }

  // ---------------------------------------------------------------------
  // Cutting the text
  // ---------------------------------------------------------------------

  /** The cut between `a` and `b` falls inside `tag`. */
  predicate Straddles(tag: string, a: string, b: string) {
    exists k :: 0 < k < |tag| && EndsInside(tag, a, b, k)
  }

  predicate EndsInside(tag: string, a: string, b: string, k: int)
    requires 0 < k < |tag|
  {
    k <= |a| && |tag| - k <= |b| && a[|a| - k..] == tag[..k] && b[..|tag| - k] == tag[k..]
  }

  predicate AllNewlines(s: string) {
    forall i :: 0 <= i < |s| ==> s[i] == '\n'
  }

  /** `a` ends with a close tag and at least one newline after it, or (when newlines are still to
      be stripped) is nothing but newlines. */
  predicate EndsInNewlineRun(stripNewlines: bool, a: string) {
    a != "" &&
    ((stripNewlines && AllNewlines(a))
     || exists i :: |CLOSE| <= i < |a| && ClosesAt(a, i) && AllNewlines(a[i..]))
  }

  predicate ClosesAt(a: string, i: int)
    requires |CLOSE| <= i <= |a|
  {
    a[i - |CLOSE|..i] == CLOSE
  }

  /** The cut is neither inside a tag nor inside the newlines after a close tag. */
  predicate CleanCut(stripNewlines: bool, a: string, b: string) {
    && !Straddles(OPEN, a, b) && !Straddles(CLOSE, a, b)
    && !(EndsInNewlineRun(stripNewlines, a) && b != "" && b[0] == '\n')
  }

  lemma {:induction false} FindEarlier(a: string, b: string, tag: string)
    requires Find(a, tag) >= 0
    ensures Find(a + b, tag) == Find(a, tag)
    decreases |a|
  {
    assert (a + b)[..|tag|] == a[..|tag|];
    if a[..|tag|] != tag {
      assert (a + b)[1..] == a[1..] + b;
      FindEarlier(a[1..], b, tag);
    }
  }

  lemma StraddlesSuffix(tag: string, a: string, b: string, n: nat)
    requires n <= |a| && Straddles(tag, a[n..], b)
    ensures Straddles(tag, a, b)
  {
    var k :| 0 < k < |tag| && EndsInside(tag, a[n..], b, k);
    assert a[|a| - k..] == a[n..][|a[n..]| - k..];
    assert EndsInside(tag, a, b, k);
  }

  /** A tag that is not in `a` and not across the cut is found only in `b`. */
  lemma {:induction false} FindLater(a: string, b: string, tag: string)
    requires tag != "" && Find(a, tag) < 0 && !Straddles(tag, a, b)
    ensures Find(a + b, tag) == if Find(b, tag) < 0 then -1 else |a| + Find(b, tag)
    decreases |a|
  {
    if a == "" {
      assert a + b == b;
    } else {
      assert (a + b)[1..] == a[1..] + b;
      if Straddles(tag, a[1..], b) {
        StraddlesSuffix(tag, a, b, 1);
      }
      FindLater(a[1..], b, tag);
      if |a| >= |tag| {
        assert (a + b)[..|tag|] == a[..|tag|];
      } else if |a + b| >= |tag| && (a + b)[..|tag|] == tag {
        FoundAcross(a, b, tag);
      }
    }
  }

  lemma FoundAcross(a: string, b: string, tag: string)
    requires 0 < |a| < |tag| <= |a + b| && (a + b)[..|tag|] == tag
    ensures Straddles(tag, a, b)
  {
    var k := |a|;
    assert a == tag[..k] by { assert (a + b)[..|tag|][..k] == a; }
    assert b[..|tag| - k] == tag[k..] by { assert (a + b)[..|tag|][k..] == b[..|tag| - k]; }
    assert EndsInside(tag, a, b, k);
  }

  lemma {:induction false} StripNewlinesIsSuffix(s: string) returns (n: nat)
    ensures n <= |s| && s[n..] == StripNewlines(s)
    ensures n == |s| <==> AllNewlines(s)
    ensures forall i :: 0 <= i < n ==> s[i] == '\n'
    decreases |s|
  {
    if s != "" && s[0] == '\n' {
      n := StripNewlinesIsSuffix(s[1..]);
      assert s[1..][n..] == s[n + 1..];
      assert AllNewlines(s) <==> AllNewlines(s[1..]) by { assert s == [s[0]] + s[1..]; }
      n := n + 1;
    } else {
      n := 0;
    }
  }

  lemma {:induction false} StripNewlinesOfConcat(a: string, b: string)
    ensures StripNewlines(a + b) == if AllNewlines(a) then StripNewlines(b) else StripNewlines(a) + b
    decreases |a|
  {
    if a == "" {
      assert a + b == b;
    } else if a[0] == '\n' {
      assert (a + b)[1..] == a[1..] + b;
      StripNewlinesOfConcat(a[1..], b);
      assert AllNewlines(a) <==> AllNewlines(a[1..]) by { assert a == [a[0]] + a[1..]; }
    }
  }

  lemma NewlineRunInSuffix(stripNewlines: bool, a: string, n: nat, strip': bool)
    requires n <= |a| && EndsInNewlineRun(strip', a[n..])
    requires strip' ==> n >= |CLOSE| && ClosesAt(a, n)
    ensures EndsInNewlineRun(stripNewlines, a)
  {
    var a' := a[n..];
    if strip' && AllNewlines(a') {
      assert ClosesAt(a, n) && AllNewlines(a[n..]);
    } else {
      var i :| |CLOSE| <= i < |a'| && ClosesAt(a', i) && AllNewlines(a'[i..]);
      DropTwice(a, n, i);
      ClosesLater(a, n, i);
    }
  }

  lemma ClosesLater(a: string, n: nat, i: nat)
    requires n <= |a| && |CLOSE| <= i <= |a| - n && ClosesAt(a[n..], i)
    ensures ClosesAt(a, n + i)
  {
    assert a[n + i - |CLOSE|..n + i] == a[n..][i - |CLOSE|..i];
  }

  /** A cut stays clean when something is dropped from the front. */
  lemma CleanCutSuffix(stripNewlines: bool, a: string, b: string, n: nat, strip': bool)
    requires n <= |a| && CleanCut(stripNewlines, a, b)
    requires strip' ==> n >= |CLOSE| && ClosesAt(a, n)
    ensures CleanCut(strip', a[n..], b)
  {
    if Straddles(OPEN, a[n..], b) {
      StraddlesSuffix(OPEN, a, b, n);
    }
    if Straddles(CLOSE, a[n..], b) {
      StraddlesSuffix(CLOSE, a, b, n);
    }
    if EndsInNewlineRun(strip', a[n..]) {
      NewlineRunInSuffix(stripNewlines, a, n, strip');
    }
  }

  lemma {:induction false} FoundIs(s: string, tag: string)
    requires Find(s, tag) >= 0
    ensures s[Find(s, tag)..Find(s, tag) + |tag|] == tag
    decreases |s|
  {
    if s[..|tag|] != tag {
      FoundIs(s[1..], tag);
      var i := Find(s[1..], tag);
      assert s[i + 1..i + 1 + |tag|] == s[1..][i..i + |tag|];
    }
  }

  /** Feeding `a` and then `b` from st is feeding their concatenation. */
  predicate FeedsAlike(st: State, a: string, b: string) {
    var first := Feed(st, a);
    var second := Feed(first.st, b);
    Feed(st, a + b) == Fed(first.out + second.out, second.st)
  }

  /** One round of the loop on text outside a block, whose next open tag is at `start`. */
  function TextRound(text: string, start: int): Fed
    requires start >= 0 ==> start + |OPEN| <= |text|
  {
    if start < 0 then Fed(text, START) else Prefixed(text[..start], Feed(State(true, false), text[start + |OPEN|..]))
  }

  function Prefixed(before: string, rest: Fed): Fed {
    Fed(before + rest.out, rest.st)
  }

  lemma FeedIsTextRound(text: string)
    ensures Feed(START, text) == TextRound(text, Find(text, OPEN))
  {
  }

  lemma LaterRound(a: string, b: string, start: int)
    requires start >= 0 ==> start + |OPEN| <= |b|
    ensures TextRound(a + b, if start < 0 then -1 else |a| + start) == Prefixed(a, TextRound(b, start))
  {
    if start >= 0 {
      CutInSecond(a, b, start);
      CutInSecond(a, b, start + |OPEN|);
      Associates(a, b[..start], Feed(State(true, false), b[start + |OPEN|..]).out);
    }
  }

  lemma PlainFeedsAlike(a: string, b: string)
    requires Find(a, OPEN) < 0
    requires Find(a + b, OPEN) == if Find(b, OPEN) < 0 then -1 else |a| + Find(b, OPEN)
    ensures FeedsAlike(START, a, b)
  {
    var start := Find(b, OPEN);
    LaterRound(a, b, start);
    RoundAt(b, start);
    RoundAt(a + b, if start < 0 then -1 else |a| + start);
    PlainIsShown(a);
  }

  lemma RoundAt(text: string, start: int)
    requires Find(text, OPEN) == start
    ensures Feed(START, text) == TextRound(text, start)
  {
    FeedIsTextRound(text);
  }

  lemma PlainIsShown(a: string)
    requires Find(a, OPEN) < 0
    ensures Feed(START, a) == Fed(a, START)
  {
    FeedIsTextRound(a);
  }

  // ---------------------------------------------------------------------
  // Exactly which cuts matter
  // ---------------------------------------------------------------------

  const THINKING := State(true, false)
  const CLOSED := State(false, true)

  /** The states the stripper can be in between chunks. */
  predicate Reachable(st: State) {
    st == START || st == THINKING || st == CLOSED
  }

  /** What is left of `a` after its last complete tag, or after the newlines behind it, and the state
      in which that is read. */
  function Tail(st: State, a: string): (State, string)
    decreases |a|, st.stripNewlines
  {
    if a == "" then (st, "")
    else if st.inThink then
      var end := Find(a, CLOSE);
      if end < 0 then (st, a) else Tail(CLOSED, a[end + |CLOSE|..])
    else if st.stripNewlines then
      var rest := StripNewlines(a);
      if rest == "" then (st, a) else Tail(START, rest)
    else
      var start := Find(a, OPEN);
      if start < 0 then (st, a) else Tail(THINKING, a[start + |OPEN|..])
  }

  /** The cut between the tail `t` and `b` does no harm: it is not inside a tag to be opened; not inside
      newlines to be stripped; and inside a tag to be closed only if another block opens right after. */
  predicate HarmlessCut(st: State, t: string, b: string) {
    if t == "" then true
    else if st.inThink then
      forall k :: 0 < k < |CLOSE| && EndsInside(CLOSE, t, b, k) ==> Reopens(b[|CLOSE| - k..])
    else if st.stripNewlines then b == "" || b[0] != '\n'
    else !Straddles(OPEN, t, b)
  }

  /** Only newlines come before another block. */
  predicate Reopens(s: string) {
    OPEN <= StripNewlines(s)
  }

  lemma {:induction false} FindShift(x: string, n: nat, tag: string)
    requires n <= |x| && tag != "" && (Find(x, tag) < 0 || Find(x, tag) >= n)
    ensures Find(x[n..], tag) == if Find(x, tag) < 0 then -1 else Find(x, tag) - n
  {
    if n > 0 {
      FindShift(x[1..], n - 1, tag);
      assert x[1..][n - 1..] == x[n..];
    } else {
      assert x[n..] == x;
    }
  }

  /** No tag starts among characters that are not `<`. */
  lemma FindAfterBare(x: string, n: nat, tag: string)
    requires n <= |x| && tag != "" && tag[0] == '<' && forall i :: 0 <= i < n ==> x[i] != '<'
    ensures Find(x, tag) < 0 || Find(x, tag) >= n
  {
    if Find(x, tag) >= 0 {
      FoundIs(x, tag);
      assert x[Find(x, tag)] == x[Find(x, tag)..Find(x, tag) + |tag|][0];
    }
  }

  lemma JoinSlices(x: string, n: nat, m: nat)
    requires n <= m <= |x|
    ensures x[..n] + x[n..][..m - n] == x[..m] && x[n..][m - n..] == x[m..]
  {
  }

  lemma RoundSkips(x: string, n: nat, start: nat)
    requires n <= start && start + |OPEN| <= |x|
    ensures TextRound(x, start) == Prefixed(x[..n], TextRound(x[n..], start - n))
  {
    JoinSlices(x, n, start);
    DropTwice(x, n, start + |OPEN| - n);
    Associates(x[..n], x[n..][..start - n], Feed(THINKING, x[start + |OPEN|..]).out);
  }

  lemma RoundSkipsPlain(x: string, n: nat)
    requires n <= |x|
    ensures TextRound(x, -1) == Prefixed(x[..n], TextRound(x[n..], -1))
  {
    assert x[..n] + x[n..] == x;
  }

  /** Text before any open tag comes out as it is. */
  lemma TextSkips(x: string, n: nat)
    requires n <= |x| && (Find(x, OPEN) < 0 || Find(x, OPEN) >= n)
    ensures Feed(START, x) == Prefixed(x[..n], Feed(START, x[n..]))
  {
    var start := Find(x, OPEN);
    FindShift(x, n, OPEN);
    FeedIsTextRound(x);
    FeedIsTextRound(x[n..]);
    if start >= 0 {
      RoundSkips(x, n, start);
    } else {
      RoundSkipsPlain(x, n);
    }
  }

  /** One round of the loop inside a block, whose close tag is at `end`. */
  function ThinkRound(text: string, end: int): Fed
    requires end >= 0 ==> end + |CLOSE| <= |text|
  {
    if end < 0 then Fed("", THINKING) else Feed(CLOSED, text[end + |CLOSE|..])
  }

  lemma FeedIsThinkRound(text: string)
    ensures Feed(THINKING, text) == ThinkRound(text, Find(text, CLOSE))
  {
  }

  /** Text of a block before its close tag is dropped. */
  lemma ThinkSkips(x: string, n: nat)
    requires n <= |x| && (Find(x, CLOSE) < 0 || Find(x, CLOSE) >= n)
    ensures Feed(THINKING, x) == Feed(THINKING, x[n..])
  {
    ThinkRoundsAlike(x, n, x[n..]);
    FeedIsThinkRound(x);
    FeedIsThinkRound(x[n..]);
  }

  lemma ThinkRoundsAlike(x: string, n: nat, y: string)
    requires n <= |x| && y == x[n..] && (Find(x, CLOSE) < 0 || Find(x, CLOSE) >= n)
    ensures ThinkRound(x, Find(x, CLOSE)) == ThinkRound(y, Find(y, CLOSE))
  {
    FindShift(x, n, CLOSE);
    if Find(x, CLOSE) >= 0 {
      ThinkRoundDrops(x, n, Find(x, CLOSE));
    }
  }

  lemma ThinkRoundDrops(x: string, n: nat, end: int)
    requires n <= end && end + |CLOSE| <= |x|
    ensures ThinkRound(x, end) == ThinkRound(x[n..], end - n)
  {
    DropTwice(x, n, end + |CLOSE| - n);
  }

  /** The two tags never overlap. */
  lemma TagsApart(x: string)
    requires Find(x, OPEN) >= 0 && Find(x, CLOSE) >= 0
    ensures var o, c := Find(x, OPEN), Find(x, CLOSE); o + |OPEN| <= c || c + |CLOSE| <= o
  {
    FoundIs(x, OPEN);
    FoundIs(x, CLOSE);
    SlicesApart(x, Find(x, OPEN), OPEN, Find(x, CLOSE), CLOSE);
  }

  /** A tag starts with the only `<` in it, and the second characters differ. */
  lemma SlicesApart(x: string, o: nat, open: string, c: nat, close: string)
    requires o + |open| <= |x| && x[o..o + |open|] == open && c + |close| <= |x| && x[c..c + |close|] == close
    requires |open| > 1 && |close| > 1 && open[0] == close[0] == '<' && open[1] != close[1]
    requires (forall p :: 1 <= p < |open| ==> open[p] != '<') && (forall p :: 1 <= p < |close| ==> close[p] != '<')
    ensures o + |open| <= c || c + |close| <= o
  {
    assert x[o] == open[0] && x[o + 1] == open[1] && x[c] == close[0] && x[c + 1] == close[1];
  }

  lemma NewlinesShorten(x: string)
    ensures |Feed(CLOSED, x).out| <= |Feed(START, x).out|
  {
    var n := StripNewlinesIsSuffix(x);
    FindAfterBare(x, n, OPEN);
    TextSkips(x, n);
  }

  lemma LengthSkips(x: string, n: nat, rest: string)
    requires n <= |x| && rest == x[n..] && (Find(x, OPEN) < 0 || Find(x, OPEN) >= n)
    ensures |Feed(START, x).out| == n + |Feed(START, rest).out|
  {
    TextSkips(x, n);
  }

  /** A block that closes before any other opens: as text, it and its close tag come out. */
  lemma TextKeepsClose(x: string)
    requires var o, c := Find(x, OPEN), Find(x, CLOSE); c >= 0 && (o < 0 || o >= c + |CLOSE|)
    ensures |Feed(START, x).out| > |Feed(THINKING, x).out|
  {
    var c := Find(x, CLOSE);
    var n := c + |CLOSE|;
    LengthSkips(x, n, x[n..]);
    FeedFromClose(x, c, x[n..]);
    NewlinesShorten(x[n..]);
  }

  /** A block that opens before any closes is skipped in both ways of reading. */
  lemma TextKeepsBefore(x: string)
    requires var o, c := Find(x, OPEN), Find(x, CLOSE); o >= 0 && (c < 0 || o + |OPEN| <= c)
    ensures |Feed(START, x).out| == Find(x, OPEN) + |Feed(THINKING, x).out|
  {
    FeedIsTextRound(x);
    ThinkSkips(x, Find(x, OPEN) + |OPEN|);
  }

  /** Read as text, a string yields at least as much as read inside a block, and more unless it starts
      with an open tag. */
  lemma TextOutlastsThinking(x: string)
    ensures |Feed(START, x).out| >= |Feed(THINKING, x).out|
    ensures x != "" && !(OPEN <= x) ==> |Feed(START, x).out| > |Feed(THINKING, x).out|
  {
    var o, c := Find(x, OPEN), Find(x, CLOSE);
    if c >= 0 && o >= 0 {
      TagsApart(x);
    }
    if c >= 0 && (o < 0 || o >= c + |CLOSE|) {
      TextKeepsClose(x);
    } else if o >= 0 {
      FoundIs(x, OPEN);
      TextKeepsBefore(x);
      assert o == 0 ==> x[..|OPEN|] == OPEN;
    } else {
      FeedIsTextRound(x);
      FeedIsThinkRound(x);
    }
  }

  lemma LengthBeforeTag(x: string, start: nat, rest: string)
    requires Find(x, OPEN) == start && rest == x[start + |OPEN|..]
    ensures |Feed(START, x).out| == start + |Feed(THINKING, rest).out|
  {
    FeedIsTextRound(x);
  }

  lemma LengthAfterBare(x: string, n: nat, rest: string)
    requires n <= |x| && rest == x[n..] && forall i :: 0 <= i < n ==> x[i] != '<'
    ensures |Feed(START, x).out| == n + |Feed(START, rest).out|
  {
    FindAfterBare(x, n, OPEN);
    LengthSkips(x, n, rest);
  }

  lemma LengthsAtCut(a: string, b: string, k: int, rest: string)
    requires 0 < k < |OPEN| && EndsInside(OPEN, a, b, k) && rest == b[|OPEN| - k..]
    requires Find(a + b, OPEN) == |a| - k
    ensures |Feed(START, a + b).out| == |a| - k + |Feed(THINKING, rest).out|
    ensures |Feed(START, b).out| == |OPEN| - k + |Feed(START, rest).out|
  {
    RestAfterCut(a, b, OPEN, k);
    BareAfterCut(a, b, OPEN, k);
    LengthBeforeTag(a + b, |a| - k, rest);
    LengthAfterBare(b, |OPEN| - k, rest);
  }

  /** A cut inside an open tag shows the tag. */
  lemma OpenTagCut(a: string, b: string)
    requires Find(a, OPEN) < 0 && Straddles(OPEN, a, b)
    ensures !FeedsAlike(START, a, b)
  {
    var k := FoundAtCut(a, b, OPEN);
    LengthsAtCut(a, b, k, b[|OPEN| - k..]);
    TextOutlastsThinking(b[|OPEN| - k..]);
    FeedIsTextRound(a);
    LengthsDiffer(a, b);
  }

  lemma LengthsDiffer(a: string, b: string)
    requires Feed(START, a) == Fed(a, START) && |Feed(START, a + b).out| != |a| + |Feed(START, b).out|
    ensures !FeedsAlike(START, a, b)
  {
  }

  lemma {:induction false} FindFound(x: string, tag: string, i: nat)
    requires i + |tag| <= |x| && x[i..i + |tag|] == tag
    ensures 0 <= Find(x, tag) <= i
    decreases i
  {
    if i > 0 {
      assert x[1..][i - 1..i - 1 + |tag|] == x[i..i + |tag|];
      FindFound(x[1..], tag, i - 1);
    }
  }

  lemma EndsInsideIsFound(tag: string, a: string, b: string, k: int)
    requires 0 < k < |tag| && EndsInside(tag, a, b, k)
    ensures (a + b)[|a| - k..|a| - k + |tag|] == tag
  {
    var s := |a| - k;
    assert (a + b)[s..s + |tag|] == a[s..] + b[..|tag| - k];
    assert tag[..k] + tag[k..] == tag;
  }

  lemma FoundEndsInside(tag: string, a: string, b: string, k: int)
    requires 0 < k < |tag| && k <= |a| && |tag| - k <= |b|
    requires (a + b)[|a| - k..|a| - k + |tag|] == tag
    ensures EndsInside(tag, a, b, k)
  {
    var s := |a| - k;
    assert a[s..] == (a + b)[s..s + |tag|][..k];
    assert b[..|tag| - k] == (a + b)[s..s + |tag|][k..];
  }

  /** A `<` only at the start, as both tags have it. */
  predicate IsTag(tag: string) {
    tag != "" && tag[0] == '<' && forall i :: 1 <= i < |tag| ==> tag[i] != '<'
  }

  lemma NotBeforeCut(a: string, b: string, tag: string, s: nat)
    requires Find(a, tag) < 0 && s + |tag| <= |a + b| && (a + b)[s..s + |tag|] == tag
    ensures s + |tag| > |a|
  {
    if s + |tag| <= |a| {
      assert a[s..s + |tag|] == (a + b)[s..s + |tag|];
      FindFound(a, tag, s);
    }
  }

  lemma FoundBeforeCut(a: string, b: string, tag: string)
    requires Straddles(tag, a, b)
    ensures 0 <= Find(a + b, tag) < |a|
  {
    var j :| 0 < j < |tag| && EndsInside(tag, a, b, j);
    EndsInsideIsFound(tag, a, b, j);
    FindFound(a + b, tag, |a| - j);
  }

  /** A tag across the cut is found there. */
  lemma FoundAtCut(a: string, b: string, tag: string) returns (k: nat)
    requires Find(a, tag) < 0 && Straddles(tag, a, b)
    ensures 0 < k < |tag| && EndsInside(tag, a, b, k) && Find(a + b, tag) == |a| - k
  {
    FoundBeforeCut(a, b, tag);
    var s := Find(a + b, tag);
    FoundIs(a + b, tag);
    NotBeforeCut(a, b, tag, s);
    k := |a| - s;
    FoundEndsInside(tag, a, b, k);
  }

  /** What the tag leaves of `b`. */
  lemma RestAfterCut(a: string, b: string, tag: string, k: nat)
    requires 0 < k < |tag| && EndsInside(tag, a, b, k)
    ensures b[|tag| - k..] == (a + b)[|a| - k + |tag|..]
  {
    CutInSecond(a, b, |tag| - k);
  }

  lemma BareAfterCut(a: string, b: string, tag: string, k: nat)
    requires IsTag(tag) && 0 < k < |tag| && EndsInside(tag, a, b, k)
    ensures forall i :: 0 <= i < |tag| - k ==> b[i] != '<'
  {
    assert forall i :: 0 <= i < |tag| - k ==> b[i] == b[..|tag| - k][i] == tag[k + i];
  }

  lemma EndChars(tag: string, a: string, b: string, k: int)
    requires 0 < k < |tag| && EndsInside(tag, a, b, k)
    ensures forall p :: |a| - k <= p < |a| ==> a[p] == tag[p - (|a| - k)]
  {
    assert forall p :: |a| - k <= p < |a| ==> a[p] == a[|a| - k..][p - (|a| - k)];
  }

  lemma UniqueCut(a: string, b: string, tag: string, j: int, k: int)
    requires IsTag(tag) && 0 < j < |tag| && 0 < k < |tag| && EndsInside(tag, a, b, j) && EndsInside(tag, a, b, k)
    ensures j == k
  {
    EndChars(tag, a, b, j);
    EndChars(tag, a, b, k);
    assert a[|a| - j] == '<' && a[|a| - k] == '<';
  }

  /** Text after a close tag and the same text still inside the block are read alike only when the
      next thing after the newlines is another block. */
  lemma ClosedOrThinking(rest: string)
    ensures Feed(CLOSED, rest) == Feed(THINKING, rest) <==> Reopens(rest)
  {
    var n := StripNewlinesIsSuffix(rest);
    var next := StripNewlines(rest);
    FindAfterBare(rest, n, CLOSE);
    ThinkSkips(rest, n);
    if next != "" {
      TextOutlastsThinking(next);
      if OPEN <= next {
        BlockIsOpened(next);
      }
    }
  }

  lemma BlockIsOpened(x: string)
    requires OPEN <= x
    ensures Feed(START, x) == Feed(THINKING, x)
  {
    assert x[..|OPEN|] == OPEN;
    FeedIsTextRound(x);
    if Find(x, CLOSE) >= 0 {
      assert x[0..0 + |OPEN|] == OPEN;
      TagsApart(x);
    }
    ThinkSkips(x, |OPEN|);
    Associates(Feed(THINKING, x[|OPEN|..]).out, "", "");
  }

  lemma FoundAtGivenCut(a: string, b: string, tag: string, k: int)
    requires IsTag(tag) && Find(a, tag) < 0 && 0 < k < |tag| && EndsInside(tag, a, b, k)
    ensures Find(a + b, tag) == |a| - k
  {
    var j := FoundAtCut(a, b, tag);
    UniqueCut(a, b, tag, j, k);
  }

  lemma ClosesAtCut(a: string, b: string, k: int)
    requires Find(a, CLOSE) < 0 && 0 < k < |CLOSE| && EndsInside(CLOSE, a, b, k)
    ensures Feed(THINKING, a + b) == Feed(CLOSED, b[|CLOSE| - k..])
  {
    FoundAtGivenCut(a, b, CLOSE, k);
    RestAfterCut(a, b, CLOSE, k);
    FeedFromClose(a + b, |a| - k, b[|CLOSE| - k..]);
  }

  lemma FeedFromClose(x: string, end: nat, rest: string)
    requires Find(x, CLOSE) == end && rest == x[end + |CLOSE|..]
    ensures Feed(THINKING, x) == Feed(CLOSED, rest)
  {
    FeedIsThinkRound(x);
  }

  lemma StaysAtCut(a: string, b: string, k: int)
    requires 0 < k < |CLOSE| && EndsInside(CLOSE, a, b, k)
    ensures Feed(THINKING, b) == Feed(THINKING, b[|CLOSE| - k..])
  {
    BareAfterCut(a, b, CLOSE, k);
    FindAfterBare(b, |CLOSE| - k, CLOSE);
    ThinkSkips(b, |CLOSE| - k);
  }

  lemma DroppedWhole(a: string, b: string)
    requires Find(a, CLOSE) < 0
    ensures FeedsAlike(THINKING, a, b) <==> Feed(THINKING, a + b) == Feed(THINKING, b)
  {
    Associates(Feed(THINKING, b).out, "", "");
  }

  /** A cut inside a close tag: the stripper stays in the block. */
  lemma CloseTagCut(a: string, b: string, k: int)
    requires Find(a, CLOSE) < 0 && 0 < k < |CLOSE| && EndsInside(CLOSE, a, b, k)
    ensures FeedsAlike(THINKING, a, b) <==> Reopens(b[|CLOSE| - k..])
  {
    var rest := b[|CLOSE| - k..];
    DroppedWhole(a, b);
    ClosesAtCut(a, b, k);
    StaysAtCut(a, b, k);
    ClosedOrThinking(rest);
  }

  lemma NoCloseTagCut(a: string, b: string)
    requires Find(a, CLOSE) < 0 && !Straddles(CLOSE, a, b)
    ensures FeedsAlike(THINKING, a, b)
  {
    DroppedWhole(a, b);
    FindLater(a, b, CLOSE);
    var later := Find(b, CLOSE);
    if later >= 0 {
      CutInSecond(a, b, later + |CLOSE|);
    }
  }

  lemma OneCloseTagCut(a: string, b: string, k: int)
    requires a != "" && 0 < k < |CLOSE| && EndsInside(CLOSE, a, b, k)
    ensures HarmlessCut(THINKING, a, b) <==> Reopens(b[|CLOSE| - k..])
  {
    forall j | 0 < j < |CLOSE| && EndsInside(CLOSE, a, b, j) ensures j == k {
      UniqueCut(a, b, CLOSE, j, k);
    }
  }

  lemma CloseTagCutIsHarmless(a: string, b: string)
    requires a != "" && Find(a, CLOSE) < 0 && Straddles(CLOSE, a, b)
    ensures FeedsAlike(THINKING, a, b) <==> HarmlessCut(THINKING, a, b)
  {
    var k :| 0 < k < |CLOSE| && EndsInside(CLOSE, a, b, k);
    CloseTagCut(a, b, k);
    OneCloseTagCut(a, b, k);
  }

  /** A cut inside the newlines after a block keeps the later ones. */
  lemma NewlineCut(a: string, b: string)
    requires a != "" && AllNewlines(a)
    ensures FeedsAlike(CLOSED, a, b) <==> b == "" || b[0] != '\n'
  {
    StripNewlinesOfConcat(a, b);
    var k := StripNewlinesIsSuffix(a);
    var n := StripNewlinesIsSuffix(b);
    FindAfterBare(b, n, OPEN);
    LengthAfterBare(b, n, StripNewlines(b));
    Associates(Feed(START, b).out, "", "");
  }

  /** Exactly which cuts matter: from any state the stripper can be in, feeding `a` and then `b` is
      feeding them at once if and only if the cut does no harm. */
  lemma {:induction false} ExactCut(st: State, a: string, b: string)
    requires Reachable(st)
    ensures FeedsAlike(st, a, b) <==> HarmlessCut(Tail(st, a).0, Tail(st, a).1, b)
    decreases |a|, st.stripNewlines
  {
    if a == "" {
      Associates(b, "", "");
      Associates(Feed(st, b).out, "", "");
    } else if st.inThink {
      ExactCutThinking(a, b);
    } else if st.stripNewlines {
      ExactCutNewlines(a, b);
    } else {
      ExactCutText(a, b);
    }
  }

  lemma ExactCutThinking(a: string, b: string)
    requires a != ""
    ensures FeedsAlike(THINKING, a, b) <==> HarmlessCut(Tail(THINKING, a).0, Tail(THINKING, a).1, b)
    decreases |a|, false, 0
  {
    var end := Find(a, CLOSE);
    if end >= 0 {
      FindEarlier(a, b, CLOSE);
      CutInFirst(a, b, end + |CLOSE|);
      ExactCut(CLOSED, a[end + |CLOSE|..], b);
    } else if Straddles(CLOSE, a, b) {
      CloseTagCutIsHarmless(a, b);
    } else {
      NoCloseTagCut(a, b);
    }
  }

  lemma ExactCutNewlines(a: string, b: string)
    requires a != ""
    ensures FeedsAlike(CLOSED, a, b) <==> HarmlessCut(Tail(CLOSED, a).0, Tail(CLOSED, a).1, b)
    decreases |a|, true, 0
  {
    StripNewlinesOfConcat(a, b);
    var n := StripNewlinesIsSuffix(a);
    if AllNewlines(a) {
      NewlineCut(a, b);
    } else {
      ExactCut(START, StripNewlines(a), b);
    }
  }

  lemma ExactCutText(a: string, b: string)
    requires a != ""
    ensures FeedsAlike(START, a, b) <==> HarmlessCut(Tail(START, a).0, Tail(START, a).1, b)
    decreases |a|, false, 0
  {
    var start := Find(a, OPEN);
    if start >= 0 {
      ExactCut(THINKING, a[start + |OPEN|..], b);
      CutInBlock(a, b);
    } else if Straddles(OPEN, a, b) {
      OpenTagCut(a, b);
    } else {
      FindLater(a, b, OPEN);
      PlainFeedsAlike(a, b);
    }
  }

  lemma FeedEntersBlock(text: string, start: int, rest: string)
    requires Find(text, OPEN) == start >= 0 && rest == text[start + |OPEN|..]
    ensures Feed(START, text) == Prefixed(text[..start], Feed(THINKING, rest))
  {
    FeedIsTextRound(text);
  }

  lemma CutInBlock(a: string, b: string)
    requires Find(a, OPEN) >= 0
    ensures FeedsAlike(START, a, b) <==> FeedsAlike(THINKING, a[Find(a, OPEN) + |OPEN|..], b)
  {
    var start := Find(a, OPEN);
    var rest := a[start + |OPEN|..];
    FindEarlier(a, b, OPEN);
    CutInFirst(a, b, start + |OPEN|);
    CutInFirst(a, b, start);
    FeedEntersBlock(a, start, rest);
    FeedEntersBlock(a + b, start, rest + b);
    BlockAlike(a, b, a[..start], rest);
  }

  lemma BlockAlike(a: string, b: string, before: string, rest: string)
    requires Feed(START, a) == Prefixed(before, Feed(THINKING, rest))
    requires Feed(START, a + b) == Prefixed(before, Feed(THINKING, rest + b))
    ensures FeedsAlike(START, a, b) <==> FeedsAlike(THINKING, rest, b)
  {
    SamePrefix(before, Feed(THINKING, rest), b, Feed(THINKING, rest + b));
  }

  lemma SamePrefix(before: string, first: Fed, b: string, whole: Fed)
    ensures var second := Feed(first.st, b);
            var alike := whole == Fed(first.out + second.out, second.st);
      alike <==> Prefixed(before, whole) == Fed(before + first.out + second.out, second.st)
  {
    var second := Feed(first.st, b);
    Associates(before, first.out, second.out);
    var x, y := before + whole.out, before + (first.out + second.out);
    assert x == y ==> x[|before|..] == y[|before|..];
  }

  /** A cut outside tags and outside the newlines after a close tag does no harm. */
  lemma {:induction false} CleanCutIsHarmless(st: State, a: string, b: string)
    requires Reachable(st) && CleanCut(st == CLOSED, a, b)
    ensures HarmlessCut(Tail(st, a).0, Tail(st, a).1, b)
    decreases |a|, st.stripNewlines
  {
    if a == "" {
    } else if st.inThink {
      CleanInBlock(a, b);
    } else if st.stripNewlines {
      CleanAfterBlock(a, b);
    } else {
      CleanInText(a, b);
    }
  }

  lemma CleanInBlock(a: string, b: string)
    requires a != "" && CleanCut(false, a, b)
    ensures HarmlessCut(Tail(THINKING, a).0, Tail(THINKING, a).1, b)
    decreases |a|, false, 0
  {
    var end := Find(a, CLOSE);
    if end >= 0 {
      FoundIs(a, CLOSE);
      CleanCutSuffix(false, a, b, end + |CLOSE|, true);
      CleanCutIsHarmless(CLOSED, a[end + |CLOSE|..], b);
    }
  }

  lemma CleanAfterBlock(a: string, b: string)
    requires a != "" && CleanCut(true, a, b)
    ensures HarmlessCut(Tail(CLOSED, a).0, Tail(CLOSED, a).1, b)
    decreases |a|, true, 0
  {
    var n := StripNewlinesIsSuffix(a);
    if StripNewlines(a) == "" {
      assert EndsInNewlineRun(true, a);
    } else {
      CleanCutSuffix(true, a, b, n, false);
      CleanCutIsHarmless(START, StripNewlines(a), b);
    }
  }

  lemma CleanInText(a: string, b: string)
    requires a != "" && CleanCut(false, a, b)
    ensures HarmlessCut(Tail(START, a).0, Tail(START, a).1, b)
    decreases |a|, false, 0
  {
    var start := Find(a, OPEN);
    if start >= 0 {
      CleanCutSuffix(false, a, b, start + |OPEN|, false);
      CleanCutIsHarmless(THINKING, a[start + |OPEN|..], b);
    }
  }

  /** So feeding `a` and then `b` over such a cut is feeding them at once. */
  lemma CleanCutFeedsAlike(a: string, b: string)
    requires CleanCut(false, a, b)
    ensures FeedsAlike(START, a, b)
  {
    CleanCutIsHarmless(START, a, b);
    ExactCut(START, a, b);
  }

  // ---------------------------------------------------------------------
  // The answer stream
  // ---------------------------------------------------------------------

  function Joined(chunks: seq<string>): string {
    CitationParser.Joined(chunks)
  }

  /** No cut between the chunks of the answer does harm. */
  predicate CleanlyCut(chunks: seq<string>) {
    forall i: nat :: i < |chunks| ==> CleanBefore(chunks, i)
  }

  predicate CleanBefore(chunks: seq<string>, i: nat)
    requires i < |chunks|
  {
    var (st, tail) := Tail(START, Joined(chunks[..i]));
    HarmlessCut(st, tail, chunks[i])
  }

  /** The answer loop: each chunk goes through the stripper and then the citation parser. Cut
      cleanly, it gives the clean text and spans of the whole answer without its blocks. */
  method StreamThinkingAnswer(chunks: seq<string>) returns (clean: string, spans: seq<CitationParser.Span>)
    ensures CleanlyCut(chunks) ==>
      CitationParser.Output(clean, spans) == CitationParser.Parsed(WithoutBlocks(Joined(chunks)))
  {
    var stripper := new ThinkingStripper();
    var parser := new CitationParser.BracketCitationParser();
    clean := "";
    ghost var shown := "";
    for i := 0 to |chunks|
      invariant fresh(stripper) && stripper.buf == ""
      invariant fresh(parser) && parser.Valid() && !parser.finalized
      invariant CleanlyCut(chunks) ==> Feed(START, Joined(chunks[..i])) == Fed(shown, stripper.Model())
      invariant CitationParser.Run(CitationParser.START, shown)
             == CitationParser.Stepped(parser.StateAfter(0), CitationParser.Output(clean, parser.spans))
    {
      assert chunks[..i + 1][..i] == chunks[..i];
      if CleanlyCut(chunks) {
        assert CleanBefore(chunks, i);
        ExactCut(START, Joined(chunks[..i]), chunks[i]);
      }
      var stripped := stripper.FeedChunk(chunks[i]);
      CitationParser.RunConcat(CitationParser.START, shown, stripped);
      var result := parser.Feed(stripped);
      clean := clean + result.value.text;
      shown := shown + stripped;
    }
    assert chunks[..|chunks|] == chunks;
    FeedRemovesBlocks(Joined(chunks));
    var final := parser.Finalize();
    clean := clean + final.value.text;
    spans := parser.spans;
  }

  /** A cut inside a tag shows the tag; a cut inside the newlines after a block keeps the later ones. */
  lemma UncleanCuts()
    ensures Feed(START, "<think>").out == "" && Feed(START, "<th").out + Feed(Feed(START, "<th").st, "ink>").out == "<think>"
    ensures var closed := State(false, true);
      Feed(closed, "\n\n").out == "" && Feed(closed, "\n").out + Feed(Feed(closed, "\n").st, "\n").out == "\n"
  {
    assert "<think>"[..7] == OPEN && "<think>"[..0] == "" && "<think>"[7..] == "";
    assert "<th" + "ink>" == "<think>";
    assert "\n\n"[1..] == "\n" && "\n"[1..] == "";
    assert "" + "\n" == "\n";
  }

  // ---------------------------------------------------------------------
  // An answer as the model writes it
  // ---------------------------------------------------------------------

  /** A piece of the answer, and a thought after it with the newlines that follow it. */
  datatype Thought = Thought(shown: string, thought: string, newlines: string)

  /** The whole answer: thoughts, the last piece, and a thought that is still open, if there is one. */
  function Written(thoughts: seq<Thought>, last: string, open: Option<string>): string {
    if thoughts == [] then last + (if open.Some? then "<think>" + open.value else "")
    else
      var t := thoughts[0];
      t.shown + ("<think>" + (t.thought + ("</think>" + (t.newlines + Written(thoughts[1..], last, open)))))
  }

  function Shown(thoughts: seq<Thought>, last: string): string {
    if thoughts == [] then last else thoughts[0].shown + Shown(thoughts[1..], last)
  }

  ghost predicate Without(s: string, tag: string) {
    forall i :: !OccursAt(s, tag, i)
  }

  /** No piece holds an opening tag, no thought a closing one, and all newlines after a thought are counted to it. */
  ghost predicate IsWritten(thoughts: seq<Thought>, last: string, open: Option<string>) {
    && Without(last, "<think>") && (open.Some? ==> Without(open.value, "</think>"))
    && (forall i: nat :: i < |thoughts| ==> IsThought(thoughts, i, last, open))
  }

  ghost predicate IsThought(thoughts: seq<Thought>, i: nat, last: string, open: Option<string>)
    requires i < |thoughts|
  {
    && Without(thoughts[i].shown, "<think>") && Without(thoughts[i].thought, "</think>")
    && AllNewlines(thoughts[i].newlines)
    && !(['\n'] <= Written(thoughts[i + 1..], last, open))
  }

  lemma TagDoesNotStraddle(tag: string, a: string, rest: string)
    requires IsTag(tag)
    ensures !Straddles(tag, a, tag + rest)
  {
    forall k | 0 < k < |tag| ensures !EndsInside(tag, a, tag + rest, k) {
      assert |tag| - k > 0 && tag[k..][0] == tag[k] != '<';
      assert (tag + rest)[..|tag| - k][0] == tag[0] == '<';
    }
  }

  lemma WithoutIsNotFound(s: string, tag: string)
    ensures Without(s, tag) <==> Find(s, tag) < 0
  {
    FindsFirst(s, tag);
  }

  lemma TagFoundAfter(a: string, tag: string, rest: string)
    requires IsTag(tag) && Without(a, tag)
    ensures Find(a + (tag + rest), tag) == |a| && (a + (tag + rest))[..|a|] == a
         && (a + (tag + rest))[|a| + |tag|..] == rest
  {
    WithoutIsNotFound(a, tag);
    TagDoesNotStraddle(tag, a, rest);
    FindLater(a, tag + rest, tag);
    assert (tag + rest)[..|tag|] == tag;
    CutInSecond(a, tag + rest, 0);
    CutInSecond(a, tag + rest, |tag|);
    CutInSecond(tag, rest, 0);
  }

  lemma BothAreTags()
    ensures IsTag("<think>") && IsTag("</think>")
  {
  }

  lemma BlockIsRemoved(shown: string, rest: string)
    requires Without(shown, OPEN)
    ensures WithoutBlocks(shown + (OPEN + rest)) == shown + AfterBlock(rest)
  {
    BothAreTags();
    TagFoundAfter(shown, OPEN, rest);
  }

  lemma ThoughtIsSkipped(thought: string, newlines: string, rest: string)
    requires Without(thought, CLOSE) && AllNewlines(newlines) && !(['\n'] <= rest)
    ensures AfterBlock(thought + (CLOSE + (newlines + rest))) == WithoutBlocks(rest)
  {
    BothAreTags();
    TagFoundAfter(thought, CLOSE, newlines + rest);
    StripNewlinesOfConcat(newlines, rest);
  }

  lemma OpenThoughtIsDropped(thought: string)
    requires Without(thought, CLOSE)
    ensures AfterBlock(thought) == ""
  {
    WithoutIsNotFound(thought, CLOSE);
  }

  lemma LaterThoughts(thoughts: seq<Thought>, last: string, open: Option<string>)
    requires thoughts != [] && IsWritten(thoughts, last, open)
    ensures IsWritten(thoughts[1..], last, open)
  {
    var more := thoughts[1..];
    forall i: nat | i < |more| ensures IsThought(more, i, last, open) {
      var next := i + 1;
      assert IsThought(thoughts, next, last, open);
      assert more[i] == thoughts[next] && more[i + 1..] == thoughts[next + 1..];
    }
  }

  /** Without its blocks, an answer is its pieces, and nothing of its thoughts or the newlines after them. */
  lemma {:induction false} ShowsWithoutThoughts(thoughts: seq<Thought>, last: string, open: Option<string>)
    requires IsWritten(thoughts, last, open)
    ensures WithoutBlocks(Written(thoughts, last, open)) == Shown(thoughts, last)
  {
    if thoughts == [] {
      if open.Some? {
        BlockIsRemoved(last, open.value);
        OpenThoughtIsDropped(open.value);
      } else {
        WithoutIsNotFound(last, OPEN);
      }
      Associates(last, "", "");
    } else {
      var t, more := thoughts[0], thoughts[1..];
      assert IsThought(thoughts, 0, last, open);
      LaterThoughts(thoughts, last, open);
      var rest := Written(more, last, open);
      ShowsWithoutThoughts(more, last, open);
      BlockIsRemoved(t.shown, t.thought + (CLOSE + (t.newlines + rest)));
      ThoughtIsSkipped(t.thought, t.newlines, rest);
    }
  }

  /** Feeding an answer shows its pieces, and nothing of its thoughts or the newlines after them. */
  lemma FeedShowsAnswer(thoughts: seq<Thought>, last: string, open: Option<string>)
    requires IsWritten(thoughts, last, open)
    ensures Feed(START, Written(thoughts, last, open)).out == Shown(thoughts, last)
  {
    ShowsWithoutThoughts(thoughts, last, open);
    FeedRemovesBlocks(Written(thoughts, last, open));
  }
}

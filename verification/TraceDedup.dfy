/** De-duplication and capping of the messages logged on a trace's generations
    (src/observability/trace_payload.py). A message's digest is taken to be injective. */
module TraceDedup {
  import opened PyText
  import Seqs

  /** A message's content: a text, the parts of one with images, or anything else; `json` is its JSON. */
  datatype Content = Text(text: string) | Parts(parts: seq<Part>, json: string) | Other(json: string)
  datatype Part = TextPart(text: string) | OtherPart(json: string)

  datatype Message = Message(role: Option<string>, content: Content, toolCallId: Option<string>, toolCalls: Option<string>)

  datatype Digest = Digest(role: string, content: Content, toolCallId: Option<string>, toolCalls: Option<string>)

  /** The configured sizes: from which on a message is de-duplicated, and what is kept of a system prompt,
      of any other message and of one excerpt. */
  datatype Caps = Caps(dedupChars: int, systemChars: int, messageChars: int, excerptChars: int)

  /** What is logged of a message: itself up to the caps, or the text that stands in for its content. */
  datatype Entry = Full(m: Message) | Pointer(text: string)

  function Role(m: Message): string {
    if m.role.Some? then m.role.value else ""
  }

  function DigestOf(m: Message): Digest {
    Digest(Role(m), m.content, m.toolCallId, m.toolCalls)
  }

  /** Two messages that differ at most in whether an empty role is given. */
  predicate SameMessage(a: Message, b: Message) {
    && (a.role == b.role || (a.role.None? && b.role == Some("")) || (a.role == Some("") && b.role.None?))
    && a.content == b.content && a.toolCallId == b.toolCallId && a.toolCalls == b.toolCalls
  }

  lemma DigestIsMessage(a: Message, b: Message)
    ensures DigestOf(a) == DigestOf(b) <==> SameMessage(a, b)
  {
  }

  function ContentLength(c: Content): nat {
    if c.Text? then |c.text| else |c.json|
  }

  predicate Long(m: Message, caps: Caps) {
    ContentLength(m.content) >= caps.dedupChars
  }

  // ---------------------------------------------------------------------
  // Caps
  // ---------------------------------------------------------------------

  /** How an excerpt's opening tag begins, and its closing tag on a line of its own. */
  datatype Tags = Tags(open: string, close: string)

  const RETRIEVED := Tags("<retrieved_excerpt", "\n</retrieved_excerpt>")

  function CapMarker(cut: nat): string {
    "\U{2026} [+" + (Decimal(cut) + " chars]")
  }

  function CapText(text: string, maxChars: int): string {
    if |text| <= maxChars then text else SliceTo(text, maxChars) + CapMarker(|text| - maxChars)
  }

  /** Where the body of an excerpt lies whose tag starts at the front of `text`: after the tag and a line
      break, up to the next closing tag on its own line. */
  function ExcerptBody(text: string, tags: Tags): (body: Option<(nat, nat)>)
    ensures body.Some? ==> 0 < body.value.0 <= body.value.1 && body.value.1 + |tags.close| <= |text|
  {
    var start := IndexOf(text, '>') + 2;
    if start > |text| || text[start - 1] != '\n' then None
    else
      var length := Find(text[start..], tags.close);
      if length < 0 then None else Some((start, start + length))
  }

  /** The text up to the end of an excerpt, its body from `start` to `end` capped. */
  function CapBody(text: string, start: nat, end: nat, tags: Tags, maxChars: int): string
    requires start <= end <= |text|
  {
    text[..start] + (CapText(text[start..end], maxChars) + tags.close)
  }

  /** Where the body is that an opening tag at `at` starts, if any. */
  function BodyAt(text: string, at: nat, tags: Tags): (body: Option<(nat, nat)>)
    requires at <= |text|
    ensures body.Some? ==> at < body.value.0 <= body.value.1 && body.value.1 + |tags.close| <= |text|
  {
    var body := ExcerptBody(text[at..], tags);
    if body.None? then None else Some((at + body.value.0, at + body.value.1))
  }

  /** The text up to the end of the excerpt that an opening tag at `at` starts, capped, and how much of the text
      that is; or up to the tag's first character when it starts none. */
  function ExcerptFrom(text: string, at: nat, tags: Tags, maxChars: int): (first: (string, nat))
    requires at < |text|
    ensures 0 < first.1 <= |text|
  {
    var body := BodyAt(text, at, tags);
    if body.None? then (text[..at + 1], at + 1)
    else (CapBody(text, body.value.0, body.value.1, tags, maxChars), body.value.1 + |tags.close|)
  }

  function FirstExcerpt(text: string, tags: Tags, maxChars: int): (first: Option<(string, nat)>)
    requires tags.open != ""
    ensures first.Some? ==> 0 < first.value.1 <= |text|
  {
    var at := Find(text, tags.open);
    if at < 0 then None else Some(ExcerptFrom(text, at, tags, maxChars))
  }

  /** Each excerpt's body is capped; its tags stay. */
  function CapExcerpts(text: string, tags: Tags, maxChars: int): string
    requires tags.open != ""
    decreases |text|
  {
    var first := FirstExcerpt(text, tags, maxChars);
    if first.None? then text else first.value.0 + CapExcerpts(text[first.value.1..], tags, maxChars)
  }

  function CapOne(role: string, text: string, caps: Caps): string {
    if role == "system" then CapText(text, caps.systemChars)
    else CapText(CapExcerpts(text, RETRIEVED, caps.excerptChars), caps.messageChars)
  }

  function CapPart(role: string, p: Part, caps: Caps): Part {
    if p.TextPart? then TextPart(CapOne(role, p.text, caps)) else p
  }

  function CapContent(role: string, c: Content, caps: Caps): Content {
    match c
    case Text(text) => Text(CapOne(role, text, caps))
    case Parts(parts, json) => Parts(seq(|parts|, i requires 0 <= i < |parts| => CapPart(role, parts[i], caps)), json)
    case Other(_) => c
  }

  function Capped(m: Message, caps: Caps): Message {
    m.(content := CapContent(Role(m), m.content, caps))
  }

  /** A capped text is at most the marker over its cap. */
  lemma CapTextSize(text: string, maxChars: nat)
    ensures |CapText(text, maxChars)| <= maxChars + 11 + |Decimal(|text|)|
    ensures |text| <= maxChars ==> CapText(text, maxChars) == text
  {
    if |text| > maxChars {
      DecimalGrows(|text| - maxChars, |text|);
    }
  }

  lemma {:induction false} DecimalGrows(m: nat, n: nat)
    requires m <= n
    ensures |Decimal(m)| <= |Decimal(n)|
    decreases n
  {
    if m >= 10 {
      DecimalGrows(m / 10, n / 10);
    }
  }

  lemma FirstExcerptStays(text: string, tags: Tags, maxChars: nat)
    requires |text| <= maxChars && tags.open != "" && FirstExcerpt(text, tags, maxChars).Some?
    ensures var (head, n) := FirstExcerpt(text, tags, maxChars).value; head == text[..n]
  {
    var at := Find(text, tags.open);
    var body := BodyAt(text, at, tags);
    if body.Some? {
      BodyEndsAt(text, at, tags);
      ShortBodyStays(text, body.value.0, body.value.1, tags, maxChars);
    }
  }

  lemma BodyEndsAt(text: string, at: nat, tags: Tags)
    requires at <= |text| && BodyAt(text, at, tags).Some?
    ensures var end := BodyAt(text, at, tags).value.1; text[end..end + |tags.close|] == tags.close
  {
    BodyEnds(text[at..], tags);
    SliceWithin(text, at, ExcerptBody(text[at..], tags).value.1, tags.close);
  }

  /** Excerpts within the cap are left as they are. */
  lemma {:induction false} ShortExcerptsStay(text: string, tags: Tags, maxChars: nat)
    requires |text| <= maxChars && tags.open != ""
    ensures CapExcerpts(text, tags, maxChars) == text
    decreases |text|
  {
    var first := FirstExcerpt(text, tags, maxChars);
    if first.Some? {
      FirstExcerptStays(text, tags, maxChars);
      ShortExcerptsStay(text[first.value.1..], tags, maxChars);
      Rejoined(text, first.value.1);
    }
  }

  lemma Rejoined(text: string, n: nat)
    requires n <= |text|
    ensures text[..n] + text[n..] == text
  {
  }

  lemma BodyEnds(rest: string, tags: Tags)
    requires ExcerptBody(rest, tags).Some?
    ensures var end := ExcerptBody(rest, tags).value.1;
      end + |tags.close| <= |rest| && rest[end..end + |tags.close|] == tags.close
  {
    var start := ExcerptBody(rest, tags).value.0;
    FindsFirst(rest[start..], tags.close);
    SliceWithin(rest, start, Find(rest[start..], tags.close), tags.close);
  }

  lemma SliceWithin(text: string, from: nat, at: nat, tag: string)
    requires from + at + |tag| <= |text| && text[from..][at..at + |tag|] == tag
    ensures text[from + at..from + at + |tag|] == tag
  {
  }

  lemma ShortBodyStays(text: string, start: nat, end: nat, tags: Tags, maxChars: nat)
    requires start <= end && end + |tags.close| <= |text| <= maxChars
    requires text[end..end + |tags.close|] == tags.close
    ensures CapBody(text, start, end, tags, maxChars) == text[..end + |tags.close|]
  {
    ThreeParts(text, start, end, tags.close);
  }

  lemma ThreeParts(text: string, start: nat, end: nat, tag: string)
    requires start <= end && end + |tag| <= |text| && text[end..end + |tag|] == tag
    ensures text[..start] + (text[start..end] + tag) == text[..end + |tag|]
  {
  }

  // What is cut

  lemma CutAt(text: string, n: nat)
    requires n < |text|
    ensures CapText(text, n) == text[..n] + CapMarker(|text| - n)
  {
  }

  lemma MarkerText(cut: nat)
    ensures CapMarker(cut) == "\U{2026} [+" + (Decimal(cut) + " chars]")
  {
  }

  /** A longer text keeps as many characters as the cap allows, and says how many it lost. */
  lemma CapTextCuts(text: string, kept: string, lost: string)
    requires text == kept + lost && lost != ""
    ensures CapText(text, |kept|) == kept + ("\U{2026} [+" + (Decimal(|lost|) + " chars]"))
  {
    CutAt(text, |kept|);
    MarkerText(|lost|);
    Seqs.CutInSecond(kept, lost, 0);
    assert text[..|kept|] == kept && |text| - |kept| == |lost|;
  }

  lemma NoExcerpt(text: string, maxChars: int)
    requires forall i :: !OccursAt(text, RETRIEVED.open, i)
    ensures CapExcerpts(text, RETRIEVED, maxChars) == text
  {
    FindsFirst(text, RETRIEVED.open);
  }

  /** A text with an excerpt: what is before it, the rest of its tag, its body, and what follows. */
  function WithExcerpt(before: string, attributes: string, body: string, rest: string): string {
    before + ("<retrieved_excerpt" + (attributes + (">\n" + (body + ("\n</retrieved_excerpt>" + rest)))))
  }

  /** The first excerpt keeps its tags and has its body cut; what is before it stays. */
  lemma ExcerptIsCut(before: string, attributes: string, body: string, rest: string, maxChars: int)
    requires '>' !in attributes
    requires NoneBefore(WithExcerpt(before, attributes, body, rest), "<retrieved_excerpt", |before|)
    requires NoneBefore(body + ("\n</retrieved_excerpt>" + rest), "\n</retrieved_excerpt>", |body|)
    ensures CapExcerpts(WithExcerpt(before, attributes, body, rest), RETRIEVED, maxChars)
         == WithExcerpt(before, attributes, CapText(body, maxChars), CapExcerpts(rest, RETRIEVED, maxChars))
  {
    OpenHolds(RETRIEVED.open);
    assert forall b, r :: WithExcerpt(before, attributes, b, r) == Tagged(before, attributes, b, r, RETRIEVED);
    TaggedIsCut(before, attributes, body, rest, RETRIEVED, maxChars);
  }

  /** A tagged body, for any tags. */
  function Tagged(before: string, attributes: string, body: string, rest: string, tags: Tags): string {
    before + (tags.open + (attributes + (">\n" + (body + (tags.close + rest)))))
  }

  lemma TaggedBody(before: string, attributes: string, body: string, rest: string, tags: Tags, head: string)
    requires tags.open != "" && '>' !in tags.open && '>' !in attributes && head == before + (tags.open + (attributes + ">\n"))
    requires NoneBefore(Tagged(before, attributes, body, rest, tags), tags.open, |before|)
    requires NoneBefore(body + (tags.close + rest), tags.close, |body|)
    ensures var text := Tagged(before, attributes, body, rest, tags);
      && Find(text, tags.open) == |before| < |text| && text == head + (body + (tags.close + rest))
      && BodyAt(text, |before|, tags) == Some((|head|, |head| + |body|))
  {
    var after := body + (tags.close + rest);
    assert Tagged(before, attributes, body, rest, tags) == before + (tags.open + (attributes + (">\n" + after)));
    Nested(before, tags.open, attributes, ">\n", after);
    TagIsFound(before, tags.open, attributes, after);
    BodyIsFound(tags.open, attributes, body, tags.close, rest);
    BodyAfter(before, tags.open + (attributes + (">\n" + after)), tags, |tags.open| + |attributes| + 2, |head|, |body|);
  }

  lemma TaggedIsCut(before: string, attributes: string, body: string, rest: string, tags: Tags, maxChars: int)
    requires tags.open != "" && '>' !in tags.open && '>' !in attributes
    requires NoneBefore(Tagged(before, attributes, body, rest, tags), tags.open, |before|)
    requires NoneBefore(body + (tags.close + rest), tags.close, |body|)
    ensures CapExcerpts(Tagged(before, attributes, body, rest, tags), tags, maxChars)
         == Tagged(before, attributes, CapText(body, maxChars), CapExcerpts(rest, tags, maxChars), tags)
  {
    var head := before + (tags.open + (attributes + ">\n"));
    TaggedBody(before, attributes, body, rest, tags, head);
    CutExcerpt(Tagged(before, attributes, body, rest, tags), tags, |before|, head, body, rest, maxChars);
    Reassembled(before, attributes, CapText(body, maxChars), CapExcerpts(rest, tags, maxChars), tags, head);
  }

  lemma Reassembled(before: string, attributes: string, capped: string, more: string, tags: Tags, head: string)
    requires head == before + (tags.open + (attributes + ">\n"))
    ensures (head + (capped + tags.close)) + more == Tagged(before, attributes, capped, more, tags)
  {
    ThenRest(head, capped, tags.close, more);
    Nested(before, tags.open, attributes, ">\n", capped + (tags.close + more));
  }

  lemma BodyAfter(before: string, tagged: string, tags: Tags, start: nat, end: nat, length: nat)
    requires end == |before| + start && ExcerptBody(tagged, tags) == Some((start, start + length))
    ensures BodyAt(before + tagged, |before|, tags) == Some((end, end + length))
  {
    Seqs.CutInSecond(before, tagged, 0);
    BodyAtIs(before + tagged, |before|, tags, end, end + length);
  }

  lemma OpenHolds(open: string)
    requires open == "<retrieved_excerpt"
    ensures '>' !in open
  {
  }

  lemma TagIsFound(before: string, open: string, attributes: string, after: string)
    requires open != ""
    requires NoneBefore(before + (open + (attributes + (">\n" + after))), open, |before|)
    ensures Find(before + (open + (attributes + (">\n" + after))), open) == |before|
  {
    var text := before + (open + (attributes + (">\n" + after)));
    assert text[|before|..|before| + |open|] == open;
    FoundAt(text, open, |before|);
  }

  lemma TagEnds(open: string, attributes: string, after: string)
    requires '>' !in open && '>' !in attributes
    ensures var text, at := open + (attributes + (">\n" + after)), |open| + |attributes|;
      IndexOf(text, '>') == at && at + 2 <= |text| && text[at + 1] == '\n' && text[at + 2..] == after
  {
    var at := |open| + |attributes|;
    var text := open + (attributes + (">\n" + after));
    assert text[at] == '>' && text[at + 1] == '\n';
    assert forall i :: 0 <= i < at ==> text[i] != '>';
    IndexOfFirst(text, '>', at);
  }

  lemma CloseIsFound(body: string, close: string, rest: string)
    requires NoneBefore(body + (close + rest), close, |body|)
    ensures Find(body + (close + rest), close) == |body|
  {
    var after := body + (close + rest);
    Seqs.CutInSecond(body, close + rest, 0);
    assert after[|body|..|body| + |close|] == close;
    FoundAt(after, close, |body|);
  }

  lemma BodyIsFound(open: string, attributes: string, body: string, close: string, rest: string)
    requires '>' !in open && '>' !in attributes
    requires NoneBefore(body + (close + rest), close, |body|)
    ensures var start := |open| + |attributes| + 2;
      ExcerptBody(open + (attributes + (">\n" + (body + (close + rest)))), Tags(open, close)) == Some((start, start + |body|))
  {
    TagEnds(open, attributes, body + (close + rest));
    CloseIsFound(body, close, rest);
  }

  lemma BodyAtIs(text: string, at: nat, tags: Tags, start: nat, end: nat)
    requires at <= start <= end && at <= |text| && ExcerptBody(text[at..], tags) == Some((start - at, end - at))
    ensures BodyAt(text, at, tags) == Some((start, end))
  {
  }

  lemma ExcerptFromIs(text: string, at: nat, tags: Tags, start: nat, end: nat, maxChars: int)
    requires at < |text| && BodyAt(text, at, tags) == Some((start, end))
    ensures ExcerptFrom(text, at, tags, maxChars) == (CapBody(text, start, end, tags, maxChars), end + |tags.close|)
  {
  }

  lemma CapFirst(text: string, tags: Tags, maxChars: int, head: string, n: nat)
    requires tags.open != "" && FirstExcerpt(text, tags, maxChars) == Some((head, n))
    ensures CapExcerpts(text, tags, maxChars) == head + CapExcerpts(text[n..], tags, maxChars)
  {
  }

  lemma CapBodyIs(text: string, head: string, body: string, tags: Tags, rest: string, maxChars: int)
    requires text == head + (body + (tags.close + rest))
    ensures |head| + |body| + |tags.close| <= |text|
    ensures CapBody(text, |head|, |head| + |body|, tags, maxChars) == head + (CapText(body, maxChars) + tags.close)
    ensures text[|head| + |body| + |tags.close|..] == rest
  {
    FourParts(head, body, tags.close, rest);
  }

  lemma FirstOf(text: string, tags: Tags, at: nat, head: string, body: string, rest: string, maxChars: int)
    requires at < |text| && text == head + (body + (tags.close + rest)) && at <= |head|
    requires BodyAt(text, at, tags) == Some((|head|, |head| + |body|))
    ensures ExcerptFrom(text, at, tags, maxChars)
         == (head + (CapText(body, maxChars) + tags.close), |head| + |body| + |tags.close|)
  {
    ExcerptFromIs(text, at, tags, |head|, |head| + |body|, maxChars);
    CapBodyIs(text, head, body, tags, rest, maxChars);
  }

  /** What is cut when the first excerpt is known to end where `rest` starts. */
  lemma CutExcerpt(text: string, tags: Tags, at: nat, head: string, body: string, rest: string, maxChars: int)
    requires tags.open != "" && text == head + (body + (tags.close + rest)) && at <= |head| && at < |text|
    requires BodyAt(text, at, tags) == Some((|head|, |head| + |body|)) && Find(text, tags.open) == at
    ensures CapExcerpts(text, tags, maxChars)
         == (head + (CapText(body, maxChars) + tags.close)) + CapExcerpts(rest, tags, maxChars)
  {
    FirstOf(text, tags, at, head, body, rest, maxChars);
    CapBodyIs(text, head, body, tags, rest, maxChars);
    CapFirst(text, tags, maxChars, head + (CapText(body, maxChars) + tags.close), |head| + |body| + |tags.close|);
  }

  lemma ThenRest(a: string, b: string, c: string, rest: string)
    ensures (a + (b + c)) + rest == a + (b + (c + rest))
  {
  }

  lemma FourParts(head: string, e: string, f: string, g: string)
    ensures var s, n := head + (e + (f + g)), |head|;
      && n + |e| + |f| <= |s|
      && s[..n] == head && s[n..n + |e|] == e && s[n + |e| + |f|..] == g
  {
  }

  lemma Nested(a: string, b: string, c: string, d: string, rest: string)
    ensures a + (b + (c + (d + rest))) == (a + (b + (c + d))) + rest
  {
  }

  /** A system prompt is cut at its own cap; another message without excerpts at that of a message. */
  lemma CapsByRole(m: Message, text: string, caps: Caps)
    requires m.content == Text(text) && forall i :: !OccursAt(text, RETRIEVED.open, i)
    ensures Capped(m, caps)
         == m.(content := Text(CapText(text, if m.role == Some("system") then caps.systemChars else caps.messageChars)))
  {
    NoExcerpt(text, caps.excerptChars);
  }

  predicate BelowCaps(text: string, caps: Caps) {
    |text| <= caps.systemChars && |text| <= caps.messageChars && |text| <= caps.excerptChars
  }

  /** Every text in the content is below all caps. */
  predicate AllBelowCaps(c: Content, caps: Caps) {
    match c
    case Text(text) => BelowCaps(text, caps)
    case Parts(parts, _) => forall i :: 0 <= i < |parts| && parts[i].TextPart? ==> BelowCaps(parts[i].text, caps)
    case Other(_) => true
  }

  lemma ShortStays(role: string, text: string, caps: Caps)
    requires BelowCaps(text, caps)
    ensures CapOne(role, text, caps) == text
  {
    ShortExcerptsStay(text, RETRIEVED, caps.excerptChars);
  }

  /** A message whose texts are below all caps is logged as it is. */
  lemma ShortIsLoggedWhole(m: Message, caps: Caps)
    requires AllBelowCaps(m.content, caps)
    ensures Capped(m, caps) == m
  {
    match m.content
    case Text(text) => ShortStays(Role(m), text, caps);
    case Parts(parts, json) =>
      forall i | 0 <= i < |parts| ensures CapPart(Role(m), parts[i], caps) == parts[i] {
        if parts[i].TextPart? {
          ShortStays(Role(m), parts[i].text, caps);
        }
      }
      assert CapContent(Role(m), m.content, caps).parts == parts;
    case Other(_) =>
  }

  // ---------------------------------------------------------------------
  // Pointers and the scope's map
  // ---------------------------------------------------------------------

  const LOGGED_IN := "[logged in "
  const CHARS := " chars]"

  function Label(name: string, generation: nat): string {
    name + (" #" + Decimal(generation))
  }

  function PointerText(tag: string, length: nat): string {
    LOGGED_IN + (tag + ("; " + (Decimal(length) + CHARS)))
  }

  function SeenWith(seen: map<Digest, string>, tag: string, m: Message, caps: Caps): map<Digest, string> {
    if Long(m, caps) && DigestOf(m) !in seen then seen[DigestOf(m) := tag] else seen
  }

  /** The scope's map after the first n messages of a call. */
  function SeenAfter(seen: map<Digest, string>, tag: string, messages: seq<Message>, n: nat, caps: Caps): map<Digest, string>
    requires n <= |messages|
  {
    if n == 0 then seen
    else SeenWith(SeenAfter(seen, tag, messages, n - 1, caps), tag, messages[n - 1], caps)
  }

  function EntryFor(seen: map<Digest, string>, m: Message, caps: Caps): Entry {
    if Long(m, caps) && DigestOf(m) in seen then Pointer(PointerText(seen[DigestOf(m)], ContentLength(m.content)))
    else Full(Capped(m, caps))
  }

  /** What is logged of the first n messages of a call. */
  function Entries(seen: map<Digest, string>, tag: string, messages: seq<Message>, n: nat, caps: Caps): (out: seq<Entry>)
    requires n <= |messages|
    ensures |out| == n
  {
    if n == 0 then []
    else
      var before := SeenAfter(seen, tag, messages, n - 1, caps);
      Entries(seen, tag, messages, n - 1, caps) + [EntryFor(before, messages[n - 1], caps)]
  }

  lemma {:induction false} EntriesEach(seen: map<Digest, string>, tag: string, messages: seq<Message>, n: nat, i: nat, caps: Caps)
    requires i < n <= |messages|
    ensures Entries(seen, tag, messages, n, caps)[i]
         == EntryFor(SeenAfter(seen, tag, messages, i, caps), messages[i], caps)
  {
    if i < n - 1 {
      EntriesEach(seen, tag, messages, n - 1, i, caps);
    }
  }

  class DedupScope {
    var seen: map<Digest, string>
    var generations: nat

    constructor ()
      ensures seen == map[] && generations == 0
    {
      seen, generations := map[], 0;
    }
  }

  method CompactMessages(scope: DedupScope?, messages: seq<Message>, name: string, caps: Caps)
    returns (out: seq<Entry>)
    modifies scope
    ensures |out| == |messages|
    ensures scope == null ==> forall i :: 0 <= i < |messages| ==> out[i] == Full(Capped(messages[i], caps))
    ensures scope != null ==>
      var tag := Label(name, scope.generations);
      && scope.generations == old(scope.generations) + 1
      && scope.seen == SeenAfter(old(scope.seen), tag, messages, |messages|, caps)
      && out == Entries(old(scope.seen), tag, messages, |messages|, caps)
  {
    out := [];
    var tag := name;
    if scope != null {
      scope.generations := scope.generations + 1;
      tag := Label(name, scope.generations);
    }
    for n := 0 to |messages|
      invariant |out| == n
      invariant scope == null ==> forall i :: 0 <= i < n ==> out[i] == Full(Capped(messages[i], caps))
      invariant scope != null ==>
        && scope.generations == old(scope.generations) + 1
        && scope.seen == SeenAfter(old(scope.seen), tag, messages, n, caps)
        && out == Entries(old(scope.seen), tag, messages, n, caps)
    {
      var m := messages[n];
      if scope != null && Long(m, caps) {
        if DigestOf(m) in scope.seen {
          out := out + [Pointer(PointerText(scope.seen[DigestOf(m)], ContentLength(m.content)))];
          continue;
        }
        scope.seen := scope.seen[DigestOf(m) := tag];
      }
      out := out + [Full(Capped(m, caps))];
    }
  }

  // ---------------------------------------------------------------------
  // A trace: the calls made in one scope
  // ---------------------------------------------------------------------

  datatype Call = Call(name: string, messages: seq<Message>)

  function LabelOf(calls: seq<Call>, k: nat): string
    requires k < |calls|
  {
    Label(calls[k].name, k + 1)
  }

  /** The scope's map before call k. */
  function ScopeAt(calls: seq<Call>, k: nat, caps: Caps): map<Digest, string>
    requires k <= |calls|
  {
    if k == 0 then map[]
    else
      var c := calls[k - 1];
      SeenAfter(ScopeAt(calls, k - 1, caps), LabelOf(calls, k - 1), c.messages, |c.messages|, caps)
  }

  /** The scope's map before message i of call k. */
  function SeenAt(calls: seq<Call>, k: nat, i: nat, caps: Caps): map<Digest, string>
    requires k < |calls| && i <= |calls[k].messages|
  {
    SeenAfter(ScopeAt(calls, k, caps), LabelOf(calls, k), calls[k].messages, i, caps)
  }

  function EntryAt(calls: seq<Call>, k: nat, i: nat, caps: Caps): Entry
    requires k < |calls| && i < |calls[k].messages|
  {
    EntryFor(SeenAt(calls, k, i, caps), calls[k].messages[i], caps)
  }

  /** The log of a whole trace: the method, called call by call in a fresh scope. */
  method LogTrace(calls: seq<Call>, caps: Caps) returns (logs: seq<seq<Entry>>)
    ensures |logs| == |calls|
    ensures forall k :: 0 <= k < |calls| ==> |logs[k]| == |calls[k].messages|
    ensures forall k, i :: 0 <= k < |calls| && 0 <= i < |calls[k].messages| ==>
      logs[k][i] == EntryAt(calls, k, i, caps)
  {
    var scope := new DedupScope();
    logs := [];
    for k := 0 to |calls|
      invariant |logs| == k && scope.generations == k && scope.seen == ScopeAt(calls, k, caps)
      invariant forall j :: 0 <= j < k ==> |logs[j]| == |calls[j].messages|
      invariant forall j, i :: 0 <= j < k && 0 <= i < |calls[j].messages| ==> logs[j][i] == EntryAt(calls, j, i, caps)
    {
      var out := CompactMessages(scope, calls[k].messages, calls[k].name, caps);
      forall i | 0 <= i < |calls[k].messages| ensures out[i] == EntryAt(calls, k, i, caps) {
        EntriesEach(ScopeAt(calls, k, caps), LabelOf(calls, k), calls[k].messages, |calls[k].messages|, i, caps);
      }
      logs := logs + [out];
    }
  }

  // ---------------------------------------------------------------------
  // First occurrences
  // ---------------------------------------------------------------------

  predicate Earlier(k: nat, i: nat, k': nat, i': nat) {
    k < k' || (k == k' && i < i')
  }

  /** Message i of call k is long and has this digest. */
  predicate Occurs(calls: seq<Call>, k: nat, i: nat, d: Digest, caps: Caps) {
    k < |calls| && i < |calls[k].messages| && Long(calls[k].messages[i], caps) && DigestOf(calls[k].messages[i]) == d
  }

  /** The first place, before message i of call k, where a long message with this digest occurs. */
  function First(calls: seq<Call>, k: nat, i: nat, d: Digest, caps: Caps): (place: Option<(nat, nat)>)
    requires k < |calls| && i <= |calls[k].messages|
    ensures place.Some? ==> Earlier(place.value.0, place.value.1, k, i) && Occurs(calls, place.value.0, place.value.1, d, caps)
    ensures place.Some? ==> forall k', i' | Earlier(k', i', place.value.0, place.value.1) :: !Occurs(calls, k', i', d, caps)
    ensures place.None? ==> forall k', i' | Earlier(k', i', k, i) :: !Occurs(calls, k', i', d, caps)
    decreases k, i
  {
    if i > 0 then
      var before := First(calls, k, i - 1, d, caps);
      if before.Some? then before
      else if Occurs(calls, k, i - 1, d, caps) then Some((k, i - 1))
      else None
    else if k > 0 then First(calls, k - 1, |calls[k - 1].messages|, d, caps)
    else None
  }

  /** The scope's map holds exactly the digests that have occurred, each under the label of the call
      that logged it first. */
  lemma {:induction false} SeenIsFirst(calls: seq<Call>, k: nat, i: nat, d: Digest, caps: Caps)
    requires k < |calls| && i <= |calls[k].messages|
    ensures var first := First(calls, k, i, d, caps);
            var seen := SeenAt(calls, k, i, caps);
      && (d in seen <==> first.Some?)
      && (first.Some? ==> seen[d] == LabelOf(calls, first.value.0))
    decreases k, i
  {
    if i > 0 {
      SeenIsFirst(calls, k, i - 1, d, caps);
    } else if k > 0 {
      SeenIsFirst(calls, k - 1, |calls[k - 1].messages|, d, caps);
    }
  }

  /** A text of the content is measured by its characters, anything else by those of its JSON. */
  function JsonLength(m: Message): nat {
    match m.content
    case Text(text) => |text|
    case Parts(_, json) => |json|
    case Other(json) => |json|
  }

  predicate ReachesDedup(m: Message, caps: Caps) {
    JsonLength(m) >= caps.dedupChars
  }

  /** The same message stands at an earlier place of the trace. */
  ghost predicate Repeats(calls: seq<Call>, k: nat, i: nat)
    requires k < |calls| && i < |calls[k].messages|
  {
    exists k': nat, i': nat :: Earlier(k', i', k, i) && HasMessage(calls, k', i', calls[k].messages[i])
  }

  predicate HasMessage(calls: seq<Call>, k: nat, i: nat, m: Message) {
    k < |calls| && i < |calls[k].messages| && SameMessage(calls[k].messages[i], m)
  }

  lemma OccursIsSame(calls: seq<Call>, k: nat, i: nat, m: Message, caps: Caps)
    requires Long(m, caps)
    ensures Occurs(calls, k, i, DigestOf(m), caps) <==> HasMessage(calls, k, i, m)
  {
    if k < |calls| && i < |calls[k].messages| {
      DigestIsMessage(calls[k].messages[i], m);
    }
  }

  lemma FirstIsRepeat(calls: seq<Call>, k: nat, i: nat, caps: Caps)
    requires k < |calls| && i < |calls[k].messages| && Long(calls[k].messages[i], caps)
    ensures First(calls, k, i, DigestOf(calls[k].messages[i]), caps).Some? <==> Repeats(calls, k, i)
  {
    var m := calls[k].messages[i];
    var first := First(calls, k, i, DigestOf(m), caps);
    if first.Some? {
      OccursIsSame(calls, first.value.0, first.value.1, m, caps);
    }
    if k': nat, i': nat :| Earlier(k', i', k, i) && HasMessage(calls, k', i', m) {
      OccursIsSame(calls, k', i', m, caps);
    }
  }

  /** Over all calls in one scope, a message is logged in full unless it is long and the same message stands
      before it: so each distinct long message is logged in full exactly once, where it first occurs. */
  lemma LoggedInFullOnce(calls: seq<Call>, k: nat, i: nat, caps: Caps)
    requires k < |calls| && i < |calls[k].messages|
    ensures var m, logged := calls[k].messages[i], EntryAt(calls, k, i, caps);
      && (logged.Full? ==> logged == Full(Capped(m, caps)))
      && (logged.Full? <==> !ReachesDedup(m, caps) || !Repeats(calls, k, i))
  {
    var m := calls[k].messages[i];
    if Long(m, caps) {
      SeenIsFirst(calls, k, i, DigestOf(m), caps);
      FirstIsRepeat(calls, k, i, caps);
    }
  }

  // ---------------------------------------------------------------------
  // Pointers
  // ---------------------------------------------------------------------

  function LastIndexOf(s: string, n: nat, c: char): (at: Option<nat>)
    requires n <= |s|
    ensures at.Some? ==> at.value < n
  {
    if n == 0 then None else if s[n - 1] == c then Some(n - 1) else LastIndexOf(s, n - 1, c)
  }

  lemma {:induction false} LastIndexBefore(s: string, n: nat, c: char, at: nat)
    requires at < n <= |s| && s[at] == c && forall i :: at < i < n ==> s[i] != c
    ensures LastIndexOf(s, n, c) == Some(at)
  {
    if at < n - 1 {
      LastIndexBefore(s, n - 1, c, at);
    }
  }

  /** The generation number at the end of a label. */
  function GenerationOf(tag: string): Option<nat> {
    var at := LastIndexOf(tag, |tag|, '#');
    if at.None? || !AllDigits(tag[at.value + 1..]) then None else Some(ParseNat(tag[at.value + 1..]))
  }

  lemma LabelRoundTrip(name: string, generation: nat)
    ensures GenerationOf(Label(name, generation)) == Some(generation)
  {
    var digits := Decimal(generation);
    var tag := name + (" #" + digits);
    var at := |name| + 1;
    assert tag[at] == '#';
    assert forall i :: at < i < |tag| ==> tag[i] == digits[i - at - 1];
    LastIndexBefore(tag, |tag|, '#', at);
    assert tag[at + 1..] == digits;
    ParseDecimal(generation);
  }

  /** No two generations of a scope carry the same label, whatever their names. */
  lemma LabelsAreUnique(calls: seq<Call>, j: nat, k: nat)
    requires j < |calls| && k < |calls| && LabelOf(calls, j) == LabelOf(calls, k)
    ensures j == k
  {
    LabelRoundTrip(calls[j].name, j + 1);
    LabelRoundTrip(calls[k].name, k + 1);
  }

  /** The label a pointer's text names. */
  function LabelIn(text: string): Option<string> {
    var at := LastIndexOf(text, |text|, ';');
    if at.None? || at.value < |LOGGED_IN| || !(LOGGED_IN <= text) then None else Some(text[|LOGGED_IN|..at.value])
  }

  lemma PointerRoundTrip(tag: string, length: nat)
    ensures LabelIn(PointerText(tag, length)) == Some(tag)
  {
    var digits := Decimal(length);
    var end := digits + CHARS;
    var text := LOGGED_IN + (tag + ("; " + end));
    var at := |LOGGED_IN| + |tag|;
    EndHasNoSemicolon(digits);
    assert text[at] == ';' && text[at + 1] == ' ';
    assert forall i :: at + 1 < i < |text| ==> text[i] == end[i - at - 2];
    LastIndexBefore(text, |text|, ';', at);
    assert text[|LOGGED_IN|..at] == tag;
  }

  lemma EndHasNoSemicolon(digits: string)
    requires AllDigits(digits)
    ensures forall i :: 0 <= i < |digits + CHARS| ==> (digits + CHARS)[i] != ';'
  {
  }

  /** A pointer's text names one generation of the scope, an earlier one or the same, whose log
      holds in full a message with the same role, content and tool call fields. */
  lemma PointersAreSound(calls: seq<Call>, k: nat, i: nat, caps: Caps)
    requires k < |calls| && i < |calls[k].messages| && EntryAt(calls, k, i, caps).Pointer?
    ensures exists j: nat, p: nat ::
      && Earlier(j, p, k, i) && j < |calls| && p < |calls[j].messages|
      && EntryAt(calls, k, i, caps).text
           == "[logged in " + (calls[j].name + " #" + Decimal(j + 1) + ("; " + (Decimal(JsonLength(calls[k].messages[i])) + " chars]")))
      && LabelIn(EntryAt(calls, k, i, caps).text) == Some(LabelOf(calls, j))
      && EntryAt(calls, j, p, caps) == Full(Capped(calls[j].messages[p], caps))
      && SameMessage(calls[j].messages[p], calls[k].messages[i])
  {
    var m := calls[k].messages[i];
    SeenIsFirst(calls, k, i, DigestOf(m), caps);
    var (j, p) := First(calls, k, i, DigestOf(m), caps).value;
    LoggedInFullOnce(calls, j, p, caps);
    PointerRoundTrip(LabelOf(calls, j), ContentLength(m.content));
    Seqs.Associates(calls[j].name, " #", Decimal(j + 1));
    assert Earlier(j, p, k, i);
  }

  /** A pointer names the generation it stands in, rather than an earlier one, exactly when no earlier
      call had the message: it repeats within its own call. */
  lemma NamesItselfExactly(calls: seq<Call>, k: nat, i: nat, caps: Caps)
    requires k < |calls| && i < |calls[k].messages| && EntryAt(calls, k, i, caps).Pointer?
    ensures LabelIn(EntryAt(calls, k, i, caps).text) == Some(LabelOf(calls, k)) <==>
      forall j: nat, p: nat :: j < k ==> !HasMessage(calls, j, p, calls[k].messages[i])
  {
    var m := calls[k].messages[i];
    var d := DigestOf(m);
    forall j: nat, p: nat ensures Occurs(calls, j, p, d, caps) <==> HasMessage(calls, j, p, m) {
      OccursIsSame(calls, j, p, m, caps);
    }
    SeenIsFirst(calls, k, i, d, caps);
    var (j, p) := First(calls, k, i, d, caps).value;
    PointerRoundTrip(LabelOf(calls, j), ContentLength(m.content));
    if LabelOf(calls, j) == LabelOf(calls, k) {
      LabelsAreUnique(calls, j, k);
      assert forall j': nat, p': nat | j' < k :: Earlier(j', p', j, p);
    } else {
      assert Occurs(calls, j, p, d, caps);
    }
  }

  /** A message twice in one call: the second names the call's own generation. */
  lemma RepeatNamesItself(name: string, m: Message, caps: Caps)
    requires Long(m, caps)
    ensures var calls := [Call(name, [m, m])];
      && EntryAt(calls, 0, 1, caps).Pointer?
      && LabelIn(EntryAt(calls, 0, 1, caps).text) == Some(LabelOf(calls, 0))
  {
    var calls := [Call(name, [m, m])];
    assert SeenAt(calls, 0, 1, caps) == SeenWith(SeenAt(calls, 0, 0, caps), LabelOf(calls, 0), m, caps);
    NamesItselfExactly(calls, 0, 1, caps);
  }
}

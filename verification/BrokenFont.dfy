/** The broken-font fixture (infra/loadtest/make_fixtures.py): which numbers its objects name, and
    what stands under those numbers in the file. The drawn text and the CMap are parameters. */
module BrokenFont {
  import opened PyText
  import opened PdfWriter
  import Seqs

  const CATALOG := "<< /Type /Catalog /Pages 2 0 R >>"
  const PAGES_START := "<< /Type /Pages /Kids ["
  const COUNT := "] /Count "
  const CLOSE := " >>"
  const REF := " 0 R"
  const PAGE_START := "<< /Type /Page /Parent 2 0 R /MediaBox [0 0 612 792] /Contents "
  const PAGE_FONT := " 0 R /Resources << /Font << /F1 "
  const PAGE_END := " 0 R >> >> >>"
  const FONT_START := "<< /Type /Font /Subtype /Type1 /BaseFont /Helvetica /ToUnicode "
  const FONT_END := " 0 R >>"
  const STREAM_START := "<< /Length "
  const STREAM := " >>\nstream\n"
  const ENDSTREAM := "\nendstream"

  // ---------------------------------------------------------------------
  // The objects
  // ---------------------------------------------------------------------

  /** References to `n` objects, every other number from `first`, joined by spaces. */
  function KidsText(first: nat, n: nat): string
    decreases n
  {
    if n == 0 then ""
    else Decimal(first) + (REF + (if n == 1 then "" else " " + KidsText(first + 2, n - 1)))
  }

  function PagesObject(pages: nat): string {
    PAGES_START + (KidsText(3, pages) + (COUNT + (Decimal(pages) + CLOSE)))
  }

  function PageObject(contents: nat, font: nat): string {
    PAGE_START + (Decimal(contents) + (PAGE_FONT + (Decimal(font) + PAGE_END)))
  }

  function FontObject(cmap: nat): string {
    FONT_START + (Decimal(cmap) + FONT_END)
  }

  function StreamObject(payload: string): string {
    STREAM_START + (Decimal(|payload|) + (STREAM + (payload + ENDSTREAM)))
  }

  /** The object the fixture needs under each number. */
  function Numbered(num: nat, pages: nat, drawn: string, cmap: string): string {
    if num == 1 then CATALOG
    else if num == 2 then PagesObject(pages)
    else if num == 3 + 2 * pages then FontObject(4 + 2 * pages)
    else if num == 4 + 2 * pages then StreamObject(cmap)
    else if num % 2 == 1 then PageObject(num + 1, 3 + 2 * pages)
    else StreamObject(drawn)
  }

  function Objects(pages: nat, drawn: string, cmap: string): seq<string> {
    seq(4 + 2 * pages, i requires i >= 0 => Numbered(i + 1, pages, drawn, cmap))
  }

  lemma FirstPair(pages: nat, drawn: string, cmap: string)
    ensures Objects(pages, drawn, cmap)[..2] == [CATALOG, PagesObject(pages)]
  {
  }

  lemma PagePair(pages: nat, drawn: string, cmap: string, i: nat)
    requires i < pages
    ensures Objects(pages, drawn, cmap)[..2 + 2 * (i + 1)]
         == Objects(pages, drawn, cmap)[..2 + 2 * i] + [PageObject(4 + 2 * i, 3 + 2 * pages), StreamObject(drawn)]
  {
  }

  lemma LastPair(pages: nat, drawn: string, cmap: string)
    ensures Objects(pages, drawn, cmap)
         == Objects(pages, drawn, cmap)[..2 + 2 * pages] + [FontObject(4 + 2 * pages), StreamObject(cmap)]
  {
  }

  method BuildBrokenFont(pages: nat, drawn: string, cmap: string) returns (file: string)
    ensures file == PdfFile(Objects(pages, drawn, cmap))
  {
    var fontNum := 3 + pages * 2;
    var cmapNum := fontNum + 1;
    var objects := [CATALOG, PagesObject(pages)];
    ghost var all := Objects(pages, drawn, cmap);
    FirstPair(pages, drawn, cmap);
    for i := 0 to pages
      invariant objects == all[..2 + 2 * i]
    {
      PagePair(pages, drawn, cmap, i);
      objects := objects + [PageObject(4 + i * 2, fontNum), StreamObject(drawn)];
    }
    LastPair(pages, drawn, cmap);
    objects := objects + [FontObject(cmapNum), StreamObject(cmap)];
    file := PdfBytes(objects);
  }

  // ---------------------------------------------------------------------
  // Following the references
  // ---------------------------------------------------------------------

  /** References joined by spaces, and what follows the last one. */
  function ReadRefs(s: string): (seq<nat>, string)
    decreases |s|
  {
    var number := TakeNumber(s);
    if number.None? then ([], s)
    else
      var rest := AfterText(number.value.1, " 0 R");
      if rest.None? then ([], s)
      else
        var next := AfterText(rest.value, " ");
        if next.None? then ([number.value.0], rest.value)
        else
          var (more, end) := ReadRefs(next.value);
          ([number.value.0] + more, end)
  }

  /** The number of the page tree that a catalog names. */
  function ReadCatalog(body: string): Option<nat> {
    var pages := ReadBetween(body, "<< /Type /Catalog /Pages ", " 0 R >>");
    if pages.None? || pages.value.1 != "" then None else Some(pages.value.0)
  }

  /** The page numbers a page tree lists, when their count is the one it states. */
  function ReadKids(body: string): Option<seq<nat>> {
    var start := AfterText(body, "<< /Type /Pages /Kids [");
    if start.None? then None
    else
      var (kids, rest) := ReadRefs(start.value);
      if ReadBetween(rest, "] /Count ", " >>") == Some((|kids|, "")) then Some(kids) else None
  }

  /** The numbers of a page's content stream and font. */
  function ReadPage(body: string): Option<(nat, nat)> {
    var contents := ReadBetween(body, "<< /Type /Page /Parent 2 0 R /MediaBox [0 0 612 792] /Contents ", " 0 R /Resources << /Font << /F1 ");
    if contents.None? then None
    else
      var font := ReadBetween(contents.value.1, "", " 0 R >> >> >>");
      if font.None? || font.value.1 != "" then None else Some((contents.value.0, font.value.0))
  }

  function ReadFont(body: string): Option<nat> {
    var cmap := ReadBetween(body, "<< /Type /Font /Subtype /Type1 /BaseFont /Helvetica /ToUnicode ", " 0 R >>");
    if cmap.None? || cmap.value.1 != "" then None else Some(cmap.value.0)
  }

  /** As many bytes of a stream as its /Length says, which must be all of them. */
  function ReadStream(body: string): Option<string> {
    var length := ReadBetween(body, "<< /Length ", " >>\nstream\n");
    if length.None? then None
    else
      var (n, rest) := length.value;
      if n <= |rest| && rest[n..] == "\nendstream" then Some(rest[..n]) else None
  }

  function Deref(objects: seq<string>, num: nat): Option<string> {
    if 0 < num <= |objects| then Some(objects[num - 1]) else None
  }

  /** The stream under a number. */
  function StreamAt(objects: seq<string>, num: nat): Option<string> {
    var body := Deref(objects, num);
    if body.None? then None else ReadStream(body.value)
  }

  /** The CMap that the font under a number names. */
  function CMapOf(objects: seq<string>, font: nat): Option<string> {
    var body := Deref(objects, font);
    if body.None? then None
    else
      var cmap := ReadFont(body.value);
      if cmap.None? then None else StreamAt(objects, cmap.value)
  }

  /** The pages of the document whose catalog stands under a number. */
  function KidsAt(objects: seq<string>, root: nat): Option<seq<nat>> {
    var catalog := Deref(objects, root);
    var pages := if catalog.None? then None else ReadCatalog(catalog.value);
    var tree := if pages.None? then None else Deref(objects, pages.value);
    if tree.None? then None else ReadKids(tree.value)
  }

  /** The drawn text and the CMap of the page under a number. */
  function PageAt(objects: seq<string>, num: nat): Option<(string, string)> {
    var body := Deref(objects, num);
    if body.None? then None
    else
      var page := ReadPage(body.value);
      if page.None? then None
      else
        var drawn, cmap := StreamAt(objects, page.value.0), CMapOf(objects, page.value.1);
        if drawn.None? || cmap.None? then None else Some((drawn.value, cmap.value))
  }

  // ---------------------------------------------------------------------
  // What is found there
  // ---------------------------------------------------------------------

  function Evens(first: nat, n: nat): seq<nat> {
    seq(n, i requires i >= 0 => first + 2 * i)
  }

  predicate EndsKids(rest: string) {
    rest != "" && !IsDigit(rest[0]) && rest[0] != ' '
  }

  lemma ReadLastRef(n: nat, rest: string)
    requires EndsKids(rest)
    ensures ReadRefs(Decimal(n) + (REF + rest)) == ([n], rest)
  {
    NumberIsTaken(n, REF + rest);
    TextIsTaken(REF, rest);
    assert !(" " <= rest);
  }

  lemma ReadOneRef(n: nat, rest: string)
    ensures ReadRefs(Decimal(n) + (REF + (" " + rest))) == ([n] + ReadRefs(rest).0, ReadRefs(rest).1)
  {
    NumberIsTaken(n, REF + (" " + rest));
    TextIsTaken(REF, " " + rest);
    TextIsTaken(" ", rest);
  }

  lemma KidsTextThen(first: nat, n: nat, rest: string)
    requires n > 0
    ensures KidsText(first, n) + rest ==
      Decimal(first) + (REF + (if n == 1 then rest else " " + (KidsText(first + 2, n - 1) + rest)))
  {
    var more := if n == 1 then "" else " " + KidsText(first + 2, n - 1);
    Seqs.Associates(REF, more, rest);
    Seqs.Associates(Decimal(first), REF + more, rest);
    Seqs.Associates(rest, "", "");
    if n > 1 {
      Seqs.Associates(" ", KidsText(first + 2, n - 1), rest);
    }
  }

  lemma EvensFrom(first: nat, n: nat)
    requires n > 0
    ensures Evens(first, n) == [first] + Evens(first + 2, n - 1)
  {
  }

  lemma {:induction false} ReadRefsOf(first: nat, n: nat, rest: string)
    requires EndsKids(rest)
    ensures ReadRefs(KidsText(first, n) + rest) == (Evens(first, n), rest)
    decreases n
  {
    if n == 0 {
      Seqs.Associates(rest, "", "");
      DigitsStop(rest, 0, 0);
      assert Evens(first, 0) == [];
    } else {
      KidsTextThen(first, n, rest);
      EvensFrom(first, n);
      if n == 1 {
        ReadLastRef(first, rest);
        assert Evens(first, n) == [first];
      } else {
        ReadOneRef(first, KidsText(first + 2, n - 1) + rest);
        ReadRefsOf(first + 2, n - 1, rest);
        assert ReadRefs(KidsText(first, n) + rest) == ([first] + Evens(first + 2, n - 1), rest);
      }
    }
  }

  lemma ReadKidsOf(pages: nat)
    ensures ReadKids(PagesObject(pages)) == Some(Evens(3, pages))
  {
    var rest := COUNT + (Decimal(pages) + CLOSE);
    TextIsTaken(PAGES_START, KidsText(3, pages) + rest);
    ReadRefsOf(3, pages, rest);
    Seqs.Associates(CLOSE, "", "");
    ReadBetweenOf(COUNT, pages, CLOSE, "");
  }

  lemma ReadPageOf(contents: nat, font: nat)
    ensures ReadPage(PageObject(contents, font)) == Some((contents, font))
  {
    var rest := Decimal(font) + PAGE_END;
    ReadBetweenOf(PAGE_START, contents, PAGE_FONT, rest);
    Seqs.Associates(PAGE_END, "", "");
    Seqs.Associates(rest, "", "");
    ReadBetweenOf("", font, PAGE_END, "");
  }

  lemma ReadFontOf(cmap: nat)
    ensures ReadFont(FontObject(cmap)) == Some(cmap)
  {
    Seqs.Associates(FONT_END, "", "");
    ReadBetweenOf(FONT_START, cmap, FONT_END, "");
  }

  lemma ReadStreamOf(payload: string)
    ensures ReadStream(StreamObject(payload)) == Some(payload)
  {
    ReadBetweenOf(STREAM_START, |payload|, STREAM, payload + ENDSTREAM);
    Seqs.CutInSecond(payload, ENDSTREAM, 0);
    Seqs.CutInFirst(payload, ENDSTREAM, |payload|);
    assert payload[..|payload|] == payload;
  }

  lemma StreamIsFound(objects: seq<string>, num: nat, payload: string)
    requires Deref(objects, num) == Some(StreamObject(payload))
    ensures StreamAt(objects, num) == Some(payload)
  {
    ReadStreamOf(payload);
  }

  lemma CMapIsFound(objects: seq<string>, font: nat, num: nat, cmap: string)
    requires Deref(objects, font) == Some(FontObject(num))
    requires StreamAt(objects, num) == Some(cmap)
    ensures CMapOf(objects, font) == Some(cmap)
  {
    ReadFontOf(num);
  }

  lemma PageIsFound(objects: seq<string>, page: nat, contents: nat, font: nat, drawn: string, cmap: string)
    requires Deref(objects, page) == Some(PageObject(contents, font))
    requires StreamAt(objects, contents) == Some(drawn) && CMapOf(objects, font) == Some(cmap)
    ensures PageAt(objects, page) == Some((drawn, cmap))
  {
    ReadPageOf(contents, font);
  }

  lemma ObjectIs(pages: nat, drawn: string, cmap: string, num: nat)
    requires 0 < num <= 4 + 2 * pages
    ensures Deref(Objects(pages, drawn, cmap), num) == Some(Numbered(num, pages, drawn, cmap))
  {
  }

  lemma NumberedPage(pages: nat, drawn: string, cmap: string, i: nat)
    requires i < pages
    ensures Numbered(3 + 2 * i, pages, drawn, cmap) == PageObject(4 + 2 * i, 3 + 2 * pages)
    ensures Numbered(4 + 2 * i, pages, drawn, cmap) == StreamObject(drawn)
  {
    assert (3 + 2 * i) % 2 == 1 && (4 + 2 * i) % 2 == 0;
  }

  lemma PageNumbers(pages: nat, drawn: string, cmap: string, i: nat)
    requires i < pages
    ensures Deref(Objects(pages, drawn, cmap), 3 + 2 * i) == Some(PageObject(4 + 2 * i, 3 + 2 * pages))
    ensures Deref(Objects(pages, drawn, cmap), 4 + 2 * i) == Some(StreamObject(drawn))
  {
    NumberedPage(pages, drawn, cmap, i);
    ObjectIs(pages, drawn, cmap, 3 + 2 * i);
    ObjectIs(pages, drawn, cmap, 4 + 2 * i);
  }

  lemma FontNumbers(pages: nat, drawn: string, cmap: string)
    ensures Deref(Objects(pages, drawn, cmap), 3 + 2 * pages) == Some(FontObject(4 + 2 * pages))
    ensures Deref(Objects(pages, drawn, cmap), 4 + 2 * pages) == Some(StreamObject(cmap))
  {
    ObjectIs(pages, drawn, cmap, 3 + 2 * pages);
    ObjectIs(pages, drawn, cmap, 4 + 2 * pages);
  }

  /** The numbers a page names are those its content stream, its font and the CMap stand under. */
  lemma PageUnderItsNumber(objects: seq<string>, pages: nat, drawn: string, cmap: string, i: nat)
    requires objects == Objects(pages, drawn, cmap) && i < pages
    ensures PageAt(objects, 3 + 2 * i) == Some((drawn, cmap))
  {
    FontNumbers(pages, drawn, cmap);
    var font := 3 + 2 * pages;
    StreamIsFound(objects, font + 1, cmap);
    CMapIsFound(objects, font, font + 1, cmap);
    PageNumbers(pages, drawn, cmap, i);
    StreamIsFound(objects, 4 + 2 * i, drawn);
    PageIsFound(objects, 3 + 2 * i, 4 + 2 * i, font, drawn, cmap);
  }

  lemma ReadCatalogOf()
    ensures ReadCatalog(CATALOG) == Some(2)
  {
    var after := " 0 R >>";
    assert Decimal(2) == "2";
    assert CATALOG == "<< /Type /Catalog /Pages " + (Decimal(2) + (after + ""));
    ReadBetweenOf("<< /Type /Catalog /Pages ", 2, after, "");
  }

  /** The document under `root` has `pages` different pages, each with the drawn text and the CMap. */
  ghost predicate IsFixture(objects: seq<string>, root: nat, pages: nat, drawn: string, cmap: string) {
    && |objects| == 4 + 2 * pages
    && var kids := KidsAt(objects, root);
    && kids.Some? && |kids.value| == pages
    && (forall i :: 0 <= i < pages ==> PageAt(objects, kids.value[i]) == Some((drawn, cmap)))
    && (forall i, j :: 0 <= i < j < pages ==> kids.value[i] != kids.value[j])
  }

  lemma FollowsReferences(pages: nat, drawn: string, cmap: string)
    ensures IsFixture(Objects(pages, drawn, cmap), 1, pages, drawn, cmap)
  {
    var objects := Objects(pages, drawn, cmap);
    ObjectIs(pages, drawn, cmap, 1);
    ReadCatalogOf();
    ObjectIs(pages, drawn, cmap, 2);
    ReadKidsOf(pages);
    var kids := Evens(3, pages);
    assert KidsAt(objects, 1) == Some(kids);
    forall i | 0 <= i < pages ensures PageAt(objects, kids[i]) == Some((drawn, cmap)) {
      PageUnderItsNumber(objects, pages, drawn, cmap, i);
    }
  }

  /** Reading the file by its own offsets and following its own references, from the root that its trailer names,
      finds the fixture, for every page count. */
  lemma FixtureReadsBack(pages: nat, drawn: string, cmap: string)
    requires Addressable(Objects(pages, drawn, cmap))
    ensures var file := PdfFile(Objects(pages, drawn, cmap));
            var read, root := ReadPdf(file), ReadRoot(file);
      read.Some? && root.Some? && IsFixture(read.value, root.value, pages, drawn, cmap)
  {
    ReadsBack(Objects(pages, drawn, cmap));
    ReadsRoot(Objects(pages, drawn, cmap));
    FollowsReferences(pages, drawn, cmap);
  }
}

/** The fixture PDF writer (infra/loadtest/make_fixtures.py) and a reader that trusts nothing but
    `startxref` and the cross-reference table (ISO 32000-1, sections 7.5.4 and 7.5.5). A byte is a
    character here. */
module PdfWriter {
  import opened PyText
  import Seqs

  const HEADER := "%PDF-1.4\n"
  const OBJ := " 0 obj\n"
  const ENDOBJ := "\nendobj\n"
  const XREF := "xref\n0 "
  const FREE_ENTRY := "0000000000 65535 f \n"
  const IN_USE := " 00000 n \n"
  const TRAILER := "trailer\n<< /Size "
  const ROOT := " /Root 1 0 R >>\nstartxref\n"
  const EOF := "\n%%EOF\n"

  // ---------------------------------------------------------------------
  // The file
  // ---------------------------------------------------------------------

  function NumberedObject(num: nat, body: string): string {
    Decimal(num) + OBJ + (body + ENDOBJ)
  }

  /** The file up to and including object n. */
  function Upto(objects: seq<string>, n: nat): string
    requires n <= |objects|
  {
    if n == 0 then HEADER else Upto(objects, n - 1) + NumberedObject(n, objects[n - 1])
  }

  /** `f"{n:010d}"` */
  function Padded(s: string, width: nat): (p: string)
    requires AllDigits(s)
    ensures AllDigits(p)
    decreases width - |s|
  {
    if |s| >= width then s else Padded("0" + s, width)
  }

  function Entry(offset: nat): string {
    Padded(Decimal(offset), 10) + IN_USE
  }

  /** The offset of object i + 1. */
  function Offset(objects: seq<string>, i: nat): nat
    requires i <= |objects|
  {
    |Upto(objects, i)|
  }

  function Entries(objects: seq<string>, n: nat): string
    requires n <= |objects|
  {
    if n == 0 then FREE_ENTRY else Entries(objects, n - 1) + Entry(Offset(objects, n - 1))
  }

  function TrailerOf(objects: seq<string>): string {
    TRAILER + (Decimal(|objects| + 1) + (ROOT + (Decimal(Offset(objects, |objects|)) + EOF)))
  }

  function PdfFile(objects: seq<string>): string {
    Upto(objects, |objects|) + (XREF + (Decimal(|objects| + 1) + ("\n" + (Entries(objects, |objects|) + TrailerOf(objects)))))
  }

  method PdfBytes(objects: seq<string>) returns (file: string)
    ensures file == PdfFile(objects)
  {
    var out := HEADER;
    var offsets: seq<nat> := [];
    for n := 0 to |objects|
      invariant out == Upto(objects, n)
      invariant |offsets| == n && forall i :: 0 <= i < n ==> offsets[i] == Offset(objects, i)
    {
      offsets := offsets + [|out|];
      out := out + (Decimal(n + 1) + OBJ + (objects[n] + ENDOBJ));
    }
    var xrefAt := |out|;
    ghost var start := out + (XREF + (Decimal(|objects| + 1) + "\n"));
    ghost var before := out;
    out := out + (XREF + (Decimal(|objects| + 1) + "\n")) + FREE_ENTRY;
    for n := 0 to |offsets|
      invariant out == start + Entries(objects, n)
    {
      Seqs.Associates(start, Entries(objects, n), Entry(offsets[n]));
      out := out + (Padded(Decimal(offsets[n]), 10) + IN_USE);
    }
    file := out + (TRAILER + (Decimal(|objects| + 1) + (ROOT + (Decimal(xrefAt) + EOF))));
    Regroup(before, XREF, Decimal(|objects| + 1), "\n", Entries(objects, |objects|), TrailerOf(objects));
  }

  lemma Regroup(a: string, b: string, c: string, d: string, e: string, f: string)
    ensures (a + (b + (c + d)) + e) + f == a + (b + (c + (d + (e + f))))
  {
  }

  // ---------------------------------------------------------------------
  // The cross-reference entries
  // ---------------------------------------------------------------------

  function Pow10(k: nat): nat {
    if k == 0 then 1 else 10 * Pow10(k - 1)
  }

  lemma {:induction false} DecimalLength(n: nat, k: nat)
    requires k > 0
    ensures |Decimal(n)| <= k <==> n < Pow10(k)
  {
    if k == 1 {
      assert Pow10(1) == 10 * Pow10(0);
    } else if n >= 10 {
      DecimalLength(n / 10, k - 1);
    } else {
      DecimalLength(n, k - 1);
    }
  }

  lemma {:induction false} PaddedLength(s: string, width: nat)
    requires AllDigits(s)
    ensures |Padded(s, width)| == if |s| >= width then |s| else width
    decreases width - |s|
  {
    if |s| < width {
      PaddedLength("0" + s, width);
    }
  }

  lemma {:induction false} LeadingZero(s: string)
    requires AllDigits(s)
    ensures ParseNat("0" + s) == ParseNat(s)
    decreases |s|
  {
    if s == "" {
      assert ("0" + s)[..0] == "";
    } else {
      assert ("0" + s)[..|s|] == "0" + s[..|s| - 1];
      LeadingZero(s[..|s| - 1]);
    }
  }

  lemma {:induction false} PaddedValue(s: string, width: nat)
    requires AllDigits(s)
    ensures ParseNat(Padded(s, width)) == ParseNat(s)
    decreases width - |s|
  {
    if |s| < width {
      PaddedValue("0" + s, width);
      LeadingZero(s);
    }
  }

  /** An entry has exactly the twenty bytes the format asks for as long as the offset has at most
      ten digits, and only then. */
  lemma EntryIsTwentyBytes(offset: nat)
    ensures |Entry(offset)| == 20 <==> offset < 10_000_000_000
  {
    DecimalLength(offset, 10);
    PaddedLength(Decimal(offset), 10);
    PowerOfTen();
  }

  lemma PowerOfTen()
    ensures Pow10(10) == 10_000_000_000
  {
    assert Pow10(5) == 100_000;
  }

  /** The last object starts where ten digits still reach. */
  predicate Addressable(objects: seq<string>) {
    objects == [] || Offset(objects, |objects| - 1) < 10_000_000_000
  }

  lemma {:induction false} OffsetsIncrease(objects: seq<string>, i: nat, j: nat)
    requires i <= j <= |objects|
    ensures Upto(objects, i) <= Upto(objects, j) && Offset(objects, i) + (j - i) <= Offset(objects, j)
  {
    if i < j {
      OffsetsIncrease(objects, i, j - 1);
    }
  }

  lemma SmallFileIsAddressable(objects: seq<string>)
    requires |PdfFile(objects)| <= 10_000_000_000
    ensures Addressable(objects)
  {
    if objects != [] {
      OffsetsIncrease(objects, |objects| - 1, |objects|);
    }
  }

  /** All entries have the length the format asks for exactly when the last object starts early enough. */
  lemma EntriesFitFormat(objects: seq<string>)
    ensures (forall i :: 0 <= i < |objects| ==> |Entry(Offset(objects, i))| == 20) <==> Addressable(objects)
  {
    if Addressable(objects) {
      forall i | 0 <= i < |objects| ensures |Entry(Offset(objects, i))| == 20 {
        EntryIsTwentyBytesHere(objects, i);
      }
    } else {
      EntryIsTwentyBytes(Offset(objects, |objects| - 1));
    }
  }

  lemma EntryIsTwentyBytesHere(objects: seq<string>, i: nat)
    requires Addressable(objects) && i < |objects|
    ensures |Entry(Offset(objects, i))| == 20
  {
    OffsetFits(objects, i);
    EntryIsTwentyBytes(Offset(objects, i));
  }

  // ---------------------------------------------------------------------
  // The reader
  // ---------------------------------------------------------------------

  function AfterText(s: string, text: string): (rest: Option<string>)
    ensures rest.Some? ==> |rest.value| == |s| - |text|
  {
    if text <= s then Some(s[|text|..]) else None
  }

  function DigitsEnd(s: string, from: nat): (end: nat)
    requires from <= |s|
    ensures from <= end <= |s| && forall i :: from <= i < end ==> IsDigit(s[i])
    decreases |s| - from
  {
    if from < |s| && IsDigit(s[from]) then DigitsEnd(s, from + 1) else from
  }

  /** A number at the start of the text, and what follows it. */
  function TakeNumber(s: string): (taken: Option<(nat, string)>)
    ensures taken.Some? ==> |taken.value.1| < |s|
  {
    var n := DigitsEnd(s, 0);
    if n == 0 then None else Some((ParseNat(s[..n]), s[n..]))
  }

  /** Where the line that ends at `end` starts. */
  function LineStart(file: string, end: nat): (p: nat)
    requires end <= |file|
    ensures p <= end
  {
    if end == 0 || file[end - 1] == '\n' then end else LineStart(file, end - 1)
  }

  /** The number on the line before the end-of-file marker. */
  function StartXref(file: string): Option<nat> {
    var eof := "\n%%EOF\n";
    if |file| < |eof| || file[|file| - |eof|..] != eof then None
    else
      var end := |file| - |eof|;
      var digits := file[LineStart(file, end)..end];
      if digits != "" && AllDigits(digits) then Some(ParseNat(digits)) else None
  }

  /** The offset in an in-use entry of exactly twenty bytes. */
  function ReadEntry(entry: string): Option<nat> {
    if |entry| == 20 && AllDigits(entry[..10]) && entry[10..] == " 00000 n \n" then Some(ParseNat(entry[..10])) else None
  }

  /** The body of object `num` in the bytes between its offset and the next one. */
  function ReadObject(bytes: string, num: nat): Option<string> {
    var rest := AfterText(bytes, Decimal(num) + " 0 obj\n");
    var end := "\nendobj\n";
    if rest.None? || |rest.value| < |end| || rest.value[|rest.value| - |end|..] != end then None
    else Some(rest.value[..|rest.value| - |end|])
  }

  function Row(table: string, n: nat): string {
    if 20 * n + 20 > |table| then "" else table[20 * n..20 * n + 20]
  }

  function ObjectBetween(file: string, num: nat, start: nat, end: nat): Option<string> {
    if start <= end <= |file| then ReadObject(file[start..end], num) else None
  }

  /** Objects 1 to n, of which the last ends at `end`; the table starts with the free entry. */
  function ReadObjects(file: string, table: string, n: nat, end: nat): Option<seq<string>> {
    if n == 0 then Some([])
    else
      var start := ReadEntry(Row(table, n));
      if start.None? then None
      else
        var body := ObjectBetween(file, n, start.value, end);
        var earlier := ReadObjects(file, table, n - 1, start.value);
        if body.None? || earlier.None? then None else Some(earlier.value + [body.value])
  }

  /** What follows the `xref` keyword's own line: the number of entries and the table. */
  function ReadTable(section: string): Option<(nat, string)> {
    var numbers := AfterText(section, "xref\n0 ");
    if numbers.None? then None
    else
      var size := TakeNumber(numbers.value);
      if size.None? then None
      else
        var table := AfterText(size.value.1, "\n");
        if table.None? then None else Some((size.value.0, table.value))
  }

  /** The trailer repeats the number of entries. */
  predicate TrailerAgrees(trailer: string, size: nat) {
    ("trailer\n<< /Size " + Decimal(size)) + " /Root 1 0 R >>\nstartxref\n" <= trailer
  }

  function ReadFrom(file: string, at: nat, section: string): Option<seq<string>> {
    var table := ReadTable(section);
    if table.None? then None
    else
      var (size, entries) := table.value;
      if size == 0 || 20 * size > |entries| || Row(entries, 0) != "0000000000 65535 f \n" || !TrailerAgrees(entries[20 * size..], size) then None
      else ReadObjects(file, entries, size - 1, at)
  }

  function ReadPdf(file: string): Option<seq<string>> {
    var at := StartXref(file);
    if at.None? || at.value > |file| || !("%PDF-1.4\n" <= file) then None else ReadFrom(file, at.value, file[at.value..])
  }

  /** A number between two fixed texts, and what follows. */
  function ReadBetween(s: string, before: string, after: string): Option<(nat, string)> {
    var start := AfterText(s, before);
    if start.None? then None
    else
      var number := TakeNumber(start.value);
      if number.None? then None
      else
        var rest := AfterText(number.value.1, after);
        if rest.None? then None else Some((number.value.0, rest.value))
  }

  /** The number of the root object, from the trailer. */
  function RootIn(trailer: string): Option<nat> {
    var size := ReadBetween(trailer, "trailer\n<< /Size ", " /Root ");
    if size.None? then None
    else
      var root := ReadBetween(size.value.1, "", " 0 R >>\nstartxref\n");
      if root.None? then None else Some(root.value.0)
  }

  function RootFrom(section: string): Option<nat> {
    var table := ReadTable(section);
    if table.None? || 20 * table.value.0 > |table.value.1| then None else RootIn(table.value.1[20 * table.value.0..])
  }

  /** The number of the root object of a file. */
  function ReadRoot(file: string): Option<nat> {
    var at := StartXref(file);
    if at.None? || at.value > |file| then None else RootFrom(file[at.value..])
  }

  // ---------------------------------------------------------------------
  // Reading back
  // ---------------------------------------------------------------------

  lemma TextIsTaken(text: string, rest: string)
    ensures AfterText(text + rest, text) == Some(rest)
  {
    Seqs.CutInSecond(text, rest, 0);
  }

  lemma {:induction false} DigitsStop(s: string, from: nat, end: nat)
    requires from <= end <= |s| && forall i :: from <= i < end ==> IsDigit(s[i])
    requires end == |s| || !IsDigit(s[end])
    ensures DigitsEnd(s, from) == end
    decreases end - from
  {
    if from < end {
      DigitsStop(s, from + 1, end);
    }
  }

  lemma NumberIsTaken(n: nat, rest: string)
    requires rest == "" || !IsDigit(rest[0])
    ensures TakeNumber(Decimal(n) + rest) == Some((n, rest))
  {
    var digits := Decimal(n);
    DigitsStop(digits + rest, 0, |digits|);
    Seqs.CutInSecond(digits, rest, 0);
    Seqs.CutInFirst(digits, rest, |digits|);
    assert digits[..|digits|] == digits;
    ParseDecimal(n);
  }

  lemma {:induction false} LineStartsAfterBreak(file: string, start: nat, end: nat)
    requires 0 < start <= end <= |file| && file[start - 1] == '\n'
    requires forall i :: start <= i < end ==> file[i] != '\n'
    ensures LineStart(file, end) == start
  {
    if start < end {
      LineStartsAfterBreak(file, start, end - 1);
    }
  }

  lemma StartXrefOf(before: string, at: nat)
    requires before != "" && before[|before| - 1] == '\n'
    ensures StartXref(before + (Decimal(at) + EOF)) == Some(at)
  {
    var digits := Decimal(at);
    var file := before + (digits + EOF);
    var end := |before| + |digits|;
    assert file[end..] == EOF;
    assert file[|before|..end] == digits;
    assert forall i :: |before| <= i < end ==> file[i] == digits[i - |before|];
    LineStartsAfterBreak(file, |before|, end);
    ParseDecimal(at);
  }

  /** `startxref` is the offset of the `xref` keyword. */
  lemma StartXrefPointsAtXref(objects: seq<string>)
    ensures var file := PdfFile(objects);
            var at := Offset(objects, |objects|);
      && StartXref(file) == Some(at)
      && at <= |file| && XREF <= file[at..]
  {
    var body := Upto(objects, |objects|);
    var size := Decimal(|objects| + 1);
    var entries := Entries(objects, |objects|);
    var before := body + (XREF + (size + ("\n" + (entries + (TRAILER + (size + ROOT))))));
    SplitTrailer(body, XREF, size, entries, TRAILER, ROOT, Decimal(|body|) + EOF);
    RootEndsLine(body + (XREF + (size + ("\n" + (entries + (TRAILER + size))))), ROOT, before);
    StartXrefOf(before, |body|);
    var section := XREF + (size + ("\n" + (entries + TrailerOf(objects))));
    Seqs.CutInSecond(body, section, 0);
    assert XREF <= section;
  }

  lemma SplitTrailer(a: string, b: string, c: string, e: string, t: string, r: string, z: string)
    ensures a + (b + (c + ("\n" + (e + (t + (c + (r + z))))))) == (a + (b + (c + ("\n" + (e + (t + (c + r))))))) + z
  {
  }

  lemma RootEndsLine(a: string, root: string, b: string)
    requires root != "" && root[|root| - 1] == '\n' && |b| >= |root| && b[|b| - |root|..] == root
    ensures b != "" && b[|b| - 1] == '\n'
  {
    assert b[|b| - 1] == b[|b| - |root|..][|root| - 1];
  }

  lemma ReadTableOf(size: nat, table: string)
    ensures ReadTable(XREF + (Decimal(size) + ("\n" + table))) == Some((size, table))
  {
    TextIsTaken(XREF, Decimal(size) + ("\n" + table));
    NumberIsTaken(size, "\n" + table);
    TextIsTaken("\n", table);
  }

  lemma ReadEntryOf(offset: nat)
    requires offset < 10_000_000_000
    ensures ReadEntry(Entry(offset)) == Some(offset)
  {
    EntryIsTwentyBytes(offset);
    var digits := Padded(Decimal(offset), 10);
    Seqs.CutInSecond(digits, IN_USE, 0);
    Seqs.CutInFirst(digits, IN_USE, |digits|);
    assert digits[..|digits|] == digits;
    PaddedValue(Decimal(offset), 10);
    ParseDecimal(offset);
  }

  lemma ReadObjectOf(num: nat, body: string)
    ensures ReadObject(NumberedObject(num, body), num) == Some(body)
  {
    TextIsTaken(Decimal(num) + OBJ, body + ENDOBJ);
    Seqs.CutInSecond(body, ENDOBJ, 0);
    Seqs.CutInFirst(body, ENDOBJ, |body|);
    assert body[..|body|] == body;
  }

  lemma RowOfFirst(a: string, b: string, i: nat)
    requires 20 * i + 20 <= |a|
    ensures Row(a + b, i) == Row(a, i)
  {
  }

  lemma RowAtEnd(a: string, b: string, i: nat)
    requires |a| == 20 * i && |b| == 20
    ensures Row(a + b, i) == b
  {
  }

  lemma RowReads(row: string, offset: nat)
    requires row == Entry(offset) && offset < 10_000_000_000
    ensures ReadEntry(row) == Some(offset)
  {
    ReadEntryOf(offset);
  }

  lemma OffsetFits(objects: seq<string>, i: nat)
    requires Addressable(objects) && i < |objects|
    ensures Offset(objects, i) < 10_000_000_000
  {
    OffsetsIncrease(objects, i, |objects| - 1);
  }

  lemma LastRow(objects: seq<string>, n: nat)
    requires Addressable(objects) && 0 < n <= |objects|
    ensures Row(Entries(objects, n), n) == Entry(Offset(objects, n - 1))
  {
    EntriesLength(objects, n - 1);
    EntryIsTwentyBytesHere(objects, n - 1);
    RowAtEnd(Entries(objects, n - 1), Entry(Offset(objects, n - 1)), n);
  }

  lemma EarlierRow(objects: seq<string>, i: nat, n: nat)
    requires Addressable(objects) && i < n <= |objects|
    ensures Row(Entries(objects, n), i) == Row(Entries(objects, n - 1), i)
  {
    EntriesLength(objects, n - 1);
    RowOfFirst(Entries(objects, n - 1), Entry(Offset(objects, n - 1)), i);
  }

  /** Each in-use entry of an addressable file holds the offset of its object. */
  lemma {:induction false} EntryPointsAtObject(objects: seq<string>, i: nat, n: nat)
    requires Addressable(objects) && n <= |objects| && 0 < i <= n
    ensures ReadEntry(Row(Entries(objects, n), i)) == Some(Offset(objects, i - 1))
  {
    if i < n {
      EntryPointsAtObject(objects, i, n - 1);
      EarlierRow(objects, i, n);
    } else {
      OffsetFits(objects, i - 1);
      LastRow(objects, n);
      RowReads(Row(Entries(objects, n), n), Offset(objects, n - 1));
    }
  }

  lemma {:induction false} EntriesLength(objects: seq<string>, n: nat)
    requires Addressable(objects) && n <= |objects|
    ensures |Entries(objects, n)| == 20 * n + 20
  {
    if n > 0 {
      EntryIsTwentyBytesHere(objects, n - 1);
      EntriesLength(objects, n - 1);
    }
  }

  /** Between two offsets lies one numbered object. */
  lemma ObjectAtOffset(objects: seq<string>, i: nat, num: nat, file: string)
    requires num == i + 1 <= |objects| && Upto(objects, |objects|) <= file
    ensures Offset(objects, i) <= Offset(objects, num) <= |file|
         && file[Offset(objects, i)..Offset(objects, num)] == NumberedObject(num, objects[i])
  {
    OffsetsIncrease(objects, num, |objects|);
    UptoNext(objects, i, num);
    MiddleOf(Upto(objects, i), NumberedObject(num, objects[i]), Upto(objects, num), Upto(objects, |objects|), file);
  }

  lemma MiddleOf<T>(a: seq<T>, b: seq<T>, ab: seq<T>, most: seq<T>, s: seq<T>)
    requires ab == a + b && ab <= most && most <= s
    ensures |a| <= |ab| <= |s| && s[|a|..|ab|] == b
  {
    assert s[..|ab|] == most[..|ab|] == a + b;
  }

  lemma UptoNext(objects: seq<string>, i: nat, num: nat)
    requires num == i + 1 <= |objects|
    ensures Upto(objects, num) == Upto(objects, i) + NumberedObject(num, objects[i])
    ensures Offset(objects, num) == Offset(objects, i) + |NumberedObject(num, objects[i])|
  {
  }

  lemma ObjectOfOffset(objects: seq<string>, i: nat, num: nat, file: string)
    requires num == i + 1 <= |objects| && Upto(objects, |objects|) <= file
    ensures ObjectBetween(file, num, Offset(objects, i), Offset(objects, num)) == Some(objects[i])
  {
    ObjectAtOffset(objects, i, num, file);
    BodyBetween(file, num, Offset(objects, i), Offset(objects, num), objects[i]);
  }

  lemma BodyBetween(file: string, num: nat, start: nat, end: nat, body: string)
    requires start <= end <= |file| && file[start..end] == NumberedObject(num, body)
    ensures ObjectBetween(file, num, start, end) == Some(body)
  {
    ReadObjectOf(num, body);
  }

  /** The table and the file give object k + 1. */
  predicate Gives(objects: seq<string>, file: string, table: string, k: nat)
    requires k < |objects|
  {
    && ReadEntry(Row(table, k + 1)) == Some(Offset(objects, k))
    && ObjectBetween(file, k + 1, Offset(objects, k), Offset(objects, k + 1)) == Some(objects[k])
  }

  lemma ReadOneMore(file: string, table: string, j: nat, n: nat, start: nat, end: nat, earlier: seq<string>, body: string)
    requires n == j + 1 && ReadEntry(Row(table, n)) == Some(start) && ObjectBetween(file, n, start, end) == Some(body)
    requires ReadObjects(file, table, j, start) == Some(earlier)
    ensures ReadObjects(file, table, n, end) == Some(earlier + [body])
  {
    assert n - 1 == j;
  }

  lemma OneMore<T>(s: seq<T>, j: nat, n: nat)
    requires n == j + 1 <= |s|
    ensures s[..n] == s[..j] + [s[j]]
  {
  }

  lemma ReadGiven(objects: seq<string>, j: nat, n: nat, file: string, table: string)
    requires n == j + 1 <= |objects| && Gives(objects, file, table, j)
    requires ReadObjects(file, table, j, Offset(objects, j)) == Some(objects[..j])
    ensures ReadObjects(file, table, n, Offset(objects, n)) == Some(objects[..n])
  {
    ReadOneMore(file, table, j, n, Offset(objects, j), Offset(objects, n), objects[..j], objects[j]);
    OneMore(objects, j, n);
  }

  lemma {:induction false} ReadObjectsOf(objects: seq<string>, i: nat, file: string, table: string)
    requires i <= |objects| && forall k :: 0 <= k < i ==> Gives(objects, file, table, k)
    ensures ReadObjects(file, table, i, Offset(objects, i)) == Some(objects[..i])
  {
    if i > 0 {
      var j := i - 1;
      ReadObjectsOf(objects, j, file, table);
      ReadGiven(objects, j, i, file, table);
    }
  }

  lemma TrailerOfAgrees(objects: seq<string>)
    ensures TrailerAgrees(TrailerOf(objects), |objects| + 1)
  {
    var end := Decimal(Offset(objects, |objects|)) + EOF;
    Seqs.Associates(Decimal(|objects| + 1), ROOT, end);
    Seqs.Associates(TRAILER, Decimal(|objects| + 1), ROOT + end);
    Seqs.Associates(TRAILER + Decimal(|objects| + 1), ROOT, end);
  }

  /** The entries are followed by the trailer. */
  lemma AfterEntries(entries: string, trailer: string, size: nat)
    requires |entries| == 20 * size
    ensures 20 * size <= |entries + trailer| && (entries + trailer)[20 * size..] == trailer
  {
  }

  lemma RowOfLonger(entries: string, table: string, i: nat, offset: nat)
    requires entries <= table && 20 * i + 20 <= |entries| && ReadEntry(Row(entries, i)) == Some(offset)
    ensures ReadEntry(Row(table, i)) == Some(offset)
  {
    assert Row(table, i) == Row(entries, i);
  }

  lemma RowGiven(objects: seq<string>, k: nat, i: nat, table: string)
    requires Addressable(objects) && i == k + 1 <= |objects| && Entries(objects, |objects|) <= table
    ensures ReadEntry(Row(table, i)) == Some(Offset(objects, k))
  {
    EntriesLength(objects, |objects|);
    EntryPointsAtObject(objects, i, |objects|);
    RowOfLonger(Entries(objects, |objects|), table, i, Offset(objects, k));
  }

  lemma GivenAt(objects: seq<string>, k: nat, file: string, table: string)
    requires Addressable(objects) && k < |objects|
    requires Upto(objects, |objects|) <= file && Entries(objects, |objects|) <= table
    ensures Gives(objects, file, table, k)
  {
    RowGiven(objects, k, k + 1, table);
    ObjectOfOffset(objects, k, k + 1, file);
  }

  lemma AllRead(objects: seq<string>, file: string, table: string)
    requires Addressable(objects)
    requires Upto(objects, |objects|) <= file && Entries(objects, |objects|) <= table
    ensures ReadObjects(file, table, |objects|, Offset(objects, |objects|)) == Some(objects)
  {
    forall k | 0 <= k < |objects| ensures Gives(objects, file, table, k) {
      GivenAt(objects, k, file, table);
    }
    ReadObjectsOf(objects, |objects|, file, table);
    assert objects[..|objects|] == objects;
  }

  lemma ReadFromTable(file: string, at: nat, section: string, n: nat, size: nat, table: string)
    requires ReadTable(section) == Some((size, table)) && size == n + 1
    requires 20 * size <= |table| && TrailerAgrees(table[20 * size..], size) && Row(table, 0) == FREE_ENTRY
    ensures ReadFrom(file, at, section) == ReadObjects(file, table, n, at)
  {
  }

  lemma StartsWithHeader(objects: seq<string>, section: string)
    ensures HEADER <= Upto(objects, |objects|) + section
  {
    OffsetsIncrease(objects, 0, |objects|);
    PrefixOfLonger(HEADER, Upto(objects, |objects|), section);
  }

  lemma PrefixOfLonger(a: string, b: string, c: string)
    requires a <= b
    ensures a <= b + c
  {
  }

  lemma {:induction false} FreeEntryFirst(objects: seq<string>, n: nat, rest: string)
    requires n <= |objects|
    ensures Row(Entries(objects, n) + rest, 0) == FREE_ENTRY
  {
    if n == 0 {
      RowAtFront(FREE_ENTRY, rest);
    } else {
      var j := n - 1;
      var entry := Entry(Offset(objects, j));
      Seqs.Associates(Entries(objects, j), entry, rest);
      FreeEntryFirst(objects, j, entry + rest);
    }
  }

  lemma RowAtFront(a: string, b: string)
    requires |a| == 20
    ensures Row(a + b, 0) == a
  {
    assert (a + b)[..20] == a;
  }

  lemma ReadPdfAt(file: string, at: nat, section: string)
    requires StartXref(file) == Some(at) && at <= |file| && file[at..] == section && HEADER <= file
    ensures ReadPdf(file) == ReadFrom(file, at, section)
  {
  }

  lemma ReadSection(objects: seq<string>, size: nat, file: string, section: string, table: string)
    requires Addressable(objects) && Upto(objects, |objects|) <= file && size == |objects| + 1
    requires table == Entries(objects, |objects|) + TrailerOf(objects)
    requires section == XREF + (Decimal(size) + ("\n" + table))
    ensures ReadFrom(file, Offset(objects, |objects|), section) == Some(objects)
  {
    ReadTableOf(size, table);
    EntriesLength(objects, |objects|);
    AfterEntries(Entries(objects, |objects|), TrailerOf(objects), size);
    TrailerOfAgrees(objects);
    AllRead(objects, file, table);
    FreeEntryFirst(objects, |objects|, TrailerOf(objects));
    ReadFromTable(file, Offset(objects, |objects|), section, |objects|, size, table);
  }

  /** A reader that follows `startxref` and the table gets back every body, whatever bytes the
      bodies hold. */
  lemma ReadsBack(objects: seq<string>)
    requires Addressable(objects)
    ensures ReadPdf(PdfFile(objects)) == Some(objects)
  {
    var table := Entries(objects, |objects|) + TrailerOf(objects);
    var section := XREF + (Decimal(|objects| + 1) + ("\n" + table));
    StartXrefPointsAtXref(objects);
    Seqs.CutInSecond(Upto(objects, |objects|), section, 0);
    StartsWithHeader(objects, section);
    ReadPdfAt(PdfFile(objects), Offset(objects, |objects|), section);
    ReadSection(objects, |objects| + 1, PdfFile(objects), section, table);
  }

  lemma ReadBetweenOf(before: string, n: nat, after: string, rest: string)
    requires after != "" && !IsDigit(after[0])
    ensures ReadBetween(before + (Decimal(n) + (after + rest)), before, after) == Some((n, rest))
  {
    TextIsTaken(before, Decimal(n) + (after + rest));
    NumberIsTaken(n, after + rest);
    TextIsTaken(after, rest);
  }

  lemma RootInTrailer(objects: seq<string>)
    ensures RootIn(TrailerOf(objects)) == Some(1)
  {
    var end := Decimal(Offset(objects, |objects|)) + EOF;
    var after := " 0 R >>\nstartxref\n";
    assert Decimal(1) == "1";
    RootText(end, after);
    ReadBetweenOf(TRAILER, |objects| + 1, " /Root ", Decimal(1) + (after + end));
    Seqs.Associates("", Decimal(1), after + end);
    ReadBetweenOf("", 1, after, end);
  }

  lemma RootText(end: string, after: string)
    requires after == " 0 R >>\nstartxref\n"
    ensures ROOT + end == " /Root " + ("1" + (after + end))
  {
    assert ROOT == " /Root " + ("1" + after);
  }

  lemma RootFromTable(section: string, size: nat, entries: string, trailer: string)
    requires |entries| == 20 * size && section == XREF + (Decimal(size) + ("\n" + (entries + trailer)))
    ensures RootFrom(section) == RootIn(trailer)
  {
    ReadTableOf(size, entries + trailer);
    AfterEntries(entries, trailer, size);
  }

  /** The trailer names the first object as the root. */
  lemma ReadsRoot(objects: seq<string>)
    requires Addressable(objects)
    ensures ReadRoot(PdfFile(objects)) == Some(1)
  {
    var n := |objects|;
    var section := XREF + (Decimal(n + 1) + ("\n" + (Entries(objects, n) + TrailerOf(objects))));
    StartXrefPointsAtXref(objects);
    Seqs.CutInSecond(Upto(objects, n), section, 0);
    EntriesLength(objects, n);
    RootFromTable(section, n + 1, Entries(objects, n), TrailerOf(objects));
    RootInTrailer(objects);
  }

  lemma EntryLength(offset: nat)
    ensures |Entry(offset)| >= 20
    ensures |Entry(offset)| == 20 <==> offset < 10_000_000_000
  {
    PaddedLength(Decimal(offset), 10);
    EntryIsTwentyBytes(offset);
  }

  lemma {:induction false} EntriesAtLeast(objects: seq<string>, n: nat)
    requires n <= |objects|
    ensures |Entries(objects, n)| >= 20 * n + 20
    ensures n > 0 && Offset(objects, n - 1) >= 10_000_000_000 ==> |Entries(objects, n)| > 20 * n + 20
  {
    if n > 0 {
      var j := n - 1;
      EntriesAtLeast(objects, j);
      EntryLength(Offset(objects, j));
    }
  }

  lemma {:induction false} EntriesHoldNoT(objects: seq<string>, n: nat)
    requires n <= |objects|
    ensures 't' !in Entries(objects, n)
  {
    if n > 0 {
      EntriesHoldNoT(objects, n - 1);
    }
  }

  /** Where the entries are longer than the size says, no trailer stands there. */
  lemma NoTrailerWithin(entries: string, trailer: string, size: nat)
    requires 20 * size < |entries| && 't' !in entries
    ensures !TrailerAgrees((entries + trailer)[20 * size..], size)
  {
    assert (entries + trailer)[20 * size..][0] == entries[20 * size];
    assert ((TRAILER + Decimal(size)) + ROOT)[0] == TRAILER[0] == 't';
  }

  lemma LongTableIsNotRead(objects: seq<string>)
    requires !Addressable(objects)
    ensures ReadPdf(PdfFile(objects)) == None
  {
    var n := |objects|;
    var size, entries := n + 1, Entries(objects, n);
    var table := entries + TrailerOf(objects);
    var section := XREF + (Decimal(size) + ("\n" + table));
    StartXrefPointsAtXref(objects);
    Seqs.CutInSecond(Upto(objects, n), section, 0);
    StartsWithHeader(objects, section);
    ReadPdfAt(PdfFile(objects), Offset(objects, n), section);
    ReadTableOf(size, table);
    EntriesAtLeast(objects, n);
    EntriesHoldNoT(objects, n);
    NoTrailerWithin(entries, TrailerOf(objects), size);
  }

  /** The reader gets every body back exactly when the last object starts below 10^10. */
  lemma ReadsBackExactly(objects: seq<string>)
    ensures ReadPdf(PdfFile(objects)) == Some(objects) <==> Addressable(objects)
  {
    if Addressable(objects) {
      ReadsBack(objects);
    } else {
      LongTableIsNotRead(objects);
    }
  }

  /** So it does from any file of at most 10^10 bytes. */
  lemma SmallFileReadsBack(objects: seq<string>)
    requires |PdfFile(objects)| <= 10_000_000_000
    ensures ReadPdf(PdfFile(objects)) == Some(objects)
  {
    SmallFileIsAddressable(objects);
    ReadsBack(objects);
  }
}

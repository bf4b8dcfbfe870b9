/** The few pieces of Python text handling that several components share:
    whitespace as `str.isspace` sees it, the strip family, decimal printing and `str.find`. */
module PyText {

  datatype Option<+T> = None | Some(value: T)

  /** The characters `str.strip()` removes and `str.split()` splits at. */
  predicate IsSpace(c: char) {
    var n := c as int;
    9 <= n <= 13 || 28 <= n <= 32 || n in {133, 160, 5760, 8232, 8233, 8239, 8287, 12288} || 8192 <= n <= 8202
  }

  predicate AllSpace(s: string) {
    forall i :: 0 <= i < |s| ==> IsSpace(s[i])
  }

  function RStrip(s: string): string {
    if s != "" && IsSpace(s[|s| - 1]) then RStrip(s[..|s| - 1]) else s
  }

  function LStrip(s: string): (r: string)
    ensures |r| <= |s|
  {
    if s != "" && IsSpace(s[0]) then LStrip(s[1..]) else s
  }

  function Strip(s: string): string {
    RStrip(LStrip(s))
  }

  /** Where the trailing whitespace of the first `end` characters begins. */
  predicate EndsBeforeSpace(s: string, k: nat, end: nat)
    requires end <= |s|
  {
    k <= end && (k > 0 ==> !IsSpace(s[k - 1])) && forall i :: k <= i < end ==> IsSpace(s[i])
  }

  lemma {:induction false} RStripExactly(s: string)
    ensures RStrip(s) <= s && EndsBeforeSpace(s, |RStrip(s)|, |s|)
  {
    if s != "" && IsSpace(s[|s| - 1]) {
      RStripExactly(s[..|s| - 1]);
      assert forall i :: 0 <= i < |s| - 1 ==> s[..|s| - 1][i] == s[i];
    }
  }

  lemma {:induction false} RStripIsPrefix(s: string)
    ensures RStrip(s) <= s
  {
    if s != "" && IsSpace(s[|s| - 1]) {
      RStripIsPrefix(s[..|s| - 1]);
    }
  }

  lemma {:induction false} RStripKeepsFirst(s: string)
    requires s != "" && !IsSpace(s[0])
    ensures RStrip(s) != ""
  {
    if IsSpace(s[|s| - 1]) {
      RStripKeepsFirst(s[..|s| - 1]);
    }
  }

  lemma StripKeepsNonSpace(s: string)
    requires s != "" && !IsSpace(s[0])
    ensures Strip(s) != ""
    ensures !IsSpace(s[|s| - 1]) ==> Strip(s) == s
  {
    RStripKeepsFirst(s);
  }

  lemma {:induction false} IndexOfAbsent(s: string, c: char)
    requires c !in s
    ensures IndexOf(s, c) == |s|
  {
    if s != "" {
      IndexOfAbsent(s[1..], c);
    }
  }

  /** The index of the first `c` in `s`, or |s| when there is none. */
  function IndexOf(s: string, c: char): (i: nat)
    ensures i <= |s|
  {
    if s == "" || s[0] == c then 0 else 1 + IndexOf(s[1..], c)
  }

  /** `s.find(tag)`: the first position, or -1. */
  function Find(s: string, tag: string): (i: int)
    ensures -1 <= i <= |s|
    ensures i >= 0 ==> i + |tag| <= |s|
    decreases |s|
  {
    if |s| < |tag| then -1
    else if s[..|tag|] == tag then 0
    else if s == "" then -1
    else
      var i := Find(s[1..], tag);
      if i < 0 then -1 else i + 1
  }

  predicate OccursAt(s: string, tag: string, i: int) {
    0 <= i && i + |tag| <= |s| && s[i..i + |tag|] == tag
  }

  /** No occurrence starts among the first n characters. */
  predicate NoneBefore(s: string, tag: string, n: nat) {
    forall i :: 0 <= i < n ==> !OccursAt(s, tag, i)
  }

  /** `find` gives the first occurrence, or -1 when there is none. */
  lemma {:induction false} FindsFirst(s: string, tag: string)
    ensures var at := Find(s, tag);
      if at < 0 then forall i :: !OccursAt(s, tag, i)
      else OccursAt(s, tag, at) && NoneBefore(s, tag, at)
    decreases |s|
  {
    if |s| >= |tag| && s[..|tag|] != tag {
      var rest := s[1..];
      FindsFirst(rest, tag);
      forall i | i > 0 ensures OccursAt(s, tag, i) == OccursAt(rest, tag, i - 1) {
        assert i + |tag| <= |s| ==> s[i..i + |tag|] == rest[i - 1..i - 1 + |tag|];
      }
    }
  }

  lemma FoundAt(s: string, tag: string, at: nat)
    requires OccursAt(s, tag, at) && NoneBefore(s, tag, at)
    ensures Find(s, tag) == at
  {
    FindsFirst(s, tag);
  }

  lemma {:induction false} IndexOfFirst(s: string, c: char, at: nat)
    requires at < |s| && s[at] == c && forall i :: 0 <= i < at ==> s[i] != c
    ensures IndexOf(s, c) == at
  {
    if at > 0 {
      IndexOfFirst(s[1..], c, at - 1);
    }
  }

  /** Python's `text[:n]`, where a negative n counts from the end. */
  function SliceTo(text: string, n: int): (r: string)
    ensures r <= text
  {
    if n >= |text| then text
    else if n >= 0 then text[..n]
    else if |text| + n >= 0 then text[..|text| + n]
    else ""
  }

  predicate IsDigit(c: char) {
    '0' <= c <= '9'
  }

  predicate AllDigits(s: string) {
    forall i :: 0 <= i < |s| ==> IsDigit(s[i])
  }

  /** `str(n)`, also what an f-string prints for a non-negative integer. */
  function Decimal(n: nat): (s: string)
    ensures s != "" && AllDigits(s)
  {
    if n < 10 then [DigitChar(n)] else Decimal(n / 10) + [DigitChar(n % 10)]
  }

  function DigitChar(d: nat): (c: char)
    requires d < 10
    ensures IsDigit(c)
  {
    ('0' as int + d) as char
  }

  function DigitValue(c: char): (d: nat)
    requires IsDigit(c)
    ensures d < 10
  {
    c as int - '0' as int
  }

  /** `int(s)` for a string of ASCII digits. */
  function ParseNat(s: string): nat
    requires AllDigits(s)
  {
    if s == "" then 0 else 10 * ParseNat(s[..|s| - 1]) + DigitValue(s[|s| - 1])
  }

  lemma {:induction false} ParseDecimal(n: nat)
    ensures ParseNat(Decimal(n)) == n
  {
    if n < 10 {
      assert Decimal(n)[..0] == "";
    } else {
      ParseDecimal(n / 10);
      assert n == 10 * (n / 10) + n % 10;
      assert Decimal(n)[..|Decimal(n)| - 1] == Decimal(n / 10);
    }
  }
}

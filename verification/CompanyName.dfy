/** The normal form of company names (src/services/router/company_name.py). ASCII is written out; how
    other characters fold and which of them are letters is a parameter. */
module CompanyName {
  import opened PyText
  import Seqs

  const CORP_SUFFIXES: set<string> := {
    "limited", "ltd", "llc", "inc", "incorporated", "corp", "corporation", "company", "co", "plc", "lp",
    "llp", "pllc", "pc", "holdings", "holding", "group", "trust", "reit", "pty", "pte", "sdn", "bhd",
    "gmbh", "ag", "kg", "kgaa", "se", "bv", "nv", "cv", "sa", "sas", "sarl", "sca", "srl", "spa", "sl",
    "ab", "oy", "oyj", "as", "asa", "aps", "kk", "gk"
  }

  // ---------------------------------------------------------------------
  // The steps
  // ---------------------------------------------------------------------

  /** What Unicode says beyond ASCII: what a character becomes when it is decomposed, its combining marks
      are dropped and it is lower-cased; and which characters are letters or digits after that. */
  datatype Alphabet = Alphabet(folds: map<char, string>, letters: set<char>) {
    /** Folding yields only characters that fold to themselves. */
    ghost predicate Valid() {
      && (forall c :: c in folds ==> c as int >= 128 && forall d :: d in folds[c] ==> IsFolded(d, this))
      && (forall c :: c in letters ==> c as int >= 128 && c !in folds && !IsSpace(c))
    }
  }

  predicate IsFolded(c: char, u: Alphabet) {
    c !in u.folds && !('A' <= c <= 'Z')
  }

  function FoldChar(c: char, u: Alphabet): string {
    if c in u.folds then u.folds[c]
    else if 'A' <= c <= 'Z' then [(c as int + 32) as char]
    else [c]
  }

  function Fold(s: string, u: Alphabet): string {
    if s == "" then "" else FoldChar(s[0], u) + Fold(s[1..], u)
  }

  /** The bracket that closes c, if c opens one. */
  function Closing(c: char): Option<char> {
    if c == '(' then Some(')') else if c == '[' then Some(']') else None
  }

  /** How many characters the first step of the substitution takes: a whole bracket, if one opens and
      is closed later, or one character. */
  function FirstLength(s: string): (n: nat)
    requires s != ""
    ensures 1 <= n <= |s|
  {
    var closing := Closing(s[0]);
    if closing.Some? && IndexOf(s[1..], closing.value) < |s| - 1 then IndexOf(s[1..], closing.value) + 2 else 1
  }

  /** Each opening bracket, up to the first bracket that closes it, becomes a space; one that is never
      closed stays. */
  function DropBracketed(s: string): string
    decreases |s|
  {
    if s == "" then ""
    else [if FirstLength(s) > 1 then ' ' else s[0]] + DropBracketed(s[FirstLength(s)..])
  }

  function DropDots(s: string): string {
    if s == "" then ""
    else (if s[0] == '.' then [] else [s[0]]) + DropDots(s[1..])
  }

  predicate IsKeyChar(c: char, u: Alphabet) {
    'a' <= c <= 'z' || '0' <= c <= '9' || c in u.letters
  }

  /** What is neither a word character nor space becomes a space; so does the underscore. */
  function BlankChar(c: char, u: Alphabet): char {
    if IsKeyChar(c, u) || 'A' <= c <= 'Z' || IsSpace(c) then c else ' '
  }

  function BlankNonWord(s: string, u: Alphabet): (r: string)
    ensures |r| == |s| && forall i :: 0 <= i < |s| ==> r[i] == BlankChar(s[i], u)
  {
    if s == "" then "" else BlankNonWord(s[..|s| - 1], u) + [BlankChar(s[|s| - 1], u)]
  }

  /** The length of the word at the start of s. */
  function WordLength(s: string): (n: nat)
    ensures n <= |s|
  {
    if s == "" || IsSpace(s[0]) then 0 else 1 + WordLength(s[1..])
  }

  /** `s.split()` */
  function Words(s: string): seq<string>
    decreases |s|
  {
    if s == "" then []
    else if IsSpace(s[0]) then Words(s[1..])
    else [s[..WordLength(s)]] + Words(s[WordLength(s)..])
  }

  function Join(words: seq<string>): string {
    if |words| == 0 then "" else if |words| == 1 then words[0] else words[0] + ([' '] + Join(words[1..]))
  }

  function StripSuffixes(words: seq<string>, suffixes: set<string>): seq<string> {
    if |words| > 1 && words[|words| - 1] in suffixes then StripSuffixes(words[..|words| - 1], suffixes) else words
  }

  /** The words of a name, before suffixes are stripped. */
  function WordsOf(name: string, u: Alphabet): seq<string> {
    Words(BlankNonWord(DropDots(DropBracketed(Fold(name, u))), u))
  }

  function Normal(name: string, suffixes: set<string>, u: Alphabet): string {
    Join(StripSuffixes(WordsOf(name, u), suffixes))
  }

  method NormalizeCompany(name: string, u: Alphabet) returns (key: string)
    ensures key == Normal(name, CORP_SUFFIXES, u)
  {
    var folded := Fold(name, u);
    folded := DropBracketed(folded);
    var words := Words(BlankNonWord(DropDots(folded), u));
    var suffixes := CORP_SUFFIXES;
    while |words| > 1 && words[|words| - 1] in suffixes
      invariant StripSuffixes(words, suffixes) == StripSuffixes(WordsOf(name, u), suffixes)
    {
      words := words[..|words| - 1];
    }
    key := Join(words);
  }

  // ---------------------------------------------------------------------
  // Stripping
  // ---------------------------------------------------------------------

  /** What is left is the shortest nonempty beginning after which there are only suffixes. */
  lemma {:induction false} StripsTrailingSuffixes(words: seq<string>, suffixes: set<string>)
    requires words != []
    ensures var left := StripSuffixes(words, suffixes);
      && left != [] && left <= words
      && (forall i :: |left| <= i < |words| ==> words[i] in suffixes)
      && (|left| == 1 || left[|left| - 1] !in suffixes)
  {
    if |words| > 1 && words[|words| - 1] in suffixes {
      StripsTrailingSuffixes(words[..|words| - 1], suffixes);
    }
  }

  lemma StripTwice(words: seq<string>, suffixes: set<string>)
    ensures StripSuffixes(StripSuffixes(words, suffixes), suffixes) == StripSuffixes(words, suffixes)
  {
    if words != [] {
      StripsTrailingSuffixes(words, suffixes);
    }
  }

  lemma {:induction false} StripAppended(words: seq<string>, more: seq<string>, suffixes: set<string>)
    requires words != [] && forall i :: 0 <= i < |more| ==> more[i] in suffixes
    ensures StripSuffixes(words + more, suffixes) == StripSuffixes(words, suffixes)
    decreases |more|
  {
    if more == [] {
      Seqs.Associates(words, [], []);
    } else {
      assert (words + more)[..|words + more| - 1] == words + more[..|more| - 1];
      StripAppended(words, more[..|more| - 1], suffixes);
    }
  }

  // ---------------------------------------------------------------------
  // Splitting
  // ---------------------------------------------------------------------

  predicate IsKeyWord(w: string, u: Alphabet) {
    w != "" && forall i :: 0 <= i < |w| ==> IsKeyChar(w[i], u)
  }

  predicate KeyWords(words: seq<string>, u: Alphabet) {
    forall i :: 0 <= i < |words| ==> IsKeyWord(words[i], u)
  }

  /** What is left to be split into words. */
  predicate IsKeyText(s: string, u: Alphabet) {
    forall i :: 0 <= i < |s| ==> IsKeyChar(s[i], u) || IsSpace(s[i])
  }

  /** What a joined key can hold. */
  predicate IsJoined(s: string, u: Alphabet) {
    forall i :: 0 <= i < |s| ==> IsKeyChar(s[i], u) || s[i] == ' '
  }

  lemma {:induction false} WordLengthIs(s: string, n: nat)
    requires n <= |s| && (n == |s| || IsSpace(s[n]))
    requires forall i :: 0 <= i < n ==> !IsSpace(s[i])
    ensures WordLength(s) == n
  {
    if n > 0 {
      WordLengthIs(s[1..], n - 1);
    }
  }

  lemma {:induction false} WordLengthMeans(s: string)
    ensures var n := WordLength(s);
      (forall i :: 0 <= i < n ==> !IsSpace(s[i])) && (n == |s| || IsSpace(s[n]))
  {
    if s != "" && !IsSpace(s[0]) {
      WordLengthMeans(s[1..]);
    }
  }

  lemma WordLengthOfConcat(a: string, b: string)
    requires a != "" && !IsSpace(a[0]) && (b == "" || IsSpace(b[0]))
    ensures WordLength(a + b) == WordLength(a) > 0
  {
    WordLengthMeans(a);
    WordLengthIs(a + b, WordLength(a));
  }

  lemma {:induction false} WordsConcat(a: string, b: string)
    requires b == "" || IsSpace(b[0])
    ensures Words(a + b) == Words(a) + Words(b)
    decreases |a|
  {
    if a == "" {
      Seqs.Associates(b, "", "");
    } else if IsSpace(a[0]) {
      Seqs.SplitFirst(a);
      Seqs.ConsConcat(a[0], a[1..], b);
      WordsConcat(a[1..], b);
    } else {
      var n := WordLength(a);
      WordLengthOfConcat(a, b);
      Seqs.CutInFirst(a, b, n);
      WordsConcat(a[n..], b);
      Seqs.Associates([a[..n]], Words(a[n..]), Words(b));
    }
  }

  lemma {:induction false} WordsAreKeyWords(s: string, u: Alphabet)
    requires IsKeyText(s, u)
    ensures KeyWords(Words(s), u)
    decreases |s|
  {
    if s == "" {
    } else if IsSpace(s[0]) {
      WordsAreKeyWords(s[1..], u);
    } else {
      WordLengthMeans(s);
      WordsAreKeyWords(s[WordLength(s)..], u);
    }
  }

  lemma WordOf(w: string, u: Alphabet)
    requires u.Valid() && IsKeyWord(w, u)
    ensures Words(w) == [w]
  {
    WordLengthIs(w, |w|);
    assert w[..|w|] == w;
  }

  lemma {:induction false} WordsOfJoined(words: seq<string>, u: Alphabet)
    requires u.Valid() && KeyWords(words, u)
    ensures Words(Join(words)) == words && IsJoined(Join(words), u)
  {
    if |words| == 1 {
      WordOf(words[0], u);
    } else if |words| > 1 {
      WordsOfJoined(words[1..], u);
      WordOf(words[0], u);
      var rest := [' '] + Join(words[1..]);
      Seqs.ConsConcat(' ', Join(words[1..]), "");
      assert rest[1..] == Join(words[1..]);
      WordsConcat(words[0], rest);
    }
  }

  // ---------------------------------------------------------------------
  // The text steps
  // ---------------------------------------------------------------------

  predicate NoBrackets(s: string) {
    forall i :: 0 <= i < |s| ==> s[i] != '(' && s[i] != ')' && s[i] != '[' && s[i] != ']'
  }

  lemma {:induction false} IndexOfInConcat(a: string, b: string, c: char)
    requires c !in b
    ensures IndexOf(a, c) < |a| ==> IndexOf(a + b, c) == IndexOf(a, c)
    ensures IndexOf(a, c) == |a| ==> IndexOf(a + b, c) == |a + b|
  {
    if a == "" {
      Seqs.Associates(b, "", "");
      IndexOfAbsent(b, c);
    } else {
      Seqs.SplitFirst(a);
      Seqs.ConsConcat(a[0], a[1..], b);
      IndexOfInConcat(a[1..], b, c);
    }
  }

  lemma {:induction false} DropBracketedKeeps(s: string)
    requires NoBrackets(s)
    ensures DropBracketed(s) == s
  {
    if s != "" {
      DropBracketedKeeps(s[1..]);
    }
  }

  lemma {:induction false} IndexOfEarlier(a: string, b: string, c: char)
    requires IndexOf(a, c) < |a|
    ensures IndexOf(a + b, c) == IndexOf(a, c)
  {
    if a[0] != c {
      Seqs.SplitFirst(a);
      Seqs.ConsConcat(a[0], a[1..], b);
      IndexOfEarlier(a[1..], b, c);
    }
  }

  /** Every bracket that opens in s is closed in it. */
  predicate NothingOpen(s: string) {
    '(' !in DropBracketed(s) && '[' !in DropBracketed(s)
  }

  lemma FirstLengthOfClosed(a: string, b: string)
    requires a != "" && (Closing(a[0]).Some? ==> FirstLength(a) > 1)
    ensures FirstLength(a + b) == FirstLength(a)
  {
    Seqs.SplitFirst(a);
    Seqs.ConsConcat(a[0], a[1..], b);
    var closing := Closing(a[0]);
    if closing.Some? {
      IndexOfEarlier(a[1..], b, closing.value);
    }
  }

  lemma {:induction false} DropBracketedApart(a: string, b: string)
    requires NothingOpen(a)
    ensures DropBracketed(a + b) == DropBracketed(a) + DropBracketed(b)
    decreases |a|
  {
    if a == "" {
      Seqs.Associates(b, "", "");
    } else {
      var n := FirstLength(a);
      var c := [if n > 1 then ' ' else a[0]];
      assert DropBracketed(a) == c + DropBracketed(a[n..]);
      assert c[0] in DropBracketed(a);
      assert forall d :: d in DropBracketed(a[n..]) ==> d in DropBracketed(a);
      FirstLengthOfClosed(a, b);
      Seqs.CutInFirst(a, b, n);
      DropBracketedApart(a[n..], b);
      Seqs.Associates(c, DropBracketed(a[n..]), DropBracketed(b));
    }
  }

  lemma FirstLengthOfConcat(a: string, b: string)
    requires NoBrackets(b) && a != ""
    ensures FirstLength(a + b) == FirstLength(a)
  {
    Seqs.SplitFirst(a);
    Seqs.ConsConcat(a[0], a[1..], b);
    var closing := Closing(a[0]);
    if closing.Some? {
      IndexOfInConcat(a[1..], b, closing.value);
    }
  }

  lemma {:induction false} DropBracketedConcat(a: string, b: string)
    requires NoBrackets(b)
    ensures DropBracketed(a + b) == DropBracketed(a) + b
    decreases |a|
  {
    if a == "" {
      Seqs.Associates(b, "", "");
      DropBracketedKeeps(b);
    } else {
      var n := FirstLength(a);
      FirstLengthOfConcat(a, b);
      Seqs.CutInFirst(a, b, n);
      DropBracketedConcat(a[n..], b);
      Seqs.Associates([if n > 1 then ' ' else a[0]], DropBracketed(a[n..]), b);
    }
  }

  lemma {:induction false} DropDotsConcat(a: string, b: string)
    ensures DropDots(a + b) == DropDots(a) + DropDots(b)
  {
    if a == "" {
      Seqs.Associates(b, "", "");
    } else {
      Seqs.SplitFirst(a);
      Seqs.ConsConcat(a[0], a[1..], b);
      DropDotsConcat(a[1..], b);
    }
  }

  lemma {:induction false} DropDotsKeeps(s: string)
    requires '.' !in s
    ensures DropDots(s) == s
  {
    if s != "" {
      DropDotsKeeps(s[1..]);
    }
  }

  predicate AllFolded(s: string, u: Alphabet) {
    forall i :: 0 <= i < |s| ==> IsFolded(s[i], u)
  }

  lemma {:induction false} FoldIsFolded(s: string, u: Alphabet)
    requires u.Valid()
    ensures AllFolded(Fold(s, u), u)
  {
    if s != "" {
      FoldIsFolded(s[1..], u);
      assert forall i :: 0 <= i < |FoldChar(s[0], u)| ==> FoldChar(s[0], u)[i] in FoldChar(s[0], u);
    }
  }

  /** Folding a folded text changes nothing. */
  lemma {:induction false} FoldKeeps(s: string, u: Alphabet)
    requires AllFolded(s, u)
    ensures Fold(s, u) == s
  {
    if s != "" {
      Seqs.SplitFirst(s);
      FoldKeeps(s[1..], u);
    }
  }

  lemma {:induction false} FoldConcat(a: string, b: string, u: Alphabet)
    ensures Fold(a + b, u) == Fold(a, u) + Fold(b, u)
  {
    if a == "" {
      Seqs.Associates(b, "", "");
    } else {
      Seqs.SplitFirst(a);
      Seqs.ConsConcat(a[0], a[1..], b);
      FoldConcat(a[1..], b, u);
      Seqs.Associates(FoldChar(a[0], u), Fold(a[1..], u), Fold(b, u));
    }
  }

  lemma {:induction false} DropBracketedIsFolded(s: string, u: Alphabet)
    requires u.Valid() && AllFolded(s, u)
    ensures AllFolded(DropBracketed(s), u)
    decreases |s|
  {
    if s != "" {
      DropBracketedIsFolded(s[FirstLength(s)..], u);
    }
  }

  lemma {:induction false} DropDotsIsFolded(s: string, u: Alphabet)
    requires AllFolded(s, u)
    ensures AllFolded(DropDots(s), u)
  {
    if s != "" {
      DropDotsIsFolded(s[1..], u);
    }
  }

  lemma WordsOfAreKeyWords(name: string, u: Alphabet)
    requires u.Valid()
    ensures KeyWords(WordsOf(name, u), u)
  {
    FoldIsFolded(name, u);
    DropBracketedIsFolded(Fold(name, u), u);
    DropDotsIsFolded(DropBracketed(Fold(name, u)), u);
    BlankedIsKeyText(DropDots(DropBracketed(Fold(name, u))), u);
    WordsAreKeyWords(BlankNonWord(DropDots(DropBracketed(Fold(name, u))), u), u);
  }

  lemma BlankedIsKeyText(s: string, u: Alphabet)
    requires AllFolded(s, u)
    ensures IsKeyText(BlankNonWord(s, u), u)
  {
  }

  lemma JoinedIsPlain(s: string, u: Alphabet)
    requires u.Valid() && IsJoined(s, u)
    ensures AllFolded(s, u) && NoBrackets(s) && '.' !in s && BlankNonWord(s, u) == s
  {
  }

  /** The text steps leave a joined key as it is. */
  lemma JoinedIsKept(s: string, u: Alphabet)
    requires u.Valid() && IsJoined(s, u)
    ensures WordsOf(s, u) == Words(s)
  {
    JoinedIsPlain(s, u);
    FoldKeeps(s, u);
    DropBracketedKeeps(s);
    DropDotsKeeps(s);
  }

  // ---------------------------------------------------------------------
  // The normal form
  // ---------------------------------------------------------------------

  /** The words of a key are those left of the name's. */
  lemma WordsOfKey(name: string, suffixes: set<string>, u: Alphabet)
    requires u.Valid()
    ensures WordsOf(Normal(name, suffixes, u), u) == StripSuffixes(WordsOf(name, u), suffixes)
  {
    var words := WordsOf(name, u);
    var left := StripSuffixes(words, suffixes);
    WordsOfAreKeyWords(name, u);
    if words != [] {
      StripsTrailingSuffixes(words, suffixes);
    }
    assert KeyWords(left, u);
    WordsOfJoined(left, u);
    JoinedIsKept(Join(left), u);
  }

  /** Normalizing twice is normalizing once. */
  lemma Idempotent(name: string, suffixes: set<string>, u: Alphabet)
    requires u.Valid()
    ensures Normal(Normal(name, suffixes, u), suffixes, u) == Normal(name, suffixes, u)
  {
    WordsOfKey(name, suffixes, u);
    StripTwice(WordsOf(name, u), suffixes);
  }

  /** The words of a key are a beginning of the name's words, at least the first of them, and the
      words left off are all suffixes; so a name with a word never loses its last one. */
  lemma KeyKeepsAWord(name: string, suffixes: set<string>, u: Alphabet)
    requires u.Valid() && WordsOf(name, u) != []
    ensures var words, left := WordsOf(name, u), WordsOf(Normal(name, suffixes, u), u);
      && left != [] && left <= words
      && (forall i :: |left| <= i < |words| ==> words[i] in suffixes)
      && (|left| == 1 || left[|left| - 1] !in suffixes)
  {
    WordsOfKey(name, suffixes, u);
    StripsTrailingSuffixes(WordsOf(name, u), suffixes);
  }

  /** Starts with a character that ends a word. */
  predicate StartsApart(s: string, u: Alphabet) {
    s != "" && s[0] != '.' && !IsKeyChar(s[0], u) && !('A' <= s[0] <= 'Z')
  }

  lemma BlankConcat(a: string, b: string, u: Alphabet)
    ensures BlankNonWord(a + b, u) == BlankNonWord(a, u) + BlankNonWord(b, u)
  {
  }

  lemma DropDotsKeepsFirst(s: string)
    requires s != "" && s[0] != '.'
    ensures DropDots(s) != "" && DropDots(s)[0] == s[0]
  {
  }

  /** No bracket that opens in a is closed in b only. */
  predicate BracketsApart(a: string, b: string) {
    NothingOpen(a) || NoBrackets(b)
  }

  lemma DroppedConcat(a: string, b: string)
    requires BracketsApart(a, b)
    ensures DropDots(DropBracketed(a + b)) == DropDots(DropBracketed(a)) + DropDots(DropBracketed(b))
  {
    if NothingOpen(a) {
      DropBracketedApart(a, b);
    } else {
      DropBracketedConcat(a, b);
      DropBracketedKeeps(b);
    }
    DropDotsConcat(DropBracketed(a), DropBracketed(b));
  }

  lemma BlankedApart(s: string, u: Alphabet)
    requires StartsApart(s, u)
    ensures var blanked := BlankNonWord(DropDots(DropBracketed(s)), u);
      blanked != "" && IsSpace(blanked[0])
  {
    var dropped := DropBracketed(s);
    assert dropped[0] == if FirstLength(s) > 1 then ' ' else s[0];
    DropDotsKeepsFirst(dropped);
  }

  /** Text that starts apart adds its own words to the name's, unless it closes a bracket of the name. */
  lemma WordsOfConcat(name: string, more: string, u: Alphabet)
    requires BracketsApart(Fold(name, u), Fold(more, u)) && StartsApart(Fold(more, u), u)
    ensures WordsOf(name + more, u) == WordsOf(name, u) + WordsOf(more, u)
  {
    var a, b := Fold(name, u), Fold(more, u);
    FoldConcat(name, more, u);
    DroppedConcat(a, b);
    var x, y := DropDots(DropBracketed(a)), DropDots(DropBracketed(b));
    BlankConcat(x, y, u);
    BlankedApart(b, u);
    WordsConcat(BlankNonWord(x, u), BlankNonWord(y, u));
  }

  /** Appending any text whose words are all suffixes to a name that has a word leaves the key unchanged,
      however the suffixes are written, unless the text closes a bracket of the name. */
  lemma SuffixesDoNotMatter(name: string, more: string, suffixes: set<string>, u: Alphabet)
    requires WordsOf(name, u) != [] && BracketsApart(Fold(name, u), Fold(more, u)) && StartsApart(Fold(more, u), u)
    requires forall i :: 0 <= i < |WordsOf(more, u)| ==> WordsOf(more, u)[i] in suffixes
    ensures Normal(name + more, suffixes, u) == Normal(name, suffixes, u)
  {
    WordsOfConcat(name, more, u);
    StripAppended(WordsOf(name, u), WordsOf(more, u), suffixes);
  }

  // ---------------------------------------------------------------------
  // How a name is written and what it reads as
  // ---------------------------------------------------------------------

  /** A written name: spelt words, what stands between them, and text in brackets. */
  datatype Piece = Spelt(text: string, word: string) | Gap(text: string) | Aside(open: char, inside: string)

  /** s spells w: with any dots in it, and any of its ASCII letters in upper case. */
  predicate Spells(s: string, w: string, u: Alphabet) {
    if s == "" then w == ""
    else if s[0] == '.' then Spells(s[1..], w, u)
    else
      && w != "" && IsKeyChar(w[0], u) && Spells(s[1..], w[1..], u)
      && (s[0] == w[0] || ('a' <= w[0] <= 'z' && s[0] as int == w[0] as int - 32))
  }

  /** Whitespace and punctuation other than dots and brackets. */
  predicate IsGap(s: string, u: Alphabet) {
    s != "" && forall c :: c in s ==>
      c !in u.folds && !IsKeyChar(c, u) && !('A' <= c <= 'Z') && c != '.' && c != '(' && c != ')' && c != '[' && c != ']'
  }

  predicate IsPiece(p: Piece, u: Alphabet) {
    match p
    case Spelt(text, word) => word != "" && Spells(text, word, u)
    case Gap(text) => IsGap(text, u)
    case Aside(open, inside) =>
      (open == '(' && ')' !in Fold(inside, u)) || (open == '[' && ']' !in Fold(inside, u))
  }

  function PieceText(p: Piece): string {
    match p
    case Spelt(text, _) => text
    case Gap(text) => text
    case Aside(open, inside) => [open] + (inside + (if open == '(' then ")" else "]"))
  }

  function Written(pieces: seq<Piece>): string {
    if pieces == [] then "" else PieceText(pieces[0]) + Written(pieces[1..])
  }

  function SpeltWords(pieces: seq<Piece>): seq<string> {
    if pieces == [] then []
    else (if pieces[0].Spelt? then [pieces[0].word] else []) + SpeltWords(pieces[1..])
  }

  /** No two spelt words touch. */
  predicate IsWritten(pieces: seq<Piece>, u: Alphabet) {
    && (forall i :: 0 <= i < |pieces| ==> IsPiece(pieces[i], u))
    && (forall i :: 0 < i < |pieces| ==> !pieces[i - 1].Spelt? || !pieces[i].Spelt?)
  }

  function Blanked(s: string, u: Alphabet): string {
    BlankNonWord(DropDots(DropBracketed(Fold(s, u))), u)
  }

  lemma BlankedConcat(a: string, b: string, u: Alphabet)
    requires NothingOpen(Fold(a, u))
    ensures Blanked(a + b, u) == Blanked(a, u) + Blanked(b, u)
  {
    FoldConcat(a, b, u);
    DroppedConcat(Fold(a, u), Fold(b, u));
    BlankConcat(DropDots(DropBracketed(Fold(a, u))), DropDots(DropBracketed(Fold(b, u))), u);
  }

  lemma {:induction false} WordsAfterSpace(a: string, b: string)
    requires AllSpace(a)
    ensures Words(a + b) == Words(b)
  {
    if a == "" {
      Seqs.Associates(b, "", "");
    } else {
      Seqs.SplitFirst(a);
      Seqs.ConsConcat(a[0], a[1..], b);
      WordsAfterSpace(a[1..], b);
    }
  }

  lemma FoldFirst(s: string, u: Alphabet)
    requires s != ""
    ensures Fold(s, u) == FoldChar(s[0], u) + Fold(s[1..], u)
  {
  }

  lemma FoldSpelt(c: char, d: char, u: Alphabet)
    requires u.Valid() && IsKeyChar(d, u)
    requires c == d || ('a' <= d <= 'z' && c as int == d as int - 32)
    ensures FoldChar(c, u) == [d]
  {
  }

  lemma {:induction false} SpeltFolds(s: string, w: string, u: Alphabet)
    requires u.Valid() && Spells(s, w, u)
    ensures NoBrackets(Fold(s, u)) && DropDots(Fold(s, u)) == w
    ensures forall i :: 0 <= i < |w| ==> IsKeyChar(w[i], u)
  {
    if s != "" {
      FoldFirst(s, u);
      if s[0] == '.' {
        SpeltFolds(s[1..], w, u);
        DropDotsConcat(".", Fold(s[1..], u));
      } else {
        SpeltFolds(s[1..], w[1..], u);
        FoldSpelt(s[0], w[0], u);
        DropDotsConcat([w[0]], Fold(s[1..], u));
        DropDotsKeeps([w[0]]);
        Seqs.SplitFirst(w);
      }
    }
  }

  lemma SpeltIsBlanked(p: Piece, u: Alphabet)
    requires u.Valid() && IsPiece(p, u) && p.Spelt?
    ensures NothingOpen(Fold(p.text, u)) && Blanked(p.text, u) == p.word && Words(p.word) == [p.word]
  {
    SpeltFolds(p.text, p.word, u);
    DropBracketedKeeps(Fold(p.text, u));
    WordOf(p.word, u);
  }

  lemma GapIsBlanked(p: Piece, u: Alphabet)
    requires IsPiece(p, u) && p.Gap?
    ensures NothingOpen(Fold(p.text, u)) && Blanked(p.text, u) != "" && AllSpace(Blanked(p.text, u))
  {
    var s := p.text;
    assert AllFolded(s, u) && NoBrackets(s) && '.' !in s by {
      assert forall i :: 0 <= i < |s| ==> s[i] in s;
    }
    FoldKeeps(s, u);
    DropBracketedKeeps(s);
    DropDotsKeeps(s);
  }

  lemma FoldAside(open: char, inside: string, close: char, u: Alphabet)
    requires u.Valid() && (open == '(' || open == '[') && (close == ')' || close == ']')
    ensures Fold([open] + (inside + [close]), u) == [open] + (Fold(inside, u) + [close])
  {
    FoldConcat([open], inside + [close], u);
    FoldConcat(inside, [close], u);
    FoldKeeps([open], u);
    FoldKeeps([close], u);
  }

  lemma AsideIsDropped(open: char, inside: string, close: char)
    requires Closing(open) == Some(close) && close !in inside
    ensures DropBracketed([open] + (inside + [close])) == " "
  {
    var s := [open] + (inside + [close]);
    assert s[1..] == inside + [close];
    IndexOfFirst(inside + [close], close, |inside|);
    assert FirstLength(s) == |s|;
    assert DropBracketed(s[|s|..]) == "";
  }

  lemma AsideIsBlanked(p: Piece, u: Alphabet)
    requires u.Valid() && IsPiece(p, u) && p.Aside?
    ensures NothingOpen(Fold(PieceText(p), u)) && Blanked(PieceText(p), u) == " "
  {
    var close := if p.open == '(' then ')' else ']';
    assert PieceText(p) == [p.open] + (p.inside + [close]);
    FoldAside(p.open, p.inside, close, u);
    AsideIsDropped(p.open, Fold(p.inside, u), close);
    assert DropDots(" ") == " " by { DropDotsKeeps(" "); }
  }

  lemma ApartIsBlanked(p: Piece, u: Alphabet)
    requires u.Valid() && IsPiece(p, u) && !p.Spelt?
    ensures var text := PieceText(p);
      NothingOpen(Fold(text, u)) && Blanked(text, u) != "" && AllSpace(Blanked(text, u))
  {
    match p
    case Gap(_) => GapIsBlanked(p, u);
    case Aside(_, _) => AsideIsBlanked(p, u);
  }

  lemma StartsBlank(pieces: seq<Piece>, u: Alphabet)
    requires u.Valid() && IsWritten(pieces, u) && (pieces != [] ==> !pieces[0].Spelt?)
    ensures var blanked := Blanked(Written(pieces), u); blanked == "" || IsSpace(blanked[0])
  {
    if pieces != [] {
      ApartIsBlanked(pieces[0], u);
      BlankedConcat(PieceText(pieces[0]), Written(pieces[1..]), u);
    }
  }

  /** The words of a written name are the words it spells, in order: case and dots do not matter, punctuation
      separates words, and what is in brackets is not read. */
  lemma {:induction false} WrittenIsRead(pieces: seq<Piece>, u: Alphabet)
    requires u.Valid() && IsWritten(pieces, u)
    ensures WordsOf(Written(pieces), u) == SpeltWords(pieces)
  {
    if pieces != [] {
      var p, rest := pieces[0], pieces[1..];
      WrittenIsRead(rest, u);
      if p.Spelt? {
        SpeltIsBlanked(p, u);
        StartsBlank(rest, u);
        BlankedConcat(p.text, Written(rest), u);
        WordsConcat(p.word, Blanked(Written(rest), u));
      } else {
        ApartIsBlanked(p, u);
        BlankedConcat(PieceText(p), Written(rest), u);
        WordsAfterSpace(Blanked(PieceText(p), u), Blanked(Written(rest), u));
      }
    }
  }

  /** The key of a written name: its words up to the last that is no suffix, or its first, joined by spaces. */
  lemma KeyOfWritten(pieces: seq<Piece>, suffixes: set<string>, u: Alphabet, n: nat)
    requires u.Valid() && IsWritten(pieces, u) && 0 < n <= |SpeltWords(pieces)|
    requires forall i :: n <= i < |SpeltWords(pieces)| ==> SpeltWords(pieces)[i] in suffixes
    requires n == 1 || SpeltWords(pieces)[n - 1] !in suffixes
    ensures Normal(Written(pieces), suffixes, u) == Join(SpeltWords(pieces)[..n])
  {
    var words := SpeltWords(pieces);
    WrittenIsRead(pieces, u);
    StripsTrailingSuffixes(words, suffixes);
    var left := StripSuffixes(words, suffixes);
    assert |left| == n;
    assert left == words[..n];
  }

  // The examples that the function's documentation gives

  lemma SpellsMore(s: string, w: string, c: char, d: char, u: Alphabet)
    requires Spells(s, w, u) && IsKeyChar(d, u) && c != '.'
    requires c == d || ('a' <= d <= 'z' && c as int == d as int - 32)
    ensures Spells([c] + s, [d] + w, u)
  {
    assert ([c] + s)[1..] == s && ([d] + w)[1..] == w;
  }

  lemma {:induction false} SpellsItself(w: string, u: Alphabet)
    requires forall i :: 0 <= i < |w| ==> 'a' <= w[i] <= 'z'
    ensures Spells(w, w, u)
  {
    if w != "" {
      SpellsItself(w[1..], u);
    }
  }

  /** A lower-case word with its first letter in upper case. */
  lemma Capitalized(s: string, w: string, u: Alphabet)
    requires |s| == |w| > 0 && s[1..] == w[1..] && s[0] as int == w[0] as int - 32
    requires forall i :: 0 <= i < |w| ==> 'a' <= w[i] <= 'z'
    ensures Spells(s, w, u)
  {
    SpellsItself(w[1..], u);
    Seqs.SplitFirst(s);
    Seqs.SplitFirst(w);
    SpellsMore(s[1..], w[1..], s[0], w[0], u);
  }

  lemma Abbreviation(u: Alphabet)
    ensures Spells("S.p.A.", "spa", u)
  {
    assert Spells("A.", "a", u) by { assert "A."[1..] == "."; assert "."[1..] == ""; assert "a"[1..] == ""; }
    assert Spells("p.A.", "pa", u) by { assert "p.A."[1..] == ".A."; assert ".A."[1..] == "A."; assert "pa"[1..] == "a"; }
    assert "S.p.A."[1..] == ".p.A." && ".p.A."[1..] == "p.A." && "spa"[1..] == "pa";
  }

  /** A name of two words and a suffix. */
  lemma TwoWordsAndSuffix(a: Piece, b: Piece, c: Piece, gap: string, suffixes: set<string>, u: Alphabet)
    requires u.Valid() && a.Spelt? && b.Spelt? && c.Spelt? && IsPiece(a, u) && IsPiece(b, u) && IsPiece(c, u) && IsGap(gap, u)
    requires c.word in suffixes && b.word !in suffixes
    ensures Normal(a.text + (gap + (b.text + (gap + c.text))), suffixes, u) == a.word + (" " + b.word)
  {
    var pieces := [a, Gap(gap), b, Gap(gap), c];
    FiveWritten(pieces);
    KeyOfWritten(pieces, suffixes, u, 2);
    assert SpeltWords(pieces)[..2] == [a.word, b.word];
    JoinTwo(a.word, b.word);
  }

  lemma SpaceIsGap(u: Alphabet)
    requires u.Valid()
    ensures IsGap(" ", u)
  {
  }

  lemma ExampleText(a: string, b: string, c: string)
    requires a == "Poste" && b == "Italiane" && c == "S.p.A."
    ensures a + (" " + (b + (" " + c))) == "Poste Italiane S.p.A."
  {
  }

  /** "Poste Italiane S.p.A." -> "poste italiane" */
  lemma Abbreviated(name: string, suffixes: set<string>, u: Alphabet)
    requires u.Valid() && name == "Poste Italiane S.p.A." && "spa" in suffixes && "italiane" !in suffixes
    ensures Normal(name, suffixes, u) == "poste" + (" " + "italiane")
  {
    Capitalized("Poste", "poste", u);
    Capitalized("Italiane", "italiane", u);
    Abbreviation(u);
    SpaceIsGap(u);
    ExampleText("Poste", "Italiane", "S.p.A.");
    TwoWordsAndSuffix(Spelt("Poste", "poste"), Spelt("Italiane", "italiane"), Spelt("S.p.A.", "spa"), " ", suffixes, u);
  }

  lemma JoinTwo(a: string, b: string)
    ensures Join([a, b]) == a + (" " + b)
  {
    assert [a, b][1..] == [b];
  }

  lemma FiveWritten(p: seq<Piece>)
    requires |p| == 5 && p[0].Spelt? && p[1].Gap? && p[2].Spelt? && p[3].Gap? && p[4].Spelt?
    ensures SpeltWords(p) == [p[0].word, p[2].word, p[4].word]
    ensures Written(p) == p[0].text + (p[1].text + (p[2].text + (p[3].text + p[4].text)))
  {
    assert p[1..][1..] == p[2..] && p[2..][1..] == p[3..] && p[3..][1..] == p[4..] && p[4..][1..] == [];
    assert Written(p[4..]) == p[4].text && SpeltWords(p[4..]) == [p[4].word];
    assert Written(p[3..]) == p[3].text + p[4].text && SpeltWords(p[3..]) == [p[4].word];
    assert Written(p[2..]) == p[2].text + (p[3].text + p[4].text) && SpeltWords(p[2..]) == [p[2].word, p[4].word];
    assert Written(p[1..]) == p[1].text + (p[2].text + (p[3].text + p[4].text)) && SpeltWords(p[1..]) == [p[2].word, p[4].word];
  }
}

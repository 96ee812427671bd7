/** The scanner of lib/compiler/lexer.c. The functions say which part of the text each scanner consumes and which code
    it answers; the methods are the scanners. */
module Lexer {
  import opened Bits
  import opened Collections
  import opened Source

  /** Punct stands for the codes of the token table that have a fixed text of one to three characters, NUL where there
      is none; Undefined stands for an uninitialised result. */
  datatype TokenCode =
    | Inval | EndOf | Comment | Ident | KwordVar | LiterInt | Undefined
    | Punct(c: char, d: char, e: char)

  const NUL := '\0'

  datatype Token = Token(text: string, length: nat, line: nat, column: nat, radix: nat, code: TokenCode)

  // ---- Character classes (C locale) ----

  predicate IsSpace(c: char) { c == ' ' || '\t' <= c <= '\r' }
  predicate IsDigit(c: char) { '0' <= c <= '9' }
  predicate IsAlpha(c: char) { 'a' <= c <= 'z' || 'A' <= c <= 'Z' }
  predicate IsIdentStart(c: char) { IsAlpha(c) || c == '_' || c == '$' }
  predicate IsIdent(c: char) { IsAlpha(c) || IsDigit(c) || c == '_' }
  predicate IsBinaryDigit(c: char) { c == '0' || c == '1' || c == '_' }
  predicate IsOctalDigit(c: char) { '0' <= c <= '7' || c == '_' }
  predicate IsDecimalDigit(c: char) { '0' <= c <= '9' || c == '_' }
  predicate IsHexadecimalDigit(c: char) { '0' <= c <= '9' || 'a' <= c <= 'f' || 'A' <= c <= 'F' || c == '_' }

  // ---- What each scanner consumes ----

  predicate At(text: string, i: nat, c: char) { i < |text| && text[i] == c }

  /** The end of the longest run of p from i. */
  function SkipWhile(text: string, i: nat, p: char -> bool): (end: nat)
    requires i <= |text|
    ensures i <= end <= |text|
    ensures forall j :: i <= j < end ==> p(text[j])
    ensures end < |text| ==> !p(text[end])
    decreases |text| - i
  {
    if i < |text| && p(text[i]) then SkipWhile(text, i + 1, p) else i
  }

  /** The offset just after the delimiter that closes the comment whose body starts at i, pairing delimiters
      recursively from left to right; the end of the text if nothing closes it. */
  function CommentEnd(text: string, i: nat): (end: nat)
    requires i <= |text|
    ensures i <= end <= |text|
    ensures i < |text| ==> i < end
    decreases |text| - i
  {
    if i == |text| then i
    else if text[i] == '*' && At(text, i + 1, '/') then i + 2
    else if text[i] == '/' && At(text, i + 1, '*') then CommentEnd(text, CommentEnd(text, i + 2))
    else CommentEnd(text, i + 1)
  }

  /** The end of n comments that are open at i. */
  function CommentsEnd(text: string, i: nat, n: nat): (end: nat)
    requires i <= |text|
    ensures i <= end <= |text|
    decreases n
  {
    if n == 0 then i else CommentsEnd(text, CommentEnd(text, i), n - 1)
  }

  /** A line comment ends after its newline. */
  function LineEnd(text: string, i: nat): (end: nat)
    requires i <= |text|
    ensures i <= end <= |text|
  {
    var end := SkipWhile(text, i, c => c != '\n');
    if end < |text| then end + 1 else end
  }

  // ---- Punctuators ----

  predicate Single(c: char) { Double(c, '=') || Double(c, c) || c == ',' || c == '@' || c == '(' || c == ')' }

  /** The second characters that extend c. */
  predicate Double(c: char, d: char) {
    match c
    case '~' => d == '='
    case '!' => d == '=' || d == '!'
    case '?' => d == '=' || d == '?' || d == '.'
    case '&' => d == '=' || d == '&'
    case '|' => d == '=' || d == '|'
    case '^' => d == '='
    case '=' => d == '=' || d == '>'
    case '<' => d == '=' || d == '<' || d == '-'
    case '>' => d == '=' || d == '>'
    case '+' => d == '=' || d == '+'
    case '-' => d == '=' || d == '-' || d == '>'
    case '*' => d == '=' || d == '*'
    case '/' => d == '='
    case '%' => d == '='
    case '.' => d == '.'
    case ':' => d == '=' || d == ':'
    case ';' => d == ';'
    case '#' => d == '#'
    case _ => false
  }

  predicate Triple(c: char, d: char, e: char) {
    (c == d && (c == '<' || c == '>') && e == '=') || (c == d == e == '.')
  }

  /** The texts of the punctuator and bracket codes that the scanner can answer. */
  predicate IsPunct(s: string) {
    || (|s| == 1 && Single(s[0])) || (|s| == 2 && Double(s[0], s[1])) || (|s| == 3 && Triple(s[0], s[1], s[2]))
  }

  /** The length of the punctuator at i, comments and square and curly brackets apart. */
  function PunctLength(text: string, i: nat): (n: nat)
    requires i < |text|
    ensures 1 <= n <= 3 && i + n <= |text|
  {
    if i + 2 < |text| && Triple(text[i], text[i + 1], text[i + 2]) then 3
    else if i + 1 < |text| && Double(text[i], text[i + 1]) then 2
    else 1
  }

  predicate Comments(text: string, i: nat) { At(text, i, '/') && (At(text, i + 1, '/') || At(text, i + 1, '*')) }

  /** The longest punctuator is taken. */
  lemma MaximalMunch(text: string, i: nat, m: nat)
    requires i + m <= |text| && IsPunct(text[i..i + m])
    ensures m <= PunctLength(text, i) && IsPunct(text[i..i + PunctLength(text, i)])
  {
    var s, n := text[i..i + m], PunctLength(text, i);
    var l := text[i..i + n];
    assert forall k :: 0 <= k < m ==> s[k] == text[i + k];
    assert forall k :: 0 <= k < n ==> l[k] == text[i + k];
    PunctPrefix(s);
  }

  /** Every punctuator begins with shorter ones. */
  lemma PunctPrefix(s: string)
    requires IsPunct(s)
    ensures Single(s[0]) && (|s| == 3 ==> Double(s[0], s[1]))
  {
  }

  // ---- Tokens ----

  /** What one scanner does from offset i: its code, where it stops, and whether it fills the token. */
  datatype Scan = Scan(code: TokenCode, end: nat, filled: bool, radix: nat)

  function ScanDigits(text: string, i: nat, p: char -> bool, radix: nat): Scan
    requires i <= |text|
  {
    var end := SkipWhile(text, i, p);
    if end > i then Scan(LiterInt, end, true, radix) else Scan(Inval, i, false, 0)
  }

  /** pi_ScanNumericLiteral: after a zero any character is consumed. */
  function ScanNumber(text: string, i: nat): Scan
    requires i < |text|
  {
    if text[i] != '0' then ScanDigits(text, i, IsDecimalDigit, 10)
    else if i + 1 == |text| then Scan(Undefined, i + 1, false, 0)
    else
      var c := text[i + 1];
      if c == 'b' || c == 'B' then ScanDigits(text, i + 2, IsBinaryDigit, 2)
      else if c == 'c' || c == 'C' then ScanDigits(text, i + 2, IsOctalDigit, 8)
      else if c == 'd' || c == 'D' then ScanDigits(text, i + 2, IsDecimalDigit, 10)
      else if c == 'x' || c == 'X' then ScanDigits(text, i + 2, IsHexadecimalDigit, 16)
      else Scan(Undefined, i + 2, false, 0)
  }

  // ---- Keywords ----

  /** The keyword table: its last entry has no text. */
  const KEYWORDS: seq<Option<string>> := [Some("var"), None]

  /** The character a C string has in front. */
  function Head(s: string): char { if s == "" then NUL else s[0] }

  /** strncmp. */
  function Strncmp(s: string, t: string, n: nat): int
    decreases n
  {
    if n == 0 then 0
    else if Head(s) != Head(t) then Head(s) as int - Head(t) as int
    else if Head(s) == NUL then 0
    else Strncmp(s[1..], t[1..], n - 1)
  }

  /** Comparing as many characters as s has finds no difference if and only if s is a prefix of t, or holds all of t
      and its terminator. */
  lemma {:induction false} StrncmpIs(s: string, t: string)
    requires NUL !in t
    ensures Strncmp(s, t, |s|) == 0 <==> s <= t || t + [NUL] <= s
    decreases s
  {
    if s == "" {
    } else if t == "" {
    } else {
      StrncmpIs(s[1..], t[1..]);
      assert t + [NUL] == [t[0]] + (t[1..] + [NUL]) && s == [s[0]] + s[1..] && t == [t[0]] + t[1..];
    }
  }

  /** Comparing n characters reads no more of s. */
  lemma {:induction false} StrncmpReads(s: string, t: string, n: nat)
    requires n <= |s|
    ensures Strncmp(s, t, n) == Strncmp(s[..n], t, n)
    decreases n
  {
    if n == 0 {
    } else if s[0] == Head(t) && s[0] != NUL {
      StrncmpReads(s[1..], t[1..], n - 1);
      assert s[..n][1..] == s[1..][..n - 1];
    }
  }

  /** The first n characters of the word are taken for the keyword. */
  predicate IsKeyword(word: string, n: nat)
    requires n <= |word|
  {
    n > 1 && (word[..n] <= "var" || "var" + [NUL] <= word[..n])
  }

  /** piGetKeyword: the binary search makes one comparison, on as many characters as the given length says. */
  method GetKeyword(start: string, length: nat) returns (found: bool, comparisons: nat)
    requires length <= |start|
    ensures found <==> IsKeyword(start, length)
    ensures comparisons == if length <= 1 then 0 else 1
  {
    if length <= 1 { return false, 0; }
    StrncmpReads(start, "var", length);
    StrncmpIs(start[..length], "var");
    found, comparisons := false, 0;
    var low, high := 0, |KEYWORDS| - 1;
    var more := true;
    while more
      invariant comparisons == if more then 0 else 1
      invariant more ==> low == 0 && high == 1 && !found
      invariant !more ==> (found <==> IsKeyword(start, length))
      decreases more
    {
      var mid := (low + high) / 2;
      var cmp := Strncmp(start, KEYWORDS[mid].value, length);
      comparisons := comparisons + 1;
      if cmp == 0 {
        found := true;
      } else if cmp > 0 {
        high := mid + 1;
      } else {
        low := mid + 1;
      }
      more := !found && (high - low) % WORD32 > 1;
    }
  }

  /** piSourceGetLexemeLength on a lexeme: the length is cut to 32 bits. */
  function LexemeLength(lexeme: string): nat { |lexeme| % WORD32 }

  function ScanWord(text: string, i: nat): Scan
    requires i < |text|
  {
    var end := SkipWhile(text, i + 1, IsIdent);
    var lexeme := text[i..end];
    Scan(if IsKeyword(lexeme, LexemeLength(lexeme)) then KwordVar else Ident, end, true, 0)
  }

  /** The code whose fixed text has length n and stands at i. */
  function Named(text: string, i: nat, n: nat): TokenCode
    requires 1 <= n <= 3 && i + n <= |text|
  {
    Punct(text[i], if n > 1 then text[i + 1] else NUL, if n > 2 then text[i + 2] else NUL)
  }

  function PunctCode(text: string, i: nat): TokenCode
    requires i < |text|
  {
    if text[i] == '[' || text[i] == '{' then Punct('(', NUL, NUL)
    else if text[i] == ']' || text[i] == '}' then Punct(')', NUL, NUL)
    else if Single(text[i]) then Named(text, i, PunctLength(text, i))
    else Inval
  }

  function ScanPunct(text: string, i: nat): Scan
    requires i < |text|
  {
    if At(text, i, '/') && At(text, i + 1, '/') then Scan(Comment, LineEnd(text, i + 2), true, 0)
    else if At(text, i, '/') && At(text, i + 1, '*') then Scan(Comment, CommentEnd(text, i + 2), true, 0)
    else
      Scan(PunctCode(text, i), i + PunctLength(text, i), true, 0)
  }

  /** piScanToken, after the white space. */
  function ScanAt(text: string, i: nat): (r: Scan)
    requires i <= |text|
    ensures i <= r.end <= |text| && (i < |text| ==> i < r.end)
  {
    if i == |text| then Scan(EndOf, i, true, 0)
    else if IsDigit(text[i]) then ScanNumber(text, i)
    else if IsIdentStart(text[i]) then ScanWord(text, i)
    else ScanPunct(text, i)
  }

  /** A punctuator gets the code that its text names, and a square or curly bracket never does. */
  lemma BracketsAreRound(text: string, i: nat)
    requires i < |text| && !IsDigit(text[i]) && !IsIdentStart(text[i]) && !Comments(text, i)
    requires ScanAt(text, i).code != Inval
    ensures ScanAt(text, i).code == Named(text, i, ScanAt(text, i).end - i) <==> text[i] !in "[]{}"
  {
    assert text[i] in "[]{}" <==> text[i] == '[' || text[i] == ']' || text[i] == '{' || text[i] == '}';
  }

  /** A word is taken for the keyword if and only if its length, cut to 32 bits, is 2 or 3 and as many of its first
      characters are those of "var". For words of fewer than 2^32 characters these are "va" and "var". */
  lemma KeywordIsPrefix(text: string, i: nat)
    requires i < |text| && IsIdentStart(text[i])
    ensures var scan := ScanWord(text, i); var lexeme := text[i..scan.end]; var n := LexemeLength(lexeme);
      && (scan.code == KwordVar <==> (n == 2 || n == 3) && lexeme[..n] == "var"[..n])
      && (|lexeme| < WORD32 ==> (scan.code == KwordVar <==> lexeme == "va" || lexeme == "var"))
  {
    var lexeme := text[i..ScanWord(text, i).end];
    var n := LexemeLength(lexeme);
    var word := lexeme[..n];
    assert forall k :: 0 <= k < |lexeme| ==> lexeme[k] == text[i + k];
    assert forall k :: 0 <= k < n ==> word[k] == lexeme[k];
    assert ("var" + [NUL])[3] == NUL && (n > 3 ==> word[3] != NUL);
    assert word <= "var" ==> n <= 3 && word == "var"[..n];
    if |lexeme| < WORD32 {
      assert word == lexeme;
      assert "var"[..2] == "va" && "var"[..3] == "var";
    }
  }

  /** A word of 2^32 + 2 characters that begins with "va" is taken for the keyword. */
  lemma KeywordWraps()
    ensures var text := "va" + seq(WORD32, _ => 'a'); ScanAt(text, 0) == Scan(KwordVar, |text|, true, 0)
  {
    var text := "va" + seq(WORD32, _ => 'a');
    KeywordIsPrefix(text, 0);
    var end := SkipWhile(text, 1, IsIdent);
    assert forall k :: 1 <= k < |text| ==> IsIdent(text[k]);
    assert text[0..end] == text;
    assert text[..2] == "va" && "var"[..2] == "va";
  }

  // ---- Whole texts ----

  /** One call of piScanToken: white space from `gap` to `start`, then a lexeme. */
  datatype Item = Item(gap: nat, start: nat, scan: Scan)

  function ItemAt(text: string, i: nat): Item
    requires i <= |text|
  {
    var start := SkipWhile(text, i, IsSpace);
    Item(i, start, ScanAt(text, start))
  }

  /** The calls until the end of the text is answered. */
  function Items(text: string, i: nat): seq<Item>
    requires i <= |text|
    decreases |text| - i
  {
    var item := ItemAt(text, i);
    if item.start == |text| then [item] else [item] + Items(text, item.scan.end)
  }

  /** The characters the items cover, in order. */
  function Covered(text: string, items: seq<Item>): string {
    if items == [] then ""
    else
      var first := items[0];
      (if first.gap <= first.start <= first.scan.end <= |text|
       then text[first.gap..first.start] + text[first.start..first.scan.end] else "") + Covered(text, items[1..])
  }

  /** White space and lexemes concatenate to the text. */
  lemma {:induction false} ItemsTile(text: string, i: nat)
    requires i <= |text|
    ensures Covered(text, Items(text, i)) == text[i..]
    decreases |text| - i
  {
    hide ScanAt, SkipWhile;
    var item, items := ItemAt(text, i), Items(text, i);
    var end := item.scan.end;
    var rest := if item.start < |text| then Items(text, end) else [];
    if item.start < |text| { ItemsTile(text, end); }
    assert items == [item] + rest && items[1..] == rest;
    assert Covered(text, rest) == text[end..];
    Three(text, i, item.start, end);
  }

  lemma Three(text: string, i: nat, j: nat, k: nat)
    requires i <= j <= k <= |text|
    ensures text[i..j] + text[j..k] + text[k..] == text[i..]
  {
  }

  /** Every call but the last consumes at least one character, so the end comes within length + 1 calls; nothing but
      white space is skipped. */
  lemma {:induction false} ItemsProgress(text: string, i: nat)
    requires i <= |text|
    ensures var items := Items(text, i);
      && 1 <= |items| <= |text| - i + 1
      && (forall k :: 0 <= k < |items| ==>
            items[k].gap <= items[k].start <= items[k].scan.end <= |text|
            && forall j :: items[k].gap <= j < items[k].start ==> IsSpace(text[j]))
      && (forall k :: 0 <= k < |items| - 1 ==>
            items[k].start < items[k].scan.end == items[k + 1].gap && items[k].scan.code != EndOf)
      && items[0].gap == i && items[|items| - 1].scan == Scan(EndOf, |text|, true, 0)
    decreases |text| - i
  {
    hide ItemAt;
    var item, items := ItemAt(text, i), Items(text, i);
    ItemIs(text, i);
    if item.start == |text| {
    } else {
      ItemsProgress(text, item.scan.end);
      var rest := Items(text, item.scan.end);
      assert forall k :: 1 <= k < |items| ==> items[k] == rest[k - 1];
    }
  }

  lemma ItemIs(text: string, i: nat)
    requires i <= |text|
    ensures var item := ItemAt(text, i);
      && item.gap == i <= item.start <= item.scan.end <= |text|
      && (forall j :: i <= j < item.start ==> IsSpace(text[j]))
      && (if item.start == |text| then item.scan == Scan(EndOf, |text|, true, 0)
          else item.start < item.scan.end && item.scan.code != EndOf)
  {
  }

  // ---- Comments ----

  /** A comment body as a tree: single characters, and whole comments. */
  datatype Body = Done | Plain(c: char, rest: Body) | Nested(inner: Body, rest: Body)

  function Render(b: Body): string {
    match b
    case Done => ""
    case Plain(c, rest) => [c] + Render(rest)
    case Nested(inner, rest) => "/*" + Render(inner) + "*/" + Render(rest)
  }

  /** The first character of a body and its closing delimiter. */
  function First(b: Body): char {
    match b
    case Done => '*'
    case Plain(c, _) => c
    case Nested(_, _) => '/'
  }

  lemma FirstIs(b: Body)
    ensures (Render(b) + "*/")[0] == First(b)
  {
  }

  /** No single character pairs up with the one after it. */
  predicate Unpaired(b: Body) {
    match b
    case Done => true
    case Plain(c, rest) => !(c == '*' && First(rest) == '/') && !(c == '/' && First(rest) == '*') && Unpaired(rest)
    case Nested(inner, rest) => Unpaired(inner) && Unpaired(rest)
  }

  /** Comments nested to any depth end where they should. */
  lemma {:induction false} CommentRoundTrip(before: string, b: Body, after: string)
    requires Unpaired(b)
    ensures CommentEnd(before + Render(b) + "*/" + after, |before|) == |before| + |Render(b)| + 2
    decreases b
  {
    hide CommentEnd;
    var text := before + Render(b) + "*/" + after;
    CommentEndAt(text, |before|);
    match b
    case Done =>
      assert text[|before|] == '*' && text[|before| + 1] == '/';
    case Plain(c, rest) =>
      assert text == (before + [c]) + Render(rest) + "*/" + after;
      FirstIs(rest);
      assert text[|before|] == c && text[|before| + 1] == (Render(rest) + "*/")[0];
      CommentRoundTrip(before + [c], rest, after);
    case Nested(inner, rest) =>
      assert text[|before|] == '/' && text[|before| + 1] == '*';
      Regroup(before, Render(inner), Render(rest), after);
      CommentRoundTrip(before + "/*", inner, Render(rest) + "*/" + after);
      CommentRoundTrip(before + "/*" + Render(inner) + "*/", rest, after);
  }

  /** The text from i on begins with the body b and its closing delimiter. */
  ghost predicate Closes(text: string, i: nat, b: Body)
    requires i <= |text|
  {
    Unpaired(b) && Render(b) + "*/" <= text[i..]
  }

  lemma ClosedEnd(text: string, i: nat, b: Body)
    requires i <= |text| && Closes(text, i, b)
    ensures CommentEnd(text, i) == i + |Render(b)| + 2 <= |text|
  {
    var after := text[i + |Render(b)| + 2..];
    assert text == text[..i] + Render(b) + "*/" + after by {
      assert text[i..] == (Render(b) + "*/") + after;
    }
    CommentRoundTrip(text[..i], b, after);
  }

  /** Where the scanner stops there is a body that closes, unless the text ended first. */
  lemma {:induction false} CommentParses(text: string, i: nat) returns (b: Option<Body>)
    requires i <= |text|
    ensures if b.Some? then Closes(text, i, b.value) else CommentEnd(text, i) == |text|
    decreases |text| - i
  {
    hide CommentEnd, Closes;
    b := None;
    if i == |text| { EndAtEnd(text); return; }
    CommentEndAt(text, i);
    if text[i] == '*' && At(text, i + 1, '/') {
      ClosesDone(text, i);
      b := Some(Done);
    } else if text[i] == '/' && At(text, i + 1, '*') {
      var inner := CommentParses(text, i + 2);
      if inner.None? { EndAtEnd(text); return; }
      ClosedEnd(text, i + 2, inner.value);
      var rest := CommentParses(text, CommentEnd(text, i + 2));
      if rest.None? { return; }
      ClosesNested(text, i, inner.value, rest.value);
      b := Some(Nested(inner.value, rest.value));
    } else {
      var rest := CommentParses(text, i + 1);
      if rest.None? { return; }
      ClosesPlain(text, i, rest.value);
      b := Some(Plain(text[i], rest.value));
    }
  }

  lemma EndAtEnd(text: string)
    ensures CommentEnd(text, |text|) == |text|
  {
  }

  lemma ClosesDone(text: string, i: nat)
    requires i < |text| && text[i] == '*' && At(text, i + 1, '/')
    ensures Closes(text, i, Done)
  {
  }

  lemma ClosesPlain(text: string, i: nat, rest: Body)
    requires i < |text| && Closes(text, i + 1, rest)
    requires !(text[i] == '*' && At(text, i + 1, '/')) && !(text[i] == '/' && At(text, i + 1, '*'))
    ensures Closes(text, i, Plain(text[i], rest))
  {
    FirstIs(rest);
    var tail := Render(rest) + "*/";
    assert tail[0] == text[i + 1..][0] == text[i + 1];
    assert text[i..] == [text[i]] + text[i + 1..];
    assert Render(Plain(text[i], rest)) + "*/" == [text[i]] + tail;
  }

  /** What stands next to each other in the text stands there together. */
  lemma Joined(text: string, i: nat, r: string, s: string)
    requires i + |r| <= |text| && r <= text[i..] && s <= text[i + |r|..]
    ensures r + s <= text[i..]
  {
    assert text[i..] == r + text[i + |r|..];
  }

  lemma RenderNested(inner: Body, rest: Body)
    ensures Render(Nested(inner, rest)) + "*/" == "/*" + ((Render(inner) + "*/") + (Render(rest) + "*/"))
  {
  }

  lemma ClosesNested(text: string, i: nat, inner: Body, rest: Body)
    requires i + 2 <= |text| && text[i] == '/' && text[i + 1] == '*' && Closes(text, i + 2, inner)
    requires i + 2 + |Render(inner)| + 2 <= |text| && Closes(text, i + 2 + |Render(inner)| + 2, rest)
    ensures Closes(text, i, Nested(inner, rest))
  {
    hide Render;
    Joined(text, i + 2, Render(inner) + "*/", Render(rest) + "*/");
    Joined(text, i, "/*", (Render(inner) + "*/") + (Render(rest) + "*/"));
    RenderNested(inner, rest);
  }

  /** The scanner stops just after the delimiter that closes the body, and at the end of the text if no body closes. */
  lemma CommentEndIs(text: string, i: nat)
    requires i <= |text|
    ensures forall b :: Closes(text, i, b) ==> CommentEnd(text, i) == i + |Render(b)| + 2
    ensures (forall b :: !Closes(text, i, b)) ==> CommentEnd(text, i) == |text|
  {
    hide CommentEnd, Closes;
    forall b | Closes(text, i, b) ensures CommentEnd(text, i) == i + |Render(b)| + 2 { ClosedEnd(text, i, b); }
    var b := CommentParses(text, i);
  }

  lemma Regroup(before: string, inner: string, rest: string, after: string)
    ensures before + ("/*" + inner + "*/" + rest) + "*/" + after ==
            (before + "/*") + inner + "*/" + (rest + "*/" + after)
    ensures before + ("/*" + inner + "*/" + rest) + "*/" + after ==
            (before + "/*" + inner + "*/") + rest + "*/" + after
  {
  }

  lemma CommentEndAt(text: string, i: nat)
    requires i < |text|
    ensures CommentEnd(text, i) ==
      if text[i] == '*' && At(text, i + 1, '/') then i + 2
      else if text[i] == '/' && At(text, i + 1, '*') then CommentEnd(text, CommentEnd(text, i + 2))
      else CommentEnd(text, i + 1)
  {
  }

  /** One turn of the comment loop, seen on n open comments. */
  lemma CommentsStep(text: string, i: nat, n: nat)
    requires i <= |text| && n > 0
    ensures CommentsEnd(text, i, n) ==
      if i == |text| then i
      else if text[i] == '*' && At(text, i + 1, '/') then CommentsEnd(text, i + 2, n - 1)
      else if text[i] == '/' && At(text, i + 1, '*') then CommentsEnd(text, i + 2, n + 1)
      else CommentsEnd(text, i + 1, n)
  {
    if i == |text| { AllAtEnd(text, n); }
  }

  lemma {:induction false} AllAtEnd(text: string, n: nat)
    ensures CommentsEnd(text, |text|, n) == |text|
  {
    if n == 0 {
    } else {
      AllAtEnd(text, n - 1);
    }
  }

  lemma OneComment(text: string, i: nat)
    requires i <= |text|
    ensures CommentsEnd(text, i, 1) == CommentEnd(text, i)
  {
  }

  lemma NoComment(text: string, i: nat)
    requires i <= |text|
    ensures CommentsEnd(text, i, 0) == i
  {
  }

  // ---- Nesting depth ----

  function Max(a: nat, b: nat): nat { if a >= b then a else b }

  /** The greatest number of comments open at a time when n are open at i. */
  function Deepest(text: string, i: nat, n: nat): (d: nat)
    requires i <= |text|
    ensures n <= d <= n + (|text| - i) / 2
    decreases |text| - i
  {
    if n == 0 || i == |text| then n
    else if text[i] == '*' && At(text, i + 1, '/') then Max(n, Deepest(text, i + 2, n - 1))
    else if text[i] == '/' && At(text, i + 1, '*') then Deepest(text, i + 2, n + 1)
    else Deepest(text, i + 1, n)
  }

  lemma DeepestAt(text: string, i: nat, n: nat)
    requires i <= |text|
    ensures Deepest(text, i, n) ==
      if n == 0 || i == |text| then n
      else if text[i] == '*' && At(text, i + 1, '/') then Max(n, Deepest(text, i + 2, n - 1))
      else if text[i] == '/' && At(text, i + 1, '*') then Deepest(text, i + 2, n + 1)
      else Deepest(text, i + 1, n)
  {
  }

  /** The comments nested inside each other in a body. */
  function Depth(b: Body): nat {
    match b
    case Done => 0
    case Plain(_, rest) => Depth(rest)
    case Nested(inner, rest) => Max(1 + Depth(inner), Depth(rest))
  }

  /** The parts of a body stand where the scanner looks for them. */
  lemma ClosesParts(text: string, i: nat, b: Body)
    requires i <= |text| && Closes(text, i, b)
    ensures match b
      case Done => i + 2 <= |text| && text[i] == '*' && text[i + 1] == '/'
      case Plain(c, rest) =>
        && i < |text| && Closes(text, i + 1, rest)
        && !(text[i] == '*' && At(text, i + 1, '/')) && !(text[i] == '/' && At(text, i + 1, '*'))
      case Nested(inner, rest) =>
        && i + 2 <= |text| && text[i] == '/' && text[i + 1] == '*' && Closes(text, i + 2, inner)
        && i + 2 + |Render(inner)| + 2 <= |text| && Closes(text, i + 2 + |Render(inner)| + 2, rest)
  {
    var s := Render(b) + "*/";
    assert forall k :: 0 <= k < |s| ==> text[i..][k] == s[k];
    match b
    case Done =>
    case Plain(c, rest) =>
      FirstIs(rest);
      assert s == [c] + (Render(rest) + "*/");
      Parted(text, i, [c], Render(rest) + "*/");
      assert s[1] == First(rest);
    case Nested(inner, rest) =>
      RenderNested(inner, rest);
      Parted(text, i, "/*", (Render(inner) + "*/") + (Render(rest) + "*/"));
      Parted(text, i + 2, Render(inner) + "*/", Render(rest) + "*/");
  }

  lemma Parted(text: string, i: nat, r: string, s: string)
    requires i <= |text| && r + s <= text[i..]
    ensures i + |r| <= |text| && r <= text[i..] && s <= text[i + |r|..]
  {
    assert text[i + |r|..] == text[i..][|r|..];
    assert r == (r + s)[..|r|] && s == (r + s)[|r|..];
  }

  /** Inside a body that closes, the counter rises by the depth of the body. */
  lemma {:induction false} DeepestIs(text: string, i: nat, n: nat, b: Body)
    requires i <= |text| && Closes(text, i, b) && n > 0
    ensures i + |Render(b)| + 2 <= |text|
    ensures Deepest(text, i, n) == Max(n + Depth(b), Deepest(text, i + |Render(b)| + 2, n - 1))
    decreases b
  {
    hide Closes, Deepest, CommentEnd;
    ClosedEnd(text, i, b);
    ClosesParts(text, i, b);
    DeepestAt(text, i, n);
    match b
    case Done =>
    case Plain(c, rest) =>
      DeepestIs(text, i + 1, n, rest);
    case Nested(inner, rest) =>
      DeepestIs(text, i + 2, n + 1, inner);
      DeepestIs(text, i + 2 + |Render(inner)| + 2, n, rest);
  }

  /** The counter of the scanner stays within an int if and only if fewer than 2^31 - 1 comments are nested inside each
      other in the comment. */
  lemma CounterFits(text: string, i: nat, b: Body)
    requires i <= |text| && Closes(text, i, b)
    ensures Deepest(text, i, 1) == 1 + Depth(b)
    ensures Deepest(text, i, 1) < 0x8000_0000 <==> Depth(b) < 0x7FFF_FFFF
  {
    hide Closes;
    DeepestIs(text, i, 1, b);
  }

  // ---- The scanners ----

  /** The scanner stops where `scan` says, and has filled the token accordingly. */
  ghost predicate Scanned(source: Source, scan: Scan, code: TokenCode, token: Option<Token>)
    requires source.Valid()
    reads source
  {
    && source.forwardPos.offset == scan.end && code == scan.code
    && token == if scan.filled then Some(Filled(source, code, scan.radix)) else None
  }

  function Filled(source: Source, code: TokenCode, radix: nat): Token
    requires source.Valid()
    reads source
  {
    var lexeme := source.Lexeme();
    Token(lexeme, LexemeLength(lexeme), source.currentPos.line, source.currentPos.column, radix, code)
  }

  method ReadWhile(source: Source, p: char -> bool)
    requires source.Valid()
    modifies source`forwardPos
    ensures source.Valid() && source.forwardPos.offset == SkipWhile(source.buffer, old(source.forwardPos.offset), p)
  {
    while source.CheckPred(p)
      invariant source.Valid()
      invariant SkipWhile(source.buffer, source.forwardPos.offset, p) ==
                SkipWhile(source.buffer, old(source.forwardPos.offset), p)
      decreases |source.buffer| - source.forwardPos.offset
    {
      var _ := source.Read();
    }
  }

  /** pi_ScanNumericLiteralWithRadix. */
  method ScanLiteral(source: Source, p: char -> bool, radix: nat) returns (code: TokenCode, token: Option<Token>)
    requires source.Valid()
    modifies source`forwardPos
    ensures source.Valid()
    ensures Scanned(source, ScanDigits(source.buffer, old(source.forwardPos.offset), p, radix), code, token)
  {
    if source.CheckPred(p) {
      ReadWhile(source, p);
      return LiterInt, Some(Filled(source, LiterInt, radix));
    }
    return Inval, None;
  }

  /** pi_ScanNumericLiteral. */
  method ScanNumericLiteral(source: Source) returns (code: TokenCode, token: Option<Token>)
    requires source.Valid() && source.CheckPred(IsDigit)
    modifies source`forwardPos
    ensures source.Valid()
    ensures Scanned(source, ScanNumber(source.buffer, old(source.forwardPos.offset)), code, token)
  {
    hide ScanDigits, Filled;
    var zero := source.Match('0');
    if zero {
      var c := source.Read();
      match c
      case Some('b') => code, token := ScanLiteral(source, IsBinaryDigit, 2);
      case Some('B') => code, token := ScanLiteral(source, IsBinaryDigit, 2);
      case Some('c') => code, token := ScanLiteral(source, IsOctalDigit, 8);
      case Some('C') => code, token := ScanLiteral(source, IsOctalDigit, 8);
      case Some('d') => code, token := ScanLiteral(source, IsDecimalDigit, 10);
      case Some('D') => code, token := ScanLiteral(source, IsDecimalDigit, 10);
      case Some('x') => code, token := ScanLiteral(source, IsHexadecimalDigit, 16);
      case Some('X') => code, token := ScanLiteral(source, IsHexadecimalDigit, 16);
      case _ => code, token := Undefined, None;
    } else {
      code, token := ScanLiteral(source, IsDecimalDigit, 10);
    }
  }

  /** pi_ScanIdentifierOrKeyword. */
  method ScanIdentifierOrKeyword(source: Source) returns (code: TokenCode, token: Option<Token>)
    requires source.Valid() && source.CheckPred(IsIdentStart) && source.currentPos == source.forwardPos
    modifies source`forwardPos
    ensures source.Valid()
    ensures Scanned(source, ScanWord(source.buffer, source.currentPos.offset), code, token)
  {
    var _ := source.Read();
    ReadWhile(source, IsIdent);
    var found, _ := GetKeyword(source.Lexeme(), LexemeLength(source.Lexeme()));
    code := if found then KwordVar else Ident;
    token := Some(Filled(source, code, 0));
  }

  /** pi_ScanSingleLineComment. */
  method ScanSingleLineComment(source: Source)
    requires source.Valid()
    modifies source`forwardPos
    ensures source.Valid() && source.forwardPos.offset == LineEnd(source.buffer, old(source.forwardPos.offset))
  {
    var c := source.Read();
    while c != Some('\n') && c != None
      invariant source.Valid()
      invariant c.Some? && c.value != '\n' ==>
        LineEnd(source.buffer, source.forwardPos.offset) == LineEnd(source.buffer, old(source.forwardPos.offset))
      invariant c.None? || c.value == '\n' ==>
        source.forwardPos.offset == LineEnd(source.buffer, old(source.forwardPos.offset))
      decreases c.Some?, |source.buffer| - source.forwardPos.offset
    {
      c := source.Read();
    }
  }

  /** pi_ScanMultiLineComment: a counter instead of recursion. `deepest` is its greatest value. */
  method ScanMultiLineComment(source: Source) returns (ghost deepest: nat)
    requires source.Valid()
    modifies source`forwardPos
    ensures source.Valid() && source.forwardPos.offset == CommentEnd(source.buffer, old(source.forwardPos.offset))
    ensures deepest == Deepest(source.buffer, old(source.forwardPos.offset), 1)
  {
    hide CommentEnd, CommentsEnd, Deepest, PosAt, Ascii;
    ghost var end := CommentEnd(source.buffer, source.forwardPos.offset);
    OneComment(source.buffer, source.forwardPos.offset);
    ghost var most := Deepest(source.buffer, source.forwardPos.offset, 1);
    var counter: nat := 1;
    deepest := 1;
    var more := true;
    while more
      invariant source.Valid() && (more ==> counter > 0)
      invariant CommentsEnd(source.buffer, source.forwardPos.offset, counter) == end
      invariant !more ==> counter == 0 || source.forwardPos.offset == |source.buffer|
      invariant counter <= deepest && Max(deepest, Deepest(source.buffer, source.forwardPos.offset, counter)) == most
      decreases more, |source.buffer| - source.forwardPos.offset
    {
      CommentsStep(source.buffer, source.forwardPos.offset, counter);
      DeepestAt(source.buffer, source.forwardPos.offset, counter);
      var c := source.Read();
      var paired := false;
      if c == Some('*') { paired := source.Match('/'); }
      if paired {
        counter := counter - 1;
      } else {
        var nested := false;
        if c == Some('/') { nested := source.Match('*'); }
        if nested { counter := counter + 1; }
      }
      deepest := Max(deepest, counter);
      more := counter > 0 && c != None;
    }
    AllAtEnd(source.buffer, counter);
    DeepestAt(source.buffer, source.forwardPos.offset, counter);
    NoComment(source.buffer, source.forwardPos.offset);
  }

  /** The cases of the switch with a punctuator of three characters. */
  method MunchLong(source: Source, c: char, ghost i: nat) returns (code: TokenCode)
    requires source.Valid() && source.forwardPos.offset == i + 1 && c == source.buffer[i]
    requires c == '<' || c == '>' || c == '.'
    modifies source`forwardPos
    ensures source.Valid()
    ensures source.forwardPos.offset == i + PunctLength(source.buffer, i) && code == PunctCode(source.buffer, i)
  {
    hide PosAt, Ascii;
    var matched: bool;
    match c
    case '<' =>
      matched := source.Match('=');
      if matched { code := Punct('<', '=', NUL); } else {
        matched := source.Match('<');
        if matched {
          matched := source.Match('=');
          code := if matched then Punct('<', '<', '=') else Punct('<', '<', NUL);
        } else {
          matched := source.Match('-');
          code := if matched then Punct('<', '-', NUL) else Punct('<', NUL, NUL);
        }
      }
    case '>' =>
      matched := source.Match('=');
      if matched { code := Punct('>', '=', NUL); } else {
        matched := source.Match('>');
        if matched {
          matched := source.Match('=');
          code := if matched then Punct('>', '>', '=') else Punct('>', '>', NUL);
        } else {
          code := Punct('>', NUL, NUL);
        }
      }
    case '.' =>
      matched := source.Match('.');
      if matched {
        matched := source.Match('.');
        code := if matched then Punct('.', '.', '.') else Punct('.', '.', NUL);
      } else {
        code := Punct('.', NUL, NUL);
      }
  }

  /** Those with three continuations. */
  method MunchWide(source: Source, c: char, ghost i: nat) returns (code: TokenCode)
    requires source.Valid() && source.forwardPos.offset == i + 1 && c == source.buffer[i]
    requires c == '?' || c == '-'
    modifies source`forwardPos
    ensures source.Valid()
    ensures source.forwardPos.offset == i + PunctLength(source.buffer, i) && code == PunctCode(source.buffer, i)
  {
    hide PosAt, Ascii;
    var matched: bool;
    match c
    case '?' =>
      matched := source.Match('=');
      if matched { code := Punct('?', '=', NUL); } else {
        matched := source.Match('?');
        if matched { code := Punct('?', '?', NUL); } else {
          matched := source.Match('.');
          code := if matched then Punct('?', '.', NUL) else Punct('?', NUL, NUL);
        }
      }
    case '-' =>
      matched := source.Match('=');
      if matched { code := Punct('-', '=', NUL); } else {
        matched := source.Match('-');
        if matched { code := Punct('-', '-', NUL); } else {
          matched := source.Match('>');
          code := if matched then Punct('-', '>', NUL) else Punct('-', NUL, NUL);
        }
      }
  }

  /** Those with an assignment and one other continuation. */
  method MunchOperator(source: Source, c: char, ghost i: nat) returns (code: TokenCode)
    requires source.Valid() && source.forwardPos.offset == i + 1 && c == source.buffer[i]
    requires c == '!' || c == '&' || c == '|' || c == '=' || c == '+' || c == '*' || c == ':'
    modifies source`forwardPos
    ensures source.Valid()
    ensures source.forwardPos.offset == i + PunctLength(source.buffer, i) && code == PunctCode(source.buffer, i)
  {
    hide PosAt, Ascii;
    var matched: bool;
    match c
    case '!' =>
      matched := source.Match('=');
      if matched { code := Punct('!', '=', NUL); } else {
        matched := source.Match('!');
        code := if matched then Punct('!', '!', NUL) else Punct('!', NUL, NUL);
      }
    case '&' =>
      matched := source.Match('=');
      if matched { code := Punct('&', '=', NUL); } else {
        matched := source.Match('&');
        code := if matched then Punct('&', '&', NUL) else Punct('&', NUL, NUL);
      }
    case '|' =>
      matched := source.Match('=');
      if matched { code := Punct('|', '=', NUL); } else {
        matched := source.Match('|');
        code := if matched then Punct('|', '|', NUL) else Punct('|', NUL, NUL);
      }
    case '=' =>
      matched := source.Match('=');
      if matched { code := Punct('=', '=', NUL); } else {
        matched := source.Match('>');
        code := if matched then Punct('=', '>', NUL) else Punct('=', NUL, NUL);
      }
    case '+' =>
      matched := source.Match('=');
      if matched { code := Punct('+', '=', NUL); } else {
        matched := source.Match('+');
        code := if matched then Punct('+', '+', NUL) else Punct('+', NUL, NUL);
      }
    case '*' =>
      matched := source.Match('=');
      if matched { code := Punct('*', '=', NUL); } else {
        matched := source.Match('*');
        code := if matched then Punct('*', '*', NUL) else Punct('*', NUL, NUL);
      }
    case ':' =>
      matched := source.Match('=');
      if matched { code := Punct(':', '=', NUL); } else {
        matched := source.Match(':');
        code := if matched then Punct(':', ':', NUL) else Punct(':', NUL, NUL);
      }
  }

  /** The switch of pi_ScanPunctuator on a first character other than the slash. */
  method Munch(source: Source, c: char, ghost i: nat) returns (code: TokenCode)
    requires source.Valid() && source.forwardPos.offset == i + 1 && c == source.buffer[i] != '/'
    modifies source`forwardPos
    ensures source.Valid()
    ensures source.forwardPos.offset == i + PunctLength(source.buffer, i) && code == PunctCode(source.buffer, i)
  {
    hide PosAt, Ascii;
    var matched: bool;
    match c
    case '(' => code := Punct('(', NUL, NUL);
    case ')' => code := Punct(')', NUL, NUL);
    case '[' => code := Punct('(', NUL, NUL);
    case ']' => code := Punct(')', NUL, NUL);
    case '{' => code := Punct('(', NUL, NUL);
    case '}' => code := Punct(')', NUL, NUL);
    case '~' =>
      matched := source.Match('=');
      code := if matched then Punct('~', '=', NUL) else Punct('~', NUL, NUL);
    case '!' => code := MunchOperator(source, c, i);
    case '?' => code := MunchWide(source, c, i);
    case '&' => code := MunchOperator(source, c, i);
    case '|' => code := MunchOperator(source, c, i);
    case '^' =>
      matched := source.Match('=');
      code := if matched then Punct('^', '=', NUL) else Punct('^', NUL, NUL);
    case '=' => code := MunchOperator(source, c, i);
    case '<' => code := MunchLong(source, c, i);
    case '>' => code := MunchLong(source, c, i);
    case '+' => code := MunchOperator(source, c, i);
    case '-' => code := MunchWide(source, c, i);
    case '*' => code := MunchOperator(source, c, i);
    case '%' =>
      matched := source.Match('=');
      code := if matched then Punct('%', '=', NUL) else Punct('%', NUL, NUL);
    case '.' => code := MunchLong(source, c, i);
    case ':' => code := MunchOperator(source, c, i);
    case ';' =>
      matched := source.Match(';');
      code := if matched then Punct(';', ';', NUL) else Punct(';', NUL, NUL);
    case '#' =>
      matched := source.Match('#');
      code := if matched then Punct('#', '#', NUL) else Punct('#', NUL, NUL);
    case ',' => code := Punct(',', NUL, NUL);
    case '@' => code := Punct('@', NUL, NUL);
    case _ => code := Inval;
  }

  /** pi_ScanPunctuator. */
  method ScanPunctuator(source: Source) returns (code: TokenCode, token: Option<Token>)
    requires source.Valid() && source.Peek().Some? && source.currentPos == source.forwardPos
    modifies source`forwardPos
    ensures source.Valid()
    ensures Scanned(source, ScanPunct(source.buffer, source.currentPos.offset), code, token)
  {
    hide PosAt, Ascii, Filled, CommentEnd, LineEnd;
    ghost var i := source.currentPos.offset;
    var c := source.Read();
    if c.value != '/' {
      code := Munch(source, c.value, i);
    } else {
      var matched := source.Match('=');
      if matched { code := Punct('/', '=', NUL); } else {
        matched := source.Match('/');
        if matched { ScanSingleLineComment(source); code := Comment; } else {
          matched := source.Match('*');
          if matched { ghost var _ := ScanMultiLineComment(source); code := Comment; } else {
            code := Punct('/', NUL, NUL);
          }
        }
      }
    }
    token := Some(Filled(source, code, 0));
  }

  /** piScanToken. */
  method ScanToken(source: Source) returns (code: TokenCode, token: Option<Token>)
    requires source.Valid()
    modifies source
    ensures source.Valid()
    ensures var item := ItemAt(source.buffer, old(source.forwardPos.offset));
      source.currentPos.offset == item.start && Scanned(source, item.scan, code, token)
  {
    hide PosAt, Ascii, Filled, ScanNumber, ScanWord, ScanPunct;
    ReadWhile(source, IsSpace);
    source.Advance();
    if source.Peek() == None {
      code, token := EndOf, Some(Filled(source, EndOf, 0));
    } else if source.CheckPred(IsDigit) {
      code, token := ScanNumericLiteral(source);
    } else if source.CheckPred(IsIdentStart) {
      code, token := ScanIdentifierOrKeyword(source);
    } else {
      code, token := ScanPunctuator(source);
    }
  }

  /** A filled token carries its lexeme, and the line and column of its first character. */
  ghost predicate Describes(text: string, item: Item, token: Option<Token>) {
    token.Some? ==>
      && item.start <= item.scan.end <= |text| && token.value.text == text[item.start..item.scan.end]
      && token.value.length == (item.scan.end - item.start) % WORD32
      && token.value.code == item.scan.code && token.value.radix == item.scan.radix
      && token.value.line == (1 + Newlines(text, item.start)) % WORD32
      && token.value.column == (1 + item.start - LineStart(text, item.start)) % WORD32
  }

  ghost predicate Describe(text: string, items: seq<Item>, tokens: seq<Option<Token>>) {
    && |tokens| == |items|
    && forall k :: 0 <= k < |tokens| ==>
         (tokens[k].Some? <==> items[k].scan.filled) && Describes(text, items[k], tokens[k])
  }

  /** Scan a whole text: the tokens are those of `Items`, at their lines and columns. */
  method ScanText(text: string) returns (tokens: seq<Option<Token>>)
    requires Ascii(text)
    ensures Describe(text, Items(text, 0), tokens)
  {
    hide Items, ItemAt, Describe, Describes, Scanned;
    var source := new Source(text);
    tokens := [];
    ghost var items: seq<Item> := [];
    var more := true;
    NoneToDescribe(text);
    while more
      invariant source.Valid() && source.buffer == text && fresh(source)
      invariant Items(text, 0) == items + if more then Items(text, source.forwardPos.offset) else []
      invariant Describe(text, items, tokens)
      decreases more, |text| - source.forwardPos.offset
    {
      ghost var item := ItemAt(text, source.forwardPos.offset);
      ItemShape(text, source.forwardPos.offset);
      var code, token := ScanToken(source);
      TokenDescribed(source, item, code, token);
      OneMore(text, items, tokens, item, token);
      tokens, items := tokens + [token], items + [item];
      more := source.currentPos.offset < |text|;
    }
    assert items + [] == items;
  }

  lemma TokenDescribed(source: Source, item: Item, code: TokenCode, token: Option<Token>)
    requires source.Valid() && source.currentPos.offset == item.start && Scanned(source, item.scan, code, token)
    ensures source.forwardPos.offset == item.scan.end && (token.Some? <==> item.scan.filled)
    ensures Describes(source.buffer, item, token)
  {
    hide LineStart, Newlines, Ascii;
    PosAtIs(source.buffer, item.start);
  }

  lemma NoneToDescribe(text: string)
    ensures Describe(text, [], [])
  {
  }

  lemma OneMore(text: string, items: seq<Item>, tokens: seq<Option<Token>>, item: Item, token: Option<Token>)
    requires Describe(text, items, tokens) && (token.Some? <==> item.scan.filled) && Describes(text, item, token)
    ensures Describe(text, items + [item], tokens + [token])
  {
    hide Describes;
  }

  lemma ItemShape(text: string, i: nat)
    requires i <= |text|
    ensures var item := ItemAt(text, i);
      && Items(text, i) == [item] + (if item.start < |text| then Items(text, item.scan.end) else [])
      && i <= item.start <= item.scan.end <= |text| && (item.start < |text| ==> item.start < item.scan.end)
  {
  }
}

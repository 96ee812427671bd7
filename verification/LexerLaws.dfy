/** What the scanner answers, character by character: numbers, words, white space, comments and punctuators. */
module LexerLaws {
  import opened Bits
  import opened Collections
  import opened Source
  import opened Lexer

  /** A run of a class that ends where it ends. */
  lemma SkipWhileIs(text: string, i: nat, end: nat, p: char -> bool)
    requires i <= end <= |text| && forall j :: i <= j < end ==> p(text[j])
    requires end < |text| ==> !p(text[end])
    ensures SkipWhile(text, i, p) == end
  {
  }

  // ---- Numbers ----

  /** 0b and 0B read 0, 1 and _ in base 2. */
  lemma BinaryLiteral(text: string, i: nat, end: nat)
    requires i + 2 < end <= |text| && text[i] == '0' && (text[i + 1] == 'b' || text[i + 1] == 'B')
    requires forall j :: i + 2 <= j < end ==> text[j] == '0' || text[j] == '1' || text[j] == '_'
    requires end < |text| ==> text[end] != '0' && text[end] != '1' && text[end] != '_'
    ensures ScanAt(text, i) == Scan(LiterInt, end, true, 2)
  {
    SkipWhileIs(text, i + 2, end, IsBinaryDigit);
  }

  /** 0c and 0C read 0 to 7 and _ in base 8. */
  lemma OctalLiteral(text: string, i: nat, end: nat)
    requires i + 2 < end <= |text| && text[i] == '0' && (text[i + 1] == 'c' || text[i + 1] == 'C')
    requires forall j :: i + 2 <= j < end ==> '0' <= text[j] <= '7' || text[j] == '_'
    requires end < |text| ==> !('0' <= text[end] <= '7') && text[end] != '_'
    ensures ScanAt(text, i) == Scan(LiterInt, end, true, 8)
  {
    SkipWhileIs(text, i + 2, end, IsOctalDigit);
  }

  /** 0d and 0D read 0 to 9 and _ in base 10. */
  lemma DecimalLiteral(text: string, i: nat, end: nat)
    requires i + 2 < end <= |text| && text[i] == '0' && (text[i + 1] == 'd' || text[i + 1] == 'D')
    requires forall j :: i + 2 <= j < end ==> '0' <= text[j] <= '9' || text[j] == '_'
    requires end < |text| ==> !('0' <= text[end] <= '9') && text[end] != '_'
    ensures ScanAt(text, i) == Scan(LiterInt, end, true, 10)
  {
    SkipWhileIs(text, i + 2, end, IsDecimalDigit);
  }

  /** 0x and 0X read 0 to 9, a to f, A to F and _ in base 16. */
  lemma HexadecimalLiteral(text: string, i: nat, end: nat)
    requires i + 2 < end <= |text| && text[i] == '0' && (text[i + 1] == 'x' || text[i + 1] == 'X')
    requires forall j :: i + 2 <= j < end ==>
      '0' <= text[j] <= '9' || 'a' <= text[j] <= 'f' || 'A' <= text[j] <= 'F' || text[j] == '_'
    requires end < |text| ==>
      !('0' <= text[end] <= '9' || 'a' <= text[end] <= 'f' || 'A' <= text[end] <= 'F' || text[end] == '_')
    ensures ScanAt(text, i) == Scan(LiterInt, end, true, 16)
  {
    SkipWhileIs(text, i + 2, end, IsHexadecimalDigit);
  }

  /** A number that does not start with 0 is read in base 10. */
  lemma PlainLiteral(text: string, i: nat, end: nat)
    requires i < end <= |text| && '1' <= text[i] <= '9'
    requires forall j :: i <= j < end ==> '0' <= text[j] <= '9' || text[j] == '_'
    requires end < |text| ==> !('0' <= text[end] <= '9') && text[end] != '_'
    ensures ScanAt(text, i) == Scan(LiterInt, end, true, 10)
  {
    SkipWhileIs(text, i, end, IsDecimalDigit);
  }

  /** A base letter without a digit is no literal, and is consumed. */
  lemma EmptyLiteral(text: string, i: nat)
    requires i + 1 < |text| && text[i] == '0'
    requires var c, d := text[i + 1], if i + 2 < |text| then text[i + 2] else NUL;
      || ((c == 'b' || c == 'B') && d != '0' && d != '1' && d != '_')
      || ((c == 'c' || c == 'C') && !('0' <= d <= '7') && d != '_')
      || ((c == 'd' || c == 'D') && !('0' <= d <= '9') && d != '_')
      || ((c == 'x' || c == 'X') && !('0' <= d <= '9' || 'a' <= d <= 'f' || 'A' <= d <= 'F' || d == '_'))
    ensures ScanAt(text, i) == Scan(Inval, i + 2, false, 0)
  {
  }

  /** After a zero that no base letter follows the answer is never set: the zero and the next character are consumed. */
  lemma ZeroIsUndefined(text: string, i: nat)
    requires i < |text| && text[i] == '0'
    requires i + 1 < |text| ==>
      var c := text[i + 1];
      !(c == 'b' || c == 'B' || c == 'c' || c == 'C' || c == 'd' || c == 'D' || c == 'x' || c == 'X')
    ensures ScanAt(text, i) == Scan(Undefined, if i + 1 < |text| then i + 2 else i + 1, false, 0)
  {
  }

  // ---- Words and white space ----

  predicate Letter(c: char) { 'a' <= c <= 'z' || 'A' <= c <= 'Z' }

  /** A letter, _ or $, and all letters, digits and _ after it, are one word. */
  lemma WordIs(text: string, i: nat, end: nat)
    requires i < end <= |text| && (Letter(text[i]) || text[i] == '_' || text[i] == '$')
    requires forall j :: i < j < end ==> Letter(text[j]) || '0' <= text[j] <= '9' || text[j] == '_'
    requires end < |text| ==> !Letter(text[end]) && !('0' <= text[end] <= '9') && text[end] != '_'
    ensures ScanAt(text, i).end == end && ScanAt(text, i).filled && ScanAt(text, i).radix == 0
    ensures ScanAt(text, i).code == Ident || ScanAt(text, i).code == KwordVar
  {
    hide IsKeyword;
    SkipWhileIs(text, i + 1, end, IsIdent);
  }

  /** The gap before a lexeme is spaces, tabs, line ends, vertical tabs and form feeds. */
  lemma GapIs(text: string, i: nat, end: nat)
    requires i <= end <= |text| && forall j :: i <= j < end ==> text[j] == ' ' || 9 <= text[j] as int <= 13
    requires end < |text| ==> text[end] != ' ' && !(9 <= text[end] as int <= 13)
    ensures ItemAt(text, i) == Item(i, end, ScanAt(text, end))
  {
    hide ScanAt;
    SkipWhileIs(text, i, end, IsSpace);
  }

  // ---- Comments ----

  /** Two slashes start a comment that ends after the first newline, or with the text. */
  lemma LineComment(text: string, i: nat, end: nat)
    requires i + 2 <= end <= |text| && text[i] == '/' && text[i + 1] == '/'
    requires forall j :: i + 2 <= j < end ==> text[j] != '\n'
    requires end < |text| ==> text[end] == '\n'
    ensures ScanAt(text, i) == Scan(Comment, if end < |text| then end + 1 else end, true, 0)
  {
    SkipWhileIs(text, i + 2, end, c => c != '\n');
  }

  /** A slash and a star start a comment that ends where the pairing of the delimiters closes. */
  lemma NestedComment(text: string, i: nat)
    requires i + 2 <= |text| && text[i] == '/' && text[i + 1] == '*'
    ensures ScanAt(text, i) == Scan(Comment, CommentEnd(text, i + 2), true, 0)
  {
    hide CommentEnd;
  }

  // ---- Punctuators ----

  /** The punctuators of one, two and three characters. */
  lemma PunctTables(c: char, d: char, e: char)
    ensures Single(c) <==> c in {'~', '!', '?', '&', '|', '^', '=', '<', '>', '+', '-', '*', '/', '%', '.', ':', ';',
                                 '#', ',', '@', '(', ')'}
    ensures Double(c, d) <==> (c, d) in {
      ('~', '='), ('!', '='), ('!', '!'), ('?', '='), ('?', '?'), ('?', '.'), ('&', '='), ('&', '&'), ('|', '='),
      ('|', '|'), ('^', '='), ('=', '='), ('=', '>'), ('<', '='), ('<', '<'), ('<', '-'), ('>', '='), ('>', '>'),
      ('+', '='), ('+', '+'), ('-', '='), ('-', '-'), ('-', '>'), ('*', '='), ('*', '*'), ('/', '='), ('%', '='),
      ('.', '.'), (':', '='), (':', ':'), (';', ';'), ('#', '#')}
    ensures Triple(c, d, e) <==> (c, d, e) in {('<', '<', '='), ('>', '>', '='), ('.', '.', '.')}
  {
  }

  /** A punctuator that no longer one begins with is scanned whole, and has the code of its text. */
  lemma PunctIs(text: string, i: nat, m: nat)
    requires i + m <= |text| && IsPunct(text[i..i + m])
    requires forall end :: i + m < end <= |text| ==> !IsPunct(text[i..end])
    requires i + 1 < |text| ==> !(text[i] == '/' && (text[i + 1] == '/' || text[i + 1] == '*'))
    ensures 1 <= m <= 3
    ensures ScanAt(text, i) ==
      Scan(Punct(text[i], if m > 1 then text[i + 1] else NUL, if m > 2 then text[i + 2] else NUL), i + m, true, 0)
  {
    hide Double, Triple;
    MaximalMunch(text, i, m);
    var n := PunctLength(text, i);
    assert i + n <= i + m;
    PunctPrefix(text[i..i + m]);
    assert text[i..i + m][0] == text[i];
    NoWord(text[i]);
  }

  lemma NoWord(c: char)
    requires Single(c)
    ensures !IsDigit(c) && !IsIdentStart(c) && c !in "[]{}"
  {
  }

  /** Square and curly brackets have the codes of round ones; any other character is invalid. */
  lemma BracketsAndOthers(text: string, i: nat)
    requires i < |text| && !Single(text[i]) && !('0' <= text[i] <= '9')
    requires !Letter(text[i]) && text[i] != '_' && text[i] != '$'
    ensures ScanAt(text, i) == Scan(
      if text[i] == '[' || text[i] == '{' then Punct('(', NUL, NUL)
      else if text[i] == ']' || text[i] == '}' then Punct(')', NUL, NUL)
      else Inval, i + 1, true, 0)
  {
  }
}

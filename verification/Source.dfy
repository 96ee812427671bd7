/** The text source of lib/compiler/source.c: two cursors over a string, each with its line and column. */
module Source {
  import opened Bits
  import opened Collections

  /** PiSourcePos: lines and columns are 32-bit counters. */
  datatype Pos = Pos(offset: nat, line: nat, column: nat)

  const START := Pos(0, 1, 1)

  /** A C string in ASCII. */
  predicate Ascii(text: string) { forall i :: 0 <= i < |text| ==> '\0' < text[i] < 128 as char }

  /** Reading one character. */
  function After(p: Pos, c: char): Pos {
    if c == '\n' then Pos(p.offset + 1, (p.line + 1) % WORD32, 1)
    else Pos(p.offset + 1, p.line, (p.column + 1) % WORD32)
  }

  /** The position after n characters. */
  function PosAt(text: string, n: nat): Pos
    requires n <= |text|
  {
    if n == 0 then START else After(PosAt(text, n - 1), text[n - 1])
  }

  /** The newlines among the first n characters. */
  function Newlines(text: string, n: nat): nat
    requires n <= |text|
  {
    if n == 0 then 0 else Newlines(text, n - 1) + if text[n - 1] == '\n' then 1 else 0
  }

  /** Where the line of offset n starts: just after the last newline before n. */
  function LineStart(text: string, n: nat): (s: nat)
    requires n <= |text|
    ensures s <= n && (s > 0 ==> text[s - 1] == '\n')
    ensures forall i :: s <= i < n ==> text[i] != '\n'
  {
    if n == 0 then 0 else if text[n - 1] == '\n' then n else LineStart(text, n - 1)
  }

  /** Lines are 1 + the newlines read, columns 1 + the characters since the last one (modulo 2^32). */
  lemma {:induction false} PosAtIs(text: string, n: nat)
    requires n <= |text|
    ensures PosAt(text, n) == Pos(n, (1 + Newlines(text, n)) % WORD32, (1 + n - LineStart(text, n)) % WORD32)
  {
    if n == 0 {
    } else {
      PosAtIs(text, n - 1);
      Successor(1 + Newlines(text, n - 1));
      Successor(n - LineStart(text, n - 1));
    }
  }

  lemma Successor(x: nat)
    ensures (x % WORD32 + 1) % WORD32 == (x + 1) % WORD32
  {
  }

  /** PiSource on a text; EOF is None. */
  class Source {
    const buffer: string
    var currentPos: Pos
    var forwardPos: Pos

    ghost predicate Valid()
      reads this
    {
      && Ascii(buffer) && currentPos.offset <= forwardPos.offset <= |buffer|
      && currentPos == PosAt(buffer, currentPos.offset) && forwardPos == PosAt(buffer, forwardPos.offset)
    }

    /** piOpenSourceText. */
    constructor (text: string)
      requires Ascii(text)
      ensures Valid() && buffer == text && currentPos == forwardPos == START
    {
      buffer, currentPos, forwardPos := text, START, START;
    }

    /** piSourcePeek. */
    function Peek(): Option<char>
      requires Valid()
      reads this
    {
      if forwardPos.offset < |buffer| then Some(buffer[forwardPos.offset]) else None
    }

    /** piSourceRead: at the end of the text nothing changes. */
    method Read() returns (c: Option<char>)
      requires Valid()
      modifies this`forwardPos
      ensures Valid() && c == old(Peek())
      ensures forwardPos.offset == old(forwardPos.offset) + if c.Some? then 1 else 0
    {
      if forwardPos.offset >= |buffer| { return None; }
      var ch := buffer[forwardPos.offset];
      if ch == '\n' {
        forwardPos := forwardPos.(line := (forwardPos.line + 1) % WORD32, column := 1);
      } else {
        forwardPos := forwardPos.(column := (forwardPos.column + 1) % WORD32);
      }
      forwardPos := forwardPos.(offset := forwardPos.offset + 1);
      return Some(ch);
    }

    /** piSourceAdvance. */
    method Advance()
      requires Valid()
      modifies this`currentPos
      ensures Valid() && currentPos == forwardPos
    {
      currentPos := forwardPos;
    }

    /** piSourceRetreat: scan the lexeme again. */
    method Retreat()
      requires Valid()
      modifies this`forwardPos
      ensures Valid() && forwardPos == currentPos
    {
      forwardPos := currentPos;
    }

    /** piSourceCheck. */
    predicate Check(c: char)
      requires Valid()
      reads this
    {
      Peek() == Some(c)
    }

    /** piSourceCheckPred; no predicate of the scanner holds of EOF. */
    predicate CheckPred(p: char -> bool)
      requires Valid()
      reads this
    {
      Peek().Some? && p(Peek().value)
    }

    /** piSourceMatch. */
    method Match(c: char) returns (matched: bool)
      requires Valid()
      modifies this`forwardPos
      ensures Valid() && matched == old(Check(c))
      ensures forwardPos.offset == old(forwardPos.offset) + if matched then 1 else 0
    {
      matched := Check(c);
      if matched { var _ := Read(); }
    }

    /** piSourceMatchPred. */
    method MatchPred(p: char -> bool) returns (matched: bool)
      requires Valid()
      modifies this`forwardPos
      ensures Valid() && matched == old(CheckPred(p))
      ensures forwardPos.offset == old(forwardPos.offset) + if matched then 1 else 0
    {
      matched := CheckPred(p);
      if matched { var _ := Read(); }
    }

    /** The lexeme between the cursors. */
    function Lexeme(): string
      requires Valid()
      reads this
    {
      buffer[currentPos.offset..forwardPos.offset]
    }
  }
}

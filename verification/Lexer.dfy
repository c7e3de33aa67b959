/** RQL tokens and the lexer: a cursor over the input bytes, against a specification by positions. */
module Lexers {
  import opened Wrappers
  import opened ByteStrings

  // ---------- tokens ----------

  datatype TokenType = SHOVE | YOINK | YEET | PEEK | KEYS | NUKE | STATS | HELP | TTL
                     | STRING | IDENT | NUMBER | EOF | ILLEGAL

  datatype Token = Token(ttype: TokenType, literal: bytes)

  function Ascii(s: string): (b: bytes)
    ensures |b| == |s|
  {
    seq(|s|, i requires 0 <= i < |s| => s[i] as int % 0x100)
  }

  function LookupIdent(ident: bytes): TokenType {
    if ident == Ascii("SHOVE") || ident == Ascii("shove") then SHOVE
    else if ident == Ascii("YOINK") || ident == Ascii("yoink") then YOINK
    else if ident == Ascii("YEET") || ident == Ascii("yeet") then YEET
    else if ident == Ascii("PEEK") || ident == Ascii("peek") then PEEK
    else if ident == Ascii("KEYS") || ident == Ascii("keys") then KEYS
    else if ident == Ascii("NUKE") || ident == Ascii("nuke") then NUKE
    else if ident == Ascii("STATS") || ident == Ascii("stats") then STATS
    else if ident == Ascii("HELP") || ident == Ascii("help") then HELP
    else if ident == Ascii("TTL") || ident == Ascii("ttl") then TTL
    else IDENT
  }

  const DQUOTE: byte := 34
  const SQUOTE: byte := 39
  const BACKSLASH: byte := 92

  predicate IsSpace(c: byte) {
    c == 32 || c == 9 || c == 13 || c == 10
  }

  predicate IsLetter(c: byte) {
    97 <= c <= 122 || 65 <= c <= 90
  }

  predicate IsDigit(c: byte) {
    48 <= c <= 57
  }

  /** Letters, digits, and _ - . : */
  predicate IsWordByte(c: byte) {
    IsLetter(c) || IsDigit(c) || c == 95 || c == 45 || c == 46 || c == 58
  }

  /** Go's string(byte) encodes the byte as a Unicode code point. */
  function AsRune(c: byte): bytes {
    if c < 0x80 then [c] else [0xC0 + c / 0x40, 0x80 + c % 0x40]
  }

  // ---------- the specification by positions ----------

  /** Reading at or past the end yields NUL. */
  function ByteAt(s: bytes, i: nat): byte {
    if i < |s| then s[i] else 0
  }

  function SkipSpace(s: bytes, i: nat): (j: nat)
    ensures i <= j && !IsSpace(ByteAt(s, j)) && (j <= |s| || j == i)
    decreases |s| - i
  {
    if IsSpace(ByteAt(s, i)) then SkipSpace(s, i + 1) else i
  }

  function ScanDigits(s: bytes, i: nat): (j: nat)
    ensures i <= j && (j <= |s| || j == i) && (IsDigit(ByteAt(s, i)) ==> i < j)
    decreases |s| - i
  {
    if IsDigit(ByteAt(s, i)) then ScanDigits(s, i + 1) else i
  }

  function ScanWord(s: bytes, i: nat): (j: nat)
    ensures i <= j && (j <= |s| || j == i) && (IsWordByte(ByteAt(s, i)) ==> i < j)
    decreases |s| - i
  {
    if IsWordByte(ByteAt(s, i)) then ScanWord(s, i + 1) else i
  }

  /** Where the body of a string quoted by q ends. A backslash takes the byte behind it along, whatever that is. */
  function ScanString(s: bytes, i: nat, q: byte): (j: nat)
    ensures i <= j && (j <= |s| + 1 || j == i)
    decreases |s| - i
  {
    var c := ByteAt(s, i);
    if c == q || c == 0 then i
    else if c == BACKSLASH then ScanString(s, i + 2, q)
    else ScanString(s, i + 1, q)
  }

  /** A token, the bytes its literal was cut from, and where the cursor stands behind it. */
  datatype Lexeme = Lexeme(tok: Token, start: nat, end: nat, next: nat)

  /** None: the literal would be cut from past the end of the input, where Go panics. */
  function LexString(s: bytes, i: nat, q: byte): Option<Lexeme>
    requires i < |s|
  {
    var e := ScanString(s, i + 1, q);
    if e > |s| then None
    else Some(Lexeme(Token(STRING, s[i + 1..e]), i + 1, e, if ByteAt(s, e) == q then e + 1 else e))
  }

  function NextLexeme(s: bytes, i: nat): (r: Option<Lexeme>)
    requires i <= |s|
    ensures r.Some? && r.value.tok.ttype != EOF ==> i < r.value.next <= |s|
  {
    var b := SkipSpace(s, i);
    var c := ByteAt(s, b);
    if c == 0 then Some(Lexeme(Token(EOF, []), b, b, b))
    else if c == DQUOTE then LexString(s, b, DQUOTE)
    else if c == SQUOTE then LexString(s, b, SQUOTE)
    else if IsDigit(c) then
      var e := ScanDigits(s, b);
      Some(Lexeme(Token(NUMBER, s[b..e]), b, e, e))
    else if IsLetter(c) || c == 95 then
      var e := ScanWord(s, b);
      Some(Lexeme(Token(LookupIdent(s[b..e]), s[b..e]), b, e, e))
    else Some(Lexeme(Token(ILLEGAL, AsRune(c)), b, b + 1, b + 1))
  }

  /** Everything from position i to the first EOF; None when some string makes Go panic. */
  function Lexemes(s: bytes, i: nat): Option<seq<Lexeme>>
    requires i <= |s|
    decreases |s| - i
  {
    match NextLexeme(s, i)
    case None => None
    case Some(l) =>
      if l.tok.ttype == EOF then Some([l])
      else
        match Lexemes(s, l.next)
        case None => None
        case Some(rest) => Some([l] + rest)
  }

  function Toks(ls: seq<Lexeme>): (ts: seq<Token>)
    ensures |ts| == |ls| && forall i :: 0 <= i < |ts| ==> ts[i] == ls[i].tok
  {
    seq(|ls|, i requires 0 <= i < |ls| => ls[i].tok)
  }

  function Tokens(s: bytes, i: nat): Option<seq<Token>>
    requires i <= |s|
  {
    match Lexemes(s, i)
    case None => None
    case Some(ls) => Some(Toks(ls))
  }

  // ---------- the cursor ----------

  class Lexer {
    const input: bytes
    var pos: nat
    var readPos: nat
    var ch: byte

    ghost predicate Valid()
      reads this
    {
      readPos == pos + 1 && ch == ByteAt(input, pos)
    }

    constructor (input: bytes)
      ensures this.input == input && Valid() && pos == 0
    {
      this.input, pos, readPos, ch := input, 0, 0, 0;
      new;
      ReadChar();
    }

    method ReadChar()
      modifies this
      ensures Valid() && pos == old(readPos)
    {
      if readPos >= |input| {
        ch := 0;
      } else {
        ch := input[readPos];
      }
      pos := readPos;
      readPos := readPos + 1;
    }

    method SkipWhitespace()
      requires Valid()
      modifies this
      ensures Valid() && pos == SkipSpace(input, old(pos))
    {
      while IsSpace(ch)
        invariant Valid() && SkipSpace(input, pos) == SkipSpace(input, old(pos))
        decreases |input| - pos
      {
        ReadChar();
      }
    }

    /** readString and readSingleQuotedString; q is the quote the cursor is on. */
    method ReadString(q: byte) returns (r: Option<Token>)
      requires Valid() && pos < |input| && q != 0
      modifies this
      ensures Valid()
      ensures match LexString(input, old(pos), q)
              case None => r == None
              case Some(l) => r == Some(l.tok) && pos == l.next
    {
      ReadChar();
      var start := pos;
      while ch != q && ch != 0
        invariant Valid() && pos >= start && ScanString(input, pos, q) == ScanString(input, start, q)
        decreases |input| - pos
      {
        if ch == BACKSLASH {
          ReadChar();
        }
        ReadChar();
      }
      if pos > |input| {
        return None;
      }
      var literal := input[start..pos];
      if ch == q {
        ReadChar();
      }
      return Some(Token(STRING, literal));
    }

    method ReadNumber() returns (t: Token)
      requires Valid() && IsDigit(ch)
      modifies this
      ensures Valid() && pos == ScanDigits(input, old(pos)) <= |input| && t == Token(NUMBER, input[old(pos)..pos])
    {
      var start := pos;
      while IsDigit(ch)
        invariant Valid() && start <= pos && ScanDigits(input, pos) == ScanDigits(input, start)
        decreases |input| - pos
      {
        ReadChar();
      }
      return Token(NUMBER, input[start..pos]);
    }

    method ReadIdentOrKeyword() returns (t: Token)
      requires Valid() && IsWordByte(ch)
      modifies this
      ensures Valid() && pos == ScanWord(input, old(pos)) <= |input|
      ensures t == Token(LookupIdent(input[old(pos)..pos]), input[old(pos)..pos])
    {
      var start := pos;
      while IsLetter(ch) || IsDigit(ch) || ch == 95 || ch == 45 || ch == 46 || ch == 58
        invariant Valid() && start <= pos && ScanWord(input, pos) == ScanWord(input, start)
        decreases |input| - pos
      {
        ReadChar();
      }
      var literal := input[start..pos];
      return Token(LookupIdent(literal), literal);
    }

    /** None is Go's panic on the slice. */
    method NextToken() returns (r: Option<Token>)
      requires Valid() && pos <= |input|
      modifies this
      ensures Valid()
      ensures match NextLexeme(input, old(pos))
              case None => r == None
              case Some(l) => r == Some(l.tok) && pos == l.next
    {
      hide LookupIdent;
      SkipWhitespace();
      if ch == 0 {
        return Some(Token(EOF, []));
      } else if ch == DQUOTE {
        r := ReadString(DQUOTE);
      } else if ch == SQUOTE {
        r := ReadString(SQUOTE);
      } else if IsDigit(ch) {
        var t := ReadNumber();
        return Some(t);
      } else if IsLetter(ch) || ch == 95 {
        var t := ReadIdentOrKeyword();
        return Some(t);
      } else {
        var t := Token(ILLEGAL, AsRune(ch));
        ReadChar();
        return Some(t);
      }
    }

    method Tokenize() returns (r: Option<seq<Token>>)
      requires Valid() && pos <= |input|
      modifies this
      ensures r == Tokens(input, old(pos))
    {
      hide NextLexeme, LookupIdent;
      var tokens := [];
      ghost var done: seq<Lexeme> := [];
      StartTokens(input, pos);
      while true
        invariant Valid() && pos <= |input| && tokens == Toks(done)
        invariant Lexemes(input, old(pos)) == After(done, Lexemes(input, pos))
        decreases |input| - pos
      {
        ghost var l, was := NextLexeme(input, pos), pos;
        var tok := NextToken();
        if tok == None {
          return None;
        }
        tokens := tokens + [tok.value];
        MoreTokens(done, input, was);
        done := done + [l.value];
        if tok.value.ttype == EOF {
          break;
        }
      }
      return Some(tokens);
    }
  }

  function After(done: seq<Lexeme>, rest: Option<seq<Lexeme>>): Option<seq<Lexeme>> {
    match rest
    case None => None
    case Some(ls) => Some(done + ls)
  }

  lemma StartTokens(s: bytes, i: nat)
    requires i <= |s|
    ensures Lexemes(s, i) == After([], Lexemes(s, i))
  {
    if Lexemes(s, i).Some? {
      assert [] + Lexemes(s, i).value == Lexemes(s, i).value;
    }
  }

  lemma MoreTokens(done: seq<Lexeme>, s: bytes, i: nat)
    requires i <= |s| && NextLexeme(s, i).Some?
    ensures var l := NextLexeme(s, i).value;
            && Toks(done + [l]) == Toks(done) + [l.tok]
            && After(done, Lexemes(s, i))
               == if l.tok.ttype == EOF then Some(done + [l]) else After(done + [l], Lexemes(s, l.next))
  {
    hide NextLexeme;
    var l := NextLexeme(s, i).value;
    if l.tok.ttype != EOF && Lexemes(s, l.next).Some? {
      var rest := Lexemes(s, l.next).value;
      assert done + ([l] + rest) == done + [l] + rest;
    }
  }
}

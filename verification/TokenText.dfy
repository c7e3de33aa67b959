/** What a piece of text is read as, written out in byte values and apart from the scanning functions of the lexer. */
module TokenTexts {
  import opened Wrappers
  import opened ByteStrings
  import opened Lexers
  import opened Parsers
  import opened LexerFacts

  // ---------- bytes ----------

  predicate Letter(c: byte) {
    65 <= c <= 90 || 97 <= c <= 122
  }

  predicate Digit(c: byte) {
    48 <= c <= 57
  }

  /** Tab, line feed, carriage return and space. */
  predicate Blank(c: byte) {
    c == 9 || c == 10 || c == 13 || c == 32
  }

  /** Letters, digits, minus, dot, colon and underscore. */
  predicate WordPart(c: byte) {
    Letter(c) || Digit(c) || c == 45 || c == 46 || c == 58 || c == 95
  }

  predicate AllBlank(s: bytes) {
    forall i :: 0 <= i < |s| ==> Blank(s[i])
  }

  // ---------- pieces of text ----------

  /** A text in quotes, one whose quote nothing closes, a word, a number, or a single byte that begins none of these. */
  datatype Piece = Quoted(q: byte, s: bytes) | Unclosed(q: byte, s: bytes) | Word(w: bytes) | Number(d: bytes)
                 | Other(c: byte)

  function Text(p: Piece): bytes {
    match p
    case Quoted(q, s) => [q] + s + [q]
    case Unclosed(q, s) => [q] + s
    case Word(w) => w
    case Number(d) => d
    case Other(c) => [c]
  }

  /** What the token says; a byte above 127 comes back as two. */
  function Content(p: Piece): bytes {
    match p
    case Quoted(_, s) => s
    case Unclosed(_, s) => s
    case Word(w) => w
    case Number(d) => d
    case Other(c) => if c < 128 then [c] else [192 + c / 64, 128 + c % 64]
  }

  function PieceToken(p: Piece): Token {
    Token(match p case Quoted(_, _) => STRING case Unclosed(_, _) => STRING case Word(w) => LookupIdent(w)
                  case Number(_) => NUMBER case Other(_) => ILLEGAL,
          Content(p))
  }

  /** Byte i comes right behind a backslash that does not itself come behind such a backslash. */
  predicate Escaped(s: bytes, i: nat)
    requires i <= |s|
    decreases i
  {
    i > 0 && s[i - 1] == 92 && !Escaped(s, i - 1)
  }

  predicate Stops(s: bytes, q: byte, i: nat)
    requires i < |s|
  {
    !Escaped(s, i) && (s[i] == q || s[i] == 0)
  }

  /** Every q and every NUL is escaped, and the end is not. */
  predicate Quotable(s: bytes, q: byte) {
    (forall i :: 0 <= i < |s| ==> !Stops(s, q, i)) && !Escaped(s, |s|)
  }

  predicate Proper(p: Piece) {
    match p
    case Quoted(q, s) => (q == 34 || q == 39) && Quotable(s, q)
    case Unclosed(q, s) => (q == 34 || q == 39) && Quotable(s, q)
    case Word(w) => w != [] && (Letter(w[0]) || w[0] == 95) && forall i :: 0 <= i < |w| ==> WordPart(w[i])
    case Number(d) => d != [] && forall i :: 0 <= i < |d| ==> Digit(d[i])
    case Other(c) => !Letter(c) && !Digit(c) && !Blank(c) && c != 95 && c != 34 && c != 39 && c != 0
  }

  /** Words and numbers go on as long as they can, and what nothing closes to the end. */
  predicate EndsBefore(p: Piece, rest: bytes) {
    match p
    case Quoted(_, _) => true
    case Unclosed(_, _) => rest == []
    case Word(_) => rest == [] || !WordPart(rest[0])
    case Number(_) => rest == [] || !Digit(rest[0])
    case Other(_) => true
  }

  // ---------- text in quotes ----------

  /** Scanning from an unescaped position on. */
  lemma {:induction false} QuotableFrom(s: bytes, q: byte, i: nat)
    requires i <= |s| && !Escaped(s, i)
    ensures ScanString(s, i, q) == |s| <==> (forall j :: i <= j < |s| ==> !Stops(s, q, j)) && !Escaped(s, |s|)
    decreases |s| - i
  {
    if i < |s| && s[i] != q && s[i] != 0 {
      if s[i] != BACKSLASH {
        assert !Escaped(s, i + 1);
        QuotableFrom(s, q, i + 1);
      } else if i + 1 < |s| {
        assert Escaped(s, i + 1) && !Escaped(s, i + 2);
        QuotableFrom(s, q, i + 2);
      } else {
        assert Escaped(s, i + 1);
      }
    } else if i < |s| {
      assert Stops(s, q, i);
    }
  }

  /** Scanning s alone as the inside of a string reaches its end exactly when s can be quoted. */
  lemma QuotableIff(s: bytes, q: byte)
    ensures Quotable(s, q) <==> ScanString(s, 0, q) == |s|
  {
    QuotableFrom(s, q, 0);
  }

  lemma {:induction false} NothingEscaped(s: bytes, i: nat)
    requires i <= |s| && 92 !in s
    ensures !Escaped(s, i)
    decreases i
  {
    if i > 0 {
      assert s[i - 1] in s;
    }
  }

  /** Text without quote, backslash and NUL, in particular. */
  lemma PlainIsQuotable(s: bytes, q: byte)
    requires q !in s && 92 !in s && 0 !in s
    ensures Quotable(s, q)
  {
    NothingEscaped(s, |s|);
    forall i | 0 <= i < |s|
      ensures !Stops(s, q, i)
    {
      assert s[i] in s;
    }
  }

  // ---------- tokens depend on what lies ahead only ----------

  lemma ShiftedByte(p: bytes, s: bytes, i: nat)
    ensures ByteAt(p + s, |p| + i) == ByteAt(s, i)
  {
  }

  lemma {:induction false} ShiftedSpace(p: bytes, s: bytes, i: nat)
    ensures SkipSpace(p + s, |p| + i) == |p| + SkipSpace(s, i)
    decreases |s| - i
  {
    ShiftedByte(p, s, i);
    if IsSpace(ByteAt(s, i)) {
      ShiftedSpace(p, s, i + 1);
    }
  }

  lemma {:induction false} ShiftedDigits(p: bytes, s: bytes, i: nat)
    ensures ScanDigits(p + s, |p| + i) == |p| + ScanDigits(s, i)
    decreases |s| - i
  {
    ShiftedByte(p, s, i);
    if IsDigit(ByteAt(s, i)) {
      ShiftedDigits(p, s, i + 1);
    }
  }

  lemma {:induction false} ShiftedWord(p: bytes, s: bytes, i: nat)
    ensures ScanWord(p + s, |p| + i) == |p| + ScanWord(s, i)
    decreases |s| - i
  {
    ShiftedByte(p, s, i);
    if IsWordByte(ByteAt(s, i)) {
      ShiftedWord(p, s, i + 1);
    }
  }

  lemma {:induction false} ShiftedString(p: bytes, s: bytes, i: nat, q: byte)
    ensures ScanString(p + s, |p| + i, q) == |p| + ScanString(s, i, q)
    decreases |s| - i
  {
    ShiftedByte(p, s, i);
    var c := ByteAt(s, i);
    if c == q || c == 0 {
    } else if c == BACKSLASH {
      ShiftedString(p, s, i + 2, q);
    } else {
      ShiftedString(p, s, i + 1, q);
    }
  }

  lemma ShiftedSlice(p: bytes, s: bytes, a: nat, b: nat)
    requires a <= b <= |s|
    ensures (p + s)[|p| + a..|p| + b] == s[a..b]
  {
  }

  ghost predicate SameAhead(r: Option<Lexeme>, r': Option<Lexeme>, d: nat) {
    if r.None? then r'.None? else r'.Some? && r'.value.tok == r.value.tok && r'.value.next == d + r.value.next
  }

  lemma ShiftedLexString(p: bytes, s: bytes, b: nat, q: byte)
    requires b < |s|
    ensures SameAhead(LexString(s, b, q), LexString(p + s, |p| + b, q), |p|)
  {
    ShiftedString(p, s, b + 1, q);
    var e := ScanString(s, b + 1, q);
    ShiftedByte(p, s, e);
    if e <= |s| {
      ShiftedSlice(p, s, b + 1, e);
    }
  }

  lemma ShiftedLexeme(p: bytes, s: bytes, i: nat)
    requires i <= |s|
    ensures SameAhead(NextLexeme(s, i), NextLexeme(p + s, |p| + i), |p|)
  {
    hide LookupIdent, LexString;
    ShiftedSpace(p, s, i);
    var b := SkipSpace(s, i);
    ShiftedByte(p, s, b);
    var c := ByteAt(s, b);
    if c == DQUOTE || c == SQUOTE {
      ShiftedLexString(p, s, b, c);
    } else if IsDigit(c) {
      ShiftedDigits(p, s, b);
      ShiftedSlice(p, s, b, ScanDigits(s, b));
    } else if IsLetter(c) || c == 95 {
      ShiftedWord(p, s, b);
      ShiftedSlice(p, s, b, ScanWord(s, b));
    }
  }

  function Cons(t: Token, ts: Option<seq<Token>>): Option<seq<Token>> {
    match ts
    case None => None
    case Some(rest) => Some([t] + rest)
  }

  lemma TokensUnfold(s: bytes, i: nat)
    requires i <= |s|
    ensures Tokens(s, i) == match NextLexeme(s, i)
                            case None => None
                            case Some(l) =>
                              if l.tok.ttype == EOF then Some([l.tok]) else Cons(l.tok, Tokens(s, l.next))
  {
    hide NextLexeme;
    var r := NextLexeme(s, i);
    if r.Some? {
      var l := r.value;
      if l.tok.ttype == EOF {
        assert Toks([l]) == [l.tok];
      } else if Lexemes(s, l.next).Some? {
        var rest := Lexemes(s, l.next).value;
        assert Toks([l] + rest) == [l.tok] + Toks(rest);
      }
    }
  }

  lemma {:induction false} ShiftedTokens(p: bytes, s: bytes, i: nat)
    requires i <= |s|
    ensures Tokens(p + s, |p| + i) == Tokens(s, i)
    decreases |s| - i
  {
    hide NextLexeme, Tokens;
    ShiftedLexeme(p, s, i);
    TokensUnfold(s, i);
    TokensUnfold(p + s, |p| + i);
    var r := NextLexeme(s, i);
    if r.Some? && r.value.tok.ttype != EOF {
      ShiftedTokens(p, s, r.value.next);
    }
  }

  /** A first lexeme that covers exactly p is followed by the tokens of what is behind p. */
  lemma FirstToken(p: bytes, s: bytes, t: Token)
    requires NextLexeme(p + s, 0).Some? && t.ttype != EOF
    requires NextLexeme(p + s, 0).value.tok == t && NextLexeme(p + s, 0).value.next == |p|
    ensures Tokens(p + s, 0) == Cons(t, Tokens(s, 0))
  {
    hide NextLexeme, Tokens;
    TokensUnfold(p + s, 0);
    ShiftedTokens(p, s, 0);
  }

  // ---------- the first piece of a text ----------

  lemma NothingLeft()
    ensures Tokens([], 0) == Some([EOF_TOKEN])
  {
    TokensUnfold([], 0);
  }

  lemma BlankFirst(c: byte, s: bytes)
    requires Blank(c)
    ensures Tokens([c] + s, 0) == Tokens(s, 0)
  {
    var w := [c] + s;
    assert SkipSpace(w, 0) == SkipSpace(w, 1);
    assert NextLexeme(w, 0) == NextLexeme(w, 1);
    ShiftedTokens([c], s, 0);
  }

  /** Blanks in front, as many as you like, do nothing. */
  lemma {:induction false} BlanksFirst(gap: bytes, s: bytes)
    requires AllBlank(gap)
    ensures Tokens(gap + s, 0) == Tokens(s, 0)
    decreases gap
  {
    hide Tokens;
    if gap == [] {
      assert gap + s == s;
    } else {
      assert gap + s == [gap[0]] + (gap[1..] + s);
      BlankFirst(gap[0], gap[1..] + s);
      BlanksFirst(gap[1..], s);
    }
  }

  lemma {:induction false} WordEnds(w: bytes, s: bytes, i: nat)
    requires i <= |w| && (forall j :: 0 <= j < |w| ==> WordPart(w[j])) && EndsBefore(Word(w), s)
    ensures ScanWord(w + s, i) == |w|
    decreases |w| - i
  {
    ShiftedByte(w, s, 0);
    if i < |w| {
      assert ByteAt(w + s, i) == w[i];
      WordEnds(w, s, i + 1);
    }
  }

  lemma {:induction false} NumberEnds(d: bytes, s: bytes, i: nat)
    requires i <= |d| && (forall j :: 0 <= j < |d| ==> Digit(d[j])) && EndsBefore(Number(d), s)
    ensures ScanDigits(d + s, i) == |d|
    decreases |d| - i
  {
    ShiftedByte(d, s, 0);
    if i < |d| {
      assert ByteAt(d + s, i) == d[i];
      NumberEnds(d, s, i + 1);
    }
  }

  /** Between the quotes, s followed by a quote is scanned like s alone, as long as s is not left. */
  lemma {:induction false} ScanInside(s: bytes, q: byte, rest: bytes, i: nat)
    requires i <= |s| && q != BACKSLASH
    ensures var e := ScanString(s + ([q] + rest), i, q);
            e == |s| <==> ScanString(s, i, q) == |s|
    decreases |s| - i
  {
    var w := s + ([q] + rest);
    if i == |s| {
      assert w[i] == q;
    } else {
      assert w[i] == s[i];
      if s[i] == BACKSLASH {
        if i + 2 <= |s| {
          ScanInside(s, q, rest, i + 2);
        }
      } else if s[i] != q && s[i] != 0 {
        ScanInside(s, q, rest, i + 1);
      }
    }
  }

  /** Where the quoted text s is seen to end. */
  lemma QuotedEnd(s: bytes, q: byte, rest: bytes)
    requires q == 34 || q == 39
    ensures var w := Text(Quoted(q, s)) + rest;
            ScanString(w, 1, q) == |s| + 1 <==> Quotable(s, q)
    ensures var w := Text(Quoted(q, s)) + rest;
            |w| == |s| + 2 + |rest| && w[0] == q && w[|s| + 1] == q && w[1..|s| + 1] == s
  {
    hide Quotable;
    QuotableIff(s, q);
    var body := s + ([q] + rest);
    assert Text(Quoted(q, s)) + rest == [q] + body;
    ScanInside(s, q, rest, 0);
    ShiftedString([q], body, 0, q);
  }

  /** The first token of a text in quotes is that text exactly when it can be quoted. */
  lemma QuotedFirst(s: bytes, q: byte, rest: bytes)
    requires q == 34 || q == 39
    ensures Quotable(s, q) ==> Tokens(Text(Quoted(q, s)) + rest, 0) == Cons(Token(STRING, s), Tokens(rest, 0))
    ensures !Quotable(s, q) ==>
              || Tokens(Text(Quoted(q, s)) + rest, 0).None?
              || (var ts := Tokens(Text(Quoted(q, s)) + rest, 0).value; |ts| >= 1 && ts[0].literal != s)
  {
    hide Quotable, NextLexeme, Tokens, ScanString, Text;
    var w := Text(Quoted(q, s)) + rest;
    QuotedEnd(s, q, rest);
    QuoteOpens(w, q);
    TokensUnfold(w, 0);
    var e := ScanString(w, 1, q);
    if Quotable(s, q) {
      FirstToken(Text(Quoted(q, s)), rest, Token(STRING, s)) by { TextLength(q, s); }
    } else if e <= |w| {
      assert |w[1..e]| != |s|;
    }
  }

  lemma TextLength(q: byte, s: bytes)
    ensures |Text(Quoted(q, s))| == |s| + 2
  {
  }

  lemma QuoteOpens(w: bytes, q: byte)
    requires w != [] && w[0] == q && (q == 34 || q == 39)
    ensures NextLexeme(w, 0) == LexString(w, 0, q)
  {
    assert SkipSpace(w, 0) == 0;
  }

  /** A text whose quote nothing closes is all there is. */
  lemma UnclosedFirst(s: bytes, q: byte)
    requires Proper(Unclosed(q, s))
    ensures Tokens([q] + s, 0) == Cons(Token(STRING, s), Tokens([], 0))
  {
    hide Quotable, NextLexeme, Tokens;
    var w := [q] + s;
    QuotableIff(s, q);
    ShiftedString([q], s, 0, q);
    QuoteOpens(w, q);
    assert ScanString(w, 1, q) == |w| && w[1..|w|] == s;
    assert w + [] == w;
    FirstToken(w, [], Token(STRING, s));
  }

  lemma WordFirst(w: bytes, rest: bytes)
    requires Proper(Word(w)) && EndsBefore(Word(w), rest)
    ensures Tokens(w + rest, 0) == Cons(PieceToken(Word(w)), Tokens(rest, 0))
  {
    hide LookupIdent;
    WordEnds(w, rest, 0);
    NeverEof(w);
    assert ByteAt(w + rest, 0) == w[0] && (w + rest)[0..|w|] == w;
    assert WordPart(w[0]);
    FirstToken(w, rest, PieceToken(Word(w)));
  }

  lemma NumberFirst(d: bytes, rest: bytes)
    requires Proper(Number(d)) && EndsBefore(Number(d), rest)
    ensures Tokens(d + rest, 0) == Cons(Token(NUMBER, d), Tokens(rest, 0))
  {
    NumberEnds(d, rest, 0);
    assert ByteAt(d + rest, 0) == d[0] && (d + rest)[0..|d|] == d;
    assert Digit(d[0]);
    FirstToken(d, rest, Token(NUMBER, d));
  }

  lemma OtherFirst(c: byte, rest: bytes)
    requires Proper(Other(c))
    ensures Tokens([c] + rest, 0) == Cons(PieceToken(Other(c)), Tokens(rest, 0))
  {
    assert ByteAt([c] + rest, 0) == c;
    FirstToken([c], rest, PieceToken(Other(c)));
  }

  /** Every piece is read as its own token, and what follows as if it stood alone. */
  lemma PieceFirst(p: Piece, rest: bytes)
    requires Proper(p) && EndsBefore(p, rest)
    ensures Tokens(Text(p) + rest, 0) == Cons(PieceToken(p), Tokens(rest, 0))
  {
    hide Tokens, Proper, LookupIdent;
    match p
    case Quoted(q, s) => ProperQuotes(q, s); QuotedFirst(s, q, rest);
    case Unclosed(q, s) => UnclosedFirst(s, q); UnclosedLast(p, rest);
    case Word(w) => WordFirst(w, rest);
    case Number(d) => NumberFirst(d, rest);
    case Other(c) => OtherFirst(c, rest);
  }

  lemma ProperQuotes(q: byte, s: bytes)
    requires Proper(Quoted(q, s))
    ensures (q == 34 || q == 39) && Quotable(s, q)
  {
  }

  lemma UnclosedLast(p: Piece, rest: bytes)
    requires p.Unclosed? && EndsBefore(p, rest)
    ensures rest == [] && Text(p) + rest == [p.q] + p.s
  {
  }

  // ---------- every text begins with a piece ----------

  lemma {:induction false} WordSpan(s: bytes, i: nat)
    requires i <= |s|
    ensures var e := ScanWord(s, i);
            e <= |s| && (forall j :: i <= j < e ==> WordPart(s[j])) && (e < |s| ==> !WordPart(s[e]))
    decreases |s| - i
  {
    if i < |s| && WordPart(s[i]) {
      WordSpan(s, i + 1);
    }
  }

  lemma {:induction false} NumberSpan(s: bytes, i: nat)
    requires i <= |s|
    ensures var e := ScanDigits(s, i);
            e <= |s| && (forall j :: i <= j < e ==> Digit(s[j])) && (e < |s| ==> !Digit(s[e]))
    decreases |s| - i
  {
    if i < |s| && Digit(s[i]) {
      NumberSpan(s, i + 1);
    }
  }

  /** The scan stops on the quote or a NUL, and up to there it saw nothing of what lies behind. */
  lemma {:induction false} StringSpan(s: bytes, i: nat, q: byte)
    requires i <= |s| && ScanString(s, i, q) <= |s|
    ensures var e := ScanString(s, i, q);
            ScanString(s[..e], i, q) == e && (e < |s| ==> s[e] == q || s[e] == 0)
    decreases |s| - i
  {
    var e := ScanString(s, i, q);
    if i < |s| && s[i] != q && s[i] != 0 {
      assert s[..e][i] == s[i];
      StringSpan(s, if s[i] == BACKSLASH then i + 2 else i + 1, q);
    }
  }

  lemma QuotedStart(s: bytes) returns (p: Piece, rest: bytes)
    requires s != [] && (s[0] == 34 || s[0] == 39) && 0 !in s && Tokens(s, 0).Some?
    ensures s == Text(p) + rest && Proper(p) && EndsBefore(p, rest)
  {
    hide Quotable, ScanString, Tokens, Text;
    var q := s[0];
    var e := ScanString(s, 1, q);
    ReadableString(s, q);
    StringSpan(s, 1, q);
    InsideQuotes(s, q, e);
    if e < |s| {
      assert s[e] in s;
      p, rest := Quoted(q, s[1..e]), s[e + 1..];
      CutQuoted(s, q, e);
    } else {
      p, rest := Unclosed(q, s[1..e]), [];
      CutUnclosed(s, q);
    }
  }

  lemma ReadableString(s: bytes, q: byte)
    requires s != [] && s[0] == q && (q == 34 || q == 39) && Tokens(s, 0).Some?
    ensures ScanString(s, 1, q) <= |s|
  {
    hide NextLexeme, Tokens, ScanString;
    TokensUnfold(s, 0);
    QuoteOpens(s, q);
  }

  lemma CutQuoted(s: bytes, q: byte, e: nat)
    requires 1 <= e < |s| && s[0] == q && s[e] == q
    ensures s == Text(Quoted(q, s[1..e])) + s[e + 1..]
  {
  }

  lemma CutUnclosed(s: bytes, q: byte)
    requires s != [] && s[0] == q
    ensures s == Text(Unclosed(q, s[1..|s|])) + []
  {
  }

  lemma InsideQuotes(s: bytes, q: byte, e: nat)
    requires 1 <= e <= |s| && s[0] == q && ScanString(s[..e], 1, q) == e
    ensures Quotable(s[1..e], q)
  {
    hide Quotable;
    var t := s[1..e];
    assert s[..e] == [q] + t;
    ShiftedString([q], t, 0, q);
    QuotableIff(t, q);
  }

  lemma WordStart(s: bytes) returns (p: Piece, rest: bytes)
    requires s != [] && (Letter(s[0]) || s[0] == 95)
    ensures s == Text(p) + rest && Proper(p) && EndsBefore(p, rest)
  {
    WordSpan(s, 0);
    var e := ScanWord(s, 0);
    p, rest := Word(s[..e]), s[e..];
  }

  lemma NumberStart(s: bytes) returns (p: Piece, rest: bytes)
    requires s != [] && Digit(s[0])
    ensures s == Text(p) + rest && Proper(p) && EndsBefore(p, rest)
  {
    NumberSpan(s, 0);
    var e := ScanDigits(s, 0);
    p, rest := Number(s[..e]), s[e..];
  }

  /** Whatever can be read, and has no NUL, is blank or begins, behind blanks, with a piece. */
  lemma {:induction false} FirstPiece(s: bytes) returns (gap: bytes, p: Piece, rest: bytes)
    requires 0 !in s && Tokens(s, 0).Some? && !AllBlank(s)
    ensures s == gap + (Text(p) + rest) && AllBlank(gap) && Proper(p) && EndsBefore(p, rest)
    decreases s
  {
    hide Tokens, Text, Proper, EndsBefore;
    gap := [];
    var c := s[0];
    assert s == [c] + s[1..] && c in s;
    if Blank(c) {
      BlankFirst(c, s[1..]);
      gap, p, rest := FirstPiece(s[1..]);
      assert s == [c] + gap + (Text(p) + rest);
      gap := [c] + gap;
    } else if c == 34 || c == 39 {
      p, rest := QuotedStart(s);
    } else if Letter(c) || c == 95 {
      p, rest := WordStart(s);
    } else if Digit(c) {
      p, rest := NumberStart(s);
    } else {
      OtherIsProper(c);
      p, rest := OtherStart(s);
    }
  }

  lemma OtherIsProper(c: byte)
    requires !Letter(c) && !Digit(c) && !Blank(c) && c != 95 && c != 34 && c != 39 && c != 0
    ensures Proper(Other(c))
  {
  }

  lemma OtherStart(s: bytes) returns (p: Piece, rest: bytes)
    requires s != [] && Proper(Other(s[0]))
    ensures s == Text(p) + rest && Proper(p) && EndsBefore(p, rest)
  {
    p, rest := Other(s[0]), s[1..];
  }

  // ---------- keywords ----------

  predicate IsKeyword(t: TokenType) {
    t != STRING && t != IDENT && t != NUMBER && t != EOF && t != ILLEGAL
  }

  /** In capitals. */
  function KeywordName(t: TokenType): bytes
    requires IsKeyword(t)
  {
    match t
    case SHOVE => [83, 72, 79, 86, 69]
    case YOINK => [89, 79, 73, 78, 75]
    case YEET => [89, 69, 69, 84]
    case PEEK => [80, 69, 69, 75]
    case KEYS => [75, 69, 89, 83]
    case NUKE => [78, 85, 75, 69]
    case STATS => [83, 84, 65, 84, 83]
    case HELP => [72, 69, 76, 80]
    case TTL => [84, 84, 76]
  }

  /** In capitals or in small letters, 32 further on. */
  function Spelled(t: TokenType, lower: bool): (w: bytes)
    requires IsKeyword(t)
    ensures Proper(Word(w))
  {
    var name := KeywordName(t);
    if lower then seq(|name|, i requires 0 <= i < |name| => name[i] + 32) else name
  }

  ghost predicate KeywordText(w: bytes) {
    exists t, lower :: IsKeyword(t) && w == Spelled(t, lower)
  }

  /** The names in the keyword table. */
  function TableName(t: TokenType, lower: bool): string
    requires IsKeyword(t)
  {
    match t
    case SHOVE => if lower then "shove" else "SHOVE"
    case YOINK => if lower then "yoink" else "YOINK"
    case YEET => if lower then "yeet" else "YEET"
    case PEEK => if lower then "peek" else "PEEK"
    case KEYS => if lower then "keys" else "KEYS"
    case NUKE => if lower then "nuke" else "NUKE"
    case STATS => if lower then "stats" else "STATS"
    case HELP => if lower then "help" else "HELP"
    case TTL => if lower then "ttl" else "TTL"
  }

  lemma TableSpells(t: TokenType, lower: bool)
    requires IsKeyword(t)
    ensures Ascii(TableName(t, lower)) == Spelled(t, lower)
  {
    hide TableName, Spelled;
    SpelledAt(t, lower);
    assert Ascii(TableName(t, lower)) == Spelled(t, lower);
  }

  lemma SpelledAt(t: TokenType, lower: bool)
    requires IsKeyword(t)
    ensures |TableName(t, lower)| == |Spelled(t, lower)|
    ensures forall i :: 0 <= i < |Spelled(t, lower)| ==> TableName(t, lower)[i] as int == Spelled(t, lower)[i]
  {
  }

  lemma TableLookup(w: bytes)
    ensures var t := LookupIdent(w);
            t == IDENT || (IsKeyword(t) && exists lower :: w == Ascii(TableName(t, lower)))
    ensures forall t, lower :: IsKeyword(t) && w == Ascii(TableName(t, lower)) ==> LookupIdent(w) != IDENT
  {
    hide Ascii;
    var t := LookupIdent(w);
    if t != IDENT {
      assert w == Ascii(TableName(t, false)) || w == Ascii(TableName(t, true));
    }
  }

  /** No two spellings of keywords are the same, not even in their first two bytes. */
  lemma SpelledApart(t: TokenType, lower: bool, u: TokenType, small: bool)
    requires IsKeyword(t) && IsKeyword(u) && Spelled(t, lower) == Spelled(u, small)
    ensures t == u && lower == small
  {
    var a, b := Spelled(t, lower), Spelled(u, small);
    assert a[0] == b[0] && a[1] == b[1];
    assert KeywordName(t)[0] <= 90 && KeywordName(u)[0] <= 90;
  }

  /** A word is the keyword t exactly when it is one of the two spellings of t. */
  lemma KeywordIff(w: bytes, t: TokenType)
    requires IsKeyword(t)
    ensures LookupIdent(w) == t <==> w == Spelled(t, false) || w == Spelled(t, true)
  {
    hide Ascii, Spelled, LookupIdent, TableName;
    TableLookup(w);
    TableSpells(t, false);
    TableSpells(t, true);
    var u := LookupIdent(w);
    if u != IDENT {
      var small :| w == Ascii(TableName(u, small));
      TableSpells(u, small);
      if w == Spelled(t, false) || w == Spelled(t, true) {
        SpelledApart(u, small, t, w == Spelled(t, true));
      }
    }
  }

  /** And an identifier exactly when it is none of the eighteen. */
  lemma IdentIff(w: bytes)
    ensures LookupIdent(w) == IDENT <==> !KeywordText(w)
  {
    hide LookupIdent, Spelled, Ascii, TableName;
    TableLookup(w);
    var t := LookupIdent(w);
    if IsKeyword(t) {
      KeywordIff(w, t);
      assert w == Spelled(t, false) || w == Spelled(t, true);
    }
    if u, lower :| IsKeyword(u) && w == Spelled(u, lower) {
      KeywordIff(w, u);
    }
  }

  // ---------- numbers ----------

  function Decimal(n: nat): (s: bytes)
    ensures Proper(Number(s))
  {
    if n < 10 then [48 + n] else Decimal(n / 10) + [48 + n % 10]
  }

  /** So many zeros. */
  function Noughts(z: nat): (s: bytes)
    ensures |s| == z && forall i :: 0 <= i < z ==> s[i] == 48
  {
    seq(z, i => 48)
  }

  lemma {:induction false} NoughtsValue(z: nat)
    ensures DecValue(Noughts(z)) == 0
    decreases z
  {
    if z > 0 {
      assert Noughts(z)[..z - 1] == Noughts(z - 1);
      NoughtsValue(z - 1);
    }
  }

  /** A number written in decimal is that number, leading zeros or not. */
  lemma {:induction false} DecimalValue(z: nat, n: nat)
    ensures AllDigits(Noughts(z) + Decimal(n)) && DecValue(Noughts(z) + Decimal(n)) == n
    decreases n
  {
    var s := Noughts(z) + Decimal(n);
    if n >= 10 {
      DecimalValue(z, n / 10);
      assert s[..|s| - 1] == Noughts(z) + Decimal(n / 10);
    } else {
      NoughtsValue(z);
      assert s[..|s| - 1] == Noughts(z);
    }
  }

  lemma OneMoreDigit(z: nat, m: nat, x: nat) returns (y: nat)
    requires x < 10
    ensures Noughts(z) + Decimal(m) + [48 + x] == Noughts(y) + Decimal(10 * m + x)
  {
    if m == 0 {
      y := z + 1;
      assert Noughts(z) + [48] == Noughts(z + 1);
    } else {
      y := z;
      assert Decimal(10 * m + x) == Decimal(m) + [48 + x];
      assert Noughts(z) + Decimal(m) + [48 + x] == Noughts(z) + (Decimal(m) + [48 + x]);
    }
  }

  lemma AllButLast(d: bytes)
    requires Proper(Number(d))
    ensures AllDigits(d) && AllDigits(d[..|d| - 1]) && 0 <= d[|d| - 1] - 48 < 10
    ensures d == d[..|d| - 1] + [48 + (d[|d| - 1] - 48)]
  {
    hide DecValue;
  }

  lemma LastDigit(d: bytes)
    requires d != [] && AllDigits(d)
    ensures AllDigits(d[..|d| - 1]) && DecValue(d) == 10 * DecValue(d[..|d| - 1]) + (d[|d| - 1] - 48)
  {
    hide IsDigit;
  }

  /** Every string of digits is some number written so. */
  lemma {:induction false} NumberForm(d: bytes) returns (z: nat)
    requires Proper(Number(d))
    ensures AllDigits(d) && d == Noughts(z) + Decimal(DecValue(d))
    decreases d
  {
    hide DecValue, Decimal;
    var front, x := d[..|d| - 1], d[|d| - 1] - 48;
    AllButLast(d);
    LastDigit(d);
    if front == [] {
      z := 0;
      OneDigit(x);
      assert d == Noughts(0) + [48 + x];
    } else {
      var y := NumberForm(front);
      z := OneMoreDigit(y, DecValue(front), x);
    }
  }

  lemma OneDigit(x: nat)
    requires x < 10
    ensures Decimal(x) == [48 + x] && DecValue([]) == 0
  {
  }
}

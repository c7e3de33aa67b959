/** What every line made of pieces of text is parsed as, errors included. */
module CommandTexts {
  import opened Wrappers
  import opened ByteStrings
  import opened Lexers
  import LexerFacts
  import opened Parsers
  import opened TokenTexts

  function VerbType(c: CommandType): (t: TokenType)
    ensures IsKeyword(t)
  {
    match c
    case CmdShove => SHOVE
    case CmdYoink => YOINK
    case CmdYeet => YEET
    case CmdPeek => PEEK
    case CmdKeys => KEYS
    case CmdNuke => NUKE
    case CmdStats => STATS
    case CmdHelp => HELP
  }

  /** In capitals or small letters. */
  function Verb(c: CommandType, lower: bool): bytes {
    Spelled(VerbType(c), lower)
  }

  predicate TakesKey(c: CommandType) {
    c == CmdShove || c == CmdYoink || c == CmdYeet || c == CmdPeek
  }

  predicate Gap(g: bytes) {
    g != [] && AllBlank(g)
  }

  /** What may stand for a key: a text behind a quote or a word that is no keyword. */
  ghost predicate Names(p: Piece) {
    p.Quoted? || p.Unclosed? || (p.Word? && !KeywordText(p.w))
  }

  lemma NamesIff(p: Piece)
    ensures Names(p) <==> IsKey(PieceToken(p))
    ensures Names(p) || p.Number? <==> IsValue(PieceToken(p))
  {
    hide LookupIdent, KeywordText;
    if p.Word? {
      IdentIff(p.w);
      TableLookup(p.w);
    }
  }

  lemma VerbFirst(c: CommandType, lower: bool, rest: bytes)
    requires EndsBefore(Word(Verb(c, lower)), rest)
    ensures Tokens(Verb(c, lower) + rest, 0) == Cons(Token(VerbType(c), Verb(c, lower)), Tokens(rest, 0))
  {
    hide LookupIdent, Spelled, Tokens;
    WordFirst(Verb(c, lower), rest);
    KeywordIff(Verb(c, lower), VerbType(c));
  }

  lemma GapEnds(p: Piece, gap: bytes, s: bytes)
    requires Gap(gap) && !p.Unclosed?
    ensures EndsBefore(p, gap + s)
  {
    assert (gap + s)[0] == gap[0];
  }

  lemma BlanksEnd(p: Piece, gap: bytes)
    requires AllBlank(gap) && !p.Unclosed?
    ensures EndsBefore(p, gap)
  {
  }

  /** Behind a gap a piece is read as its own token. */
  lemma NextPiece(gap: bytes, p: Piece, rest: bytes)
    requires AllBlank(gap) && Proper(p) && EndsBefore(p, rest)
    ensures Tokens(gap + (Text(p) + rest), 0) == Cons(PieceToken(p), Tokens(rest, 0))
  {
    hide Tokens, Proper, EndsBefore, Text, PieceToken;
    BlanksFirst(gap, Text(p) + rest);
    PieceFirst(p, rest);
  }

  lemma OnlyBlanks(gap: bytes)
    requires AllBlank(gap)
    ensures Tokens(gap, 0) == Some([EOF_TOKEN])
  {
    hide Tokens;
    assert gap + [] == gap;
    BlanksFirst(gap, []);
    NothingLeft();
  }

  // ---------- lines of one word ----------

  /** Blanks in front of a line do nothing. */
  lemma LeadingBlanks(gap: bytes, line: bytes)
    requires AllBlank(gap)
    ensures ParseSpec(gap + line) == ParseSpec(line)
  {
    BlanksFirst(gap, line);
  }

  lemma BlankLine(gap: bytes)
    requires AllBlank(gap)
    ensures ParseSpec(gap) == Some(Failure(EmptyCommand))
  {
    OnlyBlanks(gap);
  }

  /** KEYS, NUKE, STATS and HELP: what follows is not looked at, as long as it can be read. */
  lemma LoneVerb(c: CommandType, lower: bool, rest: bytes)
    requires !TakesKey(c) && EndsBefore(Word(Verb(c, lower)), rest) && Tokens(rest, 0).Some?
    ensures ParseSpec(Verb(c, lower) + rest) == Some(Success(Command(c, [], [], 0)))
  {
    hide Tokens;
    VerbFirst(c, lower, rest);
  }

  /** A line that begins with anything but one of the verbs. */
  lemma NoVerb(p: Piece, rest: bytes)
    requires Proper(p) && EndsBefore(p, rest) && Tokens(rest, 0).Some?
    requires forall c, lower :: p != Word(Verb(c, lower))
    ensures ParseSpec(Text(p) + rest) == Some(Failure(UnknownCommand(Content(p))))
  {
    hide Tokens, LookupIdent, Spelled, Proper, Text, EndsBefore;
    PieceFirst(p, rest);
    if p.Word? {
      forall c
        ensures LookupIdent(p.w) != VerbType(c)
      {
        KeywordIff(p.w, VerbType(c));
        assert p != Word(Verb(c, false)) && p != Word(Verb(c, true));
      }
      VerbTypes(LookupIdent(p.w));
      LexerFacts.NeverEof(p.w);
    }
  }

  lemma VerbTypes(t: TokenType)
    requires forall c :: t != VerbType(c)
    ensures t == TTL || !IsKeyword(t)
  {
    assert VerbType(CmdShove) == SHOVE && VerbType(CmdYoink) == YOINK && VerbType(CmdYeet) == YEET;
    assert VerbType(CmdPeek) == PEEK && VerbType(CmdKeys) == KEYS && VerbType(CmdNuke) == NUKE;
    assert VerbType(CmdStats) == STATS && VerbType(CmdHelp) == HELP;
  }

  // ---------- YOINK, YEET and PEEK ----------

  /** With a key, quoted or not; a number or a keyword is none, and what follows is not looked at. */
  lemma KeyLine(c: CommandType, lower: bool, gap: bytes, k: Piece, rest: bytes)
    requires TakesKey(c) && c != CmdShove && Gap(gap) && Proper(k) && EndsBefore(k, rest) && Tokens(rest, 0).Some?
    ensures ParseSpec(Verb(c, lower) + (gap + (Text(k) + rest)))
            == Some(if Names(k) then Success(Command(c, Content(k), [], 0)) else Failure(ExpectedKey(PieceToken(k))))
  {
    hide Tokens, LookupIdent, Spelled, Proper, Text, EndsBefore, Names, PieceToken;
    GapEnds(Word(Verb(c, lower)), gap, Text(k) + rest);
    VerbFirst(c, lower, gap + (Text(k) + rest));
    NextPiece(gap, k, rest);
    NamesIff(k);
    ContentIs(k);
  }

  lemma ContentIs(p: Piece)
    ensures PieceToken(p).literal == Content(p)
  {
  }

  /** Without a key. */
  lemma MissingKey(c: CommandType, lower: bool, gap: bytes)
    requires TakesKey(c) && AllBlank(gap)
    ensures ParseSpec(Verb(c, lower) + gap) == Some(Failure(ExpectedKey(EOF_TOKEN)))
  {
    hide Tokens, LookupIdent, Spelled;
    BlanksEnd(Word(Verb(c, lower)), gap);
    VerbFirst(c, lower, gap);
    OnlyBlanks(gap);
  }

  // ---------- SHOVE ----------

  function ShoveText(lower: bool, g1: bytes, k: Piece, g2: bytes, v: Piece, rest: bytes): bytes {
    Verb(CmdShove, lower) + (g1 + (Text(k) + (g2 + (Text(v) + rest))))
  }

  lemma ShoveTokens(lower: bool, g1: bytes, k: Piece, g2: bytes, v: Piece, rest: bytes)
    requires Gap(g1) && Gap(g2) && Proper(k) && !k.Unclosed? && Proper(v) && EndsBefore(v, rest)
    requires Tokens(rest, 0).Some?
    ensures Tokens(ShoveText(lower, g1, k, g2, v, rest), 0)
            == Some([Token(SHOVE, Verb(CmdShove, lower)), PieceToken(k), PieceToken(v)] + Tokens(rest, 0).value)
  {
    hide Tokens, LookupIdent, Spelled, Proper, Text, EndsBefore, PieceToken, Gap;
    var behindKey := g2 + (Text(v) + rest);
    var behindVerb := g1 + (Text(k) + behindKey);
    GapEnds(Word(Verb(CmdShove, lower)), g1, Text(k) + behindKey);
    GapEnds(k, g2, Text(v) + rest);
    GapBlank(g1);
    GapBlank(g2);
    VerbFirst(CmdShove, lower, behindVerb);
    NextPiece(g1, k, behindKey);
    NextPiece(g2, v, rest);
    Three(Token(SHOVE, Verb(CmdShove, lower)), PieceToken(k), PieceToken(v), Tokens(rest, 0).value);
  }

  lemma GapBlank(g: bytes)
    requires Gap(g)
    ensures AllBlank(g)
  {
  }

  lemma Three(a: Token, b: Token, c: Token, rest: seq<Token>)
    ensures [a] + ([b] + ([c] + rest)) == [a, b, c] + rest
  {
  }

  /** What is no key is reported first, what is no value next. */
  lemma ShoveRefuses(lower: bool, g1: bytes, k: Piece, g2: bytes, v: Piece, rest: bytes)
    requires Gap(g1) && Gap(g2) && Proper(k) && !k.Unclosed? && Proper(v) && EndsBefore(v, rest)
    requires Tokens(rest, 0).Some?
    requires !Names(k) || !(Names(v) || v.Number?)
    ensures ParseSpec(ShoveText(lower, g1, k, g2, v, rest))
            == Some(Failure(if !Names(k) then ExpectedKey(PieceToken(k)) else ExpectedValue(PieceToken(v))))
  {
    hide Tokens, ShoveText, Proper, EndsBefore, PieceToken, Names;
    ShoveTokens(lower, g1, k, g2, v, rest);
    NamesIff(k);
    NamesIff(v);
  }

  /** With a key and without a value. */
  lemma MissingValue(lower: bool, g1: bytes, k: Piece, gap: bytes)
    requires Gap(g1) && Proper(k) && AllBlank(gap) && EndsBefore(k, gap)
    ensures ParseSpec(Verb(CmdShove, lower) + (g1 + (Text(k) + gap)))
            == Some(Failure(if Names(k) then ExpectedValue(EOF_TOKEN) else ExpectedKey(PieceToken(k))))
  {
    hide Tokens, LookupIdent, Spelled, Proper, Text, EndsBefore, Names, PieceToken;
    GapEnds(Word(Verb(CmdShove, lower)), g1, Text(k) + gap);
    VerbFirst(CmdShove, lower, g1 + (Text(k) + gap));
    NextPiece(g1, k, gap);
    OnlyBlanks(gap);
    NamesIff(k);
  }

  /** A key and a value, and no TTL right behind them: stored for good. */
  lemma ShovePlain(lower: bool, g1: bytes, k: Piece, g2: bytes, v: Piece, rest: bytes)
    requires Gap(g1) && Gap(g2) && Proper(k) && !k.Unclosed? && Proper(v) && EndsBefore(v, rest)
    requires Names(k) && (Names(v) || v.Number?)
    requires Tokens(rest, 0).Some? && Tokens(rest, 0).value[0].ttype != TTL
    ensures ParseSpec(ShoveText(lower, g1, k, g2, v, rest))
            == Some(Success(Command(CmdShove, Content(k), Content(v), 0)))
  {
    hide Tokens, ShoveText, Proper, EndsBefore, PieceToken, Names;
    ShoveTokens(lower, g1, k, g2, v, rest);
    NamesIff(k);
    NamesIff(v);
    ContentIs(k);
    ContentIs(v);
  }

  lemma NumberIsDigits(n: Piece)
    requires Proper(n) && n.Number?
    ensures n.d != [] && AllDigits(n.d)
  {
  }

  function NumberValue(n: Piece): nat
    requires Proper(n) && n.Number?
  {
    NumberIsDigits(n);
    DecValue(n.d)
  }

  /** What stands behind TTL: a number of at most 2^63 - 1, or an error. */
  lemma ShoveTtl(lower: bool, g1: bytes, k: Piece, g2: bytes, v: Piece,
                 g3: bytes, small: bool, g4: bytes, n: Piece, rest: bytes)
    requires Gap(g1) && Gap(g2) && Gap(g3) && Gap(g4) && Proper(k) && Proper(v) && Proper(n) && EndsBefore(n, rest)
    requires !k.Unclosed? && !v.Unclosed?
    requires Names(k) && (Names(v) || v.Number?) && Tokens(rest, 0).Some?
    ensures ParseSpec(ShoveText(lower, g1, k, g2, v, g3 + (Spelled(TTL, small) + (g4 + (Text(n) + rest)))))
            == Some(if !n.Number? then Failure(TtlNotANumber(PieceToken(n)))
                    else if NumberValue(n) > 9223372036854775807 then Failure(InvalidTtl(n.d))
                    else Success(Command(CmdShove, Content(k), Content(v), NumberValue(n))))
  {
    hide Tokens, Proper, EndsBefore, Names, Gap, DecValue, Spelled, ShoveText, PieceToken;
    ShoveTtlTokens(lower, g1, k, g2, v, g3, small, g4, n, rest);
    NamesIff(k);
    NamesIff(v);
    ContentIs(k);
    ContentIs(v);
    TtlCommand(Token(SHOVE, Verb(CmdShove, lower)), k, v, Token(TTL, Spelled(TTL, small)), n, Tokens(rest, 0).value);
  }

  lemma ShoveTtlTokens(lower: bool, g1: bytes, k: Piece, g2: bytes, v: Piece,
                       g3: bytes, small: bool, g4: bytes, n: Piece, rest: bytes)
    requires Gap(g1) && Gap(g2) && Gap(g3) && Gap(g4) && Proper(k) && Proper(v) && Proper(n) && EndsBefore(n, rest)
    requires !k.Unclosed? && !v.Unclosed?
    requires Tokens(rest, 0).Some?
    ensures Tokens(ShoveText(lower, g1, k, g2, v, g3 + (Spelled(TTL, small) + (g4 + (Text(n) + rest)))), 0)
            == Some([Token(SHOVE, Verb(CmdShove, lower)), PieceToken(k), PieceToken(v)]
                    + ([Token(TTL, Spelled(TTL, small))] + ([PieceToken(n)] + Tokens(rest, 0).value)))
  {
    hide Tokens, Proper, EndsBefore, Gap, Spelled, ShoveText, PieceToken, Text;
    var count := g4 + (Text(n) + rest);
    GapBlank(g3);
    GapBlank(g4);
    GapEnds(Word(Spelled(TTL, small)), g4, Text(n) + rest);
    TtlFirst(small, count);
    NextPiece(g4, n, rest);
    BlanksFirst(g3, Spelled(TTL, small) + count);
    GapEnds(v, g3, Spelled(TTL, small) + count);
    ShoveTokens(lower, g1, k, g2, v, g3 + (Spelled(TTL, small) + count));
  }

  lemma TtlCommand(verb: Token, k: Piece, v: Piece, ttl: Token, n: Piece, rest: seq<Token>)
    requires ttl.ttype == TTL && Proper(n) && IsKey(PieceToken(k)) && IsValue(PieceToken(v))
    ensures ShoveCommand([verb, PieceToken(k), PieceToken(v)] + ([ttl] + ([PieceToken(n)] + rest)))
            == if !n.Number? then Failure(TtlNotANumber(PieceToken(n)))
               else if NumberValue(n) > 9223372036854775807 then Failure(InvalidTtl(n.d))
               else Success(Command(CmdShove, Content(k), Content(v), NumberValue(n)))
  {
    hide LookupIdent, DecValue, Proper;
    ContentIs(k);
    ContentIs(v);
    if n.Number? {
      NumberIsDigits(n);
    } else if n.Word? {
      TableLookup(n.w);
    }
  }

  lemma TtlFirst(small: bool, rest: bytes)
    requires EndsBefore(Word(Spelled(TTL, small)), rest)
    ensures Tokens(Spelled(TTL, small) + rest, 0) == Cons(Token(TTL, Spelled(TTL, small)), Tokens(rest, 0))
  {
    hide LookupIdent, Tokens;
    WordFirst(Spelled(TTL, small), rest);
    KeywordIff(Spelled(TTL, small), TTL);
  }

  /** TTL with nothing behind it. */
  lemma MissingTtl(lower: bool, g1: bytes, k: Piece, g2: bytes, v: Piece, g3: bytes, small: bool, gap: bytes)
    requires Gap(g1) && Gap(g2) && Gap(g3) && AllBlank(gap) && Proper(k) && Proper(v)
    requires !k.Unclosed? && !v.Unclosed?
    requires Names(k) && (Names(v) || v.Number?)
    ensures ParseSpec(ShoveText(lower, g1, k, g2, v, g3 + (Spelled(TTL, small) + gap)))
            == Some(Failure(TtlNotANumber(EOF_TOKEN)))
  {
    hide Tokens, Proper, EndsBefore, Names, Gap, Spelled, ShoveText, PieceToken;
    GapBlank(g3);
    BlanksEnd(Word(Spelled(TTL, small)), gap);
    TtlFirst(small, gap);
    OnlyBlanks(gap);
    BlanksFirst(g3, Spelled(TTL, small) + gap);
    GapEnds(v, g3, Spelled(TTL, small) + gap);
    ShoveTokens(lower, g1, k, g2, v, g3 + (Spelled(TTL, small) + gap));
    NamesIff(k);
    NamesIff(v);
  }
}

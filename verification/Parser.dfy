/** RQL commands and the parser: a cursor over the tokens. */
module Parsers {
  import opened Wrappers
  import opened ByteStrings
  import opened Lexers

  datatype CommandType = CmdShove | CmdYoink | CmdYeet | CmdPeek | CmdKeys | CmdNuke | CmdStats | CmdHelp

  /** ttl 0 means no expiration. */
  datatype Command = Command(ctype: CommandType, key: bytes, value: bytes, ttl: int)

  datatype ParseError = EmptyCommand | UnknownCommand(literal: bytes) | ExpectedKey(got: Token)
                      | ExpectedValue(got: Token) | TtlNotANumber(got: Token) | InvalidTtl(literal: bytes)

  const MAX_I64: int := 0x7FFF_FFFF_FFFF_FFFF

  predicate AllDigits(s: bytes) {
    forall i :: 0 <= i < |s| ==> IsDigit(s[i])
  }

  function DecValue(s: bytes): nat
    requires AllDigits(s)
    decreases s
  {
    if s == [] then 0 else 10 * DecValue(s[..|s| - 1]) + (s[|s| - 1] - 48)
  }

  /** strconv.ParseInt(s, 10, 64) on the unsigned literals the lexer makes. */
  function ParseInt64(s: bytes): Option<int> {
    if s == [] || !AllDigits(s) then None
    else if DecValue(s) > MAX_I64 then None
    else Some(DecValue(s))
  }

  const EOF_TOKEN := Token(EOF, [])

  function TokenAt(ts: seq<Token>, i: nat): Token {
    if i < |ts| then ts[i] else EOF_TOKEN
  }

  predicate IsKey(t: Token) {
    t.ttype == IDENT || t.ttype == STRING
  }

  predicate IsValue(t: Token) {
    t.ttype == STRING || t.ttype == IDENT || t.ttype == NUMBER
  }

  // ---------- what a token sequence means ----------

  function KeyCommand(c: CommandType, ts: seq<Token>): Result<Command, ParseError> {
    var k := TokenAt(ts, 1);
    if !IsKey(k) then Failure(ExpectedKey(k)) else Success(Command(c, k.literal, [], 0))
  }

  function ShoveCommand(ts: seq<Token>): Result<Command, ParseError> {
    var k, v := TokenAt(ts, 1), TokenAt(ts, 2);
    if !IsKey(k) then Failure(ExpectedKey(k))
    else if !IsValue(v) then Failure(ExpectedValue(v))
    else if TokenAt(ts, 3).ttype != TTL then Success(Command(CmdShove, k.literal, v.literal, 0))
    else
      var n := TokenAt(ts, 4);
      if n.ttype != NUMBER then Failure(TtlNotANumber(n))
      else
        match ParseInt64(n.literal)
        case None => Failure(InvalidTtl(n.literal))
        case Some(ttl) => Success(Command(CmdShove, k.literal, v.literal, ttl))
  }

  function CommandOf(ts: seq<Token>): Result<Command, ParseError> {
    match TokenAt(ts, 0).ttype
    case SHOVE => ShoveCommand(ts)
    case YOINK => KeyCommand(CmdYoink, ts)
    case YEET => KeyCommand(CmdYeet, ts)
    case PEEK => KeyCommand(CmdPeek, ts)
    case KEYS => Success(Command(CmdKeys, [], [], 0))
    case NUKE => Success(Command(CmdNuke, [], [], 0))
    case STATS => Success(Command(CmdStats, [], [], 0))
    case HELP => Success(Command(CmdHelp, [], [], 0))
    case EOF => Failure(EmptyCommand)
    case _ => Failure(UnknownCommand(TokenAt(ts, 0).literal))
  }

  // ---------- the cursor ----------

  class Parser {
    const tokens: seq<Token>
    var pos: nat

    constructor (tokens: seq<Token>)
      ensures this.tokens == tokens && pos == 0
    {
      this.tokens, pos := tokens, 0;
    }

    function Current(): (t: Token)
      reads this
      ensures t == TokenAt(tokens, pos)
    {
      if pos >= |tokens| then EOF_TOKEN else tokens[pos]
    }

    method Advance() returns (t: Token)
      modifies this
      ensures t == TokenAt(tokens, old(pos)) && pos == old(pos) + 1
    {
      t := Current();
      pos := pos + 1;
    }

    method Expect(tt: TokenType) returns (r: Result<Token, Token>)
      modifies this
      ensures var t := TokenAt(tokens, old(pos));
              if t.ttype == tt then r == Success(t) && pos == old(pos) + 1 else r == Failure(t) && pos == old(pos)
    {
      var tok := Current();
      if tok.ttype != tt {
        return Failure(tok);
      }
      var _ := Advance();
      return Success(tok);
    }

    /** The key of YOINK, YEET and PEEK. */
    method ParseKeyCommand(c: CommandType) returns (r: Result<Command, ParseError>)
      requires pos == 0
      modifies this
      ensures r == KeyCommand(c, tokens)
    {
      var _ := Advance();
      var keyTok := Advance();
      if keyTok.ttype != IDENT && keyTok.ttype != STRING {
        return Failure(ExpectedKey(keyTok));
      }
      return Success(Command(c, keyTok.literal, [], 0));
    }

    method ParseShove() returns (r: Result<Command, ParseError>)
      requires pos == 0
      modifies this
      ensures r == ShoveCommand(tokens)
    {
      var _ := Advance();
      var keyTok := Advance();
      if keyTok.ttype != IDENT && keyTok.ttype != STRING {
        return Failure(ExpectedKey(keyTok));
      }
      var valTok := Advance();
      if valTok.ttype != STRING && valTok.ttype != IDENT && valTok.ttype != NUMBER {
        return Failure(ExpectedValue(valTok));
      }
      var cmd := Command(CmdShove, keyTok.literal, valTok.literal, 0);
      if Current().ttype == TTL {
        var _ := Advance();
        var ttlTok := Expect(NUMBER);
        if ttlTok.Failure? {
          return Failure(TtlNotANumber(ttlTok.error));
        }
        var ttl := ParseInt64(ttlTok.value.literal);
        if ttl.None? {
          return Failure(InvalidTtl(ttlTok.value.literal));
        }
        cmd := cmd.(ttl := ttl.value);
      }
      return Success(cmd);
    }

    method ParseCommand() returns (r: Result<Command, ParseError>)
      requires pos == 0
      modifies this
      ensures r == CommandOf(tokens)
    {
      var tok := Current();
      match tok.ttype {
        case SHOVE => r := ParseShove();
        case YOINK => r := ParseKeyCommand(CmdYoink);
        case YEET => r := ParseKeyCommand(CmdYeet);
        case PEEK => r := ParseKeyCommand(CmdPeek);
        case KEYS =>
          var _ := Advance();
          return Success(Command(CmdKeys, [], [], 0));
        case NUKE =>
          var _ := Advance();
          return Success(Command(CmdNuke, [], [], 0));
        case STATS =>
          var _ := Advance();
          return Success(Command(CmdStats, [], [], 0));
        case HELP =>
          var _ := Advance();
          return Success(Command(CmdHelp, [], [], 0));
        case EOF => return Failure(EmptyCommand);
        case _ => return Failure(UnknownCommand(tok.literal));
      }
    }
  }

  function ParseSpec(input: bytes): Option<Result<Command, ParseError>> {
    match Tokens(input, 0)
    case None => None
    case Some(ts) => Some(CommandOf(ts))
  }

  /** None is the lexer's panic. */
  method Parse(input: bytes) returns (r: Option<Result<Command, ParseError>>)
    ensures r == ParseSpec(input)
  {
    var lexer := new Lexer(input);
    var tokens := lexer.Tokenize();
    if tokens == None {
      return None;
    }
    var p := new Parser(tokens.value);
    var cmd := p.ParseCommand();
    return Some(cmd);
  }
}

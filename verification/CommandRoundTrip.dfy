/** Commands written out and parsed again. */
module CommandRoundTrip {
  import opened Wrappers
  import opened ByteStrings
  import opened Lexers
  import opened Parsers
  import opened TokenTexts
  import opened CommandTexts

  // ---------- canonical text ----------

  /** Fields a command does not have are empty. */
  predicate Canonical(c: Command) {
    && (if c.ctype == CmdShove then 0 <= c.ttl <= MAX_I64 else c.ttl == 0 && c.value == [])
    && (!TakesKey(c.ctype) ==> c.key == [])
  }

  /** Capitals or small letters, single or double quotes, and what stands between the words. */
  datatype Style = Style(lower: bool, q: byte, gap: bytes)

  predicate Usable(st: Style) {
    (st.q == 34 || st.q == 39) && Gap(st.gap)
  }

  function RenderTtl(ttl: nat, st: Style): bytes {
    if ttl == 0 then [] else st.gap + (Spelled(TTL, st.lower) + (st.gap + (Decimal(ttl) + [])))
  }

  function Render(c: Command, st: Style): bytes
    requires Canonical(c)
  {
    if c.ctype == CmdShove then
      ShoveText(st.lower, st.gap, Quoted(st.q, c.key), st.gap, Quoted(st.q, c.value), RenderTtl(c.ttl, st))
    else if TakesKey(c.ctype) then Verb(c.ctype, st.lower) + (st.gap + (Text(Quoted(st.q, c.key)) + []))
    else Verb(c.ctype, st.lower) + []
  }

  lemma NothingToQuote(q: byte)
    ensures Quotable([], q)
  {
  }

  /**
   A command with text that can be quoted is read back unchanged, TTL
   included; any other is not. This holds in capitals and small letters, with
   either quote and any white space between the words.
   */
  lemma RoundTripIff(c: Command, st: Style)
    requires Canonical(c) && Usable(st)
    ensures ParseSpec(Render(c, st)) == Some(Success(c)) <==> Quotable(c.key, st.q) && Quotable(c.value, st.q)
  {
    hide Tokens, Quotable, ParseSpec, Spelled;
    NothingLeft();
    NothingToQuote(st.q);
    if c.ctype == CmdShove {
      ShoveRoundTrip(c, st);
    } else if TakesKey(c.ctype) {
      KeyRoundTrip(c, st);
    } else {
      LoneVerb(c.ctype, st.lower, []);
    }
  }

  lemma KeyRoundTrip(c: Command, st: Style)
    requires Canonical(c) && Usable(st) && TakesKey(c.ctype) && c.ctype != CmdShove
    ensures ParseSpec(Render(c, st)) == Some(Success(c)) <==> Quotable(c.key, st.q)
  {
    hide Tokens, Quotable, Spelled, LookupIdent;
    var k := Quoted(st.q, c.key);
    NothingLeft();
    if Quotable(c.key, st.q) {
      KeyLine(c.ctype, st.lower, st.gap, k, []);
    } else {
      GapEnds(Word(Verb(c.ctype, st.lower)), st.gap, Text(k) + []);
      VerbFirst(c.ctype, st.lower, st.gap + (Text(k) + []));
      BlanksFirst(st.gap, Text(k) + []);
      QuotedFirst(c.key, st.q, []);
    }
  }

  lemma TtlTail(ttl: nat, st: Style)
    requires Usable(st)
    ensures Tokens(RenderTtl(ttl, st), 0).Some?
    ensures ttl == 0 ==> Tokens(RenderTtl(ttl, st), 0).value[0].ttype != TTL
  {
    hide Tokens, Spelled, Decimal, Proper;
    NothingLeft();
    if ttl > 0 {
      var n := Number(Decimal(ttl));
      var count := st.gap + (Decimal(ttl) + []);
      GapEnds(Word(Spelled(TTL, st.lower)), st.gap, Decimal(ttl) + []);
      NextPiece(st.gap, n, []);
      TtlFirst(st.lower, count);
      BlanksFirst(st.gap, Spelled(TTL, st.lower) + count);
    }
  }

  lemma ShoveRoundTrip(c: Command, st: Style)
    requires Canonical(c) && Usable(st) && c.ctype == CmdShove
    ensures ParseSpec(Render(c, st)) == Some(Success(c)) <==> Quotable(c.key, st.q) && Quotable(c.value, st.q)
  {
    hide Tokens, Quotable, Spelled, LookupIdent, ParseSpec, ShoveText, RenderTtl, Decimal;
    var k, v, tail := Quoted(st.q, c.key), Quoted(st.q, c.value), RenderTtl(c.ttl, st);
    TtlTail(c.ttl, st);
    if Quotable(c.key, st.q) && Quotable(c.value, st.q) {
      if c.ttl == 0 {
        ShovePlain(st.lower, st.gap, k, st.gap, v, tail);
      } else {
        NothingLeft();
        PlainDecimal(c.ttl);
        ShoveTtl(st.lower, st.gap, k, st.gap, v, st.gap, st.lower, st.gap, Number(Decimal(c.ttl)), []);
        TtlText(c.ttl, st);
      }
    } else {
      BadQuotes(c, st);
    }
  }

  lemma TtlText(ttl: nat, st: Style)
    requires ttl > 0
    ensures RenderTtl(ttl, st)
            == st.gap + (Spelled(TTL, st.lower) + (st.gap + (Text(Number(Decimal(ttl))) + [])))
  {
  }

  lemma PlainDecimal(n: nat)
    ensures AllDigits(Decimal(n)) && DecValue(Decimal(n)) == n
  {
    DecimalValue(0, n);
    assert Noughts(0) + Decimal(n) == Decimal(n);
  }

  /** Where the text of key or value is left early, the token says something else. */
  lemma BadQuotes(c: Command, st: Style)
    requires Canonical(c) && Usable(st) && c.ctype == CmdShove
    requires !Quotable(c.key, st.q) || !Quotable(c.value, st.q)
    ensures ParseSpec(Render(c, st)) != Some(Success(c))
  {
    hide Tokens, Quotable, Spelled, LookupIdent, RenderTtl, Text;
    var k, v, tail := Quoted(st.q, c.key), Quoted(st.q, c.value), RenderTtl(c.ttl, st);
    var behindKey := st.gap + (Text(v) + tail);
    GapEnds(Word(Verb(CmdShove, st.lower)), st.gap, Text(k) + behindKey);
    VerbFirst(CmdShove, st.lower, st.gap + (Text(k) + behindKey));
    BlanksFirst(st.gap, Text(k) + behindKey);
    QuotedFirst(c.key, st.q, behindKey);
    BlanksFirst(st.gap, Text(v) + tail);
    QuotedFirst(c.value, st.q, tail);
  }
}

/** What tokenizing promises on every input: when it panics, how much it can yield, and where tokens come from. */
module LexerFacts {
  import opened Wrappers
  import opened ByteStrings
  import opened Lexers

  // ---------- panics ----------

  /** A reader that takes one byte at a time and remembers only whether it is inside a string. */
  datatype Mode = Outside | Inside(q: byte) | Escaped(q: byte) | Stopped

  function StepMode(m: Mode, c: byte): Mode {
    match m
    case Outside => if c == 0 then Stopped else if c == DQUOTE || c == SQUOTE then Inside(c) else Outside
    case Inside(q) => if c == q then Outside else if c == 0 then Stopped else if c == BACKSLASH then Escaped(q) else m
    case Escaped(q) => Inside(q)
    case Stopped => Stopped
  }

  function ReadFrom(s: bytes, i: nat, m: Mode): Mode
    requires i <= |s|
    decreases |s| - i
  {
    if i == |s| then m else ReadFrom(s, i + 1, StepMode(m, s[i]))
  }

  lemma {:induction false} StoppedStays(s: bytes, i: nat)
    requires i <= |s|
    ensures ReadFrom(s, i, Stopped) == Stopped
    decreases |s| - i
  {
    if i < |s| {
      StoppedStays(s, i + 1);
    }
  }

  lemma {:induction false} OutsideBySpace(s: bytes, i: nat)
    requires i <= |s|
    ensures SkipSpace(s, i) <= |s| && ReadFrom(s, i, Outside) == ReadFrom(s, SkipSpace(s, i), Outside)
    decreases |s| - i
  {
    if i < |s| && IsSpace(s[i]) {
      OutsideBySpace(s, i + 1);
    }
  }

  lemma {:induction false} OutsideByDigits(s: bytes, i: nat)
    requires i <= |s|
    ensures ScanDigits(s, i) <= |s| && ReadFrom(s, i, Outside) == ReadFrom(s, ScanDigits(s, i), Outside)
    decreases |s| - i
  {
    if i < |s| && IsDigit(s[i]) {
      OutsideByDigits(s, i + 1);
    }
  }

  lemma {:induction false} OutsideByWord(s: bytes, i: nat)
    requires i <= |s|
    ensures ScanWord(s, i) <= |s| && ReadFrom(s, i, Outside) == ReadFrom(s, ScanWord(s, i), Outside)
    decreases |s| - i
  {
    if i < |s| && IsWordByte(s[i]) {
      OutsideByWord(s, i + 1);
    }
  }

  /** The four ways a string body can end. */
  lemma {:induction false} InsideString(s: bytes, i: nat, q: byte)
    requires i <= |s| && (q == DQUOTE || q == SQUOTE)
    ensures var e := ScanString(s, i, q);
            var m := ReadFrom(s, i, Inside(q));
            if e > |s| then m == Escaped(q)
            else if e == |s| then m == Inside(q)
            else if s[e] == q then m == ReadFrom(s, e + 1, Outside)
            else s[e] == 0 && m == Stopped
    decreases |s| - i
  {
    if i < |s| && s[i] != q && s[i] != 0 {
      if s[i] != BACKSLASH {
        InsideString(s, i + 1, q);
      } else if i + 1 < |s| {
        InsideString(s, i + 2, q);
      } else {
        assert ReadFrom(s, i + 1, Escaped(q)) == Escaped(q);
      }
    } else if i < |s| && s[i] == 0 {
      StoppedStays(s, i + 1);
    }
  }

  lemma NextModes(s: bytes, i: nat)
    requires i <= |s|
    ensures match NextLexeme(s, i)
            case None => ReadFrom(s, i, Outside).Escaped?
            case Some(l) =>
              if l.tok.ttype == EOF then !ReadFrom(s, i, Outside).Escaped?
              else ReadFrom(s, i, Outside).Escaped? <==> ReadFrom(s, l.next, Outside).Escaped?
  {
    hide LookupIdent;
    OutsideBySpace(s, i);
    var b := SkipSpace(s, i);
    var c := ByteAt(s, b);
    if c == 0 {
      if b < |s| {
        StoppedStays(s, b + 1);
      }
    } else if c == DQUOTE || c == SQUOTE {
      InsideString(s, b + 1, c);
      AfterString(s, b, c);
    } else if IsDigit(c) {
      OutsideByDigits(s, b);
    } else if IsLetter(c) || c == 95 {
      NeverEof(s[b..ScanWord(s, b)]);
      OutsideByWord(s, b);
    }
  }

  lemma NeverEof(w: bytes)
    ensures LookupIdent(w) != EOF
  {
  }

  /** A string ended by NUL leaves the cursor on it, and nothing follows. */
  lemma AfterString(s: bytes, b: nat, q: byte)
    requires b < |s| && (q == DQUOTE || q == SQUOTE)
    ensures var e := ScanString(s, b + 1, q);
            e <= |s| && ByteAt(s, e) != q ==> !ReadFrom(s, e, Outside).Escaped?
  {
    var e := ScanString(s, b + 1, q);
    InsideString(s, b + 1, q);
    if e < |s| && s[e] != q {
      StoppedStays(s, e + 1);
    }
  }

  /**
   Tokenizing panics exactly when the input ends right behind a backslash
   that is still to escape something, inside a string that nothing closed and
   no NUL cut short.
   */
  lemma {:induction false} PanicsIff(s: bytes, i: nat)
    requires i <= |s|
    ensures Tokens(s, i) == None <==> ReadFrom(s, i, Outside).Escaped?
    decreases |s| - i
  {
    hide NextLexeme, ReadFrom;
    NextModes(s, i);
    var r := NextLexeme(s, i);
    if r.Some? && r.value.tok.ttype != EOF {
      PanicsIff(s, r.value.next);
    }
  }

  /** A quote and a backslash are enough. */
  lemma OpenEscapePanics()
    ensures Tokens([DQUOTE, BACKSLASH], 0) == None
  {
    PanicsIff([DQUOTE, BACKSLASH], 0);
  }

  lemma {:induction false} EscapedLast(s: bytes, i: nat, m: Mode)
    requires i <= |s| && ReadFrom(s, i, m).Escaped?
    ensures i == |s| || s[|s| - 1] == BACKSLASH
    decreases |s| - i
  {
    if i < |s| {
      EscapedLast(s, i + 1, StepMode(m, s[i]));
    }
  }

  /** In particular, never on an input that does not end in a backslash. */
  lemma NoPanicWithoutTrailingBackslash(s: bytes)
    requires s == [] || s[|s| - 1] != BACKSLASH
    ensures Tokens(s, 0).Some?
  {
    PanicsIff(s, 0);
    if ReadFrom(s, 0, Outside).Escaped? {
      EscapedLast(s, 0, Outside);
    }
  }

  // ---------- NUL ends the input ----------

  /** s goes on behind p with a NUL. */
  predicate CutByNul(s: bytes, p: bytes) {
    |p| < |s| && s[..|p|] == p && s[|p|] == 0
  }

  lemma SameBytes(s: bytes, p: bytes, i: nat)
    requires CutByNul(s, p) && i <= |p|
    ensures ByteAt(s, i) == ByteAt(p, i)
  {
    if i < |p| {
      assert s[..|p|][i] == p[i];
    }
  }

  lemma {:induction false} SpaceUpToNul(s: bytes, p: bytes, i: nat)
    requires CutByNul(s, p) && i <= |p|
    ensures SkipSpace(s, i) == SkipSpace(p, i) <= |p|
    decreases |p| - i
  {
    SameBytes(s, p, i);
    if IsSpace(ByteAt(p, i)) {
      SpaceUpToNul(s, p, i + 1);
    }
  }

  lemma {:induction false} DigitsUpToNul(s: bytes, p: bytes, i: nat)
    requires CutByNul(s, p) && i <= |p|
    ensures ScanDigits(s, i) == ScanDigits(p, i) <= |p|
    decreases |p| - i
  {
    SameBytes(s, p, i);
    if IsDigit(ByteAt(p, i)) {
      DigitsUpToNul(s, p, i + 1);
    }
  }

  lemma {:induction false} WordUpToNul(s: bytes, p: bytes, i: nat)
    requires CutByNul(s, p) && i <= |p|
    ensures ScanWord(s, i) == ScanWord(p, i) <= |p|
    decreases |p| - i
  {
    SameBytes(s, p, i);
    if IsWordByte(ByteAt(p, i)) {
      WordUpToNul(s, p, i + 1);
    }
  }

  /** A string body that does not end p in an open escape ends no later than the NUL. */
  lemma {:induction false} StringUpToNul(s: bytes, p: bytes, i: nat, q: byte)
    requires CutByNul(s, p) && i <= |p| && !ReadFrom(p, i, Inside(q)).Escaped?
    ensures ScanString(s, i, q) == ScanString(p, i, q) <= |p|
    decreases |p| - i
  {
    SameBytes(s, p, i);
    var c := ByteAt(p, i);
    if c != q && c != 0 {
      if c != BACKSLASH {
        StringUpToNul(s, p, i + 1, q);
      } else if i + 1 < |p| {
        StringUpToNul(s, p, i + 2, q);
      }
    }
  }

  lemma SameSlice(s: bytes, p: bytes, i: nat, j: nat)
    requires CutByNul(s, p) && i <= j <= |p|
    ensures s[i..j] == p[i..j]
  {
    forall x | i <= x < j
      ensures s[x] == p[x]
    {
      SameBytes(s, p, x);
    }
  }

  lemma NextUpToNul(s: bytes, p: bytes, i: nat)
    requires CutByNul(s, p) && i <= |p| && !ReadFrom(p, i, Outside).Escaped?
    ensures NextLexeme(s, i) == NextLexeme(p, i) && NextLexeme(p, i).Some?
  {
    hide LookupIdent, CutByNul;
    SpaceUpToNul(s, p, i);
    OutsideBySpace(p, i);
    var b := SkipSpace(p, i);
    SameBytes(s, p, b);
    var c := ByteAt(p, b);
    if c == DQUOTE || c == SQUOTE {
      StringUpToNul(s, p, b + 1, c);
      var e := ScanString(p, b + 1, c);
      SameBytes(s, p, e);
      SameSlice(s, p, b + 1, e);
      CutIsShorter(s, p);
    } else if IsDigit(c) {
      DigitsUpToNul(s, p, b);
      SameSlice(s, p, b, ScanDigits(p, b));
    } else if IsLetter(c) || c == 95 {
      WordUpToNul(s, p, b);
      SameSlice(s, p, b, ScanWord(p, b));
    }
  }

  lemma CutIsShorter(s: bytes, p: bytes)
    requires CutByNul(s, p)
    ensures |p| < |s|
  {
  }

  lemma {:induction false} TokensUpToNul(s: bytes, p: bytes, i: nat)
    requires CutByNul(s, p) && i <= |p| && !ReadFrom(p, i, Outside).Escaped?
    ensures Lexemes(s, i) == Lexemes(p, i)
    decreases |p| - i
  {
    hide NextLexeme, ReadFrom;
    NextUpToNul(s, p, i);
    NextModes(p, i);
    var l := NextLexeme(p, i).value;
    if l.tok.ttype != EOF {
      TokensUpToNul(s, p, l.next);
    }
  }

  lemma {:induction false} ReadFromSnoc(p: bytes, c: byte, i: nat, m: Mode)
    requires i <= |p|
    ensures ReadFrom(p + [c], i, m) == StepMode(ReadFrom(p, i, m), c)
    decreases |p| - i
  {
    if i < |p| {
      ReadFromSnoc(p, c, i + 1, StepMode(m, p[i]));
    } else {
      assert ReadFrom(p + [c], i + 1, StepMode(m, c)) == StepMode(m, c);
    }
  }

  /** A NUL ends the input, whatever comes behind it, exactly when no open backslash in a string is before it. */
  lemma NulEndsInputIff(p: bytes)
    ensures (forall rest: bytes :: Tokens(p + [0] + rest, 0) == Tokens(p, 0)) <==> !ReadFrom(p, 0, Outside).Escaped?
  {
    hide Lexemes;
    if ReadFrom(p, 0, Outside).Escaped? {
      PanicsIff(p, 0);
      ReadFromSnoc(p, 0, 0, Outside);
      PanicsIff(p + [0], 0);
      assert p + [0] + [] == p + [0];
    } else {
      forall rest: bytes
        ensures Tokens(p + [0] + rest, 0) == Tokens(p, 0)
      {
        var s := p + [0] + rest;
        assert s[..|p|] == p;
        TokensUpToNul(s, p, 0);
      }
    }
  }

  // ---------- how many tokens, and from where ----------

  predicate InOrder(s: bytes, l: Lexeme, from: nat) {
    && from <= l.start <= l.end <= l.next <= |s|
    && (l.tok.ttype != EOF ==> from < l.next)
    && (l.tok.ttype != ILLEGAL ==> l.tok.literal == s[l.start..l.end])
  }

  /** Token j starts where token j - 1 left the cursor. */
  predicate Follows(s: bytes, ls: seq<Lexeme>, j: nat, from: nat)
    requires j < |ls|
  {
    InOrder(s, ls[j], if j == 0 then from else ls[j - 1].next) && (ls[j].tok.ttype == EOF <==> j == |ls| - 1)
  }

  lemma NextInOrder(s: bytes, i: nat)
    requires i <= |s| && NextLexeme(s, i).Some?
    ensures InOrder(s, NextLexeme(s, i).value, i)
  {
    hide LookupIdent;
  }

  /**
   The tokens come from the input left to right without overlap, each takes
   at least one byte except the final EOF, and every literal other than an
   illegal byte's is the piece of the input it names.
   */
  lemma {:induction false} TokensFromInput(s: bytes, i: nat)
    requires i <= |s| && Lexemes(s, i).Some?
    ensures var ls := Lexemes(s, i).value;
            && 1 <= |ls| <= |s| - i + 1
            && forall j :: 0 <= j < |ls| ==> Follows(s, ls, j, i)
    decreases |s| - i
  {
    hide NextLexeme;
    NextInOrder(s, i);
    var l := NextLexeme(s, i).value;
    if l.tok.ttype != EOF {
      TokensFromInput(s, l.next);
      var ls, rest := Lexemes(s, i).value, Lexemes(s, l.next).value;
      assert ls == [l] + rest;
      forall j | 0 <= j < |ls|
        ensures Follows(s, ls, j, i)
      {
        if j > 0 {
          assert Follows(s, rest, j - 1, l.next);
        }
      }
    }
  }
}

/** Splitting SQL statements into tokens. A character stands for a byte of the statement. */
module SqlTokenizer {
  import opened Basics

  predicate IsWhitespace(c: char) {
    c == ' ' || c == '\t'
  }

  predicate IsAlpha(c: char) {
    'a' <= c <= 'z' || 'A' <= c <= 'Z'
  }

  predicate IsDigit(c: char) {
    '0' <= c <= '9'
  }

  predicate IsIdent(c: char) {
    IsAlpha(c) || IsDigit(c) || c == '_'
  }

  datatype TokenType = InvalidToken | SpaceToken | CharToken | IdentToken | QuotedIdentToken | ValueToken | NumberToken

  datatype Token = Token(tokenType: TokenType, text: string)

  /** The outcome of one scan: the end, an error, or a token; and the position after it. */
  datatype Scan = End(next: nat) | Unterminated(next: nat) | Scanned(token: Token, next: nat)

  // ---------------------------------------------------------------------------
  // Where tokens end
  // ---------------------------------------------------------------------------

  /** The end of the identifier characters from `i` on. */
  function IdentEnd(s: string, i: nat): (e: nat)
    requires i <= |s|
    ensures i <= e <= |s|
    ensures forall k :: i <= k < e ==> IsIdent(s[k])
    ensures e < |s| ==> !IsIdent(s[e])
    decreases |s| - i
  {
    if i < |s| && IsIdent(s[i]) then IdentEnd(s, i + 1) else i
  }

  /** The end of a number of which the part before `i` had a point or an exponent: at most one of
      each, and a minus after the exponent. */
  function NumberEnd(s: string, i: nat, hasPunct: bool, hasExp: bool): (e: nat)
    requires i <= |s|
    ensures i <= e <= |s|
    ensures i < |s| && IsDigit(s[i]) ==> i < e
    decreases |s| - i
  {
    if i == |s| then i
    else if s[i] == '.' then if hasPunct then i else NumberEnd(s, i + 1, true, hasExp)
    else if s[i] == 'e' || s[i] == 'E' then
      if hasExp then i
      else NumberEnd(s, if i + 1 < |s| && s[i + 1] == '-' then i + 2 else i + 1, hasPunct, true)
    else if IsDigit(s[i]) then NumberEnd(s, i + 1, hasPunct, hasExp)
    else i
  }

  /** The end of a quoted text of which `i` is inside: after a quote that is neither escaped by
      a backslash nor doubled. */
  function QuoteEnd(s: string, i: nat, quote: char): (e: Option<nat>)
    ensures e.Some? ==> i < e.value <= |s| && s[e.value - 1] == quote
    decreases |s| - i
  {
    if i >= |s| then None
    else if s[i] == '\\' then QuoteEnd(s, i + 2, quote)
    else if s[i] == quote then
      if i + 1 < |s| && s[i + 1] == quote then QuoteEnd(s, i + 2, quote) else Some(i + 1)
    else QuoteEnd(s, i + 1, quote)
  }

  function Quoted(s: string, i: nat, tokenType: TokenType): Scan
    requires i < |s|
  {
    var e := QuoteEnd(s, i + 1, s[i]);
    if e.Some? then Scanned(Token(tokenType, s[i..e.value]), e.value) else Unterminated(|s|)
  }

  /** The scan from a position. A zero byte reads like the end. */
  function ScanAt(s: string, i: nat): Scan
    requires i <= |s|
  {
    if i == |s| then End(i)
    else
      var c := s[i];
      if c == '\0' then End(i + 1)
      else if c == '\'' then Quoted(s, i, ValueToken)
      else if c == '"' || c == '`' then Quoted(s, i, QuotedIdentToken)
      else if IsAlpha(c) || ((c == '_' || c == '?') && i + 1 < |s| && IsIdent(s[i + 1])) then
        Scanned(Token(IdentToken, s[i..IdentEnd(s, i + 1)]), IdentEnd(s, i + 1))
      else if IsDigit(c) then
        Scanned(Token(NumberToken, s[i..NumberEnd(s, i, false, false)]), NumberEnd(s, i, false, false))
      else Scanned(Token(if IsWhitespace(c) then SpaceToken else CharToken, [c]), i + 1)
  }

  /** Every token is exactly the text that was consumed for it, and it is not empty; an
      unterminated quote consumes the rest. */
  lemma ScanConsumes(s: string, i: nat)
    requires i <= |s|
    ensures var scan := ScanAt(s, i);
      && i <= scan.next <= |s| && (i < |s| ==> i < scan.next)
      && (scan.Scanned? ==> i < scan.next && scan.token.text == s[i..scan.next])
      && (scan.Unterminated? ==> i < scan.next == |s|)
  {
  }

  // ---------------------------------------------------------------------------
  // What the scan of a token finds
  // ---------------------------------------------------------------------------

  /** What may stand between quotes: a backslash with the character after it, a doubled quote, or any
      other character, again and again. */
  predicate Quotable(text: string, quote: char) {
    if text == "" then true
    else if text[0] == '\\' then |text| >= 2 && Quotable(text[2..], quote)
    else if text[0] == quote then |text| >= 2 && text[1] == quote && Quotable(text[2..], quote)
    else Quotable(text[1..], quote)
  }

  /** The quoted text ends at a quote, before which stands such a text, and after which no second quote. */
  lemma {:induction false} QuoteEndIff(s: string, i: nat, quote: char, e: nat)
    requires quote != '\\'
    ensures QuoteEnd(s, i, quote) == Some(e)
       <==> i < e <= |s| && s[e - 1] == quote && Quotable(s[i..e - 1], quote) && (e < |s| ==> s[e] != quote)
    decreases |s| - i
  {
    if i < |s| {
      var step := if s[i] == '\\' || (s[i] == quote && i + 1 < |s| && s[i + 1] == quote) then 2 else 1;
      if !(s[i] == quote && step == 1) { QuoteEndIff(s, i + step, quote, e); }
      if i < e <= |s| {
        var text := s[i..e - 1];
        if |text| >= step { assert text[step..] == s[i + step..e - 1]; }
        if text != "" { assert text[0] == s[i]; }
        if |text| >= 2 { assert text[1] == s[i + 1]; }
      }
    }
  }

  /** A value with each backslash and each quote doubled. */
  function Doubled(value: string, quote: char): string {
    if value == "" then ""
    else (if value[0] == '\\' || value[0] == quote then [value[0], value[0]] else [value[0]]) + Doubled(value[1..], quote)
  }

  lemma {:induction false} DoubledIsQuotable(value: string, quote: char)
    ensures Quotable(Doubled(value, quote), quote)
  {
    if value != "" {
      var rest, twice := Doubled(value[1..], quote), value[0] == '\\' || value[0] == quote;
      DoubledIsQuotable(value[1..], quote);
      var text := (if twice then [value[0], value[0]] else [value[0]]) + rest;
      assert text[if twice then 2 else 1..] == rest;
    }
  }

  lemma QuotedAtStart(inner: string, rest: string)
    ensures var text := ['\''] + inner + ['\'']; var s := text + rest;
      s[1..|text| - 1] == inner && s[0] == s[|text| - 1] == '\'' && s[0..|text|] == text && (rest != "" ==> s[|text|] == rest[0])
  {
  }

  /** Any value can be written as one token, whatever follows but another quote. */
  lemma {:induction false} AnyValueQuoted(value: string, rest: string)
    requires rest == "" || rest[0] != '\''
    ensures var text := ['\''] + Doubled(value, '\'') + ['\''];
      ScanAt(text + rest, 0) == Scanned(Token(ValueToken, text), |text|)
  {
    var inner := Doubled(value, '\'');
    var text := ['\''] + inner + ['\''];
    var s := text + rest;
    QuotedAtStart(inner, rest);
    DoubledIsQuotable(value, '\'');
    QuoteEndIff(s, 1, '\'', |text|);
  }

  predicate IsExponent(c: char) {
    c == 'e' || c == 'E'
  }

  predicate NumberChar(s: string, i: nat, k: nat)
    requires i <= k < |s|
  {
    '0' <= s[k] <= '9' || s[k] == '.' || IsExponent(s[k]) || (s[k] == '-' && k > i && IsExponent(s[k - 1]))
  }

  /** From `i` up to `e` there are digits, at most one point, and at most one exponent, after which a
      minus may stand; none of them if there has been one before `i`. */
  predicate NumberIn(s: string, i: nat, e: nat, hasPunct: bool, hasExp: bool) {
    && i <= e <= |s|
    && (forall k :: i <= k < e ==> NumberChar(s, i, k))
    && (forall j, k :: i <= j < k < e ==> !(s[j] == s[k] == '.') && !(IsExponent(s[j]) && IsExponent(s[k])))
    && (forall k :: i <= k < e ==> !(hasPunct && s[k] == '.') && !(hasExp && IsExponent(s[k])))
  }

  /** One point, one exponent with or without a minus, or one digit is taken off a number. */
  lemma NumberStep(s: string, i: nat, next: nat, e: nat, hasPunct: bool, hasExp: bool)
    requires i < next <= e <= |s| && next == (if IsExponent(s[i]) && i + 1 < |s| && s[i + 1] == '-' then i + 2 else i + 1)
    requires IsDigit(s[i]) || (s[i] == '.' && !hasPunct) || (IsExponent(s[i]) && !hasExp)
    ensures NumberIn(s, i, e, hasPunct, hasExp) <==> NumberIn(s, next, e, hasPunct || s[i] == '.', hasExp || IsExponent(s[i]))
  {
    assert forall k :: next <= k < e ==> (NumberChar(s, i, k) <==> NumberChar(s, next, k));
    assert forall k :: i <= k < next ==> NumberChar(s, i, k);
    assert next == i + 2 ==> s[i + 1] == '-';
  }

  lemma {:induction false} NumberEndLongest(s: string, i: nat, hasPunct: bool, hasExp: bool)
    requires i <= |s|
    ensures var e := NumberEnd(s, i, hasPunct, hasExp);
      NumberIn(s, i, e, hasPunct, hasExp) && !NumberIn(s, i, e + 1, hasPunct, hasExp)
    decreases |s| - i
  {
    if i < |s| && (IsDigit(s[i]) || (s[i] == '.' && !hasPunct) || (IsExponent(s[i]) && !hasExp)) {
      var next := if IsExponent(s[i]) && i + 1 < |s| && s[i + 1] == '-' then i + 2 else i + 1;
      var e := NumberEnd(s, i, hasPunct, hasExp);
      NumberContinues(s, i, next, hasPunct, hasExp);
      NumberEndLongest(s, next, hasPunct || s[i] == '.', hasExp || IsExponent(s[i]));
      NumberStep(s, i, next, e, hasPunct, hasExp);
      if e < |s| { NumberStep(s, i, next, e + 1, hasPunct, hasExp); }
    } else {
      NumberStops(s, i, hasPunct, hasExp);
    }
  }

  lemma {:induction false} NumberStops(s: string, i: nat, hasPunct: bool, hasExp: bool)
    requires i <= |s|
    requires i < |s| ==> !(IsDigit(s[i]) || (s[i] == '.' && !hasPunct) || (IsExponent(s[i]) && !hasExp))
    ensures NumberEnd(s, i, hasPunct, hasExp) == i
    ensures NumberIn(s, i, i, hasPunct, hasExp) && !NumberIn(s, i, i + 1, hasPunct, hasExp)
  {
    if i < |s| { assert NumberIn(s, i, i + 1, hasPunct, hasExp) ==> NumberChar(s, i, i); }
  }

  lemma NumberContinues(s: string, i: nat, next: nat, hasPunct: bool, hasExp: bool)
    requires i < |s| && (IsDigit(s[i]) || (s[i] == '.' && !hasPunct) || (IsExponent(s[i]) && !hasExp))
    requires next == if IsExponent(s[i]) && i + 1 < |s| && s[i + 1] == '-' then i + 2 else i + 1
    ensures next <= |s| && NumberEnd(s, i, hasPunct, hasExp) == NumberEnd(s, next, hasPunct || s[i] == '.', hasExp || IsExponent(s[i]))
  {
  }

  /** A number is the longest text of that kind. */
  lemma {:induction false} NumberEndIff(s: string, i: nat, e: nat)
    requires i <= |s|
    ensures NumberEnd(s, i, false, false) == e <==> NumberIn(s, i, e, false, false) && !NumberIn(s, i, e + 1, false, false)
  {
    NumberEndLongest(s, i, false, false);
    var longest := NumberEnd(s, i, false, false);
    if NumberIn(s, i, e, false, false) && !NumberIn(s, i, e + 1, false, false) {
      if e < longest { NumberPrefix(s, i, e + 1, longest); }
      if longest < e { NumberPrefix(s, i, longest + 1, e); }
    }
  }

  lemma NumberPrefix(s: string, i: nat, e: nat, longer: nat)
    requires i <= e <= longer && NumberIn(s, i, longer, false, false)
    ensures NumberIn(s, i, e, false, false)
  {
  }

  /** What kind of token begins at a position, by its first character, and how far it reaches. */
  lemma {:induction false} TokenBegins(s: string, i: nat)
    requires i < |s|
    ensures var c, scan := s[i], ScanAt(s, i);
      if c == '\0' then scan == End(i + 1)
      else if c in {'\'', '"', '`'} then
        (scan.Unterminated? && forall e :: QuoteEnd(s, i + 1, c) != Some(e))
        || (scan.Scanned? && QuoteEnd(s, i + 1, c) == Some(scan.next)
            && scan.token.tokenType == if c == '\'' then ValueToken else QuotedIdentToken)
      else
        && scan.Scanned?
        && (scan.token.tokenType == IdentToken <==> BeginsIdent(s, i))
        && (scan.token.tokenType == IdentToken ==> (forall k :: i < k < scan.next ==> IdentChar(s[k])) && (scan.next < |s| ==> !IdentChar(s[scan.next])))
        && (scan.token.tokenType == NumberToken <==> '0' <= c <= '9')
        && (scan.token.tokenType == NumberToken ==> NumberEnd(s, i, false, false) == scan.next)
        && (scan.token.tokenType == SpaceToken <==> c == ' ' || c == '\t')
        && (scan.token.tokenType in {SpaceToken, CharToken} ==> scan.next == i + 1)
        && scan.token.tokenType in {IdentToken, NumberToken, SpaceToken, CharToken}
  {
  }

  predicate IdentChar(c: char) {
    'a' <= c <= 'z' || 'A' <= c <= 'Z' || '0' <= c <= '9' || c == '_'
  }

  /** A letter, or an underscore or question mark before a letter, digit or underscore. */
  predicate BeginsIdent(s: string, i: nat)
    requires i < |s|
  {
    'a' <= s[i] <= 'z' || 'A' <= s[i] <= 'Z' || ((s[i] == '_' || s[i] == '?') && i + 1 < |s| && IdentChar(s[i + 1]))
  }

  // ---------------------------------------------------------------------------
  // The lexer and the tokenizer
  // ---------------------------------------------------------------------------

  class Lexer {
    const s: string
    var i: nat

    constructor (s: string)
      ensures this.s == s && i == 0
    {
      this.s, i := s, 0;
    }

    predicate Valid()
      reads this
    {
      i < |s|
    }

    method Advance()
      modifies this
      ensures i == if old(i) < |s| then old(i) + 1 else old(i)
    {
      if Valid() {
        i := i + 1;
      }
    }

    method Rewind()
      modifies this
      ensures i == if old(i) > 0 then old(i) - 1 else 0
    {
      if i > 0 {
        i := i - 1;
      }
    }

    method NextByte() returns (c: char)
      modifies this
      ensures c == (if old(i) < |s| then s[old(i)] else '\0')
      ensures i == if old(i) < |s| then old(i) + 1 else old(i)
    {
      c := '\0';
      if i < |s| {
        c := s[i];
        i := i + 1;
      }
    }

    function PeekByte(): char
      reads this
    {
      if i < |s| then s[i] else '\0'
    }

    /** Reads a quoted text of which the quote has been read. */
    method ReadQuotedSQL(quote: char) returns (text: string, ok: bool)
      requires 0 < i <= |s| && s[i - 1] == quote && quote != '\0' && quote != '\\'
      modifies this
      ensures ok <==> QuoteEnd(s, old(i), quote).Some?
      ensures i == if ok then QuoteEnd(s, old(i), quote).value else |s|
      ensures text == s[old(i) - 1..i]
    {
      var pos := i - 1;
      while Valid()
        invariant pos < i <= |s|
        invariant QuoteEnd(s, i, quote) == QuoteEnd(s, old(i), quote)
        decreases |s| - i
      {
        var c := NextByte();
        if c == '\\' {
          Advance();
        } else if c == quote {
          if PeekByte() != quote { return s[pos..i], true; }
          i := i + 1;
        }
      }
      text, ok := s[pos..], false;
    }

    /** Reads a number. */
    method Number() returns (text: string)
      requires i <= |s|
      modifies this
      ensures i == NumberEnd(s, old(i), false, false) && text == s[old(i)..i]
    {
      var hasPunct, hasExp, start := false, false, i;
      while Valid()
        invariant start <= i <= |s|
        invariant NumberEnd(s, i, hasPunct, hasExp) == NumberEnd(s, start, false, false)
        decreases |s| - i
      {
        var c := NextByte();
        if c == '.' {
          if hasPunct {
            Rewind();
            break;
          }
          hasPunct := true;
        } else if c == 'e' || c == 'E' {
          if hasExp {
            Rewind();
            break;
          }
          hasExp := true;
          if PeekByte() == '-' {
            Advance();
          }
        } else if !IsDigit(c) {
          Rewind();
          break;
        }
      }
      text := s[start..i];
    }
  }

  class Tokenizer {
    const s: string
    const lex: Lexer

    constructor (s: string)
      ensures fresh(lex) && lex.s == this.s == s && lex.i == 0
    {
      this.s := s;
      lex := new Lexer(s);
    }

    method Ident() returns (token: Token)
      requires lex.s == s && 0 < lex.i <= |s|
      modifies lex
      ensures lex.i == IdentEnd(s, old(lex.i)) && token == Token(IdentToken, s[old(lex.i) - 1..lex.i])
    {
      var start := lex.i - 1;
      while lex.Valid()
        invariant start < lex.i <= |s| && IdentEnd(s, lex.i) == IdentEnd(s, old(lex.i))
        decreases |s| - lex.i
      {
        var c := lex.PeekByte();
        if !IsIdent(c) { break; }
        lex.Advance();
      }
      token := Token(IdentToken, s[start..lex.i]);
    }

    method QuotedText(c: char, tokenType: TokenType) returns (scan: Scan)
      requires lex.s == s && 0 < lex.i <= |s| && s[lex.i - 1] == c && c != '\0' && c != '\\'
      modifies lex
      ensures scan == Quoted(s, old(lex.i) - 1, tokenType) && lex.i == scan.next
    {
      var text, ok := lex.ReadQuotedSQL(c);
      scan := if ok then Scanned(Token(tokenType, text), lex.i) else Unterminated(lex.i);
    }

    /** The next token, as the scan from the lexer's position says. */
    method NextToken() returns (scan: Scan)
      requires lex.s == s && lex.i <= |s|
      modifies lex
      ensures scan == ScanAt(s, old(lex.i)) && lex.i == scan.next
    {
      var c := lex.NextByte();
      if c == '\0' { return End(lex.i); }
      if c == '\'' {
        scan := QuotedText(c, ValueToken);
        return;
      }
      if c == '"' || c == '`' {
        scan := QuotedText(c, QuotedIdentToken);
        return;
      }
      if (c == '_' || c == '?') && IsIdent(lex.PeekByte()) {
        var token := Ident();
        return Scanned(token, lex.i);
      }
      if IsDigit(c) {
        lex.Rewind();
        var text := lex.Number();
        return Scanned(Token(NumberToken, text), lex.i);
      }
      if IsAlpha(c) {
        var token := Ident();
        return Scanned(token, lex.i);
      }
      var text := s[lex.i - 1..lex.i];
      scan := Scanned(Token(if IsWhitespace(c) then SpaceToken else CharToken, text), lex.i);
    }
  }

  // ---------------------------------------------------------------------------
  // Whole statements
  // ---------------------------------------------------------------------------

  /** The tokens from a position on, up to the end; what is not terminated gives none. */
  function Tokens(s: string, i: nat): (tokens: seq<Token>)
    requires i <= |s|
    decreases |s| - i
  {
    ScanConsumes(s, i);
    match ScanAt(s, i)
    case End(_) => []
    case Unterminated(next) => Tokens(s, next)
    case Scanned(token, next) => [token] + Tokens(s, next)
  }

  function Texts(tokens: seq<Token>): string {
    if tokens == [] then "" else tokens[0].text + Texts(tokens[1..])
  }

  /** No scan from the position on stops before the end of the statement. */
  predicate Clean(s: string, i: nat)
    requires i <= |s|
    decreases |s| - i
  {
    ScanConsumes(s, i);
    match ScanAt(s, i)
    case End(next) => i == |s|
    case Unterminated(_) => false
    case Scanned(_, next) => Clean(s, next)
  }

  /** The texts of the tokens make up the statement if and only if no token begins at a zero byte
      and every quote is terminated; otherwise something is missing at its end. */
  lemma {:induction false} LosslessIff(s: string, i: nat)
    requires i <= |s|
    ensures Texts(Tokens(s, i)) <= s[i..]
    ensures Texts(Tokens(s, i)) == s[i..] <==> Clean(s, i)
    decreases |s| - i
  {
    ScanConsumes(s, i);
    match ScanAt(s, i)
    case End(_) =>
    case Unterminated(next) => LosslessIff(s, next);
    case Scanned(token, next) =>
      LosslessIff(s, next);
      assert Tokens(s, i)[1..] == Tokens(s, next);
      var rest := Texts(Tokens(s, next));
      assert Texts(Tokens(s, i)) == s[i..next] + rest;
      assert s[i..] == s[i..next] + s[next..];
      assert s[next..][..|rest|] == rest;
  }

  /** No scan that is reached from the position on meets an unterminated quote. */
  predicate ErrorFree(s: string, i: nat)
    requires i <= |s|
    decreases |s| - i
  {
    ScanConsumes(s, i);
    match ScanAt(s, i)
    case End(_) => true
    case Unterminated(_) => false
    case Scanned(_, next) => ErrorFree(s, next)
  }

  /** Without zero bytes it is only errors that make a scan stop early. */
  lemma {:induction false} CleanIffErrorFree(s: string, i: nat)
    requires i <= |s| && '\0' !in s
    ensures Clean(s, i) <==> ErrorFree(s, i)
    decreases |s| - i
  {
    ScanConsumes(s, i);
    if ScanAt(s, i).Scanned? { CleanIffErrorFree(s, ScanAt(s, i).next); }
  }

  /** Of a statement without zero bytes nothing is lost if and only if the tokenizer meets no
      error in it. */
  lemma {:induction false} LosslessIffErrorFree(s: string)
    requires '\0' !in s
    ensures Texts(Tokens(s, 0)) == s <==> ErrorFree(s, 0)
  {
    LosslessIff(s, 0);
    CleanIffErrorFree(s, 0);
    assert s[0..] == s;
  }

  /** A quoted value is such a statement. */
  lemma QuotedValueIsKept()
    ensures Texts(Tokens("='a'", 0)) == "='a'"
  {
    var s := "='a'";
    assert QuoteEnd(s, 3, '\'') == Some(4);
    assert ScanAt(s, 1) == Scanned(Token(ValueToken, s[1..4]), 4);
    assert ScanAt(s, 0) == Scanned(Token(CharToken, "="), 1);
    assert ErrorFree(s, 4) && ErrorFree(s, 1);
    LosslessIffErrorFree(s);
  }

  /** A zero byte outside of quotes ends the tokens: what follows it is lost. */
  lemma ZeroLosesTheRest()
    ensures Texts(Tokens("=\0=", 0)) == "="
  {
    var s := "=\0=";
    assert ScanAt(s, 0) == Scanned(Token(CharToken, "="), 1);
    assert ScanAt(s, 1) == End(2);
    assert Tokens(s, 1) == [];
    assert Tokens(s, 0) == [Token(CharToken, "=")];
  }

  const KEYWORDS: set<string> := {"SELECT", "INSERT", "UPDATE", "DELETE", "CREATE", "DROP", "TRUNCATE", "WITH", "FROM",
    "TABLE", "JOIN", "UNION", "WHERE", "GROUP", "LIMIT", "ORDER", "HAVING"}

  function ToUpper(s: string): (r: string)
    ensures |r| == |s|
    ensures forall k :: 0 <= k < |s| ==> r[k] == if 'a' <= s[k] <= 'z' then s[k] - ('a' - 'A') else s[k]
  {
    if s == "" then ""
    else [if 'a' <= s[0] <= 'z' then (s[0] as int - 'a' as int + 'A' as int) as char else s[0]] + ToUpper(s[1..])
  }

  predicate IsSQLKeyword(s: string) {
    ToUpper(s) in KEYWORDS
  }

  /** The keywords among the tokens, as they are written. */
  function Keywords(tokens: seq<Token>): seq<string> {
    if tokens == [] then []
    else if IsKeyword(tokens[0]) then [tokens[0].text] + Keywords(tokens[1..])
    else Keywords(tokens[1..])
  }

  predicate IsKeyword(token: Token) {
    token.tokenType == IdentToken && IsSQLKeyword(token.text)
  }

  /** The keywords are those of the tokens one by one, in order. */
  lemma {:induction false} KeywordsConcat(a: seq<Token>, b: seq<Token>)
    ensures Keywords(a + b) == Keywords(a) + Keywords(b)
    ensures |a| == 1 ==> Keywords(a) == if a[0].tokenType == IdentToken && ToUpper(a[0].text) in KEYWORDS then [a[0].text] else []
  {
    if a == [] {
      assert a + b == b;
    } else {
      KeywordsConcat(a[1..], b);
      assert (a + b)[1..] == a[1..] + b;
      var first := if IsKeyword(a[0]) then [a[0].text] else [];
      assert Keywords(a + b) == first + (Keywords(a[1..]) + Keywords(b)) && Keywords(a) == first + Keywords(a[1..]);
    }
  }

  /** What one token adds to the keywords written so far. */
  lemma {:induction false} KeywordsStep(s: string, i: nat, written: seq<string>)
    requires i <= |s|
    ensures ScanAt(s, i).next <= |s|
    ensures var scan, all := ScanAt(s, i), written + Keywords(Tokens(s, i));
      var now := if scan.Scanned? && IsKeyword(scan.token) then written + [scan.token.text] else written;
      if scan.End? then now == all else now + Keywords(Tokens(s, scan.next)) == all
  {
    var scan := ScanAt(s, i);
    ScanConsumes(s, i);
    if scan.Scanned? {
      FirstKeyword(scan.token, Tokens(s, scan.next), written);
    }
  }

  lemma {:induction false} FirstKeyword(token: Token, more: seq<Token>, written: seq<string>)
    ensures (if IsKeyword(token) then written + [token.text] else written) + Keywords(more) == written + Keywords([token] + more)
  {
    assert ([token] + more)[1..] == more;
  }

  /** What is written to the hash of a statement: its keywords, in order. The loop ends for every
      statement: an error does not stop it, but leaves nothing to read. */
  method HashDBStmt(s: string) returns (written: seq<string>)
    ensures written == Keywords(Tokens(s, 0))
  {
    var tok := new Tokenizer(s);
    written := [];
    while true
      invariant tok.s == tok.lex.s == s && tok.lex.i <= |s| && fresh(tok.lex)
      invariant written + Keywords(Tokens(s, tok.lex.i)) == Keywords(Tokens(s, 0))
      decreases |s| - tok.lex.i
    {
      ScanConsumes(s, tok.lex.i);
      KeywordsStep(s, tok.lex.i, written);
      var scan := tok.NextToken();
      if scan.End? { break; }
      if scan.Scanned? {
        if IsKeyword(scan.token) {
          written := written + [scan.token.text];
        }
      }
    }
  }
}

/** The tokenizer of ConfigParser.tokenize (config_to_json/config_to_json.py:16-47).
    At each position the token classes are tried in their listed order and the
    first class that matches wins (not the longest match): NUMBER, VAR, SORT,
    INDEX, NAME, ASSIGN, the five punctuation marks, OP, SKIP, MISMATCH. */
module ConfigLexer {
  import opened ConfigSyntax
  import ConfigComments

  predicate IsDigit(c: char) { '0' <= c <= '9' }

  predicate IsNameStart(c: char) { 'a' <= c <= 'z' || 'A' <= c <= 'Z' || c == '_' }

  predicate IsNameChar(c: char) { IsNameStart(c) || IsDigit(c) }

  predicate IsSpace(c: char) { c == ' ' || c == '\t' || c == '\n' }

  /** The length of the longest prefix of s whose characters all satisfy p. */
  function RunLength(s: string, p: char -> bool): (k: nat)
    ensures k <= |s|
    ensures forall j :: 0 <= j < k ==> p(s[j])
    ensures k < |s| ==> !p(s[k])
  {
    if s == [] || !p(s[0]) then 0 else 1 + RunLength(s[1..], p)
  }

  /** Python's int() of a run of ASCII digits. */
  function DigitsValue(d: string): nat
  {
    if d == [] then 0 else 10 * DigitsValue(d[..|d| - 1]) + (d[|d| - 1] as int - '0' as int) % 10
  }

  /** What the combined token regex does at the start of s. */
  datatype Match = Emit(token: Token, len: nat) | Skip(len: nat) | Mismatch(c: char)

  /** The token classes of token_specification. MISMATCH, the last class,
      matches any character and is what remains when none of these does. */
  datatype TokenClass =
    | Digits                              // NUMBER
    | Literal(text: string, token: Token) // VAR, SORT, INDEX, ASSIGN
    | Symbol(c: char, token: Token)       // the brackets, COMMA
    | Identifier                          // NAME
    | Operator                            // OP
    | Whitespace                          // SKIP

  /** The classes in the order they are listed, which is the order the
      alternation of the combined regex tries them. */
  const TokenSpecification: seq<TokenClass> := [
    Digits, Literal("var", Var), Literal("sort()", Sort), Literal("index()", Index), Identifier,
    Literal(":=", Assign), Symbol('{', LBrace), Symbol('}', RBrace), Symbol('[', LBrack),
    Symbol(']', RBrack), Symbol(',', Comma), Operator, Whitespace]

  predicate Consumes(c: TokenClass)
  {
    c.Literal? ==> c.text != []
  }

  /** The match of one class at the start of s, if the class matches there. */
  function MatchClass(s: string, c: TokenClass): (o: Option<Match>)
    requires s != [] && Consumes(c)
    ensures o.Some? ==> !o.value.Mismatch? && 0 < o.value.len <= |s|
  {
    match c
    case Digits =>
      if IsDigit(s[0]) then
        var k := RunLength(s, IsDigit);
        Some(Emit(Number(DigitsValue(s[..k])), k))
      else None
    case Literal(text, t) => if ConfigComments.StartsWith(s, text) then Some(Emit(t, |text|)) else None
    case Symbol(c, t) => if s[0] == c then Some(Emit(t, 1)) else None
    case Identifier =>
      if IsNameStart(s[0]) then
        var k := RunLength(s, IsNameChar);
        Some(Emit(Name(s[..k]), k))
      else None
    case Operator =>
      if s[0] == '+' then Some(Emit(Op(Add), 1))
      else if s[0] == '-' then Some(Emit(Op(Sub), 1))
      else if s[0] == '*' then Some(Emit(Op(Mul), 1))
      else None
    case Whitespace => if IsSpace(s[0]) then Some(Skip(RunLength(s, IsSpace))) else None
  }

  /** The first of the classes that matches at the start of s, or MISMATCH. */
  function FirstMatch(s: string, classes: seq<TokenClass>): (m: Match)
    requires s != [] && forall j :: 0 <= j < |classes| ==> Consumes(classes[j])
    ensures (m.Emit? || m.Skip?) ==> 0 < m.len <= |s|
    ensures m.Mismatch? ==> m.c == s[0]
  {
    if classes == [] then Mismatch(s[0])
    else
      match MatchClass(s, classes[0])
      case Some(m) => m
      case None => FirstMatch(s, classes[1..])
  }

  /** One step of re.finditer: the first token class that matches at the start of s. */
  function MatchPrefix(s: string): (m: Match)
    requires s != []
    ensures (m.Emit? || m.Skip?) ==> 0 < m.len <= |s|
    ensures m.Mismatch? ==> m.c == s[0]
  {
    FirstMatch(s, TokenSpecification)
  }

  /** The classes written out in their order: the first one that matches
      decides. */
  lemma MatchPrefixCases(s: string)
    requires s != []
    ensures MatchPrefix(s) ==
      if IsDigit(s[0]) then
        var k := RunLength(s, IsDigit);
        Emit(Number(DigitsValue(s[..k])), k)
      else if ConfigComments.StartsWith(s, "var") then Emit(Var, 3)
      else if ConfigComments.StartsWith(s, "sort()") then Emit(Sort, 6)
      else if ConfigComments.StartsWith(s, "index()") then Emit(Index, 7)
      else if IsNameStart(s[0]) then
        var k := RunLength(s, IsNameChar);
        Emit(Name(s[..k]), k)
      else if ConfigComments.StartsWith(s, ":=") then Emit(Assign, 2)
      else if s[0] == '{' then Emit(LBrace, 1)
      else if s[0] == '}' then Emit(RBrace, 1)
      else if s[0] == '[' then Emit(LBrack, 1)
      else if s[0] == ']' then Emit(RBrack, 1)
      else if s[0] == ',' then Emit(Comma, 1)
      else if s[0] == '+' then Emit(Op(Add), 1)
      else if s[0] == '-' then Emit(Op(Sub), 1)
      else if s[0] == '*' then Emit(Op(Mul), 1)
      else if IsSpace(s[0]) then Skip(RunLength(s, IsSpace))
      else Mismatch(s[0])
  {
    DigitsCase(s);
    KeywordCases(s);
    PunctuationCases(s);
    SymbolCases(s);
  }

  /** NUMBER, tried first. */
  lemma DigitsCase(s: string)
    requires s != []
    ensures MatchPrefix(s) ==
      if IsDigit(s[0]) then
        var k := RunLength(s, IsDigit);
        Emit(Number(DigitsValue(s[..k])), k)
      else FirstMatch(s, TokenSpecification[1..])
  {
    FirstMatchAt(s, TokenSpecification, 0);
    assert TokenSpecification[0..] == TokenSpecification;
  }

  /** VAR, SORT, INDEX and NAME. */
  lemma KeywordCases(s: string)
    requires s != []
    ensures FirstMatch(s, TokenSpecification[1..]) ==
      if ConfigComments.StartsWith(s, "var") then Emit(Var, 3)
      else if ConfigComments.StartsWith(s, "sort()") then Emit(Sort, 6)
      else if ConfigComments.StartsWith(s, "index()") then Emit(Index, 7)
      else if IsNameStart(s[0]) then
        var k := RunLength(s, IsNameChar);
        Emit(Name(s[..k]), k)
      else FirstMatch(s, TokenSpecification[5..])
  {
    NameCase(s);
    var spec := TokenSpecification;
    FirstMatchAt(s, spec, 3);
    FirstMatchAt(s, spec, 2);
    FirstMatchAt(s, spec, 1);
  }

  /** NAME, tried after the keywords. */
  lemma NameCase(s: string)
    requires s != []
    ensures FirstMatch(s, TokenSpecification[4..]) ==
      if IsNameStart(s[0]) then
        var k := RunLength(s, IsNameChar);
        Emit(Name(s[..k]), k)
      else FirstMatch(s, TokenSpecification[5..])
  {
    FirstMatchAt(s, TokenSpecification, 4);
  }

  /** ASSIGN and the opening and closing braces and brackets up to `[`. */
  lemma PunctuationCases(s: string)
    requires s != []
    ensures FirstMatch(s, TokenSpecification[5..]) ==
      if ConfigComments.StartsWith(s, ":=") then Emit(Assign, 2)
      else if s[0] == '{' then Emit(LBrace, 1)
      else if s[0] == '}' then Emit(RBrace, 1)
      else if s[0] == '[' then Emit(LBrack, 1)
      else FirstMatch(s, TokenSpecification[9..])
  {
    var spec := TokenSpecification;
    FirstMatchAt(s, spec, 8);
    FirstMatchAt(s, spec, 7);
    FirstMatchAt(s, spec, 6);
    FirstMatchAt(s, spec, 5);
  }

  /** `]`, COMMA, OP, SKIP and, when none matches, MISMATCH. */
  lemma SymbolCases(s: string)
    requires s != []
    ensures FirstMatch(s, TokenSpecification[9..]) ==
      if s[0] == ']' then Emit(RBrack, 1)
      else if s[0] == ',' then Emit(Comma, 1)
      else if s[0] == '+' then Emit(Op(Add), 1)
      else if s[0] == '-' then Emit(Op(Sub), 1)
      else if s[0] == '*' then Emit(Op(Mul), 1)
      else if IsSpace(s[0]) then Skip(RunLength(s, IsSpace))
      else Mismatch(s[0])
  {
    var spec := TokenSpecification;
    assert spec[13..] == [];
    FirstMatchAt(s, spec, 12);
    FirstMatchAt(s, spec, 11);
    FirstMatchAt(s, spec, 10);
    FirstMatchAt(s, spec, 9);
  }

  /** Trying the classes from the k-th on: the k-th decides, or the rest do. */
  lemma FirstMatchAt(s: string, classes: seq<TokenClass>, k: nat)
    requires s != [] && k < |classes| && forall j :: 0 <= j < |classes| ==> Consumes(classes[j])
    ensures FirstMatch(s, classes[k..]) ==
            match MatchClass(s, classes[k]) case Some(m) => m case None => FirstMatch(s, classes[k + 1..])
  {
    assert classes[k..][1..] == classes[k + 1..];
  }

  /** The tokens produced before the scan stopped, and the character that
      stopped it (None when the whole text was consumed). */
  datatype Lexed = Lexed(tokens: seq<Token>, stoppedAt: Option<char>)

  /** The tokenizing loop over the whole text. */
  function Lex(s: string): Lexed
    decreases |s|
  {
    if s == [] then Lexed([], None)
    else
      match MatchPrefix(s)
      case Emit(t, k) => var rest := Lex(s[k..]); Lexed([t] + rest.tokens, rest.stoppedAt)
      case Skip(k) => Lex(s[k..])
      case Mismatch(c) => Lexed([], Some(c))
  }

  /** ConfigParser.tokenize: comments removed, then the whole text scanned;
      an unmatched character is an error. */
  function Tokenize(text: string): Result<seq<Token>>
  {
    var l := Lex(ConfigComments.RemoveComments(text));
    if l.stoppedAt.Some? then Err(UnexpectedCharacter(l.stoppedAt.value)) else Ok(l.tokens)
  }

  // ---------------------------------------------------------------------------
  // Properties of the scan

  /** A text that starts with another character than the prefix does not start with the prefix. */
  lemma DiffersAtStart(s: string, prefix: string)
    requires s != [] && prefix != [] && s[0] != prefix[0]
    ensures !ConfigComments.StartsWith(s, prefix)
  {
    DiffersAt(s, prefix, 0);
  }

  /** A text that differs from the prefix at some index within both does not start with it. */
  lemma DiffersAt(s: string, prefix: string, k: nat)
    requires k < |s| && k < |prefix| && s[k] != prefix[k]
    ensures !ConfigComments.StartsWith(s, prefix)
  {
    if |prefix| <= |s| {
      assert s[..|prefix|][k] != prefix[k];
    }
  }

  /** At a whitespace character the SKIP class is the first that matches. */
  lemma MatchSpace(s: string)
    requires s != [] && IsSpace(s[0])
    ensures MatchPrefix(s) == Skip(RunLength(s, IsSpace))
  {
    MatchPrefixCases(s);
    DiffersAtStart(s, "var");
    DiffersAtStart(s, "sort()");
    DiffersAtStart(s, "index()");
    DiffersAtStart(s, ":=");
  }

  /** A whitespace character produces no token: the scan continues as if it were absent. */
  lemma SpaceIsDropped(c: char, s: string)
    requires IsSpace(c)
    ensures Lex([c] + s) == Lex(s)
  {
    var t := [c] + s;
    assert t[1..] == s;
    MatchSpace(t);
    if s != [] && IsSpace(s[0]) {
      var j := RunLength(s, IsSpace);
      RunLengthCons(c, s, IsSpace);
      assert t[1 + j..] == s[j..];
      MatchSpace(s);
    } else {
      assert RunLength(t, IsSpace) == 1;
    }
  }

  /** The run is exactly k long when the first k characters satisfy p and the next one does not. */
  lemma {:induction false} RunLengthIs(s: string, p: char -> bool, k: nat)
    requires k <= |s|
    requires forall j :: 0 <= j < k ==> p(s[j])
    requires k == |s| || !p(s[k])
    ensures RunLength(s, p) == k
  {
    if k > 0 {
      RunLengthIs(s[1..], p, k - 1);
    }
  }

  /** One emitting step of the scan. */
  lemma LexEmits(s: string, t: Token, k: nat)
    requires s != [] && MatchPrefix(s) == Emit(t, k)
    ensures k <= |s|
    ensures Lex(s) == Lexed([t] + Lex(s[k..]).tokens, Lex(s[k..]).stoppedAt)
  {
  }

  /** One step of the scan at offset i of s, by what matches there. */
  lemma LexAt(s: string, i: nat)
    requires i < |s|
    ensures match MatchPrefix(s[i..])
      case Emit(t, k) => i + k <= |s| && Lex(s[i..]) == Lexed([t] + Lex(s[i + k..]).tokens, Lex(s[i + k..]).stoppedAt)
      case Skip(k) => i + k <= |s| && Lex(s[i..]) == Lex(s[i + k..])
      case Mismatch(c) => Lex(s[i..]) == Lexed([], Some(c))
  {
    match MatchPrefix(s[i..])
    case Emit(t, k) => assert s[i..][k..] == s[i + k..];
    case Skip(k) => assert s[i..][k..] == s[i + k..];
    case Mismatch(c) =>
  }

  lemma RunLengthCons(c: char, s: string, p: char -> bool)
    requires p(c)
    ensures RunLength([c] + s, p) == 1 + RunLength(s, p)
  {
    assert ([c] + s)[1..] == s;
  }

  /** A run of whitespace produces no token. */
  lemma {:induction false} WhitespaceIsDropped(w: string, s: string)
    requires forall j :: 0 <= j < |w| ==> IsSpace(w[j])
    ensures Lex(w + s) == Lex(s)
  {
    if w == [] {
      assert w + s == s;
    } else {
      assert w + s == [w[0]] + (w[1..] + s);
      SpaceIsDropped(w[0], w[1..] + s);
      WhitespaceIsDropped(w[1..], s);
    }
  }

  /** A character that starts no token class stops the scan with an error at it,
      whatever follows: a carriage return, a lone `:`, a `(`. */
  lemma UnmatchedCharacterFails(c: char, s: string)
    requires !IsDigit(c) && !IsNameStart(c) && !IsSpace(c)
    requires c !in {'{', '}', '[', ']', ',', '+', '-', '*'}
    requires c == ':' ==> s == [] || s[0] != '='
    ensures Lex([c] + s) == Lexed([], Some(c))
  {
    var t := [c] + s;
    assert t[0] == c;
    MatchPrefixCases(t);
    DiffersAtStart(t, "var");
    DiffersAtStart(t, "sort()");
    DiffersAtStart(t, "index()");
    if c != ':' {
      DiffersAtStart(t, ":=");
    } else if s != [] {
      DiffersAt(t, ":=", 1);
    }
  }

  // ---------------------------------------------------------------------------
  // Rendering tokens as text, and lexing the rendering back

  /** The decimal digits of n, most significant first. */
  function Decimal(n: nat): (d: string)
    ensures d != []
    ensures forall j :: 0 <= j < |d| ==> IsDigit(d[j])
  {
    if n < 10 then ["0123456789"[n]] else Decimal(n / 10) + ["0123456789"[n % 10]]
  }

  lemma {:induction false} DecimalRoundTrip(n: nat)
    ensures DigitsValue(Decimal(n)) == n
  {
    var d := Decimal(n);
    var c := "0123456789"[n % 10];
    DigitChar(n % 10);
    assert (c as int - '0' as int) % 10 == n % 10;
    if n < 10 {
      assert d == [c] && d[..0] == [];
      assert DigitsValue(d) == 10 * DigitsValue([]) + n % 10;
    } else {
      assert d[..|d| - 1] == Decimal(n / 10) && d[|d| - 1] == c;
      DecimalRoundTrip(n / 10);
      assert DigitsValue(d) == 10 * (n / 10) + n % 10;
    }
  }

  /** The k-th character of "0123456789" stands for k. */
  lemma DigitChar(k: nat)
    requires k < 10
    ensures "0123456789"[k] as int - '0' as int == k
  {
  }

  /** A NAME token the tokenizer can produce: an identifier that does not begin
      with the keyword `var` (which would be split into VAR and a NAME). */
  predicate WellFormedName(id: string)
  {
    && id != []
    && IsNameStart(id[0])
    && (forall j :: 0 <= j < |id| ==> IsNameChar(id[j]))
    && !ConfigComments.StartsWith(id, "var")
  }

  predicate WellFormedToken(t: Token)
  {
    t.Name? ==> WellFormedName(t.id)
  }

  function TokenText(t: Token): string
  {
    match t
    case Number(n) => Decimal(n)
    case Var => "var"
    case Sort => "sort()"
    case Index => "index()"
    case Name(id) => id
    case Assign => ":="
    case LBrace => "{"
    case RBrace => "}"
    case LBrack => "["
    case RBrack => "]"
    case Comma => ","
    case Op(Add) => "+"
    case Op(Sub) => "-"
    case Op(Mul) => "*"
  }

  /** The tokens written out, each followed by one space. */
  function Render(ts: seq<Token>): string
  {
    if ts == [] then [] else TokenText(ts[0]) + " " + Render(ts[1..])
  }

  lemma RunLengthStopsAt(a: string, s: string, p: char -> bool)
    requires forall j :: 0 <= j < |a| ==> p(a[j])
    requires !p(' ')
    ensures RunLength(a + " " + s, p) == |a|
  {
    var t := a + " " + s;
    assert t[|a|] == ' ';
    assert forall j :: 0 <= j < |a| ==> t[j] == a[j];
  }

  /** Each rendered token, followed by a space, is matched back as that very token. */
  lemma MatchRendered(t: Token, s: string)
    requires WellFormedToken(t)
    ensures MatchPrefix(TokenText(t) + " " + s) == Emit(t, |TokenText(t)|)
  {
    match t
    case Number(n) => MatchRenderedNumber(n, s);
    case Name(id) => MatchRenderedName(id, s);
    case Var => MatchRenderedKeyword(t, s);
    case Sort => MatchRenderedKeyword(t, s);
    case Index => MatchRenderedKeyword(t, s);
    case Assign => MatchRenderedKeyword(t, s);
    case _ => MatchRenderedSymbol(t, s);
  }

  lemma MatchRenderedNumber(n: nat, s: string)
    ensures MatchPrefix(Decimal(n) + " " + s) == Emit(Number(n), |Decimal(n)|)
  {
    var text := Decimal(n);
    var u := text + " " + s;
    assert u[0] == text[0];
    assert u[..|text|] == text;
    MatchPrefixCases(u);
    RunLengthStopsAt(text, s, IsDigit);
    DecimalRoundTrip(n);
  }

  lemma MatchRenderedName(id: string, s: string)
    requires WellFormedName(id)
    ensures MatchPrefix(id + " " + s) == Emit(Name(id), |id|)
  {
    var u := id + " " + s;
    assert u[0] == id[0];
    assert u[..|id|] == id;
    assert !IsDigit(u[0]);
    assert !ConfigComments.StartsWith(u, "var") by {
      if |id| >= 3 {
        assert u[..3] == id[..3];
      } else {
        DiffersAt(u, "var", |id|);
      }
    }
    assert !ConfigComments.StartsWith(u, "sort()") by {
      if |id| <= 5 {
        DiffersAt(u, "sort()", |id|);
      } else {
        DiffersAt(u, "sort()", 4);
      }
    }
    assert !ConfigComments.StartsWith(u, "index()") by {
      if |id| <= 6 {
        DiffersAt(u, "index()", |id|);
      } else {
        DiffersAt(u, "index()", 5);
      }
    }
    MatchPrefixCases(u);
    RunLengthStopsAt(id, s, IsNameChar);
  }

  lemma MatchRenderedKeyword(t: Token, s: string)
    requires t.Var? || t.Sort? || t.Index? || t.Assign?
    ensures MatchPrefix(TokenText(t) + " " + s) == Emit(t, |TokenText(t)|)
  {
    var text := TokenText(t);
    var u := text + " " + s;
    assert u[0] == text[0];
    assert u[..|text|] == text;
    MatchPrefixCases(u);
    match t
    case Sort =>
      assert !ConfigComments.StartsWith(u, "var") by { assert u[0] == 's'; }
    case Index =>
      assert !ConfigComments.StartsWith(u, "var") by { assert u[0] == 'i'; }
      assert !ConfigComments.StartsWith(u, "sort()") by { assert u[0] == 'i'; }
    case Var =>
    case Assign =>
      assert !ConfigComments.StartsWith(u, "var") && !ConfigComments.StartsWith(u, "sort()")
        && !ConfigComments.StartsWith(u, "index()") by { assert u[0] == ':'; }
  }

  lemma MatchRenderedSymbol(t: Token, s: string)
    requires t.LBrace? || t.RBrace? || t.LBrack? || t.RBrack? || t.Comma? || t.Op?
    ensures MatchPrefix(TokenText(t) + " " + s) == Emit(t, |TokenText(t)|)
  {
    var text := TokenText(t);
    var u := text + " " + s;
    assert |text| == 1 && u[0] == text[0];
    assert !ConfigComments.StartsWith(u, "var") && !ConfigComments.StartsWith(u, "sort()")
      && !ConfigComments.StartsWith(u, ":=") && !ConfigComments.StartsWith(u, "index()") by {
      assert u[0] == text[0];
    }
    MatchPrefixCases(u);
  }

  /** Round trip: rendering well-formed tokens and tokenizing the text gives
      back exactly those tokens, with no error. */
  lemma LexRender(ts: seq<Token>)
    requires forall j :: 0 <= j < |ts| ==> WellFormedToken(ts[j])
    ensures Lex(Render(ts)) == Lexed(ts, None)
  {
    LexRenderThen(ts, []);
    assert Render(ts) + [] == Render(ts);
    assert ts + [] == ts;
  }

  /** The rendered tokens come back first, whatever text follows the rendering. */
  lemma {:induction false} LexRenderThen(ts: seq<Token>, s: string)
    requires forall j :: 0 <= j < |ts| ==> WellFormedToken(ts[j])
    ensures Lex(Render(ts) + s) == Lexed(ts + Lex(s).tokens, Lex(s).stoppedAt)
  {
    if ts == [] {
      assert Render(ts) + s == s;
    } else {
      LexRenderedFirst(ts, s);
      LexRenderThen(ts[1..], s);
      Prepended(ts, Lex(s), Lex(Render(ts[1..]) + s), Lex(Render(ts) + s));
    }
  }

  /** A scan result with one more token in front. */
  lemma Prepended(ts: seq<Token>, l: Lexed, m: Lexed, whole: Lexed)
    requires ts != []
    requires m == Lexed(ts[1..] + l.tokens, l.stoppedAt)
    requires whole == Lexed([ts[0]] + m.tokens, m.stoppedAt)
    ensures whole == Lexed(ts + l.tokens, l.stoppedAt)
  {
    assert [ts[0]] + (ts[1..] + l.tokens) == ts + l.tokens;
  }

  /** The first rendered token comes back first, and the scan goes on after its space. */
  lemma LexRenderedFirst(ts: seq<Token>, s: string)
    requires ts != [] && WellFormedToken(ts[0])
    ensures var l := Lex(Render(ts[1..]) + s);
      Lex(Render(ts) + s) == Lexed([ts[0]] + l.tokens, l.stoppedAt)
  {
    var rest := Render(ts[1..]) + s;
    var text := TokenText(ts[0]);
    var u := text + " " + rest;
    assert Render(ts) + s == u;
    MatchRendered(ts[0], rest);
    LexEmits(u, ts[0], |text|);
    assert u[|text|..] == [' '] + rest;
    SpaceIsDropped(' ', rest);
  }

  /** A text made only of name characters, starting like a name and not
      with a keyword, is one NAME token. */
  lemma WholeName(r: string)
    requires r != [] && IsNameStart(r[0])
    requires forall j :: 0 <= j < |r| ==> IsNameChar(r[j])
    requires !ConfigComments.StartsWith(r, "var") && !ConfigComments.StartsWith(r, "sort()")
    requires !ConfigComments.StartsWith(r, "index()")
    ensures Lex(r) == Lexed([Name(r)], None)
  {
    WholeNameMatch(r);
    LexEmits(r, Name(r), |r|);
    assert r[|r|..] == [];
  }

  /** Such a text matches NAME as a whole. */
  lemma WholeNameMatch(r: string)
    requires r != [] && IsNameStart(r[0])
    requires forall j :: 0 <= j < |r| ==> IsNameChar(r[j])
    requires !ConfigComments.StartsWith(r, "var") && !ConfigComments.StartsWith(r, "sort()")
    requires !ConfigComments.StartsWith(r, "index()")
    ensures MatchPrefix(r) == Emit(Name(r), |r|)
  {
    DigitsCase(r);
    KeywordCases(r);
    RunLengthIs(r, IsNameChar, |r|);
    assert r[..|r|] == r;
  }

  /** `var` is matched before NAME, so "variable" is VAR followed by NAME. */
  lemma VariableIsSplit()
    ensures Lex("variable") == Lexed([Var, Name("iable")], None)
  {
    var s := "variable";
    var r := s[3..];
    assert r == "iable";
    assert MatchPrefix(s) == Emit(Var, 3) by {
      assert ConfigComments.StartsWith(s, "var");
      DigitsCase(s);
      KeywordCases(s);
    }
    assert !ConfigComments.StartsWith(r, "var") && !ConfigComments.StartsWith(r, "sort()") by {
      assert r[0] == 'i';
      assert r[1] == 'a';
    }
    assert !ConfigComments.StartsWith(r, "index()") by { assert |r| < 7; }
    WholeName(r);
  }

  /** A digit run is one NUMBER token carrying its decimal value; a name
      directly after the digits starts a new token. */
  lemma DigitsThenName()
    ensures Lex("12ab") == Lexed([Number(12), Name("ab")], None)
  {
    var s := "12ab";
    var r := s[2..];
    assert r == "ab";
    assert MatchPrefix(s) == Emit(Number(12), 2) by {
      DigitsCase(s);
      RunLengthIs(s, IsDigit, 2);
      assert s[..2] == "12";
      assert DigitsValue("12") == 12 by {
        assert "12"[..1] == "1";
        assert "1"[..0] == [];
      }
    }
    assert !ConfigComments.StartsWith(r, "var") && !ConfigComments.StartsWith(r, "sort()")
      && !ConfigComments.StartsWith(r, "index()") by { assert r[0] == 'a'; }
    WholeName(r);
  }
}

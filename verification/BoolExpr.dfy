/**
 The `if:` conditions of CI workflows: a tokenizer, and a recursive-descent evaluator that walks
 the token list with one index.
 */
module BoolExpr {
  import opened Options
  import opened Text

  datatype Kind = Sym | Op | Str | Ident

  /** The spellings that the evaluator compares token texts with. */
  datatype Word = LeftParen | RightParen | AndAnd | OrOr | EqEq | NotEq | AlwaysWord | Other

  function WordOf(text: string): Word {
    if |text| == 1 then
      if text[0] == '(' then LeftParen else if text[0] == ')' then RightParen else Other
    else if |text| == 2 then
      if text[0] == '&' && text[1] == '&' then AndAnd
      else if text[0] == '|' && text[1] == '|' then OrOr
      else if text[0] == '=' && text[1] == '=' then EqEq
      else if text[0] == '!' && text[1] == '=' then NotEq
      else Other
    else if IsAlways(text) then AlwaysWord
    else Other
  }

  /** The text is `always`. */
  predicate IsAlways(text: string) {
    && |text| == 6
    && text[0] == 'a' && text[1] == 'l' && text[2] == 'w' && text[3] == 'a' && text[4] == 'y' && text[5] == 's'
  }

  /** A token; `word` tells which of those spellings its text is, whatever its kind. */
  datatype Token = Token(kind: Kind, text: string, word: Word)

  function Tok(kind: Kind, text: string): Token { Token(kind, text, WordOf(text)) }

  // ---- the tokenizer ---------------------------------------------------------------------------

  predicate IsBlank(c: char) { c == ' ' || c == '\t' || c == '\n' || c == '\r' }

  predicate IsQuote(c: char) { c == '\'' || c == '"' }

  predicate IsOpStart(c: char) { c == '&' || c == '|' || c == '=' || c == '!' }

  /** The characters that end an identifier. */
  predicate EndsIdent(c: char) { IsBlank(c) || c == '(' || c == ')' || IsOpStart(c) }

  predicate IsOp(s: string) { |s| == 2 && WordOf(s) != Other }

  /** How many characters come before the first one that ends an identifier. */
  function IdentSpan(s: string): (n: nat)
    ensures n <= |s| && (n < |s| ==> EndsIdent(s[n]))
    ensures forall i :: 0 <= i < n ==> !EndsIdent(s[i])
  {
    if s == [] || EndsIdent(s[0]) then 0 else 1 + IdentSpan(s[1..])
  }

  /** How many characters come before the first `q`. */
  function QuoteSpan(s: string, q: char): (n: nat)
    ensures n <= |s| && (n < |s| ==> s[n] == q)
    ensures forall i :: 0 <= i < n ==> s[i] != q
  {
    if s == [] || s[0] == q then 0 else 1 + QuoteSpan(s[1..], q)
  }

  function Prepend(t: Token, rest: Option<seq<Token>>): Option<seq<Token>> {
    if rest.None? then None else Some([t] + rest.value)
  }

  /** The tokens of `s`, or `None` for an unsupported operator or an unterminated string. */
  function Lex(s: string): Option<seq<Token>>
    decreases |s|
  {
    if s == [] then Some([])
    else if IsBlank(s[0]) then Lex(s[1..])
    else if s[0] == '(' || s[0] == ')' then Prepend(Tok(Sym, s[..1]), Lex(s[1..]))
    else if IsOpStart(s[0]) then
      if |s| >= 2 && IsOp(s[..2]) then Prepend(Tok(Op, s[..2]), Lex(s[2..])) else None
    else if IsQuote(s[0]) then
      var n := QuoteSpan(s[1..], s[0]);
      if 1 + n >= |s| then None
      else Prepend(Tok(Str, s[1..1 + n]), Lex(s[n + 2..]))
    else
      var n := IdentSpan(s);
      Prepend(Tok(Ident, TrimSpace(s[..n])), Lex(s[n..]))
  }

  function Join(before: seq<Token>, rest: Option<seq<Token>>): Option<seq<Token>> {
    if rest.None? then None else Some(before + rest.value)
  }

  lemma JoinStep(before: seq<Token>, t: Token, rest: Option<seq<Token>>)
    ensures Join(before, Prepend(t, rest)) == Join(before + [t], rest)
  {
    if rest.Some? {
      assert before + ([t] + rest.value) == before + [t] + rest.value;
    }
  }

  lemma JoinNil(rest: Option<seq<Token>>)
    ensures Join([], rest) == rest
  {
    if rest.Some? {
      assert [] + rest.value == rest.value;
    }
  }

  lemma IdentSpanIs(s: string, n: nat)
    requires n <= |s| && (n < |s| ==> EndsIdent(s[n])) && forall i :: 0 <= i < n ==> !EndsIdent(s[i])
    ensures IdentSpan(s) == n
  {
  }

  lemma QuoteSpanIs(s: string, q: char, n: nat)
    requires n <= |s| && (n < |s| ==> s[n] == q) && forall i :: 0 <= i < n ==> s[i] != q
    ensures QuoteSpan(s, q) == n
  {
  }

  /** The tokens from index `i` on; each lemma below is one branch of the scan. */
  function LexFrom(expr: string, i: nat): Option<seq<Token>>
    requires i <= |expr|
  {
    Lex(expr[i..])
  }

  lemma AtBlank(expr: string, i: nat)
    requires i < |expr| && IsBlank(expr[i])
    ensures LexFrom(expr, i) == LexFrom(expr, i + 1)
  {
    assert expr[i..][1..] == expr[i + 1..];
  }

  lemma AtParen(expr: string, i: nat)
    requires i < |expr| && (expr[i] == '(' || expr[i] == ')')
    ensures LexFrom(expr, i) == Prepend(Tok(Sym, expr[i..i + 1]), LexFrom(expr, i + 1))
  {
    assert expr[i..][..1] == expr[i..i + 1] && expr[i..][1..] == expr[i + 1..];
  }

  lemma AtOp(expr: string, i: nat)
    requires i < |expr| && IsOpStart(expr[i])
    ensures LexFrom(expr, i) ==
            if i + 1 < |expr| && IsOp(expr[i..i + 2])
            then Prepend(Tok(Op, expr[i..i + 2]), LexFrom(expr, i + 2)) else None
  {
    var rest := expr[i..];
    if i + 1 < |expr| {
      assert rest[..2] == expr[i..i + 2] && rest[2..] == expr[i + 2..];
    }
  }

  lemma AtQuote(expr: string, i: nat, j: nat)
    requires i < j <= |expr| && IsQuote(expr[i])
    requires forall k :: i < k < j ==> expr[k] != expr[i]
    requires j < |expr| ==> expr[j] == expr[i]
    ensures LexFrom(expr, i) ==
            if j >= |expr| then None else Prepend(Tok(Str, expr[i + 1..j]), LexFrom(expr, j + 1))
  {
    var rest := expr[i..];
    forall k | 1 <= k < j - i ensures rest[k] != rest[0] {
      assert expr[i + k] != expr[i];
    }
    if j < |expr| {
      assert rest[1..j - i] == expr[i + 1..j] && rest[j + 1 - i..] == expr[j + 1..] by {
        SliceOfTail(expr, i, 1, j - i);
        SliceOfTail(expr, i, 1, j + 1 - i);
      }
    }
    LexQuoted(rest, j - i - 1);
  }

  /** The quoted case of `Lex`, with the end of the string given. */
  lemma LexQuoted(s: string, n: nat)
    requires s != [] && IsQuote(s[0]) && n <= |s| - 1
    requires forall k :: 1 <= k < n + 1 ==> s[k] != s[0]
    requires n + 1 < |s| ==> s[n + 1] == s[0]
    ensures Lex(s) == if n + 1 >= |s| then None else Prepend(Tok(Str, s[1..n + 1]), Lex(s[n + 2..]))
  {
    QuoteSpanIs(s[1..], s[0], n);
  }

  lemma AtIdent(expr: string, i: nat, j: nat)
    requires i < j <= |expr| && !IsQuote(expr[i])
    requires forall k :: i <= k < j ==> !EndsIdent(expr[k])
    requires j < |expr| ==> EndsIdent(expr[j])
    ensures LexFrom(expr, i) == Prepend(Tok(Ident, TrimSpace(expr[i..j])), LexFrom(expr, j))
  {
    var rest := expr[i..];
    forall k | 0 <= k < j - i ensures !EndsIdent(rest[k]) {
      assert rest[k] == expr[i + k];
    }
    assert rest[..j - i] == expr[i..j] && rest[j - i..] == expr[j..] by {
      SliceOfTail(expr, i, 0, j - i);
    }
    LexUnquoted(rest, j - i);
  }

  /** The identifier case of `Lex`, with the end of the identifier given. */
  lemma LexUnquoted(s: string, n: nat)
    requires 0 < n <= |s| && !IsQuote(s[0])
    requires forall k :: 0 <= k < n ==> !EndsIdent(s[k])
    requires n < |s| ==> EndsIdent(s[n])
    ensures Lex(s) == Prepend(Tok(Ident, TrimSpace(s[..n])), Lex(s[n..]))
  {
    IdentSpanIs(s, n);
  }

  /** Finds the quote that closes the string starting at `i`. */
  method ScanString(expr: string, i: nat) returns (j: nat)
    requires i < |expr| && IsQuote(expr[i])
    ensures i < j <= |expr|
    ensures LexFrom(expr, i) ==
            if j >= |expr| then None else Prepend(Tok(Str, expr[i + 1..j]), LexFrom(expr, j + 1))
  {
    j := i + 1;
    while j < |expr| && expr[j] != expr[i]
      invariant i < j <= |expr|
      invariant forall k :: i < k < j ==> expr[k] != expr[i]
    {
      j := j + 1;
    }
    AtQuote(expr, i, j);
  }

  /** Finds the end of the identifier starting at `i`. */
  method ScanIdent(expr: string, i: nat) returns (j: nat)
    requires i < |expr| && !IsQuote(expr[i]) && !EndsIdent(expr[i])
    ensures i < j <= |expr|
    ensures LexFrom(expr, i) == Prepend(Tok(Ident, TrimSpace(expr[i..j])), LexFrom(expr, j))
  {
    j := i;
    while j < |expr| && !EndsIdent(expr[j])
      invariant i <= j <= |expr|
      invariant forall k :: i <= k < j ==> !EndsIdent(expr[k])
    {
      j := j + 1;
    }
    AtIdent(expr, i, j);
  }

  /** Scans the operator or parenthesis, the string or the identifier that starts at `i`. */
  method ScanToken(expr: string, i: nat) returns (t: Option<Token>, next: nat)
    requires i < |expr| && !IsBlank(expr[i])
    ensures t.Some? ==> i < next <= |expr| && LexFrom(expr, i) == Prepend(t.value, LexFrom(expr, next))
    ensures t.None? ==> LexFrom(expr, i) == None
  {
    var c := expr[i];
    if c == '(' || c == ')' {
      AtParen(expr, i);
      return Some(Tok(Sym, expr[i..i + 1])), i + 1;
    }
    if IsOpStart(c) {
      AtOp(expr, i);
      if i + 1 >= |expr| || !IsOp(expr[i..i + 2]) {
        return None, i;
      }
      return Some(Tok(Op, expr[i..i + 2])), i + 2;
    }
    if IsQuote(c) {
      var j := ScanString(expr, i);
      if j >= |expr| {
        return None, i;
      }
      return Some(Tok(Str, expr[i + 1..j])), j + 1;
    }
    var j := ScanIdent(expr, i);
    return Some(Tok(Ident, TrimSpace(expr[i..j]))), j;
  }

  method Tokenize(expr: string) returns (tokens: Option<seq<Token>>)
    ensures tokens == Lex(expr)
  {
    var out: seq<Token> := [];
    var i := 0;
    ghost var all := Lex(expr);
    LexFromEnds(expr);
    JoinNil(all);
    while i < |expr|
      invariant 0 <= i <= |expr|
      invariant all == Join(out, LexFrom(expr, i))
    {
      if IsBlank(expr[i]) {
        AtBlank(expr, i);
        i := i + 1;
        continue;
      }
      var t, next := ScanToken(expr, i);
      if t.None? {
        return None;
      }
      JoinStep(out, t.value, LexFrom(expr, next));
      out, i := out + [t.value], next;
    }
    assert out + [] == out;
    tokens := Some(out);
  }

  lemma LexFromEnds(expr: string)
    ensures LexFrom(expr, 0) == Lex(expr) && LexFrom(expr, |expr|) == Some([])
  {
    assert expr[0..] == expr && expr[|expr|..] == [];
  }

  // ---- what the tokenizer accepts --------------------------------------------------------------------

  /** The spellings, character by character. */
  lemma WordIff(text: string)
    ensures WordOf(text) == LeftParen <==> text == "("
    ensures WordOf(text) == RightParen <==> text == ")"
    ensures WordOf(text) == AndAnd <==> text == "&&"
    ensures WordOf(text) == OrOr <==> text == "||"
    ensures WordOf(text) == EqEq <==> text == "=="
    ensures WordOf(text) == NotEq <==> text == "!="
    ensures WordOf(text) == AlwaysWord <==> text == "always"
  {
  }

  predicate Blanks(s: string) {
    forall i :: 0 <= i < |s| ==> s[i] == ' ' || s[i] == '\t' || s[i] == '\n' || s[i] == '\r'
  }

  /** Neither white space nor the start of a symbol or operator. */
  predicate Plain(c: char) {
    && c != ' ' && c != '\t' && c != '\n' && c != '\r' && c != '(' && c != ')'
    && c != '&' && c != '|' && c != '=' && c != '!'
  }

  /** The characters `raw` are a way to write token `t`. */
  predicate Writes(raw: string, t: Token) {
    && t.word == WordOf(t.text) && raw != []
    && match t.kind
       case Sym => t.text == raw && |raw| == 1 && (raw[0] == '(' || raw[0] == ')')
       case Op => t.text == raw && |raw| == 2 && IsOperator(raw[0], raw[1])
       case Str =>
         && |raw| >= 2 && (raw[0] == '\'' || raw[0] == '"') && raw[|raw| - 1] == raw[0]
         && t.text == raw[1..|raw| - 1] && forall i :: 0 < i < |raw| - 1 ==> raw[i] != raw[0]
       case Ident =>
         && raw[0] != '\'' && raw[0] != '"' && (forall i :: 0 <= i < |raw| ==> Plain(raw[i]))
         && t.text == TrimSpace(raw)
  }

  predicate IsOperator(a: char, b: char) {
    (a == '&' && b == '&') || (a == '|' && b == '|') || (a == '=' && b == '=') || (a == '!' && b == '=')
  }

  /** `s` is the tokens written one after the other with white space in between, identifiers in full length. */
  ghost predicate Spells(s: string, ts: seq<Token>)
    decreases |ts|, 1
  {
    if ts == [] then Blanks(s) else exists g: nat, n: nat :: SpellsAt(s, ts, g, n)
  }

  ghost predicate SpellsAt(s: string, ts: seq<Token>, g: nat, n: nat)
    requires ts != []
    decreases |ts|, 0
  {
    && g + n <= |s| && Blanks(s[..g]) && Writes(s[g..g + n], ts[0])
    && (ts[0].kind == Ident && g + n < |s| ==> !Plain(s[g + n]))
    && Spells(s[g + n..], ts[1..])
  }

  lemma {:induction false} LexAfterBlanks(s: string, g: nat)
    requires g <= |s| && Blanks(s[..g])
    ensures Lex(s) == Lex(s[g..])
    decreases g
  {
    if g == 0 {
      assert s[0..] == s;
    } else {
      assert s[0] == s[..g][0] && s[1..][..g - 1] == s[..g][1..];
      LexAfterBlanks(s[1..], g - 1);
      assert s[1..][g - 1..] == s[g..];
    }
  }

  lemma OperatorIff(raw: string)
    requires |raw| == 2
    ensures IsOp(raw) <==> IsOperator(raw[0], raw[1])
  {
  }

  lemma LexSymbol(s: string, t: Token)
    requires s != [] && t.kind != Str && t.kind != Ident
    requires var n := if t.kind == Sym then 1 else 2; n <= |s| && Writes(s[..n], t)
    ensures Lex(s) == Prepend(t, Lex(s[if t.kind == Sym then 1 else 2..]))
  {
    if t.kind == Op {
      OperatorIff(s[..2]);
    }
  }

  lemma LexFirst(s: string, t: Token, n: nat)
    requires n <= |s| && Writes(s[..n], t) && (t.kind == Ident && n < |s| ==> !Plain(s[n]))
    ensures Lex(s) == Prepend(t, Lex(s[n..]))
  {
    var raw := s[..n];
    assert forall i :: 0 <= i < n ==> raw[i] == s[i];
    match t.kind
    case Sym => LexSymbol(s, t);
    case Op => LexSymbol(s, t);
    case Str =>
      assert s[1..n - 1] == raw[1..n - 1];
      LexQuoted(s, n - 2);
    case Ident => LexUnquoted(s, n);
  }

  lemma {:induction false} SpelledIsLexed(s: string, ts: seq<Token>)
    requires Spells(s, ts)
    ensures Lex(s) == Some(ts)
    decreases |ts|
  {
    if ts == [] {
      assert s[..|s|] == s && s[|s|..] == [];
      LexAfterBlanks(s, |s|);
    } else {
      var g: nat, n: nat :| SpellsAt(s, ts, g, n);
      LexAfterBlanks(s, g);
      var rest := s[g..];
      assert rest[..n] == s[g..g + n] && rest[n..] == s[g + n..];
      LexFirst(rest, ts[0], n);
      SpelledIsLexed(s[g + n..], ts[1..]);
      assert [ts[0]] + ts[1..] == ts;
    }
  }

  /** The first token of a text that does not begin with white space, and the characters that write it. */
  lemma FirstWritten(s: string, ts: seq<Token>) returns (n: nat)
    requires s != [] && !IsBlank(s[0]) && Lex(s) == Some(ts)
    ensures 0 < n <= |s| && ts != [] && Writes(s[..n], ts[0])
    ensures ts[0].kind == Ident && n < |s| ==> !Plain(s[n])
    ensures Lex(s[n..]) == Some(ts[1..])
  {
    if s[0] == '(' || s[0] == ')' {
      n := 1;
    } else if IsOpStart(s[0]) {
      n := 2;
      OperatorIff(s[..2]);
    } else if IsQuote(s[0]) {
      var k := QuoteSpan(s[1..], s[0]);
      n := k + 2;
      QuotedWrites(s, k);
    } else {
      n := IdentSpan(s);
      IdentWrites(s, n);
    }
  }

  lemma QuotedWrites(s: string, k: nat)
    requires s != [] && IsQuote(s[0]) && k == QuoteSpan(s[1..], s[0]) && 1 + k < |s|
    ensures Writes(s[..k + 2], Tok(Str, s[1..1 + k]))
  {
    var raw := s[..k + 2];
    assert raw[1..k + 1] == s[1..1 + k];
    forall i | 0 < i < k + 1 ensures raw[i] != raw[0] {
      assert raw[i] == s[1..][i - 1];
    }
  }

  lemma IdentWrites(s: string, n: nat)
    requires s != [] && !IsQuote(s[0]) && !EndsIdent(s[0]) && n == IdentSpan(s)
    ensures 0 < n && Writes(s[..n], Tok(Ident, TrimSpace(s[..n])))
  {
    forall i | 0 <= i < n ensures Plain(s[..n][i]) {
      assert !EndsIdent(s[i]);
    }
  }

  lemma {:induction false} LexedIsSpelled(s: string, ts: seq<Token>)
    requires Lex(s) == Some(ts)
    ensures Spells(s, ts)
    decreases |s|
  {
    if s == [] {
    } else if IsBlank(s[0]) {
      LexedIsSpelled(s[1..], ts);
      SpelledAfterBlank(s, ts);
    } else {
      var n := FirstWritten(s, ts);
      LexedIsSpelled(s[n..], ts[1..]);
      assert s[..0] == "" && s[0..0 + n] == s[..n];
      assert SpellsAt(s, ts, 0, n);
    }
  }

  lemma BlanksMore(s: string, g: nat)
    requires s != [] && IsBlank(s[0]) && g <= |s| - 1 && Blanks(s[1..][..g])
    ensures Blanks(s[..g + 1])
  {
    var gap, rest := s[..g + 1], s[1..][..g];
    forall i | 0 <= i < |gap| ensures IsBlank(gap[i]) {
      if i > 0 {
        assert gap[i] == rest[i - 1];
      }
    }
  }

  lemma SpelledAfterBlank(s: string, ts: seq<Token>)
    requires s != [] && IsBlank(s[0]) && Spells(s[1..], ts)
    ensures Spells(s, ts)
  {
    if ts == [] {
      assert s[1..][..|s| - 1] == s[1..] && s[..|s|] == s;
      BlanksMore(s, |s| - 1);
    } else {
      var g: nat, n: nat :| SpellsAt(s[1..], ts, g, n);
      BlanksMore(s, g);
      ShiftedSpelling(s, ts, g, n);
      assert SpellsAt(s, ts, g + 1, n);
    }
  }

  lemma ShiftedSpelling(s: string, ts: seq<Token>, g: nat, n: nat)
    requires s != [] && ts != [] && SpellsAt(s[1..], ts, g, n) && Blanks(s[..g + 1])
    ensures SpellsAt(s, ts, g + 1, n)
  {
    SliceOfTail(s, 1, g, g + n);
    assert g + n < |s[1..]| ==> s[1..][g + n] == s[1 + g + n];
  }

  /** The tokenizer yields exactly the tokens that spell the text, and refuses the texts that none spell. */
  lemma LexIff(s: string, ts: seq<Token>)
    ensures Lex(s) == Some(ts) <==> Spells(s, ts)
  {
    if Lex(s) == Some(ts) {
      LexedIsSpelled(s, ts);
    }
    if Spells(s, ts) {
      SpelledIsLexed(s, ts);
    }
  }

  // ---- the evaluator ---------------------------------------------------------------------------

  function Truthy(value: string): bool {
    var v := TrimSpace(ToLower(value));
    v != "" && v != "false" && v != "0" && v != "null"
  }

  /** The values that count as false are blank, `false`, `0` and `null`, in any case and padding. */
  lemma FalsyIff(value: string)
    ensures !Truthy(value)
            <==> Padded(value, "") || Padded(value, "false") || Padded(value, "0") || Padded(value, "null")
    ensures Padded(value, "") <==> Blank(value)
  {
    TrimLowerIff(value, "");
    TrimLowerIff(value, "false");
    TrimLowerIff(value, "0");
    TrimLowerIff(value, "null");
    if Blank(value) {
      assert value[..0] == "" && value[0..0] == "" && value[0..] == value;
      assert PaddedAt(value, "", 0, 0);
    } else {
      TrimmedAwayIff(ToLower(value));
      LowerBlank(value);
    }
  }

  datatype List<T> = Nil | Cons(head: T, tail: List<T>)

  /** The tokens still to be read. */
  type Tokens = List<Token>

  function Size(ts: Tokens): nat { if ts.Nil? then 0 else 1 + Size(ts.tail) }

  function ListOf(ts: seq<Token>): (r: Tokens)
    ensures Size(r) == |ts|
  {
    if ts == [] then Nil else Cons(ts[0], ListOf(ts[1..]))
  }

  /** A value and the tokens after it, or an error. */
  datatype Parsed<T> = Good(value: T, rest: Tokens) | Bad

  /** What identifiers stand for: the evaluation context. */
  type Env = string -> string

  predicate Sees(ts: Tokens, word: Word) { ts.Cons? && ts.head.word == word }

  function ParseValue(ts: Tokens, env: Env): (r: Parsed<string>)
    ensures r.Good? ==> ts.Cons? && r.rest == ts.tail
  {
    if ts.Nil? then Bad
    else match ts.head.kind
      case Str => Good(ts.head.text, ts.tail)
      case Ident => Good(env(ts.head.text), ts.tail)
      case _ => Bad
  }

  function ParseOr(ts: Tokens, env: Env): (r: Parsed<bool>)
    ensures r.Good? ==> Size(r.rest) < Size(ts)
    decreases Size(ts), 3
  {
    match ParseAnd(ts, env)
    case Bad => Bad
    case Good(left, rest) => OrTail(rest, left, env)
  }

  function OrTail(ts: Tokens, left: bool, env: Env): (r: Parsed<bool>)
    ensures r.Good? ==> Size(r.rest) <= Size(ts)
    decreases Size(ts), 0
  {
    if !Sees(ts, OrOr) then Good(left, ts)
    else
      match ParseAnd(ts.tail, env)
      case Bad => Bad
      case Good(right, rest) => OrTail(rest, left || right, env)
  }

  function ParseAnd(ts: Tokens, env: Env): (r: Parsed<bool>)
    ensures r.Good? ==> Size(r.rest) < Size(ts)
    decreases Size(ts), 2
  {
    match ParsePrimary(ts, env)
    case Bad => Bad
    case Good(left, rest) => AndTail(rest, left, env)
  }

  function AndTail(ts: Tokens, left: bool, env: Env): (r: Parsed<bool>)
    ensures r.Good? ==> Size(r.rest) <= Size(ts)
    decreases Size(ts), 0
  {
    if !Sees(ts, AndAnd) then Good(left, ts)
    else
      match ParsePrimary(ts.tail, env)
      case Bad => Bad
      case Good(right, rest) => AndTail(rest, left && right, env)
  }

  function ParsePrimary(ts: Tokens, env: Env): (r: Parsed<bool>)
    ensures r.Good? ==> Size(r.rest) < Size(ts)
    decreases Size(ts), 1
  {
    if Sees(ts, LeftParen) then
      match ParseOr(ts.tail, env)
      case Bad => Bad
      case Good(v, rest) => if Sees(rest, RightParen) then Good(v, rest.tail) else Bad
    else if Sees(ts, AlwaysWord) then
      if Sees(ts.tail, LeftParen) then
        if Sees(ts.tail.tail, RightParen) then
          assert Size(ts.tail.tail) < Size(ts.tail);
          Good(true, ts.tail.tail.tail)
        else Bad
      else Good(true, ts.tail)
    else Comparison(ts, env)
  }

  function Comparison(ts: Tokens, env: Env): (r: Parsed<bool>)
    ensures r.Good? ==> Size(r.rest) < Size(ts)
  {
    match ParseValue(ts, env)
    case Bad => Bad
    case Good(left, rest) =>
      if Sees(rest, EqEq) || Sees(rest, NotEq) then
        match ParseValue(rest.tail, env)
        case Bad => Bad
        case Good(right, after) =>
          assert Size(after) < Size(rest);
          Good((left == right) == Sees(rest, EqEq), after)
      else Good(Truthy(left), rest)
  }

  /** The evaluation of a whole token list, which must be used up: `None` is any error. */
  function EvalTokens(ts: Tokens, env: Env): Option<bool> {
    match ParseOr(ts, env)
    case Bad => None
    case Good(v, rest) => if rest.Nil? then Some(v) else None
  }

  function EvalBool(expr: string, env: Env): Option<bool> {
    match Lex(expr)
    case None => None
    case Some(ts) => EvalTokens(ListOf(ts), env)
  }

  // ---- what the evaluator accepts ----------------------------------------------------------------

  /** A reading of a token list. */
  datatype Tree =
    | AnyOf(left: Tree, right: Tree)
    | AllOf(left: Tree, right: Tree)
    | Grouped(inner: Tree)
    | AlwaysTrue(call: bool)
    | Compared(a: Token, same: bool, b: Token)
    | Bare(a: Token)

  /** `||` groups to the left and holds `&&`, which groups to the left and holds the rest. */
  predicate IsOrTree(e: Tree)
    decreases e, 2
  {
    if e.AnyOf? then IsOrTree(e.left) && IsAndTree(e.right) else IsAndTree(e)
  }

  predicate IsAndTree(e: Tree)
    decreases e, 1
  {
    if e.AllOf? then IsAndTree(e.left) && IsPrimaryTree(e.right) else IsPrimaryTree(e)
  }

  predicate IsPrimaryTree(e: Tree)
    decreases e, 0
  {
    if e.Grouped? then IsOrTree(e.inner) else !e.AnyOf? && !e.AllOf?
  }

  /** A string or an identifier that is not taken for a parenthesis or for `always`. */
  predicate StartsOperand(t: Token) {
    (t.kind == Str || t.kind == Ident) && t.word != LeftParen && t.word != AlwaysWord
  }

  /** The tokens after those of `e`, if `ts` begins with them. */
  function After(e: Tree, ts: Tokens): Option<Tokens>
    decreases e
  {
    match e
    case AnyOf(l, r) =>
      var m := After(l, ts);
      if m.Some? && Sees(m.value, OrOr) then After(r, m.value.tail) else None
    case AllOf(l, r) =>
      var m := After(l, ts);
      if m.Some? && Sees(m.value, AndAnd) then After(r, m.value.tail) else None
    case Grouped(inner) =>
      if !Sees(ts, LeftParen) then None
      else
        var m := After(inner, ts.tail);
        if m.Some? && Sees(m.value, RightParen) then Some(m.value.tail) else None
    case AlwaysTrue(call) =>
      if !Sees(ts, AlwaysWord) || Sees(ts.tail, LeftParen) != call then None
      else if !call then Some(ts.tail)
      else if Sees(ts.tail.tail, RightParen) then Some(ts.tail.tail.tail) else None
    case Compared(a, same, b) =>
      if ts.Cons? && ts.head == a && StartsOperand(a) && Sees(ts.tail, if same then EqEq else NotEq)
         && ts.tail.tail.Cons? && ts.tail.tail.head == b && (b.kind == Str || b.kind == Ident)
      then Some(ts.tail.tail.tail) else None
    case Bare(a) =>
      if ts.Cons? && ts.head == a && StartsOperand(a) && !Sees(ts.tail, EqEq) && !Sees(ts.tail, NotEq)
      then Some(ts.tail) else None
  }

  function ValueOf(t: Token, env: Env): string { if t.kind == Ident then env(t.text) else t.text }

  function Reading(e: Tree, env: Env): bool {
    match e
    case AnyOf(l, r) => Reading(l, env) || Reading(r, env)
    case AllOf(l, r) => Reading(l, env) && Reading(r, env)
    case Grouped(inner) => Reading(inner, env)
    case AlwaysTrue(_) => true
    case Compared(a, same, b) => (ValueOf(a, env) == ValueOf(b, env)) == same
    case Bare(a) => Truthy(ValueOf(a, env))
  }

  // Every reading is found.

  lemma {:induction false} PrimaryFound(e: Tree, ts: Tokens, env: Env)
    requires IsPrimaryTree(e) && After(e, ts).Some?
    ensures ParsePrimary(ts, env) == Good(Reading(e, env), After(e, ts).value)
    decreases e, 0
  {
    if e.Grouped? {
      OrFound(e.inner, ts.tail, env);
    }
  }

  lemma {:induction false} AndFound(e: Tree, ts: Tokens, env: Env)
    requires IsAndTree(e) && After(e, ts).Some?
    ensures ParseAnd(ts, env) == AndTail(After(e, ts).value, Reading(e, env), env)
    decreases e, 1
  {
    if e.AllOf? {
      AndFound(e.left, ts, env);
      PrimaryFound(e.right, After(e.left, ts).value.tail, env);
    } else {
      PrimaryFound(e, ts, env);
    }
  }

  lemma {:induction false} OrFound(e: Tree, ts: Tokens, env: Env)
    requires IsOrTree(e) && After(e, ts).Some? && !Sees(After(e, ts).value, AndAnd)
    ensures ParseOr(ts, env) == OrTail(After(e, ts).value, Reading(e, env), env)
    decreases e, 2
  {
    if e.AnyOf? {
      OrFound(e.left, ts, env);
      AndFound(e.right, After(e.left, ts).value.tail, env);
    } else {
      AndFound(e, ts, env);
    }
  }

  // What is found is a reading.

  lemma {:induction false} PrimaryRead(ts: Tokens, env: Env) returns (e: Tree)
    requires ParsePrimary(ts, env).Good?
    ensures IsPrimaryTree(e) && ParsePrimary(ts, env).value == Reading(e, env)
    ensures After(e, ts) == Some(ParsePrimary(ts, env).rest)
    decreases Size(ts), 1
  {
    if Sees(ts, LeftParen) {
      var inner := OrRead(ts.tail, env);
      e := Grouped(inner);
    } else if Sees(ts, AlwaysWord) {
      e := AlwaysTrue(Sees(ts.tail, LeftParen));
    } else if Sees(ts.tail, EqEq) || Sees(ts.tail, NotEq) {
      e := Compared(ts.head, Sees(ts.tail, EqEq), ts.tail.tail.head);
    } else {
      e := Bare(ts.head);
    }
  }

  lemma {:induction false} AndRead(ts: Tokens, env: Env) returns (e: Tree)
    requires ParseAnd(ts, env).Good?
    ensures IsAndTree(e) && ParseAnd(ts, env).value == Reading(e, env)
    ensures After(e, ts) == Some(ParseAnd(ts, env).rest)
    decreases Size(ts), 2
  {
    var first := PrimaryRead(ts, env);
    e := AndTailRead(ts, first, ParsePrimary(ts, env).rest, env);
  }

  lemma {:induction false} AndTailRead(all: Tokens, left: Tree, ts: Tokens, env: Env) returns (e: Tree)
    requires IsAndTree(left) && After(left, all) == Some(ts) && AndTail(ts, Reading(left, env), env).Good?
    ensures IsAndTree(e) && AndTail(ts, Reading(left, env), env).value == Reading(e, env)
    ensures After(e, all) == Some(AndTail(ts, Reading(left, env), env).rest)
    decreases Size(ts), 0
  {
    e := left;
    if Sees(ts, AndAnd) {
      var right := PrimaryRead(ts.tail, env);
      e := AndTailRead(all, AllOf(left, right), ParsePrimary(ts.tail, env).rest, env);
    }
  }

  lemma {:induction false} OrRead(ts: Tokens, env: Env) returns (e: Tree)
    requires ParseOr(ts, env).Good?
    ensures IsOrTree(e) && ParseOr(ts, env).value == Reading(e, env)
    ensures After(e, ts) == Some(ParseOr(ts, env).rest)
    decreases Size(ts), 3
  {
    var first := AndRead(ts, env);
    e := OrTailRead(ts, first, ParseAnd(ts, env).rest, env);
  }

  lemma {:induction false} OrTailRead(all: Tokens, left: Tree, ts: Tokens, env: Env) returns (e: Tree)
    requires IsOrTree(left) && After(left, all) == Some(ts) && OrTail(ts, Reading(left, env), env).Good?
    ensures IsOrTree(e) && OrTail(ts, Reading(left, env), env).value == Reading(e, env)
    ensures After(e, all) == Some(OrTail(ts, Reading(left, env), env).rest)
    decreases Size(ts), 0
  {
    e := left;
    if Sees(ts, OrOr) {
      var right := AndRead(ts.tail, env);
      e := OrTailRead(all, AnyOf(left, right), ParseAnd(ts.tail, env).rest, env);
    }
  }

  /** All of `ts` reads as a tree with value `v`. */
  ghost predicate ReadsAs(ts: Tokens, env: Env, v: bool) {
    exists e: Tree :: IsOrTree(e) && After(e, ts) == Some(Nil) && Reading(e, env) == v
  }

  /**
   The evaluator accepts exactly the token lists that can be read as a tree, with the usual precedence and
   grouping, and its result is that tree's.
   */
  lemma AcceptsIff(ts: Tokens, env: Env, v: bool)
    ensures EvalTokens(ts, env) == Some(v) <==> ReadsAs(ts, env, v)
  {
    if EvalTokens(ts, env) == Some(v) {
      var e := OrRead(ts, env);
      assert IsOrTree(e) && After(e, ts) == Some(Nil) && Reading(e, env) == v;
    }
    if ReadsAs(ts, env, v) {
      var e: Tree :| IsOrTree(e) && After(e, ts) == Some(Nil) && Reading(e, env) == v;
      OrFound(e, ts, env);
    }
  }

  /** From text to result: a condition evaluates to `v` exactly when it spells tokens that read as `v`. */
  lemma EvaluatesIff(expr: string, env: Env, v: bool)
    ensures EvalBool(expr, env) == Some(v) <==> exists ts :: Spells(expr, ts) && ReadsAs(ListOf(ts), env, v)
  {
    if EvalBool(expr, env) == Some(v) {
      var ts := Lex(expr).value;
      LexIff(expr, ts);
      AcceptsIff(ListOf(ts), env, v);
    }
    forall ts | Spells(expr, ts) && ReadsAs(ListOf(ts), env, v) ensures EvalBool(expr, env) == Some(v) {
      LexIff(expr, ts);
      AcceptsIff(ListOf(ts), env, v);
    }
  }

  /** The evaluator object: its index advances in place. */
  class BoolParser {
    const tokens: seq<Token>
    const env: Env
    var pos: nat

    constructor (tokens: seq<Token>, env: Env)
      ensures this.tokens == tokens && this.env == env && pos == 0
    {
      this.tokens := tokens;
      this.env := env;
      pos := 0;
    }

    ghost function Rest(): Tokens
      requires pos <= |tokens|
      reads this
    {
      ListOf(tokens[pos..])
    }

    /** How a result and the advanced index relate to the specification. */
    ghost predicate Did<T>(spec: Parsed<T>, r: Option<T>)
      reads this
    {
      && pos <= |tokens|
      && match spec
         case Bad => r == None
         case Good(v, rest) => r == Some(v) && Rest() == rest
    }

    method Match(word: Word) returns (ok: bool)
      requires pos <= |tokens|
      modifies this
      ensures pos <= |tokens|
      ensures ok == Sees(old(Rest()), word)
      ensures Rest() == if ok then old(Rest()).tail else old(Rest())
    {
      ok := pos < |tokens| && tokens[pos].word == word;
      if ok {
        Advance();
      }
    }

    method Advance()
      requires pos < |tokens|
      modifies this
      ensures pos == old(pos) + 1
      ensures old(Rest()) == Cons(tokens[old(pos)], Rest())
    {
      assert tokens[pos..][1..] == tokens[pos + 1..];
      pos := pos + 1;
    }

    method ParseValueHere() returns (r: Option<string>)
      requires pos <= |tokens|
      modifies this
      ensures Did(ParseValue(old(Rest()), env), r)
    {
      if pos >= |tokens| {
        return None;
      }
      var tok := tokens[pos];
      Advance();
      match tok.kind
      case Str => r := Some(tok.text);
      case Ident => r := Some(env(tok.text));
      case _ => r := None;
    }

    method ParseOrHere() returns (r: Option<bool>)
      requires pos <= |tokens|
      modifies this
      ensures Did(ParseOr(old(Rest()), env), r)
      decreases Size(Rest()), 3
    {
      ghost var start := Rest();
      r := ParseAndHere();
      if r.None? {
        return;
      }
      var left := r.value;
      while true
        invariant pos <= |tokens| && Size(Rest()) < Size(start)
        invariant ParseOr(start, env) == OrTail(Rest(), left, env)
        decreases Size(Rest())
      {
        var more := Match(OrOr);
        if !more {
          break;
        }
        r := ParseAndHere();
        if r.None? {
          return;
        }
        left := left || r.value;
      }
      r := Some(left);
    }

    method ParseAndHere() returns (r: Option<bool>)
      requires pos <= |tokens|
      modifies this
      ensures Did(ParseAnd(old(Rest()), env), r)
      decreases Size(Rest()), 2
    {
      ghost var start := Rest();
      r := ParsePrimaryHere();
      if r.None? {
        return;
      }
      var left := r.value;
      while true
        invariant pos <= |tokens| && Size(Rest()) < Size(start)
        invariant ParseAnd(start, env) == AndTail(Rest(), left, env)
        decreases Size(Rest())
      {
        var more := Match(AndAnd);
        if !more {
          break;
        }
        r := ParsePrimaryHere();
        if r.None? {
          return;
        }
        left := left && r.value;
      }
      r := Some(left);
    }

    method ParsePrimaryHere() returns (r: Option<bool>)
      requires pos <= |tokens|
      modifies this
      ensures Did(ParsePrimary(old(Rest()), env), r)
      decreases Size(Rest()), 1
    {
      var open := Match(LeftParen);
      if open {
        r := ParseOrHere();
        if r.None? {
          return;
        }
        var shut := Match(RightParen);
        if !shut {
          return None;
        }
        return;
      }
      var always := Match(AlwaysWord);
      if always {
        var call := Match(LeftParen);
        if call {
          var shut := Match(RightParen);
          if !shut {
            return None;
          }
        }
        return Some(true);
      }
      r := ParseComparisonHere();
    }

    method ParseComparisonHere() returns (r: Option<bool>)
      requires pos <= |tokens|
      modifies this
      ensures Did(Comparison(old(Rest()), env), r)
    {
      var left := ParseValueHere();
      if left.None? {
        return None;
      }
      var eq := Match(EqEq);
      if eq {
        var right := ParseValueHere();
        if right.None? {
          return None;
        }
        return Some(left.value == right.value);
      }
      var neq := Match(NotEq);
      if neq {
        var right := ParseValueHere();
        if right.None? {
          return None;
        }
        return Some(left.value != right.value);
      }
      r := Some(Truthy(left.value));
    }
  }

  method EvaluateCondition(expr: string, env: Env) returns (r: Option<bool>)
    ensures r == EvalBool(expr, env)
  {
    var tokens := Tokenize(expr);
    if tokens.None? {
      return None;
    }
    var p := new BoolParser(tokens.value, env);
    assert tokens.value[0..] == tokens.value;
    r := p.ParseOrHere();
    if r.Some? && p.pos != |tokens.value| {
      return None;
    }
  }

  // ---- printing --------------------------------------------------------------------------------

  /** An operand: a string literal with the quote it is written in, or an identifier. */
  datatype Operand = Literal(text: string, quote: char) | Name(text: string)

  datatype Expr =
    | Or(l: Expr, r: Expr)
    | And(l: Expr, r: Expr)
    | Eq(a: Operand, b: Operand)
    | Neq(a: Operand, b: Operand)
    | Truth(a: Operand)
    | Always

  function OperandValue(v: Operand, env: Env): string {
    match v
    case Literal(text, _) => text
    case Name(text) => env(text)
  }

  /** What an expression tree means. */
  function Meaning(e: Expr, env: Env): bool {
    match e
    case Or(l, r) => Meaning(l, env) || Meaning(r, env)
    case And(l, r) => Meaning(l, env) && Meaning(r, env)
    case Eq(a, b) => OperandValue(a, env) == OperandValue(b, env)
    case Neq(a, b) => OperandValue(a, env) != OperandValue(b, env)
    case Truth(a) => Truthy(OperandValue(a, env))
    case Always => true
  }

  /** An identifier that the tokenizer returns as one token, other than the word `always`. */
  predicate IdentText(s: string) {
    && s != "" && !IsQuote(s[0]) && s != "always"
    && (forall i :: 0 <= i < |s| ==> !EndsIdent(s[i]))
    && !IsSpace(s[0]) && !IsSpace(s[|s| - 1])
  }

  predicate ValidOperand(v: Operand) {
    match v
    case Literal(text, quote) => IsQuote(quote) && quote !in text
    case Name(text) => IdentText(text)
  }

  predicate ValidExpr(e: Expr) {
    match e
    case Or(l, r) => ValidExpr(l) && ValidExpr(r)
    case And(l, r) => ValidExpr(l) && ValidExpr(r)
    case Eq(a, b) => ValidOperand(a) && ValidOperand(b)
    case Neq(a, b) => ValidOperand(a) && ValidOperand(b)
    case Truth(a) => ValidOperand(a)
    case Always => true
  }

  /**
   No comparison starts with a literal spelled `(` or `always`, and no bare literal is spelled `(`.
   The evaluator compares token texts without looking at token kinds, so it takes such a literal
   for the symbol or the word.
   */
  predicate Unmistakable(e: Expr) {
    match e
    case Or(l, r) => Unmistakable(l) && Unmistakable(r)
    case And(l, r) => Unmistakable(l) && Unmistakable(r)
    case Eq(a, _) => a.Literal? ==> WordOf(a.text) != LeftParen && WordOf(a.text) != AlwaysWord
    case Neq(a, _) => a.Literal? ==> WordOf(a.text) != LeftParen && WordOf(a.text) != AlwaysWord
    case Truth(a) => a.Literal? ==> WordOf(a.text) != LeftParen
    case Always => true
  }

  /** A token together with the characters it is written with. */
  datatype Lexeme = Lexeme(token: Token, source: string)

  function SymLexeme(text: string): Lexeme { Lexeme(Tok(Sym, text), text) }

  function OpLexeme(text: string): Lexeme { Lexeme(Tok(Op, text), text) }

  function OperandLexeme(v: Operand): Lexeme {
    match v
    case Literal(text, quote) => Lexeme(Tok(Str, text), [quote] + text + [quote])
    case Name(text) => Lexeme(Tok(Ident, text), text)
  }

  /** The words of an expression, with parentheses only where precedence needs them, then `k`. */
  function EmitOr(e: Expr, k: List<Lexeme>): List<Lexeme>
    decreases e, 2
  {
    match e
    case Or(l, r) => EmitOr(l, Cons(OpLexeme("||"), EmitAnd(r, k)))
    case _ => EmitAnd(e, k)
  }

  function EmitAnd(e: Expr, k: List<Lexeme>): List<Lexeme>
    decreases e, 1
  {
    match e
    case And(l, r) => EmitAnd(l, Cons(OpLexeme("&&"), EmitPrimary(r, k)))
    case _ => EmitPrimary(e, k)
  }

  function EmitPrimary(e: Expr, k: List<Lexeme>): List<Lexeme>
    decreases e, 0
  {
    var close := Cons(SymLexeme(")"), k);
    match e
    case Or(l, r) => Cons(SymLexeme("("), EmitOr(l, Cons(OpLexeme("||"), EmitAnd(r, close))))
    case And(l, r) => Cons(SymLexeme("("), EmitAnd(l, Cons(OpLexeme("&&"), EmitPrimary(r, close))))
    case Eq(a, b) => Cons(OperandLexeme(a), Cons(OpLexeme("=="), Cons(OperandLexeme(b), k)))
    case Neq(a, b) => Cons(OperandLexeme(a), Cons(OpLexeme("!="), Cons(OperandLexeme(b), k)))
    case Truth(a) => Cons(OperandLexeme(a), k)
    case Always => Cons(Lexeme(Tok(Ident, "always"), "always"), Cons(SymLexeme("("), close))
  }

  /** White space of at least one character. */
  predicate IsGap(g: string) { g != "" && forall i :: 0 <= i < |g| ==> IsBlank(g[i]) }

  /** Words written out, each followed by a gap; the n-th word is followed by `gap(n)`. */
  function Layout(words: List<Lexeme>, gap: nat -> string, n: nat): string
    decreases words
  {
    match words
    case Nil => ""
    case Cons(w, rest) => w.source + gap(n) + Layout(rest, gap, n + 1)
  }

  function Print(e: Expr, gap: nat -> string): string { Layout(EmitOr(e, Nil), gap, 0) }

  function TokensOf(words: List<Lexeme>): Tokens {
    match words
    case Nil => Nil
    case Cons(w, rest) => Cons(w.token, TokensOf(rest))
  }

  // ---- tokenizing what was printed -------------------------------------------------------------

  predicate IsLexeme(w: Lexeme) {
    match w.token.kind
    case Sym => w.token == Tok(Sym, w.source) && (w.source == "(" || w.source == ")")
    case Op => w.token == Tok(Op, w.source) && IsOp(w.source)
    case Str =>
      && |w.source| >= 2 && IsQuote(w.source[0]) && w.source[|w.source| - 1] == w.source[0]
      && w.token == Tok(Str, w.source[1..|w.source| - 1]) && w.source[0] !in w.token.text
    case Ident => w.token == Tok(Ident, w.source) && (w.source == "always" || IdentText(w.source))
  }

  lemma {:induction false} LexGap(g: string, rest: string)
    requires forall i :: 0 <= i < |g| ==> IsBlank(g[i])
    ensures Lex(g + rest) == Lex(rest)
  {
    if g == "" {
      assert g + rest == rest;
    } else {
      assert (g + rest)[1..] == g[1..] + rest;
      LexGap(g[1..], rest);
    }
  }

  lemma LexWord(w: Lexeme, rest: string)
    requires IsLexeme(w) && rest != "" && IsBlank(rest[0])
    ensures Lex(w.source + rest) == Prepend(w.token, Lex(rest))
  {
    var s := w.source + rest;
    var n := |w.source|;
    assert s[..n] == w.source && s[n..] == rest;
    match w.token.kind
    case Sym =>
    case Op =>
      assert s[..2] == w.source;
    case Str =>
      LexString(w, rest);
    case Ident =>
      LexIdent(w.source, rest);
  }

  lemma LexString(w: Lexeme, rest: string)
    requires IsLexeme(w) && w.token.kind == Str
    ensures Lex(w.source + rest) == Prepend(w.token, Lex(rest))
  {
    var s := w.source + rest;
    var n := |w.source|;
    forall k | 1 <= k < n - 1 ensures s[k] != s[0] {
      assert s[k] == w.source[k] == w.token.text[k - 1];
    }
    LexQuoted(s, n - 2);
    assert s[1..n - 1] == w.source[1..n - 1];
    assert s[n..] == rest;
  }

  lemma LexIdent(name: string, rest: string)
    requires name == "always" || IdentText(name)
    requires rest != "" && IsBlank(rest[0])
    ensures Lex(name + rest) == Prepend(Tok(Ident, name), Lex(rest))
  {
    var s := name + rest;
    assert s[..|name|] == name && s[|name|..] == rest && s[0..] == s;
    forall k | 0 <= k < |name| ensures !EndsIdent(s[k]) {
      assert s[k] == name[k];
    }
    TrimNothing(name);
    AtIdent(s, 0, |name|);
  }

  lemma LexWordGap(w: Lexeme, gap: string, more: string)
    requires IsLexeme(w) && IsGap(gap)
    ensures Lex(w.source + gap + more) == Prepend(w.token, Lex(more))
  {
    assert w.source + gap + more == w.source + (gap + more);
    LexWord(w, gap + more);
    LexGap(gap, more);
  }

  ghost predicate AllLexemes(ws: List<Lexeme>) {
    ws.Cons? ==> IsLexeme(ws.head) && AllLexemes(ws.tail)
  }

  /** Tokenizing words in any layout gives their tokens back. */
  lemma {:induction false} LexLayout(words: List<Lexeme>, gap: nat -> string, n: nat)
    requires AllLexemes(words) && forall i: nat :: IsGap(gap(i))
    ensures Lex(Layout(words, gap, n)).Some?
    ensures ListOf(Lex(Layout(words, gap, n)).value) == TokensOf(words)
    decreases words
  {
    if words.Cons? {
      var more := Layout(words.tail, gap, n + 1);
      LexWordGap(words.head, gap(n), more);
      LexLayout(words.tail, gap, n + 1);
      assert ([words.head.token] + Lex(more).value)[1..] == Lex(more).value;
    }
  }

  lemma OperandIsLexeme(v: Operand)
    requires ValidOperand(v)
    ensures IsLexeme(OperandLexeme(v))
  {
    if v.Literal? {
      var w := OperandLexeme(v);
      assert w.source[1..|w.source| - 1] == v.text;
    }
  }

  lemma {:induction false} EmitOrLexemes(e: Expr, k: List<Lexeme>)
    requires ValidExpr(e) && AllLexemes(k)
    ensures AllLexemes(EmitOr(e, k))
    decreases e, 2
  {
    if e.Or? {
      EmitAndLexemes(e.r, k);
      EmitOrLexemes(e.l, Cons(OpLexeme("||"), EmitAnd(e.r, k)));
    } else {
      EmitAndLexemes(e, k);
    }
  }

  lemma {:induction false} EmitAndLexemes(e: Expr, k: List<Lexeme>)
    requires ValidExpr(e) && AllLexemes(k)
    ensures AllLexemes(EmitAnd(e, k))
    decreases e, 1
  {
    if e.And? {
      EmitPrimaryLexemes(e.r, k);
      EmitAndLexemes(e.l, Cons(OpLexeme("&&"), EmitPrimary(e.r, k)));
    } else {
      EmitPrimaryLexemes(e, k);
    }
  }

  lemma {:induction false} EmitPrimaryLexemes(e: Expr, k: List<Lexeme>)
    requires ValidExpr(e) && AllLexemes(k)
    ensures AllLexemes(EmitPrimary(e, k))
    decreases e, 0
  {
    var close := Cons(SymLexeme(")"), k);
    match e
    case Or(l, r) =>
      EmitAndLexemes(r, close);
      EmitOrLexemes(l, Cons(OpLexeme("||"), EmitAnd(r, close)));
    case And(l, r) =>
      EmitPrimaryLexemes(r, close);
      EmitAndLexemes(l, Cons(OpLexeme("&&"), EmitPrimary(r, close)));
    case Eq(a, b) => OperandIsLexeme(a); OperandIsLexeme(b);
    case Neq(a, b) => OperandIsLexeme(a); OperandIsLexeme(b);
    case Truth(a) => OperandIsLexeme(a);
    case Always =>
  }

  // ---- evaluating what was tokenized -----------------------------------------------------------

  predicate Mark(ts: Tokens, kind: Kind, word: Word) {
    ts.Cons? && ts.head.kind == kind && ts.head.word == word
  }

  /** What can stand after a printed operand of `&&`: the end, `&&`, `||` or `)`. */
  predicate FollowsPrimary(ts: Tokens) { FollowsAnd(ts) || Mark(ts, Op, AndAnd) }

  predicate FollowsAnd(ts: Tokens) { FollowsOr(ts) || Mark(ts, Op, OrOr) }

  predicate FollowsOr(ts: Tokens) { ts.Nil? || Mark(ts, Sym, RightParen) }

  lemma OperandReads(v: Operand, rest: Tokens, env: Env)
    requires ValidOperand(v)
    ensures ParseValue(Cons(OperandLexeme(v).token, rest), env) == Good(OperandValue(v, env), rest)
    ensures v.Name? ==> OperandLexeme(v).token.word == Other
  {
    if v.Name? {
      assert !EndsIdent(v.text[0]);
    }
  }

  lemma ComparisonParses(a: Operand, op: string, b: Operand, k: Tokens, env: Env)
    requires ValidOperand(a) && ValidOperand(b) && (op == "==" || op == "!=")
    requires a.Literal? ==> WordOf(a.text) != LeftParen && WordOf(a.text) != AlwaysWord
    ensures ParsePrimary(Cons(OperandLexeme(a).token, Cons(Tok(Op, op), Cons(OperandLexeme(b).token, k))), env)
            == Good((OperandValue(a, env) == OperandValue(b, env)) == (op == "=="), k)
  {
    var right := Cons(OperandLexeme(b).token, k);
    OperandReads(a, Cons(Tok(Op, op), right), env);
    OperandReads(b, k, env);
  }

  lemma TruthParses(a: Operand, k: Tokens, env: Env)
    requires ValidOperand(a) && (a.Literal? ==> WordOf(a.text) != LeftParen) && FollowsPrimary(k)
    ensures ParsePrimary(Cons(OperandLexeme(a).token, k), env) == Good(Truthy(OperandValue(a, env)), k)
  {
    if a.Literal? && WordOf(a.text) == AlwaysWord {
      AlwaysLiteralParses(a.text, k, env);
    } else {
      OperandReads(a, k, env);
      TruthReads(a, k, env);
      NotAWord(Cons(OperandLexeme(a).token, k), env);
    }
  }

  lemma NotAWord(ts: Tokens, env: Env)
    requires !Sees(ts, LeftParen) && !Sees(ts, AlwaysWord)
    ensures ParsePrimary(ts, env) == Comparison(ts, env)
  {
  }

  /** A bare literal spelled `always` is taken for the word, with the same value. */
  lemma AlwaysLiteralParses(text: string, k: Tokens, env: Env)
    requires WordOf(text) == AlwaysWord && FollowsPrimary(k)
    ensures ParsePrimary(Cons(Tok(Str, text), k), env) == Good(true, k)
    ensures Truthy(text)
  {
    LongWordTruthy(text);
  }

  lemma TruthReads(a: Operand, k: Tokens, env: Env)
    requires ValidOperand(a) && FollowsPrimary(k)
    ensures Comparison(Cons(OperandLexeme(a).token, k), env) == Good(Truthy(OperandValue(a, env)), k)
  {
    OperandReads(a, k, env);
  }

  lemma LongWordTruthy(s: string)
    requires |s| > 5 && forall i :: 0 <= i < |s| ==> 'a' <= s[i] <= 'z'
    ensures Truthy(s)
  {
    assert ToLower(s) == s;
    assert !IsSpace(s[0]) && !IsSpace(s[|s| - 1]);
    TrimNothing(s);
  }

  lemma ThreeTokens(a: Lexeme, b: Lexeme, c: Lexeme, k: List<Lexeme>)
    ensures TokensOf(Cons(a, Cons(b, Cons(c, k)))) == Cons(a.token, Cons(b.token, Cons(c.token, TokensOf(k))))
  {
    assert TokensOf(Cons(b, Cons(c, k))) == Cons(b.token, TokensOf(Cons(c, k)));
  }

  lemma ParenParses(inner: Tokens, v: bool, k: Tokens, env: Env)
    requires ParseOr(inner, env) == Good(v, Cons(Tok(Sym, ")"), k))
    ensures ParsePrimary(Cons(Tok(Sym, "("), inner), env) == Good(v, k)
  {
  }

  lemma {:induction false} PrimaryParses(e: Expr, k: List<Lexeme>, env: Env)
    requires ValidExpr(e) && Unmistakable(e) && FollowsPrimary(TokensOf(k))
    ensures ParsePrimary(TokensOf(EmitPrimary(e, k)), env) == Good(Meaning(e, env), TokensOf(k))
    decreases e, 1
  {
    match e
    case Or(l, r) => ParenOrParses(l, r, k, env);
    case And(l, r) => ParenAndParses(l, r, k, env);
    case Eq(a, b) =>
      ThreeTokens(OperandLexeme(a), OpLexeme("=="), OperandLexeme(b), k);
      ComparisonParses(a, "==", b, TokensOf(k), env);
    case Neq(a, b) =>
      ThreeTokens(OperandLexeme(a), OpLexeme("!="), OperandLexeme(b), k);
      ComparisonParses(a, "!=", b, TokensOf(k), env);
    case Truth(a) => TruthParses(a, TokensOf(k), env);
    case Always =>
      ThreeTokens(Lexeme(Tok(Ident, "always"), "always"), SymLexeme("("), SymLexeme(")"), k);
  }

  lemma {:induction false} ParenOrParses(l: Expr, r: Expr, k: List<Lexeme>, env: Env)
    requires ValidExpr(l) && Unmistakable(l) && ValidExpr(r) && Unmistakable(r)
    ensures ParsePrimary(TokensOf(EmitPrimary(Or(l, r), k)), env)
            == Good(Meaning(l, env) || Meaning(r, env), TokensOf(k))
    decreases Or(l, r), 0
  {
    var close := Cons(SymLexeme(")"), k);
    var rest := Cons(OpLexeme("||"), EmitAnd(r, close));
    AndReaches(r, close, env);
    OrReaches(l, rest, env);
    var v := Meaning(l, env) || Meaning(r, env);
    assert OrTail(TokensOf(rest), Meaning(l, env), env) == OrTail(TokensOf(close), v, env);
    ParenParses(TokensOf(EmitOr(l, rest)), v, TokensOf(k), env);
  }

  lemma AndFolds(ts: Tokens, left: bool, right: bool, rest: Tokens, env: Env)
    requires Sees(ts, AndAnd) && ParsePrimary(ts.tail, env) == Good(right, rest)
    ensures AndTail(ts, left, env) == AndTail(rest, left && right, env)
  {
  }

  /** A closing parenthesis ends a conjunction and the disjunction around it. */
  lemma ParenOfAnd(inner: Tokens, v: bool, k: Tokens, env: Env)
    requires ParseAnd(inner, env) == AndTail(Cons(Tok(Sym, ")"), k), v, env)
    ensures ParsePrimary(Cons(Tok(Sym, "("), inner), env) == Good(v, k)
  {
    var close := Cons(Tok(Sym, ")"), k);
    assert AndTail(close, v, env) == Good(v, close) && OrTail(close, v, env) == Good(v, close);
    ParenParses(inner, v, k, env);
  }

  lemma TokensOfCons(w: Lexeme, k: List<Lexeme>)
    ensures TokensOf(Cons(w, k)) == Cons(w.token, TokensOf(k))
  {
  }

  lemma {:induction false} ParenAndParses(l: Expr, r: Expr, k: List<Lexeme>, env: Env)
    requires ValidExpr(l) && Unmistakable(l) && ValidExpr(r) && Unmistakable(r)
    ensures ParsePrimary(TokensOf(EmitPrimary(And(l, r), k)), env)
            == Good(Meaning(l, env) && Meaning(r, env), TokensOf(k))
    decreases And(l, r), 0
  {
    var close := Cons(SymLexeme(")"), k);
    var right := EmitPrimary(r, close);
    var rest := Cons(OpLexeme("&&"), right);
    TokensOfCons(SymLexeme(")"), k);
    TokensOfCons(OpLexeme("&&"), right);
    TokensOfCons(SymLexeme("("), EmitAnd(l, rest));
    PrimaryParses(r, close, env);
    AndReaches(l, rest, env);
    AndFolds(TokensOf(rest), Meaning(l, env), Meaning(r, env), TokensOf(close), env);
    ParenOfAnd(TokensOf(EmitAnd(l, rest)), Meaning(l, env) && Meaning(r, env), TokensOf(k), env);
  }

  /** `ParseAnd` on a printed conjunction has folded it and goes on with what follows. */
  lemma {:induction false} AndReaches(e: Expr, k: List<Lexeme>, env: Env)
    requires ValidExpr(e) && Unmistakable(e) && FollowsPrimary(TokensOf(k))
    ensures ParseAnd(TokensOf(EmitAnd(e, k)), env) == AndTail(TokensOf(k), Meaning(e, env), env)
    decreases e, 2
  {
    if e.And? {
      PrimaryParses(e.r, k, env);
      AndReaches(e.l, Cons(OpLexeme("&&"), EmitPrimary(e.r, k)), env);
    } else {
      PrimaryParses(e, k, env);
    }
  }

  lemma {:induction false} OrReaches(e: Expr, k: List<Lexeme>, env: Env)
    requires ValidExpr(e) && Unmistakable(e) && FollowsAnd(TokensOf(k))
    ensures ParseOr(TokensOf(EmitOr(e, k)), env) == OrTail(TokensOf(k), Meaning(e, env), env)
    decreases e, 3
  {
    if e.Or? {
      AndReaches(e.r, k, env);
      OrReaches(e.l, Cons(OpLexeme("||"), EmitAnd(e.r, k)), env);
    } else {
      AndReaches(e, k, env);
    }
  }

  // ---- literals taken for symbols --------------------------------------------------------------

  /** Parsing has failed, or stopped in front of a comparison operator, where nothing can go on. */
  predicate Stuck(r: Parsed<bool>) {
    r.Bad? || Mark(r.rest, Op, EqEq) || Mark(r.rest, Op, NotEq)
  }

  /** No operand starts here. */
  predicate NoOperand(ts: Tokens) {
    ts.Cons? ==>
      (ts.head.kind == Op || ts.head.kind == Sym) && ts.head.word != LeftParen && ts.head.word != AlwaysWord
  }

  lemma NothingParses(ts: Tokens, env: Env)
    requires NoOperand(ts)
    ensures ParseOr(ts, env) == Bad
  {
    assert ParseValue(ts, env) == Bad;
    assert ParsePrimary(ts, env) == Bad;
    assert ParseAnd(ts, env) == Bad;
  }

  lemma OpenParenSticks(ts: Tokens, env: Env)
    requires Sees(ts, LeftParen) && NoOperand(ts.tail)
    ensures ParsePrimary(ts, env) == Bad
  {
    NothingParses(ts.tail, env);
  }

  lemma ComparisonSticks(a: Operand, op: string, b: Operand, k: Tokens, env: Env)
    requires a.Literal? && (WordOf(a.text) == LeftParen || WordOf(a.text) == AlwaysWord)
    requires op == "==" || op == "!="
    ensures Stuck(ParsePrimary(Cons(OperandLexeme(a).token, Cons(Tok(Op, op), Cons(OperandLexeme(b).token, k))), env))
  {
    var rest := Cons(Tok(Op, op), Cons(OperandLexeme(b).token, k));
    if WordOf(a.text) == LeftParen {
      OpenParenSticks(Cons(OperandLexeme(a).token, rest), env);
    }
  }

  lemma ParenSticks(inner: Tokens, env: Env)
    requires Stuck(ParseOr(inner, env))
    ensures ParsePrimary(Cons(Tok(Sym, "("), inner), env) == Bad
  {
  }

  lemma {:induction false} PrimarySticks(e: Expr, k: List<Lexeme>, env: Env)
    requires ValidExpr(e) && !Unmistakable(e) && FollowsPrimary(TokensOf(k))
    ensures Stuck(ParsePrimary(TokensOf(EmitPrimary(e, k)), env))
    decreases e, 1
  {
    var close := Cons(SymLexeme(")"), k);
    match e
    case Or(l, r) =>
      OrOfSticks(l, r, close, env);
      ParenSticks(TokensOf(EmitOr(l, Cons(OpLexeme("||"), EmitAnd(r, close)))), env);
    case And(l, r) =>
      var inner := EmitAnd(l, Cons(OpLexeme("&&"), EmitPrimary(r, close)));
      AndOfSticks(l, r, close, env);
      AndSticksOr(TokensOf(inner), env);
      ParenSticks(TokensOf(inner), env);
    case Eq(a, b) =>
      ThreeTokens(OperandLexeme(a), OpLexeme("=="), OperandLexeme(b), k);
      ComparisonSticks(a, "==", b, TokensOf(k), env);
    case Neq(a, b) =>
      ThreeTokens(OperandLexeme(a), OpLexeme("!="), OperandLexeme(b), k);
      ComparisonSticks(a, "!=", b, TokensOf(k), env);
    case Truth(a) =>
      OpenParenSticks(Cons(OperandLexeme(a).token, TokensOf(k)), env);
  }

  lemma AndSticksOr(ts: Tokens, env: Env)
    requires Stuck(ParseAnd(ts, env))
    ensures Stuck(ParseOr(ts, env))
  {
  }

  lemma PrimarySticksAnd(ts: Tokens, env: Env)
    requires Stuck(ParsePrimary(ts, env))
    ensures Stuck(ParseAnd(ts, env))
  {
  }

  lemma {:induction false} AndSticks(e: Expr, k: List<Lexeme>, env: Env)
    requires ValidExpr(e) && !Unmistakable(e) && FollowsPrimary(TokensOf(k))
    ensures Stuck(ParseAnd(TokensOf(EmitAnd(e, k)), env))
    decreases e, 2
  {
    if e.And? {
      AndOfSticks(e.l, e.r, k, env);
    } else {
      PrimarySticks(e, k, env);
      PrimarySticksAnd(TokensOf(EmitPrimary(e, k)), env);
    }
  }

  lemma {:induction false} AndOfSticks(l: Expr, r: Expr, k: List<Lexeme>, env: Env)
    requires ValidExpr(l) && ValidExpr(r) && !(Unmistakable(l) && Unmistakable(r))
    requires FollowsPrimary(TokensOf(k))
    ensures Stuck(ParseAnd(TokensOf(EmitAnd(l, Cons(OpLexeme("&&"), EmitPrimary(r, k)))), env))
    decreases And(l, r), 0
  {
    var rest := Cons(OpLexeme("&&"), EmitPrimary(r, k));
    if !Unmistakable(l) {
      AndSticks(l, rest, env);
    } else {
      PrimarySticks(r, k, env);
      AndReaches(l, rest, env);
      AndTailSticks(TokensOf(rest), Meaning(l, env), env);
    }
  }

  lemma AndTailSticks(ts: Tokens, left: bool, env: Env)
    requires Sees(ts, AndAnd) && Stuck(ParsePrimary(ts.tail, env))
    ensures Stuck(AndTail(ts, left, env))
  {
  }

  lemma {:induction false} OrSticks(e: Expr, k: List<Lexeme>, env: Env)
    requires ValidExpr(e) && !Unmistakable(e) && FollowsAnd(TokensOf(k))
    ensures Stuck(ParseOr(TokensOf(EmitOr(e, k)), env))
    decreases e, 3
  {
    if e.Or? {
      OrOfSticks(e.l, e.r, k, env);
    } else {
      AndSticks(e, k, env);
      AndSticksOr(TokensOf(EmitAnd(e, k)), env);
    }
  }

  lemma {:induction false} OrOfSticks(l: Expr, r: Expr, k: List<Lexeme>, env: Env)
    requires ValidExpr(l) && ValidExpr(r) && !(Unmistakable(l) && Unmistakable(r))
    requires FollowsAnd(TokensOf(k))
    ensures Stuck(ParseOr(TokensOf(EmitOr(l, Cons(OpLexeme("||"), EmitAnd(r, k)))), env))
    decreases Or(l, r), 0
  {
    var rest := Cons(OpLexeme("||"), EmitAnd(r, k));
    if !Unmistakable(l) {
      OrSticks(l, rest, env);
    } else {
      AndSticks(r, k, env);
      OrReaches(l, rest, env);
      OrTailSticks(TokensOf(rest), Meaning(l, env), env);
    }
  }

  lemma OrTailSticks(ts: Tokens, left: bool, env: Env)
    requires Sees(ts, OrOr) && Stuck(ParseAnd(ts.tail, env))
    ensures Stuck(OrTail(ts, left, env))
  {
  }

  // ---- the round trip --------------------------------------------------------------------------

  /**
   Printing an expression tree in any layout and evaluating the text gives the tree's meaning
   exactly when no literal is spelled like a symbol where the evaluator looks for one; otherwise
   the text is rejected, and never given another meaning.
   */
  lemma PrintedMeansTreeIff(e: Expr, gap: nat -> string, env: Env)
    requires ValidExpr(e) && forall i: nat :: IsGap(gap(i))
    ensures EvalBool(Print(e, gap), env) == Some(Meaning(e, env)) <==> Unmistakable(e)
    ensures EvalBool(Print(e, gap), env) == None <==> !Unmistakable(e)
  {
    EmitOrLexemes(e, Nil);
    LexLayout(EmitOr(e, Nil), gap, 0);
    if Unmistakable(e) {
      OrReaches(e, Nil, env);
    } else {
      OrSticks(e, Nil, env);
    }
  }

  /** A comparison of the literal `(` with itself is true and is rejected in every layout. */
  lemma ParenLiteralRejected(gap: nat -> string, env: Env)
    requires forall i: nat :: IsGap(gap(i))
    ensures var e := Eq(Literal("(", '\''), Literal("(", '\''));
            ValidExpr(e) && Meaning(e, env) && EvalBool(Print(e, gap), env) == None
  {
    var e := Eq(Literal("(", '\''), Literal("(", '\''));
    assert !Unmistakable(e);
    PrintedMeansTreeIff(e, gap, env);
  }
}

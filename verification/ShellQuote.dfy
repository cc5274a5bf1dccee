/**
 Shell quoting in the guest agent, read back by the rules of the POSIX Shell Command Language
 (IEEE Std 1003.1-2017): token recognition as in section 2.3, single quotes as in section 2.2.2,
 double quotes as in section 2.2.3.
 */
module ShellQuote {
  import opened Options

  const NUL := '\0'

  predicate NulFree(s: string) { NUL !in s }

  // ---- quoting ---------------------------------------------------------------------------------

  /** `s` with every single quote replaced by `'"'"'`. */
  function Escaped(s: string): string {
    if s == [] then ""
    else (if s[0] == '\'' then "'\"'\"'" else [s[0]]) + Escaped(s[1..])
  }

  function QuoteSingle(s: string): string { "'" + Escaped(s) + "'" }

  /** The quoted arguments, each after a space. */
  function Tail(argv: seq<string>): string {
    if argv == [] then "" else " " + (QuoteSingle(argv[0]) + Tail(argv[1..]))
  }

  /** The quoted arguments, separated by single spaces. */
  function Joined(argv: seq<string>): string {
    if argv == [] then "" else QuoteSingle(argv[0]) + Tail(argv[1..])
  }

  method QuoteArgs(argv: seq<string>) returns (out: string)
    ensures out == Joined(argv)
  {
    out := "";
    ghost var all := Joined(argv);
    for i := 0 to |argv|
      invariant i == 0 ==> out == ""
      invariant i > 0 ==> all == out + Tail(argv[i..])
    {
      NextArgument(argv, i);
      if i > 0 {
        Reassociate(out, QuoteSingle(argv[i]), Tail(argv[i + 1..]));
        out := out + " ";
      }
      out := out + QuoteSingle(argv[i]);
    }
    assert Tail(argv[|argv|..]) == "";
  }

  lemma NextArgument(argv: seq<string>, i: nat)
    requires i < |argv|
    ensures Tail(argv[i..]) == " " + (QuoteSingle(argv[i]) + Tail(argv[i + 1..]))
    ensures i == 0 ==> Joined(argv) == "" + QuoteSingle(argv[i]) + Tail(argv[i + 1..])
  {
    var rest := argv[i..];
    assert rest[0] == argv[i] && rest[1..] == argv[i + 1..];
    assert "" + QuoteSingle(argv[i]) == QuoteSingle(argv[i]);
  }

  lemma Reassociate(out: string, word: string, rest: string)
    ensures out + (" " + (word + rest)) == out + " " + word + rest
  {
  }

  // ---- reading a command line back -------------------------------------------------------------

  datatype Token = Word(text: string) | AndIf

  datatype Mode = Plain | Single | Double

  /** Characters that mean something other than themselves, or may, when not quoted. */
  predicate Special(c: char) {
    || c == '|' || c == '&' || c == ';' || c == '<' || c == '>' || c == '(' || c == ')' || c == '$'
    || c == '`' || c == '\\' || c == '"' || c == '\'' || c == ' ' || c == '\t' || c == '\n' || c == '*'
    || c == '?' || c == '[' || c == '#' || c == '~' || c == '=' || c == '%' || c == NUL
  }

  function Flush(word: Option<string>, rest: Option<seq<Token>>): Option<seq<Token>> {
    if rest.None? then None
    else if word.Some? then Some([Word(word.value)] + rest.value)
    else rest
  }

  function Collected(word: Option<string>): string { if word.Some? then word.value else "" }

  /**
   The tokens of the rest of a line, given the quoting in effect and the word collected so far.
   `None` stands for an unterminated quote, and for anything that would start an expansion, a
   pattern, a comment, an assignment or another operator.
   */
  function Scan(s: string, mode: Mode, word: Option<string>): Option<seq<Token>>
    decreases |s|
  {
    if s == [] then (if mode == Plain then Flush(word, Some([])) else None)
    else if s[0] == NUL then None
    else
      match mode
      case Single =>
        if s[0] == '\'' then Scan(s[1..], Plain, word)
        else Scan(s[1..], Single, Some(Collected(word) + [s[0]]))
      case Double =>
        if s[0] == '"' then Scan(s[1..], Plain, word)
        else if s[0] == '$' || s[0] == '`' || s[0] == '\\' then None
        else Scan(s[1..], Double, Some(Collected(word) + [s[0]]))
      case Plain =>
        if s[0] == ' ' || s[0] == '\t' then Flush(word, Scan(s[1..], Plain, None))
        else if s[0] == '\'' then Scan(s[1..], Single, Some(Collected(word)))
        else if s[0] == '"' then Scan(s[1..], Double, Some(Collected(word)))
        else if s[0] == '&' && |s| > 1 && s[1] == '&' then
          var rest := Scan(s[2..], Plain, None);
          Flush(word, if rest.None? then None else Some([AndIf] + rest.value))
        else if Special(s[0]) then None
        else Scan(s[1..], Plain, Some(Collected(word) + [s[0]]))
  }

  function ShellTokens(line: string): Option<seq<Token>> { Scan(line, Plain, None) }

  function Words(argv: seq<string>): seq<Token> {
    seq(|argv|, i requires 0 <= i < |argv| => Word(argv[i]))
  }

  // ---- the round trip --------------------------------------------------------------------------

  lemma ScanEscapedQuote(rest: string, w: string)
    ensures Scan("'\"'\"'" + rest, Single, Some(w)) == Scan(rest, Single, Some(w + "'"))
  {
    var s0 := "'\"'\"'" + rest;
    var s1 := s0[1..];
    var s2 := s1[1..];
    var s3 := s2[1..];
    var s4 := s3[1..];
    assert s4[1..] == rest;
    assert Scan(s0, Single, Some(w)) == Scan(s1, Plain, Some(w));
    assert Scan(s1, Plain, Some(w)) == Scan(s2, Double, Some(w));
    assert Scan(s2, Double, Some(w)) == Scan(s3, Double, Some(w + "'"));
    assert Scan(s3, Double, Some(w + "'")) == Scan(s4, Plain, Some(w + "'"));
    assert Scan(s4, Plain, Some(w + "'")) == Scan(rest, Single, Some(w + "'"));
  }

  /** A character that stands for itself between single quotes. */
  lemma ScanSingle(c: char, rest: string, w: string)
    requires c != '\''
    ensures Scan([c] + rest, Single, Some(w))
            == if c == NUL then None else Scan(rest, Single, Some(w + [c]))
  {
    assert ([c] + rest)[1..] == rest;
  }

  lemma EscapedCons(a: string, rest: string)
    requires a != []
    ensures Escaped(a) + rest
            == (if a[0] == '\'' then "'\"'\"'" else [a[0]]) + (Escaped(a[1..]) + rest)
  {
  }

  lemma NulFreeCons(a: string)
    requires a != []
    ensures NulFree(a) <==> a[0] != NUL && NulFree(a[1..])
  {
  }

  lemma ScanEscapedChar(a: string, rest: string, w: string)
    requires a != []
    ensures Scan(Escaped(a) + rest, Single, Some(w))
            == if a[0] == NUL then None else Scan(Escaped(a[1..]) + rest, Single, Some(w + [a[0]]))
  {
    EscapedCons(a, rest);
    if a[0] == '\'' {
      ScanEscapedQuote(Escaped(a[1..]) + rest, w);
    } else {
      ScanSingle(a[0], Escaped(a[1..]) + rest, w);
    }
  }

  lemma {:induction false} ScanEscaped(a: string, rest: string, w: string)
    ensures Scan(Escaped(a) + rest, Single, Some(w))
            == if NulFree(a) then Scan(rest, Single, Some(w + a)) else None
    decreases |a|
  {
    if a == [] {
      assert Escaped(a) + rest == rest && w + a == w;
    } else {
      ScanEscapedChar(a, rest, w);
      NulFreeCons(a);
      ScanEscaped(a[1..], rest, w + [a[0]]);
      assert w + [a[0]] + a[1..] == w + a;
    }
  }

  lemma ScanQuoted(a: string, rest: string)
    ensures Scan(QuoteSingle(a) + rest, Plain, None)
            == if NulFree(a) then Scan(rest, Plain, Some(a)) else None
  {
    var s := QuoteSingle(a) + rest;
    assert s[1..] == Escaped(a) + ("'" + rest);
    ScanEscaped(a, "'" + rest, "");
    assert "" + a == a;
    assert ("'" + rest)[1..] == rest;
  }

  ghost predicate AllNulFree(argv: seq<string>) { forall i :: 0 <= i < |argv| ==> NulFree(argv[i]) }

  lemma AllNulFreeCons(argv: seq<string>)
    requires argv != []
    ensures AllNulFree(argv) <==> NulFree(argv[0]) && AllNulFree(argv[1..])
    ensures Words(argv) == [Word(argv[0])] + Words(argv[1..])
  {
    assert forall i :: 0 < i < |argv| ==> argv[i] == argv[1..][i - 1];
  }

  lemma {:induction false} ScanTail(argv: seq<string>, w: string)
    ensures Scan(Tail(argv), Plain, Some(w))
            == if AllNulFree(argv) then Some([Word(w)] + Words(argv)) else None
    decreases |argv|
  {
    if argv != [] {
      var rest := Tail(argv[1..]);
      assert Tail(argv)[1..] == QuoteSingle(argv[0]) + rest;
      ScanQuoted(argv[0], rest);
      ScanTail(argv[1..], argv[0]);
      AllNulFreeCons(argv);
    } else {
      assert Words(argv) == [];
    }
  }

  lemma ScanJoined(argv: seq<string>)
    ensures Scan(Joined(argv), Plain, None) == if AllNulFree(argv) then Some(Words(argv)) else None
  {
    if argv != [] {
      ScanQuoted(argv[0], Tail(argv[1..]));
      ScanTail(argv[1..], argv[0]);
      AllNulFreeCons(argv);
    } else {
      assert Words(argv) == [];
    }
  }

  /**
   The shell reads the quoted argument list back as exactly the arguments, for every list whose
   arguments contain no NUL, and only for those: empty arguments, newlines and quotes included.
   */
  lemma QuotedArgsReadBackIff(argv: seq<string>)
    ensures ShellTokens(Joined(argv)) == Some(Words(argv)) <==> AllNulFree(argv)
  {
    ScanJoined(argv);
  }

  /** The command that the agent hands to the shell. */
  function ExecLine(cwd: string, argv: seq<string>): string {
    "cd " + (QuoteSingle(cwd) + (" && exec " + Joined(argv)))
  }

  lemma {:induction false} ScanPlain(name: string, rest: string, w: string)
    requires forall i :: 0 <= i < |name| ==> !Special(name[i])
    ensures Scan(name + rest, Plain, Some(w)) == Scan(rest, Plain, Some(w + name))
    decreases |name|
  {
    if name == [] {
      assert name + rest == rest && w + name == w;
    } else {
      assert (name + rest)[1..] == name[1..] + rest;
      ScanPlain(name[1..], rest, w + [name[0]]);
      assert w + [name[0]] + name[1..] == w + name;
    }
  }

  lemma ScanFirst(c: char, rest: string)
    requires !Special(c)
    ensures Scan([c] + rest, Plain, None) == Scan(rest, Plain, Some([c]))
  {
    assert ([c] + rest)[1..] == rest && "" + [c] == [c];
  }

  lemma ScanSpace(rest: string, w: string)
    ensures Scan([' '] + rest, Plain, Some(w)) == Flush(Some(w), Scan(rest, Plain, None))
  {
    assert ([' '] + rest)[1..] == rest;
  }

  lemma ScanName(name: string, rest: string)
    requires name != [] && forall i :: 0 <= i < |name| ==> !Special(name[i])
    ensures Scan(name + ([' '] + rest), Plain, None) == Flush(Some(name), Scan(rest, Plain, None))
  {
    var tail := [' '] + rest;
    HeadOff(name, tail);
    ScanFirst(name[0], name[1..] + tail);
    ScanPlain(name[1..], tail, [name[0]]);
    ScanSpace(rest, name);
  }

  lemma HeadOff(name: string, tail: string)
    requires name != []
    ensures name + tail == [name[0]] + (name[1..] + tail) && [name[0]] + name[1..] == name
  {
  }

  lemma ScanAndIf(rest: string, w: string)
    ensures Scan(" && " + rest, Plain, Some(w))
            == Flush(Some(w), Flush(None, match Scan(rest, Plain, None)
                                          case None => None
                                          case Some(ts) => Some([AndIf] + ts)))
  {
    var s := " && " + rest;
    assert s[1..] == "&& " + rest;
    assert s[1..][2..] == " " + rest;
    assert (" " + rest)[1..] == rest;
    assert Scan(" " + rest, Plain, None) == Scan(rest, Plain, None);
  }

  lemma ExecReadsBack(argv: seq<string>)
    requires AllNulFree(argv)
    ensures Scan("exec" + (" " + Joined(argv)), Plain, None) == Some([Word("exec")] + Words(argv))
  {
    ScanJoined(argv);
    ScanName("exec", Joined(argv));
  }

  lemma AfterCdReadsBack(cwd: string, argv: seq<string>)
    requires NulFree(cwd) && AllNulFree(argv)
    ensures Scan(QuoteSingle(cwd) + (" && " + ("exec" + (" " + Joined(argv)))), Plain, None)
            == Some([Word(cwd)] + ([AndIf] + ([Word("exec")] + Words(argv))))
  {
    var exec := "exec" + (" " + Joined(argv));
    ExecReadsBack(argv);
    ScanAndIf(exec, cwd);
    ScanQuoted(cwd, " && " + exec);
  }

  /** The whole command: change directory, and then run exactly the given arguments. */
  lemma ExecLineReadsBack(cwd: string, argv: seq<string>)
    requires NulFree(cwd) && AllNulFree(argv)
    ensures ShellTokens(ExecLine(cwd, argv))
            == Some([Word("cd")] + ([Word(cwd)] + ([AndIf] + ([Word("exec")] + Words(argv)))))
  {
    var tail := " && " + ("exec" + (" " + Joined(argv)));
    AfterCdReadsBack(cwd, argv);
    ScanName("cd", QuoteSingle(cwd) + tail);
    ExecLineParts(QuoteSingle(cwd), Joined(argv));
  }

  lemma ExecLineParts(dir: string, words: string)
    ensures "cd " + (dir + (" && exec " + words)) == "cd" + (" " + (dir + (" && " + ("exec" + (" " + words)))))
  {
    assert " && exec " + words == " && " + ("exec" + (" " + words));
  }
}

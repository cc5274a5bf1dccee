/**
 Expansion of `${{ ... }}` expressions in CI strings. The code replaces the first expression and
 then scans the whole result again from the start, so a value can take part in later expressions.
 */
module Interpolate {
  import opened Text

  /** What evaluating one expression gives. */
  datatype Value = Ok(text: string) | Err

  /** The evaluator, as a function of the characters between the brackets. */
  type Eval = string -> Value

  /** The evaluator that the runner installs: it trims the characters first. */
  function Trimming(eval: Eval): Eval { (s: string) => eval(TrimSpace(s)) }

  /** White space around an expression makes no difference, and none reaches the evaluator. */
  lemma TrimmingSees(eval: Eval, s: string) returns (before: string, expr: string, after: string)
    ensures s == before + expr + after && Blank(before) && Blank(after) && Tight(expr)
    ensures Trimming(eval)(s) == eval(expr)
    ensures forall b, a {:trigger b + expr + a} :: Blank(b) && Blank(a) ==> Trimming(eval)(b + expr + a) == eval(expr)
  {
    before, after := TrimCuts(s);
    expr := TrimSpace(s);
    forall b, a | Blank(b) && Blank(a) ensures Trimming(eval)(b + expr + a) == eval(expr) {
      TrimOf(b, expr, a);
    }
  }

  datatype Outcome =
    | Result(text: string)
    | Unterminated
    | EvalFailed
    | Running(text: string)     // not finished within the given number of rounds

  // ---- finding expressions ---------------------------------------------------------------------

  /** `${{` stands at index `i`. */
  predicate OpensAt(s: string, i: nat) {
    i + 2 < |s| && s[i] == '$' && s[i + 1] == '{' && s[i + 2] == '{'
  }

  /** `}}` stands at index `i`. */
  predicate ClosesAt(s: string, i: nat) { i + 1 < |s| && s[i] == '}' && s[i + 1] == '}' }

  /** The first `${{` from index `i` on, or -1. */
  function FindOpen(s: string, i: nat): (r: int)
    ensures r < 0 ==> forall j: nat :: i <= j ==> !OpensAt(s, j)
    ensures r >= 0 ==> i <= r && OpensAt(s, r) && forall j: nat :: i <= j < r ==> !OpensAt(s, j)
    decreases |s| - i
  {
    if i >= |s| then -1 else if OpensAt(s, i) then i else FindOpen(s, i + 1)
  }

  /** The first `}}` from index `i` on, or -1. */
  function FindClose(s: string, i: nat): (r: int)
    ensures r < 0 ==> forall j: nat :: i <= j ==> !ClosesAt(s, j)
    ensures r >= 0 ==> i <= r && ClosesAt(s, r) && forall j: nat :: i <= j < r ==> !ClosesAt(s, j)
    decreases |s| - i
  {
    if i >= |s| then -1 else if ClosesAt(s, i) then i else FindClose(s, i + 1)
  }

  /** One expression of a string: what precedes it, what it says, and what follows it. */
  datatype Split = NoOpen | NoClose | Split(before: string, expr: string, after: string)

  function Cut(s: string): (r: Split)
    ensures r.Split? ==> |r.before| + |r.after| < |s|
  {
    var start := FindOpen(s, 0);
    if start < 0 then NoOpen
    else
      var end := FindClose(s, start + 3);
      if end < 0 then NoClose else Split(s[..start], s[start + 3..end], s[end + 2..])
  }

  /** The text `mark` stands in `s` at index `i`. */
  predicate StandsAt(s: string, i: nat, mark: string) {
    i + |mark| <= |s| && s[i..i + |mark|] == mark
  }

  lemma MarksStand(s: string, i: nat)
    ensures OpensAt(s, i) <==> StandsAt(s, i, "${{")
    ensures ClosesAt(s, i) <==> StandsAt(s, i, "}}")
  {
    if OpensAt(s, i) {
      assert s[i..i + 3] == "${{";
    }
    if StandsAt(s, i, "${{") {
      assert s[i..i + 3][0] == s[i] && s[i..i + 3][1] == s[i + 1] && s[i..i + 3][2] == s[i + 2];
    }
    if ClosesAt(s, i) {
      assert s[i..i + 2] == "}}";
    }
    if StandsAt(s, i, "}}") {
      assert s[i..i + 2][0] == s[i] && s[i..i + 2][1] == s[i + 1];
    }
  }

  /** The first expression: it begins at the first `${{` and ends at the first `}}` after that. */
  ghost predicate FirstExpression(s: string, start: nat, end: nat) {
    && StandsAt(s, start, "${{") && (forall i: nat :: i < start ==> !StandsAt(s, i, "${{"))
    && start + 3 <= end && StandsAt(s, end, "}}") && (forall j: nat :: start + 3 <= j < end ==> !StandsAt(s, j, "}}"))
  }

  ghost predicate Unclosed(s: string, start: nat) {
    && StandsAt(s, start, "${{") && (forall i: nat :: i < start ==> !StandsAt(s, i, "${{"))
    && forall j: nat :: start + 3 <= j ==> !StandsAt(s, j, "}}")
  }

  lemma Around(s: string, start: nat, end: nat, open: string, close: string)
    requires StandsAt(s, start, open) && StandsAt(s, end, close) && start + |open| <= end
    ensures s == s[..start] + open + s[start + |open|..end] + close + s[end + |close|..]
  {
  }

  lemma FirstMarks(s: string, start: nat, end: int)
    requires FindOpen(s, 0) == start && FindClose(s, start + 3) == end
    ensures end < 0 ==> Unclosed(s, start)
    ensures end >= 0 ==> FirstExpression(s, start, end)
  {
    MarksStand(s, start);
    forall i: nat | i < start ensures !StandsAt(s, i, "${{") {
      MarksStand(s, i);
    }
    forall j: nat | start + 3 <= j && (end < 0 || j < end) ensures !StandsAt(s, j, "}}") {
      MarksStand(s, j);
    }
    if end >= 0 {
      MarksStand(s, end);
    }
  }

  /** A string is cut around its first expression, if it has one, and otherwise has no opening or no end. */
  lemma CutIs(s: string)
    ensures match Cut(s)
            case NoOpen => forall i: nat :: !StandsAt(s, i, "${{")
            case NoClose => exists start: nat :: Unclosed(s, start)
            case Split(before, expr, after) =>
              && FirstExpression(s, |before|, |before| + 3 + |expr|)
              && s == before + "${{" + expr + "}}" + after
  {
    var start := FindOpen(s, 0);
    if start < 0 {
      forall i: nat ensures !StandsAt(s, i, "${{") {
        MarksStand(s, i);
      }
    } else {
      var end := FindClose(s, start + 3);
      FirstMarks(s, start, end);
      if end >= 0 {
        Around(s, start, end, "${{", "}}");
      }
    }
  }

  /** At most `rounds` rounds of replacing the first expression and scanning again. */
  function Rescan(out: string, eval: Eval, rounds: nat): Outcome
    decreases rounds
  {
    match Cut(out)
    case NoOpen => Result(out)
    case NoClose => Unterminated
    case Split(before, expr, after) =>
      match eval(expr)
      case Err => EvalFailed
      case Ok(v) => if rounds == 0 then Running(out) else Rescan(before + v + after, eval, rounds - 1)
  }

  method InterpolateString(input: string, eval: Eval, rounds: nat) returns (r: Outcome)
    ensures r == Rescan(input, Trimming(eval), rounds)
  {
    var out := input;
    var left := rounds;
    while true
      invariant Rescan(input, Trimming(eval), rounds) == Rescan(out, Trimming(eval), left)
      decreases left
    {
      var start := FindOpen(out, 0);
      if start < 0 {
        return Result(out);
      }
      var end := FindClose(out, start + 3);
      if end < 0 {
        return Unterminated;
      }
      var expr := TrimSpace(out[start + 3..end]);
      assert Trimming(eval)(out[start + 3..end]) == eval(expr);
      var value := eval(expr);
      if value == Err {
        return EvalFailed;
      }
      if left == 0 {
        return Running(out);
      }
      out := out[..start] + value.text + out[end + 2..];
      left := left - 1;
    }
  }

  // ---- the intended reading --------------------------------------------------------------------

  function Prefixed(before: string, rest: Outcome): Outcome {
    if rest.Result? then Result(before + rest.text) else rest
  }

  /** A single pass from left to right that never looks at a value again. */
  function Expand(s: string, eval: Eval): Outcome
    decreases |s|
  {
    match Cut(s)
    case NoOpen => Result(s)
    case NoClose => Unterminated
    case Split(before, expr, after) =>
      match eval(expr)
      case Err => EvalFailed
      case Ok(v) => Prefixed(before + v, Expand(after, eval))
  }

  /** The code ends, with the result of the single pass. */
  ghost predicate Agrees(input: string, eval: Eval) {
    exists rounds: nat :: Rescan(input, eval, rounds) == Expand(input, eval)
  }

  /**
   Every `$` is followed by a character other than `{`, or by `{` and then one other than `{`:
   a text that cannot contain or begin an opening, whatever comes after it.
   */
  predicate Sealed(s: string) { forall i: nat :: i < |s| ==> SealedAt(s, i) }

  /** The `$` at `i`, if there is one, is sealed within `s`. */
  predicate SealedAt(s: string, i: nat)
    requires i < |s|
  {
    s[i] == '$' ==> i + 1 < |s| && (s[i + 1] != '{' || (i + 2 < |s| && s[i + 2] != '{'))
  }

  /** A value that cannot be part of an opening, whatever stands around it. */
  predicate Inert(v: string) { v != "" && v[0] != '{' && Sealed(v) }

  /** The texts that can stand between the brackets: `}}` closes only at their end. */
  ghost predicate Closed(s: string) { forall j: nat :: j < |s| ==> !ClosesAt(s + "}}", j) }

  ghost predicate AllInert(eval: Eval) {
    forall s {:trigger Closed(s)} :: Closed(s) && eval(s).Ok? ==> Inert(eval(s).text)
  }

  // ---- one input -------------------------------------------------------------------------------

  ghost predicate OpenFree(s: string) { forall i: nat :: !OpensAt(s, i) }

  /** The text before the first opening. */
  function UpToOpen(s: string): string {
    if FindOpen(s, 0) < 0 then s else s[..FindOpen(s, 0)]
  }

  /** The text that the single pass has produced when it ends: its result, or what precedes its error. */
  function Front(s: string, eval: Eval): string
    decreases |s|
  {
    match Cut(s)
    case NoOpen => s
    case NoClose => UpToOpen(s)
    case Split(before, expr, after) =>
      match eval(expr)
      case Err => before
      case Ok(v) => before + v + Front(after, eval)
  }

  lemma OpenFreePrefix(a: string, b: string)
    requires OpenFree(a + b)
    ensures OpenFree(a)
  {
    forall i: nat ensures !OpensAt(a, i) {
      assert !OpensAt(a + b, i);
    }
  }

  /** Behind a text that completes no opening, the first expression is the one that was there without it. */
  lemma CutAfter(l: string, r: string)
    requires OpenFree(l + UpToOpen(r))
    ensures Cut(l + r) == match Cut(r)
                          case Split(before, expr, after) => Split(l + before, expr, after)
                          case other => other
  {
    var s := l + r;
    FindOpenShifts(l, r);
    var start := FindOpen(r, 0);
    if start >= 0 {
      FindCloseShifts(l, r, start + 3);
      var end := FindClose(r, start + 3);
      if end >= 0 {
        assert s[|l| + start + 3..|l| + end] == r[start + 3..end];
        assert s[|l| + end + 2..] == r[end + 2..];
        assert s[..|l| + start] == l + r[..start];
      }
    }
  }

  /** An opening before the first one of `r` would end before it, since an opening starts with `$`. */
  lemma NoEarlierOpen(l: string, r: string, i: nat)
    requires OpenFree(l + UpToOpen(r)) && (FindOpen(r, 0) < 0 || i < |l| + FindOpen(r, 0))
    ensures !OpensAt(l + r, i)
  {
    var start := FindOpen(r, 0);
    assert !OpensAt(l + UpToOpen(r), i);
    if start >= 0 {
      var s, front := l + r, l + r[..start];
      assert s[|l| + start] == '$';
      assert forall k :: 0 <= k < |front| ==> s[k] == front[k];
    }
  }

  lemma FindOpenShifts(l: string, r: string)
    requires OpenFree(l + UpToOpen(r))
    ensures FindOpen(l + r, 0) == if FindOpen(r, 0) < 0 then -1 else |l| + FindOpen(r, 0)
  {
    var start := FindOpen(r, 0);
    forall i: nat | start < 0 || i < |l| + start ensures !OpensAt(l + r, i) {
      NoEarlierOpen(l, r, i);
    }
    OpenIs(l + r, 0, if start < 0 then -1 else |l| + start);
  }

  lemma OpenIs(s: string, i: nat, r: int)
    requires r < 0 ==> r == -1 && forall j: nat :: i <= j ==> !OpensAt(s, j)
    requires r >= 0 ==> i <= r && OpensAt(s, r) && forall j: nat :: i <= j < r ==> !OpensAt(s, j)
    ensures FindOpen(s, i) == r
    decreases |s| - i
  {
    if i < |s| && !OpensAt(s, i) {
      OpenIs(s, i + 1, r);
    }
  }

  lemma CloseIs(s: string, i: nat, r: int)
    requires r < 0 ==> r == -1 && forall j: nat :: i <= j ==> !ClosesAt(s, j)
    requires r >= 0 ==> i <= r && ClosesAt(s, r) && forall j: nat :: i <= j < r ==> !ClosesAt(s, j)
    ensures FindClose(s, i) == r
    decreases |s| - i
  {
    if i < |s| && !ClosesAt(s, i) {
      CloseIs(s, i + 1, r);
    }
  }

  lemma FindCloseShifts(l: string, r: string, i: nat)
    ensures FindClose(l + r, |l| + i) == if FindClose(r, i) < 0 then -1 else |l| + FindClose(r, i)
  {
    var s := l + r;
    forall j: nat | |l| <= j ensures ClosesAt(s, j) <==> ClosesAt(r, j - |l|) {
    }
    CloseIs(s, |l| + i, if FindClose(r, i) < 0 then -1 else |l| + FindClose(r, i));
  }

  /** Text before the first opening, then an inert value: sealed again. */
  lemma SealedGrows(l: string, r: string, v: string)
    requires Sealed(l) && Inert(v) && FindOpen(r, 0) >= 0
    ensures Sealed(l + r[..FindOpen(r, 0)] + v)
  {
    var start := FindOpen(r, 0);
    var s := l + r[..start] + v;
    forall i: nat | i < |s| ensures SealedAt(s, i) {
      if i < |l| {
        assert SealedAt(l, i);
      } else if i < |l| + start {
        SealedBeforeOpen(l, r, v, i - |l|);
      } else {
        assert SealedAt(v, i - |l| - start);
      }
    }
  }

  lemma SealedBeforeOpen(l: string, r: string, v: string, i: nat)
    requires Inert(v) && i < FindOpen(r, 0)
    ensures SealedAt(l + r[..FindOpen(r, 0)] + v, |l| + i)
  {
    var start := FindOpen(r, 0);
    var s := l + r[..start] + v;
    assert !OpensAt(r, i);
    assert s[|l| + start] == v[0];
    assert s[|l| + i] == r[i];
    assert i + 1 < start ==> s[|l| + i + 1] == r[i + 1];
    assert i + 2 < start ==> s[|l| + i + 2] == r[i + 2];
  }

  lemma CutIsClosed(r: string)
    requires Cut(r).Split?
    ensures Closed(Cut(r).expr)
  {
    var start := FindOpen(r, 0);
    var end := FindClose(r, start + 3);
    var expr := r[start + 3..end];
    forall j: nat | j < |expr| ensures !ClosesAt(expr + "}}", j) {
      assert !ClosesAt(r, start + 3 + j);
    }
  }

  lemma RescanEnds(l: string, r: string, eval: Eval, rounds: nat)
    requires OpenFree(l + UpToOpen(r)) && (Cut(r).Split? ==> eval(Cut(r).expr).Err?)
    ensures Rescan(l + r, eval, rounds) == Prefixed(l, Expand(r, eval))
  {
    CutAfter(l, r);
  }

  lemma RescanGoesOn(l: string, r: string, eval: Eval, rounds: nat, grown: string)
    requires OpenFree(l + UpToOpen(r)) && Cut(r).Split? && eval(Cut(r).expr).Ok? && rounds > 0
    requires grown == l + Cut(r).before + eval(Cut(r).expr).text
    ensures Rescan(l + r, eval, rounds) == Rescan(grown + Cut(r).after, eval, rounds - 1)
  {
    CutAfter(l, r);
  }

  lemma ExpandGoesOn(l: string, r: string, eval: Eval, grown: string)
    requires Cut(r).Split? && eval(Cut(r).expr).Ok?
    requires grown == l + Cut(r).before + eval(Cut(r).expr).text
    ensures Prefixed(l, Expand(r, eval)) == Prefixed(grown, Expand(Cut(r).after, eval))
  {
    var tail := Cut(r).before + eval(Cut(r).expr).text;
    PrefixedTwice(l, tail, Expand(Cut(r).after, eval));
    assert l + tail == grown;
  }

  lemma FrontGoesOn(l: string, r: string, eval: Eval, grown: string)
    requires Cut(r).Split? && eval(Cut(r).expr).Ok?
    requires grown == l + Cut(r).before + eval(Cut(r).expr).text
    ensures l + Front(r, eval) == grown + Front(Cut(r).after, eval)
  {
  }

  lemma FrontStarts(l: string, r: string, eval: Eval)
    requires OpenFree(l + Front(r, eval))
    ensures OpenFree(l + UpToOpen(r))
  {
    if Cut(r).Split? && eval(Cut(r).expr).Ok? {
      var more := eval(Cut(r).expr).text + Front(Cut(r).after, eval);
      assert l + Front(r, eval) == (l + UpToOpen(r)) + more;
      OpenFreePrefix(l + UpToOpen(r), more);
    }
  }

  /** If the single pass completes no opening, scanning again from the start is the same as going on from here. */
  lemma {:induction false} RescanIsExpand(l: string, r: string, eval: Eval, rounds: nat)
    requires OpenFree(l + Front(r, eval)) && rounds >= |r|
    ensures Rescan(l + r, eval, rounds) == Prefixed(l, Expand(r, eval))
    decreases |r|
  {
    FrontStarts(l, r, eval);
    if Cut(r).Split? && eval(Cut(r).expr).Ok? {
      var grown := l + Cut(r).before + eval(Cut(r).expr).text;
      RescanGoesOn(l, r, eval, rounds, grown);
      ExpandGoesOn(l, r, eval, grown);
      FrontGoesOn(l, r, eval, grown);
      RescanIsExpand(grown, Cut(r).after, eval, rounds - 1);
    } else {
      RescanEnds(l, r, eval, rounds);
    }
  }

  lemma {:induction false} ResultIsFront(s: string, eval: Eval)
    requires Expand(s, eval).Result?
    ensures Expand(s, eval).text == Front(s, eval)
    decreases |s|
  {
    if Cut(s).Split? {
      ResultIsFront(Cut(s).after, eval);
    }
  }

  /** The code and the single pass agree, errors included, if the single pass completes no opening. */
  lemma OpenFreeAgrees(input: string, eval: Eval)
    requires OpenFree(Front(input, eval))
    ensures Rescan(input, eval, |input|) == Expand(input, eval)
  {
    BehindNothing(Front(input, eval), Expand(input, eval));
    BehindNothing(input, Expand(input, eval));
    RescanIsExpand([], input, eval, |input|);
  }

  lemma BehindNothing(s: string, o: Outcome)
    ensures [] + s == s && Prefixed([], o) == o
  {
    if o.Result? {
      assert [] + o.text == o.text;
    }
  }

  /**
   On an input that the single pass expands to a text, the code ends with that text exactly when the
   text holds no opening.
   */
  lemma AgreesIff(input: string, eval: Eval)
    requires Expand(input, eval).Result?
    ensures Agrees(input, eval) <==> OpenFree(Expand(input, eval).text)
  {
    var text := Expand(input, eval).text;
    ResultIsFront(input, eval);
    if OpenFree(text) {
      OpenFreeAgrees(input, eval);
    } else {
      var at: nat :| OpensAt(text, at);
      forall rounds: nat ensures Rescan(input, eval, rounds) != Expand(input, eval) {
        if Rescan(input, eval, rounds).Result? {
          ResultHasNoOpen(input, eval, rounds, at);
        }
      }
    }
  }

  // ---- inert values ----------------------------------------------------------------------------

  /** Every value that the single pass meets on this input is inert. */
  predicate Met(r: string, eval: Eval)
    decreases |r|
  {
    Cut(r).Split? && eval(Cut(r).expr).Ok? ==>
      Inert(eval(Cut(r).expr).text) && Met(Cut(r).after, eval)
  }

  lemma SealedThenText(l: string, r: string)
    requires Sealed(l)
    ensures OpenFree(l + UpToOpen(r))
  {
    var s := l + UpToOpen(r);
    forall i: nat ensures !OpensAt(s, i) {
      if i < |l| {
        assert SealedAt(l, i);
      } else {
        assert FindOpen(r, 0) < 0 || i - |l| < FindOpen(r, 0) ==> !OpensAt(r, i - |l|);
      }
    }
  }

  lemma {:induction false} MetIsOpenFree(l: string, r: string, eval: Eval)
    requires Sealed(l) && Met(r, eval)
    ensures OpenFree(l + Front(r, eval))
    decreases |r|
  {
    if Cut(r).Split? && eval(Cut(r).expr).Ok? {
      var v := eval(Cut(r).expr).text;
      var grown := l + Cut(r).before + v;
      SealedGrows(l, r, v);
      MetIsOpenFree(grown, Cut(r).after, eval);
      FrontGoesOn(l, r, eval, grown);
    } else {
      SealedThenText(l, r);
    }
  }

  /** Inert values on this input suffice, whatever other expressions evaluate to. */
  lemma MetAgrees(input: string, eval: Eval)
    requires Met(input, eval)
    ensures Rescan(input, eval, |input|) == Expand(input, eval)
  {
    MetIsOpenFree([], input, eval);
    BehindNothing(Front(input, eval), Expand(input, eval));
    OpenFreeAgrees(input, eval);
  }

  lemma {:induction false} AllInertIsMet(r: string, eval: Eval)
    requires AllInert(eval)
    ensures Met(r, eval)
    decreases |r|
  {
    if Cut(r).Split? {
      CutIsClosed(r);
      AllInertIsMet(Cut(r).after, eval);
    }
  }

  lemma PrefixedTwice(a: string, b: string, o: Outcome)
    ensures Prefixed(a, Prefixed(b, o)) == Prefixed(a + b, o)
  {
    if o.Result? {
      assert a + (b + o.text) == a + b + o.text;
    }
  }

  // ---- values that are not inert ---------------------------------------------------------------

  /** A result never contains an opening. */
  lemma {:induction false} ResultHasNoOpen(out: string, eval: Eval, rounds: nat, i: nat)
    requires Rescan(out, eval, rounds).Result?
    ensures !OpensAt(Rescan(out, eval, rounds).text, i)
    decreases rounds
  {
    if Cut(out).Split? {
      var Split(before, expr, after) := Cut(out);
      ResultHasNoOpen(before + eval(expr).text + after, eval, rounds - 1, i);
    }
  }

  predicate Lead(pre: string) { pre == "" || pre == "$" || pre == "${" }

  predicate Trail(post: string) { post == "" || post == "{" || post == "{{" }

  /** The surroundings in which a value that is not inert completes an opening. */
  lemma Surroundings(v: string) returns (pre: string, post: string, at: nat)
    requires !Inert(v)
    ensures Lead(pre) && Trail(post) && OpensAt(pre + v + post, at)
  {
    if v == "" {
      pre, post, at := "$", "{{", 0;
    } else if v[0] == '{' {
      pre, post, at := "${", "", 0;
    } else {
      var i: nat :| i < |v| && !SealedAt(v, i);
      pre, at := "", i;
      post := if i + 1 == |v| then "{{" else if i + 2 == |v| then "{" else "";
    }
  }

  /** The expression `s` between `pre` and `post`. */
  function Built(pre: string, s: string, post: string): string { (pre + "${{") + (s + "}}" + post) }

  lemma BuiltOpens(pre: string, s: string, post: string)
    requires Lead(pre)
    ensures FindOpen(Built(pre, s, post), 0) == |pre|
  {
    var input := Built(pre, s, post);
    var n := |pre|;
    assert input[n] == '$' && input[n + 1] == '{' && input[n + 2] == '{';
    forall i: nat | i < n ensures !OpensAt(input, i) {
      assert input[i] == pre[i];
    }
    OpenIs(input, 0, n);
  }

  lemma ClosesFirstAtEnd(s: string, post: string)
    requires Closed(s)
    ensures FindClose(s + "}}" + post, 0) == |s|
  {
    var text := s + "}}" + post;
    forall j: nat | j < |s| ensures !ClosesAt(text, j) {
      assert !ClosesAt(s + "}}", j);
      assert text[j] == (s + "}}")[j] && text[j + 1] == (s + "}}")[j + 1];
    }
    assert text[|s|] == '}' && text[|s| + 1] == '}';
    CloseIs(text, 0, |s|);
  }

  lemma BuiltCloses(pre: string, s: string, post: string)
    requires Closed(s)
    ensures FindClose(Built(pre, s, post), |pre| + 3) == |pre| + 3 + |s|
  {
    ClosesFirstAtEnd(s, post);
    FindCloseShifts(pre + "${{", s + "}}" + post, 0);
  }

  lemma FiveParts(a: string, b: string, c: string, d: string, e: string)
    ensures var s, i, j, k := (a + b) + (c + d + e), |a| + |b|, |a| + |b| + |c|, |a| + |b| + |c| + |d|;
            s[..|a|] == a && s[i..j] == c && s[k..] == e
  {
  }

  lemma CutBuilt(pre: string, s: string, post: string)
    requires Lead(pre) && Closed(s)
    ensures Cut(Built(pre, s, post)) == Split(pre, s, post)
  {
    var input := Built(pre, s, post);
    var start, end := |pre|, |pre| + 3 + |s|;
    FiveParts(pre, "${{", s, "}}", post);
    BuiltOpens(pre, s, post);
    BuiltCloses(pre, s, post);
  }

  lemma LiveValueDisagrees(eval: Eval, s: string) returns (input: string)
    requires Closed(s) && eval(s).Ok? && !Inert(eval(s).text)
    ensures !Agrees(input, eval)
  {
    var v := eval(s).text;
    var pre, post, at := Surroundings(v);
    input := Built(pre, s, post);
    CutBuilt(pre, s, post);
    OpenIs(post, 0, -1);
    assert Expand(input, eval) == Result(pre + v + post);
    AgreesIff(input, eval);
  }

  /**
   The code reads every input as a single left-to-right pass exactly when every value that an
   expression can have is inert. An evaluator that can return the empty string is not of this kind.
   */
  lemma SinglePassIff(eval: Eval)
    ensures (forall input :: Agrees(input, eval)) <==> AllInert(eval)
  {
    if AllInert(eval) {
      forall input ensures Agrees(input, eval) {
        AllInertIsMet(input, eval);
        MetAgrees(input, eval);
      }
    } else {
      var s :| Closed(s) && eval(s).Ok? && !Inert(eval(s).text);
      var input := LiveValueDisagrees(eval, s);
    }
  }

  /** An expression whose value is that expression again is never finished. */
  lemma {:induction false} SelfReferenceNeverEnds(s: string, eval: Eval, rounds: nat)
    requires Closed(s) && eval(s) == Ok(Built("", s, ""))
    ensures Rescan(Built("", s, ""), eval, rounds).Running?
    decreases rounds
  {
    var out := Built("", s, "");
    CutBuilt("", s, "");
    assert "" + out + "" == out;
    if rounds > 0 {
      SelfReferenceNeverEnds(s, eval, rounds - 1);
    }
  }

  /**
   On an input that ends in an error the two can coincide by chance: the second scan fails on an
   expression inside a value, the single pass on a later one.
   */
  lemma ErrorsMayCoincide(a: string, b: string, eval: Eval)
    requires Closed(a) && Closed(b) && eval(b).Err?
    requires eval(a) == Ok(Built([], b, []))
    ensures var input := Built([], a, Built([], b, []));
            Agrees(input, eval) && !OpenFree(Front(input, eval))
  {
    var v := Built([], b, []);
    var input, next := Built([], a, v), Built([], b, v);
    CutBuilt([], a, v);
    CutBuilt([], b, []);
    CutBuilt([], b, v);
    TwiceBuilt(b);
    BothFail(input, v, next, eval);
    BuiltOpens([], b, []);
  }

  lemma TwiceBuilt(b: string)
    ensures [] + Built([], b, []) + Built([], b, []) == Built([], b, Built([], b, []))
  {
  }

  lemma BothFail(input: string, v: string, next: string, eval: Eval)
    requires Cut(input).Split? && Cut(input).before == [] && Cut(input).after == v && eval(Cut(input).expr) == Ok(v)
    requires Cut(v).Split? && Cut(v).before == [] && eval(Cut(v).expr).Err?
    requires next == [] + v + v && Cut(next).Split? && eval(Cut(next).expr).Err?
    ensures Agrees(input, eval) && Front(input, eval) == v
  {
    assert Expand(input, eval) == EvalFailed;
    assert Rescan(input, eval, 1) == Rescan(next, eval, 0);
    assert Rescan(input, eval, 1) == EvalFailed;
    assert [] + v + [] == v;
  }
}

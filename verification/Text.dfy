/** The string operations of the Go standard library that the modelled code relies on. */
module Text {

  /** Unicode white space, as `unicode.IsSpace` has it. */
  predicate IsSpace(c: char) {
    || c == '\t' || c == '\n' || c == '\U{0B}' || c == '\U{0C}' || c == '\r' || c == ' '
    || c == '\U{85}' || c == '\U{A0}' || c == '\U{1680}' || '\U{2000}' <= c <= '\U{200A}'
    || c == '\U{2028}' || c == '\U{2029}' || c == '\U{202F}' || c == '\U{205F}' || c == '\U{3000}'
  }

  function TrimLeft(s: string): string {
    if s != [] && IsSpace(s[0]) then TrimLeft(s[1..]) else s
  }

  function TrimRight(s: string): string {
    if s != [] && IsSpace(s[|s| - 1]) then TrimRight(s[..|s| - 1]) else s
  }

  /** `strings.TrimSpace`. */
  function TrimSpace(s: string): string { TrimRight(TrimLeft(s)) }

  /** Nothing but white space. */
  predicate Blank(s: string) { forall i :: 0 <= i < |s| ==> IsSpace(s[i]) }

  /** No white space at either end. */
  predicate Tight(s: string) { s == [] || (!IsSpace(s[0]) && !IsSpace(s[|s| - 1])) }

  lemma TrimNothing(s: string)
    requires Tight(s)
    ensures TrimSpace(s) == s
  {
  }

  lemma {:induction false} TrimLeftCuts(s: string) returns (before: string)
    ensures s == before + TrimLeft(s) && Blank(before)
    ensures TrimLeft(s) == [] || !IsSpace(TrimLeft(s)[0])
  {
    before := [];
    if s != [] && IsSpace(s[0]) {
      before := TrimLeftCuts(s[1..]);
      before := [s[0]] + before;
    }
  }

  lemma {:induction false} TrimRightCuts(s: string) returns (after: string)
    ensures s == TrimRight(s) + after && Blank(after)
    ensures TrimRight(s) == [] || !IsSpace(TrimRight(s)[|TrimRight(s)| - 1])
  {
    after := [];
    if s != [] && IsSpace(s[|s| - 1]) {
      after := TrimRightCuts(s[..|s| - 1]);
      after := after + [s[|s| - 1]];
    }
  }

  /** Trimming removes white space at the ends and leaves none there. */
  lemma TrimCuts(s: string) returns (before: string, after: string)
    ensures s == before + TrimSpace(s) + after
    ensures Blank(before) && Blank(after) && Tight(TrimSpace(s))
  {
    before := TrimLeftCuts(s);
    after := TrimRightCuts(TrimLeft(s));
    assert TrimLeft(s) == TrimSpace(s) + after;
  }

  lemma {:induction false} TrimLeftOf(before: string, s: string)
    requires Blank(before) && (s == [] || !IsSpace(s[0]))
    ensures TrimLeft(before + s) == s
  {
    if before == [] {
      assert before + s == s;
    } else {
      assert (before + s)[1..] == before[1..] + s;
      TrimLeftOf(before[1..], s);
    }
  }

  lemma {:induction false} TrimRightOf(s: string, after: string)
    requires Blank(after) && (s == [] || !IsSpace(s[|s| - 1]))
    ensures TrimRight(s + after) == s
  {
    if after == [] {
      assert s + after == s;
    } else {
      assert (s + after)[..|s + after| - 1] == s + after[..|after| - 1];
      TrimRightOf(s, after[..|after| - 1]);
    }
  }

  lemma {:induction false} TrimLeftBlank(s: string)
    requires Blank(s)
    ensures TrimLeft(s) == []
  {
    if s != [] {
      TrimLeftBlank(s[1..]);
    }
  }

  /** A text without white space at its ends is what trimming makes of it in any padding. */
  lemma TrimOf(before: string, s: string, after: string)
    requires Blank(before) && Blank(after) && Tight(s)
    ensures TrimSpace(before + s + after) == s
  {
    if s == [] {
      TrimLeftBlank(before + s + after);
    } else {
      assert before + s + after == before + (s + after);
      TrimLeftOf(before, s + after);
      TrimRightOf(s, after);
    }
  }

  /** Exactly the blank texts are trimmed to nothing. */
  lemma TrimmedAwayIff(s: string)
    ensures TrimSpace(s) == [] <==> Blank(s)
  {
    if Blank(s) {
      TrimLeftBlank(s);
    } else {
      var before, after := TrimCuts(s);
    }
  }

  function ToLower(s: string): (r: string)
    ensures |r| == |s|
  {
    seq(|s|, i requires 0 <= i < |s| => if 'A' <= s[i] <= 'Z' then s[i] - 'A' + 'a' else s[i])
  }

  /** The same text but for the capitalisation of ASCII letters. */
  predicate SameButCase(a: string, b: string) {
    && |a| == |b|
    && forall i :: 0 <= i < |a| ==>
         a[i] == b[i] || ('A' <= a[i] <= 'Z' && b[i] as int == a[i] as int + 32)
                      || ('A' <= b[i] <= 'Z' && a[i] as int == b[i] as int + 32)
  }

  /** Lowering finds a text without capitals in any capitalisation, and nothing else. */
  lemma LowersToIff(a: string, b: string)
    requires forall i :: 0 <= i < |b| ==> !('A' <= b[i] <= 'Z')
    ensures ToLower(a) == b <==> SameButCase(a, b)
  {
    assert 'a' as int == 'A' as int + 32;
    if SameButCase(a, b) {
      forall i | 0 <= i < |a| ensures ToLower(a)[i] == b[i] {
      }
      assert ToLower(a) == b;
    }
    if ToLower(a) == b {
      forall i | 0 <= i < |a|
        ensures a[i] == b[i] || ('A' <= a[i] <= 'Z' && b[i] as int == a[i] as int + 32)
      {
        assert ToLower(a)[i] == b[i];
      }
    }
  }

  lemma LowerConcat(a: string, b: string)
    ensures ToLower(a + b) == ToLower(a) + ToLower(b)
  {
  }

  lemma LowerBlank(s: string)
    ensures Blank(ToLower(s)) <==> Blank(s)
  {
    forall i | 0 <= i < |s| ensures IsSpace(ToLower(s)[i]) <==> IsSpace(s[i]) {
    }
  }

  lemma LowerOfParts(s: string, i: nat, j: nat)
    requires i <= j <= |s|
    ensures ToLower(s) == ToLower(s[..i]) + ToLower(s[i..j]) + ToLower(s[j..])
  {
    LowerConcat(s[..i], s[i..]);
    LowerConcat(s[i..j], s[j..]);
    assert s[..i] + s[i..] == s && s[i..j] + s[j..] == s[i..];
  }

  lemma SameParts(a: string, b: string, c: string, x: string, y: string, z: string)
    requires |a| == |x| && |b| == |y| && a + b + c == x + y + z
    ensures a == x && b == y && c == z
  {
    assert a == (a + b + c)[..|a|] && x == (x + y + z)[..|a|];
    assert b == (a + b + c)[|a|..|a| + |b|] && y == (x + y + z)[|a|..|a| + |b|];
    assert c == (a + b + c)[|a| + |b|..] && z == (x + y + z)[|a| + |b|..];
  }

  lemma FoundIsPadded(s: string, b: string)
    requires TrimSpace(ToLower(s)) == b && forall i :: 0 <= i < |b| ==> !('A' <= b[i] <= 'Z')
    ensures Padded(s, b)
  {
    var before, after := TrimCuts(ToLower(s));
    var i, j := |before|, |before| + |b|;
    LowerOfParts(s, i, j);
    SameParts(before, b, after, ToLower(s[..i]), ToLower(s[i..j]), ToLower(s[j..]));
    LowerBlank(s[..i]);
    LowerBlank(s[j..]);
    LowersToIff(s[i..j], b);
    assert PaddedAt(s, b, i, j);
  }

  lemma PaddedIsFound(s: string, b: string, i: nat, j: nat)
    requires Tight(b) && forall k :: 0 <= k < |b| ==> !('A' <= b[k] <= 'Z')
    requires PaddedAt(s, b, i, j)
    ensures TrimSpace(ToLower(s)) == b
  {
    LowerOfParts(s, i, j);
    LowerBlank(s[..i]);
    LowerBlank(s[j..]);
    LowersToIff(s[i..j], b);
    TrimOf(ToLower(s[..i]), b, ToLower(s[j..]));
  }

  /** What trimming and lowering find: the text in any capitalisation and padding, and nothing else. */
  lemma TrimLowerIff(s: string, b: string)
    requires Tight(b)
    requires forall i :: 0 <= i < |b| ==> !('A' <= b[i] <= 'Z')
    ensures TrimSpace(ToLower(s)) == b <==> Padded(s, b)
  {
    if TrimSpace(ToLower(s)) == b {
      FoundIsPadded(s, b);
    }
    if Padded(s, b) {
      var i: nat, j: nat :| PaddedAt(s, b, i, j);
      PaddedIsFound(s, b, i, j);
    }
  }

  predicate PaddedAt(s: string, b: string, i: nat, j: nat) {
    i <= j <= |s| && Blank(s[..i]) && SameButCase(s[i..j], b) && Blank(s[j..])
  }

  /** `s` is `b` in any capitalisation with white space around it. */
  ghost predicate Padded(s: string, b: string) { exists i: nat, j: nat :: PaddedAt(s, b, i, j) }

  /** Slicing a tail of a sequence is slicing the sequence. */
  lemma SliceOfTail<T>(s: seq<T>, i: nat, a: nat, b: nat)
    requires a <= b && i + b <= |s|
    ensures s[i..][a..b] == s[i + a..i + b] && s[i..][b..] == s[i + b..]
  {
  }
}

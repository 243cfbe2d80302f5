// `minifyCSS`, the same five regular-expression replacements in both CSS
// scripts, applied in this order and then trimmed:
//   1. a block comment, from its opener to the nearest closer, is removed;
//   2. each run of whitespace becomes one space;
//   3. whitespace before and after any of `{ } : ; , > + ~` is removed;
//   4. `;}` becomes `}`;
//   5. `url('x')` and `url("x")` become `url(x)` when x is a non-empty run
//      of characters other than quotes and parentheses.
// Each pass is a function that scans the string from the left the way a
// global replace does: try a match at the current position, replace it and
// resume after it, or copy one character and move on.
module CssMinifier {
  import opened Text

  predicate IsSeparator(c: char) {
    c == '{' || c == '}' || c == ':' || c == ';' || c == ',' || c == '>' || c == '+' || c == '~'
  }

  // ---------------------------------------------------------------------
  // Properties of the output
  // ---------------------------------------------------------------------

  /** Every whitespace character is a plain space. */
  predicate AllSpacesPlain(s: string) {
    forall i :: 0 <= i < |s| && IsSpace(s[i]) ==> s[i] == ' '
  }

  predicate SpacePair(a: char, b: char) {
    IsSpace(a) && IsSpace(b)
  }

  predicate SeparatorPair(a: char, b: char) {
    (IsSpace(a) && IsSeparator(b)) || (IsSeparator(a) && IsSpace(b))
  }

  /** No whitespace character is next to another. */
  predicate NoDoubleSpace(s: string) {
    forall i :: 0 <= i < |s| - 1 ==> !SpacePair(s[i], s[i + 1])
  }

  /** No whitespace character is next to one of `{ } : ; , > + ~`. */
  predicate NoSpaceNearSeparator(s: string) {
    forall i :: 0 <= i < |s| - 1 ==> !SeparatorPair(s[i], s[i + 1])
  }

  predicate Tight(s: string) {
    NoDoubleSpace(s) && NoSpaceNearSeparator(s)
  }

  /** No leading or trailing whitespace. */
  predicate Trimmed(s: string) {
    s == [] || (!IsSpace(s[0]) && !IsSpace(s[|s| - 1]))
  }

  /** The characters of `s` that are not whitespace, in order. */
  function NonSpace(s: string): string {
    if s == [] then [] else (if IsSpace(s[0]) then [] else [s[0]]) + NonSpace(s[1..])
  }

  lemma ConcatNoDoubleSpace(a: string, b: string)
    ensures NoDoubleSpace(a + b) <==>
      NoDoubleSpace(a) && NoDoubleSpace(b) && (a == [] || b == [] || !SpacePair(a[|a| - 1], b[0]))
  {
    var s := a + b;
    if NoDoubleSpace(a) && NoDoubleSpace(b) && (a == [] || b == [] || !SpacePair(a[|a| - 1], b[0])) {
      forall i | 0 <= i < |s| - 1 ensures !SpacePair(s[i], s[i + 1]) {
        if i + 1 < |a| {
          assert s[i] == a[i] && s[i + 1] == a[i + 1];
        } else if i >= |a| {
          assert s[i] == b[i - |a|] && s[i + 1] == b[i - |a| + 1];
        } else {
          assert s[i] == a[|a| - 1] && s[i + 1] == b[0];
        }
      }
    }
    if NoDoubleSpace(s) {
      forall i | 0 <= i < |a| - 1 ensures !SpacePair(a[i], a[i + 1]) {
        assert s[i] == a[i] && s[i + 1] == a[i + 1];
      }
      forall i | 0 <= i < |b| - 1 ensures !SpacePair(b[i], b[i + 1]) {
        assert s[|a| + i] == b[i] && s[|a| + i + 1] == b[i + 1];
      }
      if a != [] && b != [] {
        assert s[|a| - 1] == a[|a| - 1] && s[|a|] == b[0];
      }
    }
  }

  lemma ConcatNoSpaceNearSeparator(a: string, b: string)
    ensures NoSpaceNearSeparator(a + b) <==>
      NoSpaceNearSeparator(a) && NoSpaceNearSeparator(b) && (a == [] || b == [] || !SeparatorPair(a[|a| - 1], b[0]))
  {
    var s := a + b;
    if NoSpaceNearSeparator(a) && NoSpaceNearSeparator(b) && (a == [] || b == [] || !SeparatorPair(a[|a| - 1], b[0])) {
      forall i | 0 <= i < |s| - 1 ensures !SeparatorPair(s[i], s[i + 1]) {
        if i + 1 < |a| {
          assert s[i] == a[i] && s[i + 1] == a[i + 1];
        } else if i >= |a| {
          assert s[i] == b[i - |a|] && s[i + 1] == b[i - |a| + 1];
        } else {
          assert s[i] == a[|a| - 1] && s[i + 1] == b[0];
        }
      }
    }
    if NoSpaceNearSeparator(s) {
      forall i | 0 <= i < |a| - 1 ensures !SeparatorPair(a[i], a[i + 1]) {
        assert s[i] == a[i] && s[i + 1] == a[i + 1];
      }
      forall i | 0 <= i < |b| - 1 ensures !SeparatorPair(b[i], b[i + 1]) {
        assert s[|a| + i] == b[i] && s[|a| + i + 1] == b[i + 1];
      }
      if a != [] && b != [] {
        assert s[|a| - 1] == a[|a| - 1] && s[|a|] == b[0];
      }
    }
  }

  lemma ConcatTight(a: string, b: string)
    ensures NoDoubleSpace(a + b) <==>
      NoDoubleSpace(a) && NoDoubleSpace(b) && (a == [] || b == [] || !SpacePair(a[|a| - 1], b[0]))
    ensures NoSpaceNearSeparator(a + b) <==>
      NoSpaceNearSeparator(a) && NoSpaceNearSeparator(b) && (a == [] || b == [] || !SeparatorPair(a[|a| - 1], b[0]))
  {
    ConcatNoDoubleSpace(a, b);
    ConcatNoSpaceNearSeparator(a, b);
  }

  lemma SliceTight(s: string, i: nat, j: nat)
    requires i <= j <= |s|
    requires Tight(s)
    ensures Tight(s[i..j])
  {
    var t := s[i..j];
    forall k | 0 <= k < |t| - 1 ensures !SpacePair(t[k], t[k + 1]) && !SeparatorPair(t[k], t[k + 1]) {
      assert t[k] == s[i + k] && t[k + 1] == s[i + k + 1];
    }
  }

  lemma SlicePlain(s: string, i: nat, j: nat)
    requires i <= j <= |s|
    requires AllSpacesPlain(s)
    ensures AllSpacesPlain(s[i..j])
  {
    var t := s[i..j];
    forall k | 0 <= k < |t| && IsSpace(t[k]) ensures t[k] == ' ' {
      assert t[k] == s[i + k];
    }
  }

  lemma SliceKeeps(s: string, i: nat, j: nat)
    requires i <= j <= |s|
    ensures Tight(s) ==> Tight(s[i..j])
    ensures AllSpacesPlain(s) ==> AllSpacesPlain(s[i..j])
  {
    if Tight(s) {
      SliceTight(s, i, j);
    }
    if AllSpacesPlain(s) {
      SlicePlain(s, i, j);
    }
  }

  lemma ConcatPlain(a: string, b: string)
    requires AllSpacesPlain(a) && AllSpacesPlain(b)
    ensures AllSpacesPlain(a + b)
  {
    var s := a + b;
    forall i | 0 <= i < |s| && IsSpace(s[i]) ensures s[i] == ' ' {
      if i < |a| {
        assert s[i] == a[i];
      } else {
        assert s[i] == b[i - |a|];
      }
    }
  }

  // ---------------------------------------------------------------------
  // Pass 1: block comments
  // ---------------------------------------------------------------------

  // A comment closer (star, slash) starts at index `k`.
  predicate CloseAt(s: string, k: int) {
    0 <= k && k + 1 < |s| && s[k] == '*' && s[k + 1] == '/'
  }

  // The lazy match of a comment body: the first closer at or after `from`.
  function FindCommentEnd(s: string, from: nat): (r: Option<nat>)
    decreases |s| - from
    ensures r.Some? ==> from <= r.value && CloseAt(s, r.value) && forall k :: from <= k < r.value ==> !CloseAt(s, k)
    ensures r.None? ==> forall k :: from <= k ==> !CloseAt(s, k)
  {
    if from + 1 >= |s| then None
    else if s[from] == '*' && s[from + 1] == '/' then Some(from)
    else FindCommentEnd(s, from + 1)
  }

  function StripComments(s: string): string
    decreases |s|
  {
    if s == [] then []
    else if |s| >= 2 && s[0] == '/' && s[1] == '*' then
      match FindCommentEnd(s, 2)
      case Some(j) => StripComments(s[j + 2..])
      case None => [s[0]] + StripComments(s[1..])
    else [s[0]] + StripComments(s[1..])
  }

  // `s` holds no comment opener (slash, star), not even one completed by a
  // star that follows `s`.
  predicate OpenerFree(s: string) {
    && (forall i :: 0 <= i < |s| - 1 ==> !(s[i] == '/' && s[i + 1] == '*'))
    && (s == [] || s[|s| - 1] != '/')
  }

  lemma {:induction false} StripCommentsOpenerFree(pre: string, t: string)
    requires OpenerFree(pre)
    ensures StripComments(pre + t) == pre + StripComments(t)
  {
    if pre == [] {
      assert pre + t == t;
    } else {
      ConsAppend(pre, t);
      OpenerFreeTail(pre);
      StripCommentsCopiesFirst(pre, t);
      StripCommentsOpenerFree(pre[1..], t);
      ConsAppend(pre, StripComments(t));
    }
  }

  lemma OpenerFreeTail(pre: string)
    requires OpenerFree(pre) && pre != []
    ensures OpenerFree(pre[1..])
  {
    var p1 := pre[1..];
    forall i | 0 <= i < |p1| - 1 ensures !(p1[i] == '/' && p1[i + 1] == '*') {
      assert p1[i] == pre[i + 1] && p1[i + 1] == pre[i + 2];
    }
    if p1 != [] {
      assert p1[|p1| - 1] == pre[|pre| - 1];
    }
  }

  /** No comment starts at the first character of an opener-free prefix. */
  lemma StripCommentsCopiesFirst(pre: string, t: string)
    requires OpenerFree(pre) && pre != []
    ensures StripComments(pre + t) == [pre[0]] + StripComments(pre[1..] + t)
  {
    var s := pre + t;
    ConsAppend(pre, t);
    if |pre| >= 2 {
      assert s[1] == pre[1];
    } else {
      assert pre[0] == pre[|pre| - 1];
    }
  }

  // Text with no closer after its first character is left alone.
  lemma {:induction false} StripCommentsNoClose(s: string)
    requires forall k :: 1 <= k ==> !CloseAt(s, k)
    ensures StripComments(s) == s
  {
    if s != [] {
      assert forall k :: 1 <= k ==> !CloseAt(s[1..], k) by {
        forall k | 1 <= k ensures !CloseAt(s[1..], k) {
          assert !CloseAt(s, k + 1);
        }
      }
      StripCommentsNoClose(s[1..]);
      if |s| >= 2 && s[0] == '/' && s[1] == '*' {
        assert FindCommentEnd(s, 2).None?;
      }
    }
  }

  // The comment pass removes an opener through the nearest following closer.
  lemma CommentRemoved(pre: string, body: string, post: string)
    requires OpenerFree(pre)
    requires forall k :: !CloseAt(body, k)
    ensures StripComments(pre + ("/*" + (body + ("*/" + post)))) == pre + StripComments(post)
  {
    StripCommentsOpenerFree(pre, "/*" + (body + ("*/" + post)));
    CommentBlockRemoved(body, post);
  }

  lemma CommentBlockRemoved(body: string, post: string)
    requires forall k :: !CloseAt(body, k)
    ensures StripComments("/*" + (body + ("*/" + post))) == StripComments(post)
  {
    var rest := "/*" + (body + ("*/" + post));
    FirstCloser(body, post);
    assert rest[2 + |body| + 2..] == post;
  }

  /** The first closer after an opener is the one that follows the body. */
  lemma FirstCloser(body: string, post: string)
    requires forall k :: !CloseAt(body, k)
    ensures FindCommentEnd("/*" + (body + ("*/" + post)), 2) == Some(2 + |body|)
  {
    var rest := "/*" + (body + ("*/" + post));
    var e := 2 + |body|;
    assert CloseAt(rest, e);
    forall k | 2 <= k < e ensures !CloseAt(rest, k) {
      if k + 1 < e {
        assert rest[k] == body[k - 2] && rest[k + 1] == body[k - 1];
        assert !CloseAt(body, k - 2);
      } else {
        assert rest[k + 1] == '*';
      }
    }
  }

  lemma UnterminatedTail(body: string)
    requires forall k :: !CloseAt(body, k)
    ensures StripComments("/*" + body) == "/*" + body
  {
    var rest := "/*" + body;
    assert FindCommentEnd(rest, 2).None? by {
      forall k | 2 <= k ensures !CloseAt(rest, k) {
        assert !CloseAt(body, k - 2);
      }
    }
    var star := "*" + body;
    assert rest[1..] == star;
    assert star[1..] == body;
    StripCommentsNoClose(body);
  }

  // An opener with no closer after it is kept, with everything that follows it.
  lemma UnterminatedCommentKept(pre: string, body: string)
    requires OpenerFree(pre)
    requires forall k :: !CloseAt(body, k)
    ensures StripComments(pre + ("/*" + body)) == pre + ("/*" + body)
  {
    StripCommentsOpenerFree(pre, "/*" + body);
    UnterminatedTail(body);
  }

  // ---------------------------------------------------------------------
  // Pass 2: whitespace runs
  // ---------------------------------------------------------------------

  lemma {:induction false} SkipSpacesNonSpace(s: string)
    ensures NonSpace(SkipSpaces(s)) == NonSpace(s)
  {
    if s != [] && IsSpace(s[0]) {
      SkipSpacesNonSpace(s[1..]);
    }
  }

  function CollapseSpaces(s: string): (r: string)
    decreases |s|
    ensures s != [] ==> r != [] && (IsSpace(r[0]) <==> IsSpace(s[0]))
  {
    if s == [] then []
    else if IsSpace(s[0]) then AsciiSpace(' '); [' '] + CollapseSpaces(SkipSpaces(s))
    else [s[0]] + CollapseSpaces(s[1..])
  }

  /** Every whitespace character pass 2 leaves is a single plain space. */
  lemma {:induction false} CollapseSingle(s: string)
    decreases |s|
    ensures AllSpacesPlain(CollapseSpaces(s)) && NoDoubleSpace(CollapseSpaces(s))
  {
    if s != [] {
      AsciiSpace(' ');
      if IsSpace(s[0]) {
        var t := SkipSpaces(s);
        CollapseSingle(t);
        ConcatNoDoubleSpace([' '], CollapseSpaces(t));
        ConcatPlain([' '], CollapseSpaces(t));
      } else {
        CollapseSingle(s[1..]);
        ConcatNoDoubleSpace([s[0]], CollapseSpaces(s[1..]));
        ConcatPlain([s[0]], CollapseSpaces(s[1..]));
      }
    }
  }

  /** Pass 2 changes whitespace only. */
  lemma {:induction false} CollapseKeepsText(s: string)
    decreases |s|
    ensures NonSpace(CollapseSpaces(s)) == NonSpace(s)
  {
    if s != [] {
      AsciiSpace(' ');
      if IsSpace(s[0]) {
        var t := SkipSpaces(s);
        CollapseKeepsText(t);
        SkipSpacesNonSpace(s);
        assert ([' '] + CollapseSpaces(t))[1..] == CollapseSpaces(t);
      } else {
        CollapseKeepsText(s[1..]);
        assert ([s[0]] + CollapseSpaces(s[1..]))[1..] == CollapseSpaces(s[1..]);
      }
    }
  }

  // ---------------------------------------------------------------------
  // Pass 3: whitespace around separators
  // ---------------------------------------------------------------------

  lemma SeparatorNotSpace(c: char)
    ensures IsSeparator(c) ==> !IsSpace(c)
  {
    if IsSeparator(c) {
      AsciiSpace(c);
    }
  }

  /** Optional whitespace then a separator starts `s`: pass 3 matches here. */
  predicate AtSeparator(s: string) {
    var t := SkipSpaces(s);
    t != [] && IsSeparator(t[0])
  }

  /** Each match of `\s*` separator `\s*` is replaced by the separator alone;
      the second `\s*` is greedy, so what follows the replacement never starts
      with whitespace. */
  function StripSeparatorSpaces(s: string): (r: string)
    decreases |s|
    ensures s != [] ==> r != [] && r[0] == (if AtSeparator(s) then SkipSpaces(s)[0] else s[0])
  {
    if s == [] then []
    else if AtSeparator(s) then
      var t := SkipSpaces(s);
      [t[0]] + StripSeparatorSpaces(SkipSpaces(t[1..]))
    else [s[0]] + StripSeparatorSpaces(s[1..])
  }

  /** Whitespace that does not touch a separator is not matched: after a
      non-separator space the scan sees the same lookahead. */
  lemma SpaceThenNoSeparator(s: string)
    requires |s| > 1 && IsSpace(s[0]) && !AtSeparator(s)
    ensures !AtSeparator(s[1..]) && !IsSeparator(s[1])
  {
    SeparatorNotSpace(s[1]);
    assert SkipSpaces(s) == SkipSpaces(s[1..]);
  }

  /** The input of pass 3 after one separator match and the whitespace
      around it. */
  function AfterSeparator(s: string): string
    requires AtSeparator(s)
  {
    var t := SkipSpaces(s);
    SkipSpaces(t[1..])
  }

  lemma SeparatorStep(s: string)
    requires AtSeparator(s)
    ensures StripSeparatorSpaces(s) == [SkipSpaces(s)[0]] + StripSeparatorSpaces(AfterSeparator(s))
    ensures IsSeparator(SkipSpaces(s)[0]) && !IsSpace(SkipSpaces(s)[0])
    ensures AfterSeparator(s) == [] || !AtSeparator(AfterSeparator(s)) || IsSeparator(AfterSeparator(s)[0])
  {
    SeparatorNotSpace(SkipSpaces(s)[0]);
    var u := AfterSeparator(s);
    if u != [] {
      assert SkipSpaces(u) == u;
    }
  }

  lemma GoneAtSeparator(s: string)
    requires AtSeparator(s)
    requires NoSpaceNearSeparator(StripSeparatorSpaces(AfterSeparator(s)))
    ensures NoSpaceNearSeparator(StripSeparatorSpaces(s))
  {
    SeparatorStep(s);
    var u := AfterSeparator(s);
    var rest := StripSeparatorSpaces(u);
    if u != [] {
      assert SkipSpaces(u) == u;
      assert !IsSpace(rest[0]);
    }
    ConcatNoSpaceNearSeparator([SkipSpaces(s)[0]], rest);
  }

  lemma GoneElsewhere(s: string)
    requires s != [] && !AtSeparator(s)
    requires NoSpaceNearSeparator(StripSeparatorSpaces(s[1..]))
    ensures NoSpaceNearSeparator(StripSeparatorSpaces(s))
  {
    var rest := StripSeparatorSpaces(s[1..]);
    assert StripSeparatorSpaces(s) == [s[0]] + rest;
    SeparatorNotSpace(s[0]);
    if |s| > 1 {
      if IsSpace(s[0]) {
        SpaceThenNoSeparator(s);
        assert rest[0] == s[1];
      } else {
        assert SkipSpaces(s) == s;
      }
    }
    ConcatNoSpaceNearSeparator([s[0]], rest);
  }

  /** The output of pass 3 has no whitespace next to a separator. */
  lemma {:induction false} SeparatorSpacesGone(s: string)
    decreases |s|
    ensures NoSpaceNearSeparator(StripSeparatorSpaces(s))
  {
    if s == [] {
    } else if AtSeparator(s) {
      SeparatorSpacesGone(AfterSeparator(s));
      GoneAtSeparator(s);
    } else {
      SeparatorSpacesGone(s[1..]);
      GoneElsewhere(s);
    }
  }

  lemma SingleAtSeparator(s: string)
    requires AtSeparator(s) && NoDoubleSpace(s)
    requires NoDoubleSpace(AfterSeparator(s)) ==> NoDoubleSpace(StripSeparatorSpaces(AfterSeparator(s)))
    ensures NoDoubleSpace(StripSeparatorSpaces(s))
  {
    SeparatorStep(s);
    AfterSeparatorSingle(s);
    ConcatNoDoubleSpace([SkipSpaces(s)[0]], StripSeparatorSpaces(AfterSeparator(s)));
  }

  lemma SuffixNoDouble(s: string, t: string)
    requires NoDoubleSpace(s) && |t| <= |s| && t == s[|s| - |t|..]
    ensures NoDoubleSpace(t)
  {
    var d := |s| - |t|;
    forall i | 0 <= i < |t| - 1 ensures !SpacePair(t[i], t[i + 1]) {
      assert t[i] == s[d + i] && t[i + 1] == s[d + i + 1];
    }
  }

  lemma AfterSeparatorSingle(s: string)
    requires AtSeparator(s) && NoDoubleSpace(s)
    ensures NoDoubleSpace(AfterSeparator(s))
  {
    var t := SkipSpaces(s);
    SkipSpacesSuffix(s);
    SkipSpacesSuffix(t[1..]);
    SuffixNoDouble(s, t);
    SuffixNoDouble(t, t[1..]);
    SuffixNoDouble(t[1..], AfterSeparator(s));
  }

  lemma SingleElsewhere(s: string)
    requires s != [] && !AtSeparator(s) && NoDoubleSpace(s)
    requires NoDoubleSpace(s[1..]) ==> NoDoubleSpace(StripSeparatorSpaces(s[1..]))
    ensures NoDoubleSpace(StripSeparatorSpaces(s))
  {
    SuffixNoDouble(s, s[1..]);
    var rest := StripSeparatorSpaces(s[1..]);
    assert StripSeparatorSpaces(s) == [s[0]] + rest;
    if |s| > 1 && IsSpace(s[0]) {
      SpaceThenNoSeparator(s);
      assert rest[0] == s[1];
      assert !SpacePair(s[0], s[1]);
    }
    ConcatNoDoubleSpace([s[0]], rest);
  }

  /** Pass 3 only deletes whitespace: it cannot make two spaces adjacent. */
  lemma {:induction false} SeparatorSpacesKeepSingle(s: string)
    decreases |s|
    ensures NoDoubleSpace(s) ==> NoDoubleSpace(StripSeparatorSpaces(s))
  {
    if s == [] || !NoDoubleSpace(s) {
    } else if AtSeparator(s) {
      SeparatorSpacesKeepSingle(AfterSeparator(s));
      SingleAtSeparator(s);
    } else {
      SeparatorSpacesKeepSingle(s[1..]);
      SingleElsewhere(s);
    }
  }

  lemma TextAtSeparator(s: string)
    requires AtSeparator(s)
    requires AllSpacesPlain(AfterSeparator(s)) ==> AllSpacesPlain(StripSeparatorSpaces(AfterSeparator(s)))
    requires NonSpace(StripSeparatorSpaces(AfterSeparator(s))) == NonSpace(AfterSeparator(s))
    ensures AllSpacesPlain(s) ==> AllSpacesPlain(StripSeparatorSpaces(s))
    ensures NonSpace(StripSeparatorSpaces(s)) == NonSpace(s)
  {
    NonSpaceAtSeparator(s);
    PlainAtSeparator(s);
  }

  lemma NonSpaceAtSeparator(s: string)
    requires AtSeparator(s)
    requires NonSpace(StripSeparatorSpaces(AfterSeparator(s))) == NonSpace(AfterSeparator(s))
    ensures NonSpace(StripSeparatorSpaces(s)) == NonSpace(s)
  {
    SeparatorStep(s);
    var t := SkipSpaces(s);
    var u := AfterSeparator(s);
    var rest := StripSeparatorSpaces(u);
    SkipSpacesNonSpace(s);
    SkipSpacesNonSpace(t[1..]);
    assert NonSpace(t) == [t[0]] + NonSpace(t[1..]);
    assert ([t[0]] + rest)[1..] == rest;
    assert NonSpace([t[0]] + rest) == [t[0]] + NonSpace(rest);
  }

  lemma PlainAtSeparator(s: string)
    requires AtSeparator(s)
    requires AllSpacesPlain(AfterSeparator(s)) ==> AllSpacesPlain(StripSeparatorSpaces(AfterSeparator(s)))
    ensures AllSpacesPlain(s) ==> AllSpacesPlain(StripSeparatorSpaces(s))
  {
    if AllSpacesPlain(s) {
      SeparatorStep(s);
      AfterSeparatorPlain(s);
      HeadPlain(SkipSpaces(s)[0], StripSeparatorSpaces(AfterSeparator(s)));
    }
  }

  lemma AfterSeparatorPlain(s: string)
    requires AtSeparator(s) && AllSpacesPlain(s)
    ensures AllSpacesPlain(AfterSeparator(s))
  {
    var t := SkipSpaces(s);
    SkipSpacesSuffix(s);
    SkipSpacesSuffix(t[1..]);
    SuffixPlain(s, t);
    SuffixPlain(t, t[1..]);
    SuffixPlain(t[1..], AfterSeparator(s));
  }

  lemma HeadPlain(c: char, x: string)
    requires !IsSpace(c) && AllSpacesPlain(x)
    ensures AllSpacesPlain([c] + x)
  {
    assert AllSpacesPlain([c]);
    ConcatPlain([c], x);
  }

  lemma SuffixPlain(s: string, t: string)
    requires AllSpacesPlain(s) && |t| <= |s| && t == s[|s| - |t|..]
    ensures AllSpacesPlain(t)
  {
    SlicePlain(s, |s| - |t|, |s|);
  }

  lemma TextElsewhere(s: string)
    requires s != [] && !AtSeparator(s)
    requires AllSpacesPlain(s[1..]) ==> AllSpacesPlain(StripSeparatorSpaces(s[1..]))
    requires NonSpace(StripSeparatorSpaces(s[1..])) == NonSpace(s[1..])
    ensures AllSpacesPlain(s) ==> AllSpacesPlain(StripSeparatorSpaces(s))
    ensures NonSpace(StripSeparatorSpaces(s)) == NonSpace(s)
  {
    var rest := StripSeparatorSpaces(s[1..]);
    assert StripSeparatorSpaces(s) == [s[0]] + rest;
    assert ([s[0]] + rest)[1..] == rest;
    if AllSpacesPlain(s) {
      SuffixPlain(s, s[1..]);
      ConcatPlain([s[0]], rest);
    }
  }

  /** Pass 3 only deletes whitespace: the non-whitespace text is unchanged
      and no new kind of whitespace appears. */
  lemma {:induction false} SeparatorSpacesKeepText(s: string)
    decreases |s|
    ensures AllSpacesPlain(s) ==> AllSpacesPlain(StripSeparatorSpaces(s))
    ensures NonSpace(StripSeparatorSpaces(s)) == NonSpace(s)
  {
    if s == [] {
    } else if AtSeparator(s) {
      SeparatorSpacesKeepText(AfterSeparator(s));
      TextAtSeparator(s);
    } else {
      SeparatorSpacesKeepText(s[1..]);
      TextElsewhere(s);
    }
  }

  // ---------------------------------------------------------------------
  // Pass 4: `;}` -> `}`
  // ---------------------------------------------------------------------

  /** `s` begins with `;` then `}`. */
  predicate SemicolonBrace(s: string) {
    |s| >= 2 && s[0] == ';' && s[1] == '}'
  }

  /** The characters of `s` other than `;`, in order. */
  function NonSemicolon(s: string): string {
    if s == [] then [] else (if s[0] == ';' then [] else [s[0]]) + NonSemicolon(s[1..])
  }

  function DropSemicolonBeforeBrace(s: string): (r: string)
    decreases |s|
    ensures s != [] ==> r != [] && r[0] == (if SemicolonBrace(s) then '}' else s[0])
  {
    if s == [] then []
    else if SemicolonBrace(s) then ['}'] + DropSemicolonBeforeBrace(s[2..])
    else [s[0]] + DropSemicolonBeforeBrace(s[1..])
  }

  /** Pass 4 deletes `;` characters and nothing else. */
  lemma {:induction false} SemicolonDropKeepsText(s: string)
    decreases |s|
    ensures NonSemicolon(DropSemicolonBeforeBrace(s)) == NonSemicolon(s)
  {
    if s == [] {
    } else if SemicolonBrace(s) {
      SemicolonDropKeepsText(s[2..]);
      var rest := DropSemicolonBeforeBrace(s[2..]);
      assert (['}'] + rest)[1..] == rest;
      assert s[1..][1..] == s[2..];
      assert s[0] == ';' && s[1] == '}';
    } else {
      SemicolonDropKeepsText(s[1..]);
      var rest := DropSemicolonBeforeBrace(s[1..]);
      assert ([s[0]] + rest)[1..] == rest;
    }
  }

  /** Pass 4 writes no whitespace of its own. */
  lemma {:induction false} SemicolonDropKeepsPlain(s: string)
    requires AllSpacesPlain(s)
    decreases |s|
    ensures AllSpacesPlain(DropSemicolonBeforeBrace(s))
  {
    if s == [] {
    } else if SemicolonBrace(s) {
      SlicePlain(s, 2, |s|);
      SemicolonDropKeepsPlain(s[2..]);
      SeparatorNotSpace('}');
      ConcatPlain(['}'], DropSemicolonBeforeBrace(s[2..]));
    } else {
      SlicePlain(s, 1, |s|);
      SemicolonDropKeepsPlain(s[1..]);
      SlicePlain(s, 0, 1);
      assert s[0..1] == [s[0]];
      ConcatPlain([s[0]], DropSemicolonBeforeBrace(s[1..]));
    }
  }

  /** Deleting the `;` of `;}` joins `}` to what came before the `;`; both
      `;` and `}` are separators, so no space can sit on either side and the
      output stays tight. */
  lemma {:induction false} SemicolonDropKeepsTight(s: string)
    requires Tight(s)
    decreases |s|
    ensures Tight(DropSemicolonBeforeBrace(s))
  {
    if s == [] {
    } else if SemicolonBrace(s) {
      SliceKeeps(s, 2, |s|);
      SemicolonDropKeepsTight(s[2..]);
      var rest := DropSemicolonBeforeBrace(s[2..]);
      if |s| > 2 {
        assert !SeparatorPair(s[1], s[2]);
        SeparatorNotSpace('}');
        assert !IsSpace(rest[0]) by {
          if SemicolonBrace(s[2..]) {
            SeparatorNotSpace('}');
          } else {
            assert rest[0] == s[2];
          }
        }
      }
      SeparatorNotSpace('}');
      ConcatTight(['}'], rest);
    } else {
      SliceKeeps(s, 1, |s|);
      SemicolonDropKeepsTight(s[1..]);
      var rest := DropSemicolonBeforeBrace(s[1..]);
      if |s| > 1 {
        assert !SpacePair(s[0], s[1]) && !SeparatorPair(s[0], s[1]);
        if SemicolonBrace(s[1..]) {
          assert s[1] == ';';
          SeparatorNotSpace(';');
          SeparatorNotSpace('}');
        } else {
          assert rest[0] == s[1];
        }
      }
      ConcatTight([s[0]], rest);
    }
  }

  // ---------------------------------------------------------------------
  // Pass 5: quoted url() arguments
  // ---------------------------------------------------------------------

  predicate IsQuote(c: char) {
    c == '\'' || c == '"'
  }

  /** A character of `[^'"()]`. */
  predicate UrlChar(c: char) {
    !IsQuote(c) && c != '(' && c != ')'
  }

  /** `s` begins with the four characters `url(`. */
  predicate UrlOpen(s: string) {
    |s| >= 4 && s[0] == 'u' && s[1] == 'r' && s[2] == 'l' && s[3] == '('
  }

  /** The greedy `[^'"()]+`: the length of the leading run of `UrlChar`s. */
  function UrlRun(s: string): (n: nat)
    ensures n <= |s|
    ensures forall i :: 0 <= i < n ==> UrlChar(s[i])
    ensures n == |s| || !UrlChar(s[n])
  {
    if s != [] && UrlChar(s[0]) then 1 + UrlRun(s[1..]) else 0
  }

  /** `url(` followed by a quote, a run of `UrlChar`s, the same quote and `)`:
      the length of the run when it is non-empty. The run is greedy and may
      not contain the quote, so there is no backtracking to consider. */
  function QuotedUrlAt(s: string): (r: Option<nat>)
    ensures r.Some? ==>
      (0 < r.value && 7 + r.value <= |s| && UrlOpen(s) && IsQuote(s[4])
       && (forall i :: 5 <= i < 5 + r.value ==> UrlChar(s[i]))
       && s[5 + r.value] == s[4] && s[6 + r.value] == ')')
  {
    if UrlOpen(s) && |s| > 4 && IsQuote(s[4]) then
      var n := UrlRun(s[5..]);
      if n > 0 && 7 + n <= |s| && s[5 + n] == s[4] && s[6 + n] == ')' then Some(n) else None
    else None
  }

  /** The same pattern with the optional quote absent. */
  function PlainUrlAt(s: string): (r: Option<nat>)
    ensures r.Some? ==>
      (0 < r.value && 5 + r.value <= |s| && UrlOpen(s)
       && (forall i :: 4 <= i < 4 + r.value ==> UrlChar(s[i]))
       && s[4 + r.value] == ')')
  {
    if UrlOpen(s) then
      var n := UrlRun(s[4..]);
      if n > 0 && 5 + n <= |s| && s[4 + n] == ')' then Some(n) else None
    else None
  }

  function UnquoteUrls(s: string): (r: string)
    decreases |s|
    ensures s != [] ==> r != [] && r[0] == s[0]
  {
    if s == [] then []
    else match QuotedUrlAt(s)
      case Some(n) => "url(" + s[5..5 + n] + ")" + UnquoteUrls(s[7 + n..])
      case None =>
        match PlainUrlAt(s)
        case Some(n) => "url(" + s[4..4 + n] + ")" + UnquoteUrls(s[5 + n..])
        case None => [s[0]] + UnquoteUrls(s[1..])
  }

  /** Neither whitespace nor a separator: no pair involving it is forbidden. */
  predicate Neutral(c: char) {
    !IsSpace(c) && !IsSeparator(c)
  }

  lemma NeutralJoin(a: string, b: string)
    requires Tight(a) && Tight(b)
    requires a == [] || b == [] || Neutral(a[|a| - 1]) || Neutral(b[0])
    ensures Tight(a + b)
  {
    ConcatTight(a, b);
  }

  /** Writing `url(`, the argument and `)` back creates only pairs with a
      parenthesis on one side. */
  lemma UrlGlue(arg: string, rest: string)
    requires Tight(arg) && Tight(rest)
    ensures Tight("url(" + arg + ")" + rest)
  {
    var open := "url(";
    assert Tight(open) by {
      AsciiSpace('u');
      AsciiSpace('r');
      AsciiSpace('l');
      AsciiSpace('(');
    }
    AsciiSpace('(');
    AsciiSpace(')');
    NeutralJoin(open, arg);
    NeutralJoin(open + arg, ")");
    NeutralJoin(open + arg + ")", rest);
  }

  /** Pass 5 at a position where neither pattern matches copies one
      character. */
  lemma UnquoteCopies(s: string)
    requires s != [] && QuotedUrlAt(s).None? && PlainUrlAt(s).None?
    ensures UnquoteUrls(s) == [s[0]] + UnquoteUrls(s[1..])
  {
  }

  lemma TightQuoted(s: string, n: nat)
    requires Tight(s) && QuotedUrlAt(s) == Some(n)
    requires Tight(UnquoteUrls(s[7 + n..]))
    ensures Tight(UnquoteUrls(s))
  {
    SliceTight(s, 5, 5 + n);
    UrlGlue(s[5..5 + n], UnquoteUrls(s[7 + n..]));
  }

  lemma TightPlainUrl(s: string, n: nat)
    requires Tight(s) && QuotedUrlAt(s).None? && PlainUrlAt(s) == Some(n)
    requires Tight(UnquoteUrls(s[5 + n..]))
    ensures Tight(UnquoteUrls(s))
  {
    SliceTight(s, 4, 4 + n);
    UrlGlue(s[4..4 + n], UnquoteUrls(s[5 + n..]));
  }

  lemma TightCopied(s: string)
    requires Tight(s) && s != [] && QuotedUrlAt(s).None? && PlainUrlAt(s).None?
    requires Tight(UnquoteUrls(s[1..]))
    ensures Tight(UnquoteUrls(s))
  {
    UnquoteCopies(s);
    var rest := UnquoteUrls(s[1..]);
    if |s| > 1 {
      assert !SpacePair(s[0], s[1]) && !SeparatorPair(s[0], s[1]);
      assert rest[0] == s[1];
    }
    ConcatTight([s[0]], rest);
  }

  /** Pass 5 keeps the output tight: it only rewrites text inside `url(`
      and `)`, whose neighbours are parentheses. */
  lemma {:induction false} UnquoteKeepsTight(s: string)
    requires Tight(s)
    decreases |s|
    ensures Tight(UnquoteUrls(s))
  {
    if s != [] {
      match QuotedUrlAt(s)
      case Some(n) =>
        SliceTight(s, 7 + n, |s|);
        UnquoteKeepsTight(s[7 + n..]);
        TightQuoted(s, n);
      case None =>
        match PlainUrlAt(s)
        case Some(n) =>
          SliceTight(s, 5 + n, |s|);
          UnquoteKeepsTight(s[5 + n..]);
          TightPlainUrl(s, n);
        case None =>
          SliceTight(s, 1, |s|);
          UnquoteKeepsTight(s[1..]);
          TightCopied(s);
    }
  }

  /** Pass 5 writes no whitespace of its own. */
  lemma {:induction false} UnquoteKeepsPlain(s: string)
    requires AllSpacesPlain(s)
    decreases |s|
    ensures AllSpacesPlain(UnquoteUrls(s))
  {
    if s != [] {
      match QuotedUrlAt(s)
      case Some(n) =>
        SlicePlain(s, 7 + n, |s|);
        UnquoteKeepsPlain(s[7 + n..]);
        SlicePlain(s, 5, 5 + n);
        PlainGlue(s[5..5 + n], UnquoteUrls(s[7 + n..]));
      case None =>
        match PlainUrlAt(s)
        case Some(n) =>
          SlicePlain(s, 5 + n, |s|);
          UnquoteKeepsPlain(s[5 + n..]);
          SlicePlain(s, 4, 4 + n);
          PlainGlue(s[4..4 + n], UnquoteUrls(s[5 + n..]));
        case None =>
          SlicePlain(s, 1, |s|);
          UnquoteKeepsPlain(s[1..]);
          SlicePlain(s, 0, 1);
          assert s[0..1] == [s[0]];
          UnquoteCopies(s);
          ConcatPlain([s[0]], UnquoteUrls(s[1..]));
    }
  }

  lemma PlainGlue(arg: string, rest: string)
    requires AllSpacesPlain(arg) && AllSpacesPlain(rest)
    ensures AllSpacesPlain("url(" + arg + ")" + rest)
  {
    var r := "url(" + arg + ")" + rest;
    {
      forall i | 0 <= i < |r| && IsSpace(r[i]) ensures r[i] == ' ' {
        if i < 4 {
          AsciiSpace('u');
          AsciiSpace('r');
          AsciiSpace('l');
          AsciiSpace('(');
        } else if i < 4 + |arg| {
          assert r[i] == arg[i - 4];
        } else if i == 4 + |arg| {
          AsciiSpace(')');
        } else {
          assert r[i] == rest[i - 5 - |arg|];
        }
      }
    }
  }

  // ---------------------------------------------------------------------
  // The pipeline
  // ---------------------------------------------------------------------

  /** The five passes before trimming. */
  function Passes(css: string): string {
    UnquoteUrls(DropSemicolonBeforeBrace(StripSeparatorSpaces(CollapseSpaces(StripComments(css)))))
  }

  /** `minifyCSS`. Its output has no leading or trailing whitespace, every
      whitespace character in it is a single space, and no whitespace sits
      next to another whitespace character or to a separator. */
  function Minify(css: string): (r: string)
    ensures Trimmed(r)
    ensures AllSpacesPlain(r)
    ensures NoDoubleSpace(r)
    ensures NoSpaceNearSeparator(r)
  {
    PassesClean(css);
    TrimKeepsClean(Passes(css));
    Trim(Passes(css))
  }

  /** After pass 3 the text is tight and its only whitespace is plain
      spaces. */
  lemma SeparatedClean(css: string)
    ensures var p := StripSeparatorSpaces(CollapseSpaces(StripComments(css)));
      Tight(p) && AllSpacesPlain(p)
  {
    var c := CollapseSpaces(StripComments(css));
    CollapseSingle(StripComments(css));
    SeparatorSpacesGone(c);
    SeparatorSpacesKeepSingle(c);
    SeparatorSpacesKeepText(c);
  }

  /** Passes 4 and 5 keep both properties. */
  lemma PassesClean(css: string)
    ensures Tight(Passes(css)) && AllSpacesPlain(Passes(css))
  {
    var p := StripSeparatorSpaces(CollapseSpaces(StripComments(css)));
    SeparatedClean(css);
    var q := DropSemicolonBeforeBrace(p);
    SemicolonDropKeepsTight(p);
    SemicolonDropKeepsPlain(p);
    UnquoteKeepsTight(q);
    UnquoteKeepsPlain(q);
  }

  /** `trim` keeps both properties and leaves no whitespace at either end. */
  lemma TrimKeepsClean(e: string)
    requires Tight(e) && AllSpacesPlain(e)
    ensures var r := Trim(e);
      Trimmed(r) && Tight(r) && AllSpacesPlain(r)
  {
    var t := SkipSpaces(e);
    SkipSpacesSuffix(e);
    SliceKeeps(e, |e| - |t|, |e|);
    TrimEndKeepsClean(t);
  }

  lemma TrimEndKeepsClean(t: string)
    requires Tight(t) && AllSpacesPlain(t) && (t == [] || !IsSpace(t[0]))
    ensures var r := TrimEnd(t);
      Trimmed(r) && Tight(r) && AllSpacesPlain(r)
  {
    var r := TrimEnd(t);
    SliceKeeps(t, 0, |r|);
    if r != [] {
      assert r[0] == t[0];
    }
  }


  // ---------------------------------------------------------------------
  // Stretches of text each pass copies or rewrites
  // ---------------------------------------------------------------------

  /** Text without a `/` holds no comment opener. */
  lemma SlashFree(s: string)
    requires '/' !in s
    ensures OpenerFree(s)
  {
    if s != [] {
      assert s[|s| - 1] in s;
    }
    forall i | 0 <= i < |s| - 1 ensures !(s[i] == '/' && s[i + 1] == '*') {
      assert s[i] in s;
    }
  }

  /** Text without a `*` holds no comment closer. */
  lemma StarFree(s: string)
    requires '*' !in s
    ensures forall k :: !CloseAt(s, k)
  {
    forall k | CloseAt(s, k) ensures false {
    }
  }

  /** Printable ASCII other than the space is not whitespace. */
  lemma PrintableNotSpace(s: string)
    requires forall c :: c in s ==> 0x20 < c as int < 0x7F
    ensures forall c :: c in s ==> !IsSpace(c)
  {
    forall c | c in s ensures !IsSpace(c) {
      AsciiSpace(c);
    }
  }

  /** Pass 2 copies text without whitespace. */
  lemma CollapseCopies(s: string)
    requires s != [] && !IsSpace(s[0])
    ensures CollapseSpaces(s) == [s[0]] + CollapseSpaces(s[1..])
  {
  }

  lemma {:induction false} CollapseCopiesWord(a: string, b: string)
    requires forall c :: c in a ==> !IsSpace(c)
    ensures CollapseSpaces(a + b) == a + CollapseSpaces(b)
  {
    if a == [] {
      assert a + b == b;
    } else {
      ConsAppend(a, b);
      assert a[0] in a;
      CollapseCopies(a + b);
      InSuffix(a, 1);
      CollapseCopiesWord(a[1..], b);
      ConsAppend(a, CollapseSpaces(b));
    }
  }

  lemma {:induction false} SkipSpacesRun(sp: string, b: string)
    requires forall c :: c in sp ==> IsSpace(c)
    requires b == [] || !IsSpace(b[0])
    ensures SkipSpaces(sp + b) == b
  {
    if sp == [] {
      assert sp + b == b;
    } else {
      ConsAppend(sp, b);
      assert sp[0] in sp;
      InSuffix(sp, 1);
      SkipSpacesRun(sp[1..], b);
    }
  }

  /** Pass 2 turns a whole run of whitespace into one space. */
  lemma CollapseRun(sp: string, b: string)
    requires sp != [] && forall c :: c in sp ==> IsSpace(c)
    requires b == [] || !IsSpace(b[0])
    ensures CollapseSpaces(sp + b) == " " + CollapseSpaces(b)
  {
    assert sp[0] in sp;
    SkipSpacesRun(sp, b);
  }

  /** Pass 3 copies text without whitespace or separators. */
  lemma SeparatorCopies(s: string)
    requires s != [] && Neutral(s[0])
    ensures StripSeparatorSpaces(s) == [s[0]] + StripSeparatorSpaces(s[1..])
  {
    assert SkipSpaces(s) == s;
  }

  lemma {:induction false} SeparatorCopiesWord(a: string, b: string)
    requires forall c :: c in a ==> Neutral(c)
    ensures StripSeparatorSpaces(a + b) == a + StripSeparatorSpaces(b)
  {
    if a == [] {
      assert a + b == b;
    } else {
      ConsAppend(a, b);
      assert a[0] in a;
      SeparatorCopies(a + b);
      InSuffix(a, 1);
      SeparatorCopiesWord(a[1..], b);
      ConsAppend(a, StripSeparatorSpaces(b));
    }
  }

  /** Pass 3 copies whitespace that a neutral character follows. */
  lemma SeparatorCopiesSpace(sp: string, b: string)
    requires |sp| == 1 && IsSpace(sp[0]) && b != [] && Neutral(b[0])
    ensures StripSeparatorSpaces(sp + b) == sp + StripSeparatorSpaces(b)
  {
    var s := sp + b;
    assert s[1..] == b;
    assert SkipSpaces(s) == SkipSpaces(b) == b;
  }

  /** Whitespace right before a separator is part of the separator's match. */
  lemma SeparatorAfterSpaces(sp: string, b: string)
    requires forall x :: x in sp ==> IsSpace(x)
    requires b != [] && IsSeparator(b[0])
    ensures StripSeparatorSpaces(sp + b) == StripSeparatorSpaces(b)
  {
    SeparatorNotSpace(b[0]);
    SkipSpacesRun(sp, b);
    SkipSpacesRun([], b);
    assert [] + b == b;
  }

  /** Pass 3 replaces a separator and the whitespace after it by the
      separator. */
  lemma SeparatorMatch(sep: string, sp: string, b: string)
    requires |sep| == 1 && IsSeparator(sep[0])
    requires forall x :: x in sp ==> IsSpace(x)
    requires b == [] || !IsSpace(b[0])
    ensures StripSeparatorSpaces(sep + (sp + b)) == sep + StripSeparatorSpaces(b)
  {
    var s := sep + (sp + b);
    SeparatorNotSpace(sep[0]);
    assert s[0] == sep[0] && [s[0]] == sep;
    assert SkipSpaces(s) == s;
    assert AtSeparator(s);
    assert s[1..] == sp + b;
    SkipSpacesRun(sp, b);
  }

  /** Pass 4 copies text without a `;`. */
  lemma {:induction false} SemicolonCopiesWord(a: string, b: string)
    requires ';' !in a
    ensures DropSemicolonBeforeBrace(a + b) == a + DropSemicolonBeforeBrace(b)
  {
    if a == [] {
      assert a + b == b;
    } else {
      ConsAppend(a, b);
      assert a[0] in a;
      InSuffix(a, 1);
      SemicolonCopiesWord(a[1..], b);
      ConsAppend(a, DropSemicolonBeforeBrace(b));
    }
  }

  /** Pass 4 keeps a `;` that no `}` follows. */
  lemma SemicolonKept(b: string)
    requires b == [] || b[0] != '}'
    ensures DropSemicolonBeforeBrace(";" + b) == ";" + DropSemicolonBeforeBrace(b)
  {
    assert (";" + b)[1..] == b;
  }

  /** Pass 4 drops the `;` of a `;}`. */
  lemma SemicolonDropped(b: string)
    ensures DropSemicolonBeforeBrace(";" + ("}" + b)) == "}" + DropSemicolonBeforeBrace(b)
  {
    var s := ";" + ("}" + b);
    assert s[2..] == b;
  }

  /** Pass 5 leaves text without `(` unchanged: no `url(` starts in it. */
  lemma {:induction false} UnquoteNoParen(s: string)
    requires '(' !in s
    ensures UnquoteUrls(s) == s
  {
    if s != [] {
      assert !UrlOpen(s) by {
        if |s| >= 4 {
          assert s[3] in s;
        }
      }
      InSuffix(s, 1);
      UnquoteNoParen(s[1..]);
      UnquoteCopies(s);
      assert s == [s[0]] + s[1..];
    }
  }

  /** Pass 5 leaves text without quotes unchanged: the quoted pattern cannot
      match, and the unquoted one writes back what it matched. */
  lemma {:induction false} UnquoteNoQuotes(s: string)
    requires '\'' !in s && '"' !in s
    decreases |s|
    ensures UnquoteUrls(s) == s
  {
    if s != [] {
      NoQuotesNotQuoted(s);
      match PlainUrlAt(s)
      case Some(n) =>
        InSuffix(s, 5 + n);
        UnquoteNoQuotes(s[5 + n..]);
        PlainUrlCopied(s, n);
        assert s == s[..5 + n] + s[5 + n..];
      case None =>
        InSuffix(s, 1);
        UnquoteNoQuotes(s[1..]);
        UnquoteCopies(s);
        assert s == [s[0]] + s[1..];
    }
  }

  lemma NoQuotesNotQuoted(s: string)
    requires '\'' !in s && '"' !in s
    ensures QuotedUrlAt(s).None?
  {
    if |s| > 4 {
      assert s[4] in s;
    }
  }

  /** An unquoted `url(...)` is written back as it was. */
  lemma PlainUrlCopied(s: string, n: nat)
    requires QuotedUrlAt(s).None? && PlainUrlAt(s) == Some(n)
    ensures UnquoteUrls(s) == s[..5 + n] + UnquoteUrls(s[5 + n..])
  {
    assert s[..4] == "url(";
    assert s[..5 + n] == "url(" + s[4..4 + n] + ")";
  }

  /** A quoted argument whose quotes match and whose text has no quote or
      parenthesis loses its quotes. */
  lemma UnquoteMatched(q: string, x: string, b: string)
    requires |q| == 1 && IsQuote(q[0]) && x != [] && forall c :: c in x ==> UrlChar(c)
    ensures UnquoteUrls("url(" + (q + (x + (q + (")" + b))))) == "url(" + (x + (")" + UnquoteUrls(b)))
  {
    var s := "url(" + (q + (x + (q + (")" + b))));
    QuotedMatch(q, x, b);
    UnquoteAtQuoted(s, |x|);
    QuotedParts(q, x, b);
    Regroup("url(", x, ")", UnquoteUrls(b));
  }

  /** Pass 5 where the quoted pattern matches. */
  lemma UnquoteAtQuoted(s: string, n: nat)
    requires QuotedUrlAt(s) == Some(n)
    ensures UnquoteUrls(s) == "url(" + s[5..5 + n] + ")" + UnquoteUrls(s[7 + n..])
  {
  }

  lemma QuotedParts(q: string, x: string, b: string)
    requires |q| == 1
    ensures var s := "url(" + (q + (x + (q + (")" + b))));
      s[5..5 + |x|] == x && s[7 + |x|..] == b
  {
  }

  lemma Regroup(a: string, b: string, c: string, d: string)
    ensures a + b + c + d == a + (b + (c + d))
  {
  }

  lemma QuotedMatch(q: string, x: string, b: string)
    requires |q| == 1 && IsQuote(q[0]) && x != [] && forall c :: c in x ==> UrlChar(c)
    ensures QuotedUrlAt("url(" + (q + (x + (q + (")" + b))))) == Some(|x|)
  {
    var s := "url(" + (q + (x + (q + (")" + b))));
    var n := |x|;
    var t := x + (q + (")" + b));
    assert s[5..] == t;
    assert t[..n] == x;
    assert t[n] == q[0];
    RunStops(t, n);
  }

  lemma {:induction false} RunStops(s: string, n: nat)
    requires n < |s| && (forall c :: c in s[..n] ==> UrlChar(c)) && !UrlChar(s[n])
    ensures UrlRun(s) == n
  {
    if n > 0 {
      assert s[0] in s[..n];
      assert s[1..][..n - 1] == s[1..n];
      assert forall c :: c in s[1..n] ==> c in s[..n];
      RunStops(s[1..], n - 1);
    }
  }

  /** Pass 5 copies a character that cannot begin `url(`. */
  lemma UnquoteCopiesHead(c: string, y: string)
    requires |c| == 1 && c[0] != 'u'
    ensures UnquoteUrls(c + y) == c + UnquoteUrls(y)
  {
    var t := c + y;
    assert !UrlOpen(t);
    assert t[1..] == y;
  }

  /** `url(` is its four letters. */
  lemma UrlLetters(z: string)
    ensures "u" + ("r" + ("l" + ("(" + z))) == "url(" + z
  {
  }

  /** At `url(` followed by a quote, when the quoted pattern does not match,
      pass 5 copies the `u`: the unquoted pattern cannot match either. */
  lemma UnquoteQuoteOpen(q: string, rest: string)
    requires |q| == 1 && IsQuote(q[0]) && QuotedUrlAt("url(" + (q + rest)).None?
    ensures UnquoteUrls("url(" + (q + rest)) == "u" + UnquoteUrls("r" + ("l" + ("(" + (q + rest))))
  {
    var x := "r" + ("l" + ("(" + (q + rest)));
    var s := "u" + x;
    UrlLetters(q + rest);
    assert s[4..] == q + rest;
    assert UrlRun(s[4..]) == 0;
    assert s[1..] == x;
  }

  /** A `url(` whose argument opens with a quote that is not closed by the
      same quote right before `)` keeps its quote; the pass goes on after
      the quote. */
  lemma UnquoteKeepsQuote(q: string, rest: string)
    requires |q| == 1 && IsQuote(q[0]) && QuotedUrlAt("url(" + (q + rest)).None?
    ensures UnquoteUrls("url(" + (q + rest)) == "url(" + (q + UnquoteUrls(rest))
  {
    UnquoteQuoteOpen(q, rest);
    UnquoteCopiesHead(q, rest);
    UnquoteCopiesHead("(", q + rest);
    UnquoteCopiesHead("l", "(" + (q + rest));
    UnquoteCopiesHead("r", "l" + ("(" + (q + rest)));
    UrlLetters(q + UnquoteUrls(rest));
  }

  // ---------------------------------------------------------------------
  // What the passes do to particular inputs
  // ---------------------------------------------------------------------

  /** Removing one comment can join a `/` before it to the `*` after it: the
      result holds a comment opener again, so not every comment is gone from
      the output. */
  lemma CommentCanReappear()
    ensures StripComments("//**/*x*/") == "/*x*/"
  {
    var s := "//**/*x*/";
    assert FindCommentEnd(s[1..], 2) == Some(2);
    assert s[1..][4..] == "*x*" + "/";
    SlashFree("*x*");
    StripCommentsOpenerFree("*x*", "/");
  }

  /** Pass 4 removes one `;` per `;}`, so `;;}` keeps a `;`. */
  lemma SemicolonExamples()
    ensures DropSemicolonBeforeBrace("a{b:c;}") == "a{b:c}"
    ensures DropSemicolonBeforeBrace("a{b:c;;}") == "a{b:c;}"
  {
    SemicolonCopiesWord("a{b:c", ";}");
    SemicolonCopiesWord("a{b:c", ";;}");
    assert "a{b:c;}" == "a{b:c" + ";}";
    assert "a{b:c;;}" == "a{b:c" + ";;}";
    assert DropSemicolonBeforeBrace(";;}") == ";" + DropSemicolonBeforeBrace(";}");
  }

  /** Compact text without comments, whitespace or parentheses goes through
      `minifyCSS` with only the `;}` rewrite applied. */
  lemma MinifyCompact(s: string)
    requires '/' !in s && '(' !in s
    requires forall c :: c in s ==> Neutral(c) || c == ';' || c == '{' || c == '}' || c == ':' || c == ','
    requires forall c :: c in s ==> !IsSpace(c)
    ensures Minify(s) == DropSemicolonBeforeBrace(s)
  {
    SlashFree(s);
    StripCommentsOpenerFree(s, "");
    assert s + "" == s;
    CollapseCopiesWord(s, "");
    NoSpaceStrip(s);
    var d := DropSemicolonBeforeBrace(s);
    SemicolonDropKeepsText(s);
    DropChars(s);
    UnquoteNoParen(d);
    if d != [] {
      assert d[0] in d && d[|d| - 1] in d;
      assert SkipSpaces(d) == d;
    }
  }

  /** Pass 3 copies text that has no whitespace at all. */
  lemma {:induction false} NoSpaceStrip(s: string)
    requires forall c :: c in s ==> !IsSpace(c)
    ensures StripSeparatorSpaces(s) == s
  {
    if s != [] {
      InSuffix(s, 1);
      NoSpaceStrip(s[1..]);
      NoSpaceStripStep(s);
    }
  }

  lemma NoSpaceStripStep(s: string)
    requires s != [] && forall c :: c in s ==> !IsSpace(c)
    requires StripSeparatorSpaces(s[1..]) == s[1..]
    ensures StripSeparatorSpaces(s) == s
  {
    assert s[0] in s;
    assert SkipSpaces(s) == s;
    if AtSeparator(s) {
      assert s[1..] == [] || s[1] in s;
      assert SkipSpaces(s[1..]) == s[1..];
    }
    assert s == [s[0]] + s[1..];
  }

  /** Every character pass 4 outputs is one of its input or a `}`. */
  lemma {:induction false} DropChars(s: string)
    ensures forall c :: c in DropSemicolonBeforeBrace(s) ==> c in s
  {
    if s != [] {
      if SemicolonBrace(s) {
        DropChars(s[2..]);
        assert s[1] in s;
        assert forall c :: c in s[2..] ==> c in s;
      } else {
        DropChars(s[1..]);
        assert s[0] in s;
        assert forall c :: c in s[1..] ==> c in s;
      }
    }
  }

  /** `minifyCSS` is not idempotent: a second run removes the `;` the first
      run left before `}`. */
  lemma MinifyNotIdempotent()
    ensures Minify("a{b:c;;}") == "a{b:c;}"
    ensures Minify(Minify("a{b:c;;}")) == "a{b:c}"
  {
    PrintableNotSpace("a{b:c;;}");
    PrintableNotSpace("a{b:c;}");
    MinifyCompact("a{b:c;;}");
    MinifyCompact("a{b:c;}");
    SemicolonExamples();
  }

  /** Pass 4 leaves a `;` right before `}` only where the input had `;;}`. */
  /** No `;` is directly followed by `}`. */
  predicate NoSemicolonBrace(r: string) {
    forall i :: 0 <= i < |r| - 1 ==> !(r[i] == ';' && r[i + 1] == '}')
  }

  /** No `;` is directly followed by `;}`. */
  predicate NoDoubleSemicolonBrace(s: string) {
    forall i :: 0 <= i < |s| - 2 ==> !(s[i] == ';' && s[i + 1] == ';' && s[i + 2] == '}')
  }

  lemma {:induction false} SemicolonBraceGone(s: string)
    requires NoDoubleSemicolonBrace(s)
    decreases |s|
    ensures NoSemicolonBrace(DropSemicolonBeforeBrace(s))
  {
    if s != [] {
      var k := if SemicolonBrace(s) then 2 else 1;
      var t := s[k..];
      forall i | 0 <= i < |t| - 2 ensures !(t[i] == ';' && t[i + 1] == ';' && t[i + 2] == '}') {
        assert t[i] == s[i + k] && t[i + 1] == s[i + k + 1] && t[i + 2] == s[i + k + 2];
      }
      SemicolonBraceGone(t);
      var rest := DropSemicolonBeforeBrace(t);
      var head := if k == 2 then '}' else s[0];
      var r := [head] + rest;
      assert DropSemicolonBeforeBrace(s) == r;
      if k == 1 && s[0] == ';' && rest != [] {
        assert t[0] == s[1] && s[1] != '}';
        if |s| >= 3 {
          assert !(s[0] == ';' && s[1] == ';' && s[2] == '}');
          assert t[1] == s[2];
        }
        assert rest[0] != '}';
      }
      forall i | 0 <= i < |r| - 1 ensures !(r[i] == ';' && r[i + 1] == '}') {
        if i > 0 {
          assert r[i] == rest[i - 1] && r[i + 1] == rest[i];
        } else {
          assert r[0] == head && r[1] == rest[0];
        }
      }
    }
  }



  /** The url() pass on particular arguments: matching quotes come off
      (single or double), and an unquoted argument is left as it is. */
  /** The example argument `a.png` has no quote or parenthesis. */
  lemma ExampleUrlChars()
    ensures forall c :: c in "a.png" ==> UrlChar(c)
  {
  }

  lemma ExampleUrlTexts()
    ensures "url(" + ("'" + ("a.png" + ("'" + (")" + "")))) == "url('a.png')"
    ensures "url(" + ("\"" + ("a.png" + ("\"" + (")" + "")))) == "url(\"a.png\")"
    ensures "url(" + ("a.png" + (")" + "")) == "url(a.png)"
  {
  }

  lemma UrlSingleQuoted()
    ensures UnquoteUrls("url('a.png')") == "url(a.png)"
  {
    ExampleUrlChars();
    UnquoteMatched("'", "a.png", "");
    ExampleUrlTexts();
  }

  lemma UrlDoubleQuoted()
    ensures UnquoteUrls("url(\"a.png\")") == "url(a.png)"
  {
    ExampleUrlChars();
    UnquoteMatched("\"", "a.png", "");
    ExampleUrlTexts();
  }

  lemma UrlPlain()
    ensures UnquoteUrls("url(a.png)") == "url(a.png)"
  {
    UnquoteNoQuotes("url(a.png)");
  }

  // A rule `sel {  prop: val; ; }` on the line after a comment: the text
  // after each pass, written as the pieces the pass treats one at a time.

  /** A selector, property or value: no whitespace, separator, `/` or `(`. */
  predicate Word(w: string) {
    w != [] && forall c :: c in w ==> Neutral(c) && c != '/' && c != '('
  }

  function MessyLine(sel: string, prop: string, val: string): string {
    "\n" + (sel + (" " + ("{" + ("  " + (prop + (":" + (" " + (val + (";" + (" " + (";" + (" " + "}"))))))))))))
  }

  function MessyRule(note: string, sel: string, prop: string, val: string): string {
    "/*" + (note + ("*/" + MessyLine(sel, prop, val)))
  }

  function CollapsedRule(sel: string, prop: string, val: string): string {
    " " + (sel + (" " + ("{" + (" " + (prop + (":" + (" " + (val + (";" + (" " + (";" + (" " + "}"))))))))))))
  }

  function SeparatedRule(sel: string, prop: string, val: string): string {
    " " + (sel + ("{" + (prop + (":" + (val + (";" + (";" + "}")))))))
  }

  function CompactRule(sel: string, prop: string, val: string): string {
    sel + ("{" + (prop + (":" + (val + (";" + "}")))))
  }

  /** The rule line has no `/`, so pass 1 leaves it alone. */
  lemma RuleLineKept(sel: string, prop: string, val: string)
    requires Word(sel) && Word(prop) && Word(val)
    ensures StripComments(MessyLine(sel, prop, val)) == MessyLine(sel, prop, val)
  {
    var line := MessyLine(sel, prop, val);
    assert '/' !in line;
    SlashFree(line);
    StripCommentsOpenerFree(line, "");
    assert line + "" == line;
  }

  lemma RuleComments(note: string, sel: string, prop: string, val: string)
    requires '*' !in note && Word(sel) && Word(prop) && Word(val)
    ensures StripComments(MessyRule(note, sel, prop, val)) == MessyLine(sel, prop, val)
  {
    var line := MessyLine(sel, prop, val);
    RuleLineKept(sel, prop, val);
    SlashFree("");
    StarFree(note);
    CommentRemoved("", note, line);
    assert "" + MessyRule(note, sel, prop, val) == MessyRule(note, sel, prop, val);
  }

  /** Pass 2 on the text from the value on: nothing to collapse. */
  lemma RuleCollapseValue(val: string)
    requires Word(val)
    ensures var t := val + (";" + (" " + (";" + (" " + "}"))));
      CollapseSpaces(t) == t
  {
    AsciiSpace(' ');
    PrintableNotSpace(";}");
    var b12 := " " + "}";
    var b11 := ";" + b12;
    var b10 := " " + b11;
    var b9 := ";" + b10;
    CollapseRun(" ", "}");
    assert CollapseSpaces("}") == "}";
    CollapseCopiesWord(";", b12);
    CollapseRun(" ", b11);
    CollapseCopiesWord(";", b10);
    CollapseCopiesWord(val, b9);
  }

  /** Pass 2 from the space after `{` on: the double space becomes one. */
  lemma RuleCollapseProperty(prop: string, val: string)
    requires Word(prop) && Word(val)
    ensures var t := val + (";" + (" " + (";" + (" " + "}"))));
      CollapseSpaces("  " + (prop + (":" + (" " + t)))) == " " + (prop + (":" + (" " + t)))
  {
    AsciiSpace(' ');
    PrintableNotSpace(":");
    var t := val + (";" + (" " + (";" + (" " + "}"))));
    RuleCollapseValue(val);
    assert val[0] in val && prop[0] in prop;
    CollapseRun(" ", t);
    CollapseCopiesWord(":", " " + t);
    CollapseCopiesWord(prop, ":" + (" " + t));
    CollapseRun("  ", prop + (":" + (" " + t)));
  }

  lemma RuleCollapse(sel: string, prop: string, val: string)
    requires Word(sel) && Word(prop) && Word(val)
    ensures CollapseSpaces(MessyLine(sel, prop, val)) == CollapsedRule(sel, prop, val)
  {
    AsciiSpace('\n');
    AsciiSpace(' ');
    PrintableNotSpace("{");
    var t := val + (";" + (" " + (";" + (" " + "}"))));
    var b4 := "  " + (prop + (":" + (" " + t)));
    RuleCollapseProperty(prop, val);
    assert sel[0] in sel;
    CollapseCopiesWord("{", b4);
    CollapseRun(" ", "{" + b4);
    CollapseCopiesWord(sel, " " + ("{" + b4));
    CollapseRun("\n", sel + (" " + ("{" + b4)));
  }

  /** Pass 3 from the `;` after the value on: both `;` absorb the space
      after them. */
  lemma RuleSeparatorsTail()
    ensures StripSeparatorSpaces(";" + (" " + (";" + (" " + "}")))) == ";" + (";" + "}")
  {
    AsciiSpace(' ');
    AsciiSpace('}');
    AsciiSpace(';');
    SeparatorMatch("}", [], []);
    assert "}" + ([] + []) == "}";
    SeparatorMatch(";", " ", "}");
    SeparatorMatch(";", " ", ";" + (" " + "}"));
  }

  /** Pass 3 from the property on. */
  lemma RuleSeparatorsProperty(prop: string, val: string)
    requires Word(prop) && Word(val)
    ensures StripSeparatorSpaces(prop + (":" + (" " + (val + (";" + (" " + (";" + (" " + "}")))))))) ==
      prop + (":" + (val + (";" + (";" + "}"))))
  {
    AsciiSpace(' ');
    var x8 := ";" + (" " + (";" + (" " + "}")));
    RuleSeparatorsTail();
    SeparatorCopiesWord(val, x8);
    assert val[0] in val;
    SeparatorMatch(":", " ", val + x8);
    SeparatorCopiesWord(prop, ":" + (" " + (val + x8)));
  }

  lemma RuleSeparators(sel: string, prop: string, val: string)
    requires Word(sel) && Word(prop) && Word(val)
    ensures StripSeparatorSpaces(CollapsedRule(sel, prop, val)) == SeparatedRule(sel, prop, val)
  {
    AsciiSpace(' ');
    var p := prop + (":" + (" " + (val + (";" + (" " + (";" + (" " + "}")))))));
    RuleSeparatorsProperty(prop, val);
    assert prop[0] in prop && sel[0] in sel;
    SeparatorMatch("{", " ", p);
    SeparatorAfterSpaces(" ", "{" + (" " + p));
    SeparatorCopiesWord(sel, " " + ("{" + (" " + p)));
    SeparatorCopiesSpace(" ", sel + (" " + ("{" + (" " + p))));
  }

  lemma RuleSemicolons(sel: string, prop: string, val: string)
    requires Word(sel) && Word(prop) && Word(val)
    ensures DropSemicolonBeforeBrace(SeparatedRule(sel, prop, val)) == " " + CompactRule(sel, prop, val)
  {
    var y := ";" + (";" + "}");
    SemicolonCopiesWord(" ", sel + ("{" + (prop + (":" + (val + y)))));
    SemicolonCopiesWord(sel, "{" + (prop + (":" + (val + y))));
    SemicolonCopiesWord("{", prop + (":" + (val + y)));
    SemicolonCopiesWord(prop, ":" + (val + y));
    SemicolonCopiesWord(":", val + y);
    SemicolonCopiesWord(val, y);
    SemicolonKept(";" + "}");
    SemicolonDropped("");
    assert ";" + "}" == ";" + ("}" + "");
    assert "}" + "" == "}";
  }

  lemma RuleTrim(sel: string, prop: string, val: string)
    requires Word(sel) && Word(prop) && Word(val)
    ensures Trim(UnquoteUrls(" " + CompactRule(sel, prop, val))) == CompactRule(sel, prop, val)
  {
    var r := CompactRule(sel, prop, val);
    RuleUnquote(sel, prop, val);
    AsciiSpace('}');
    assert sel[0] in sel;
    assert r[|r| - 1] == '}';
    TrimLeadingSpace(r);
  }

  /** The rule has no `(`, so pass 5 leaves it alone. */
  lemma RuleUnquote(sel: string, prop: string, val: string)
    requires Word(sel) && Word(prop) && Word(val)
    ensures UnquoteUrls(" " + CompactRule(sel, prop, val)) == " " + CompactRule(sel, prop, val)
  {
    var s := " " + CompactRule(sel, prop, val);
    assert '(' !in s;
    UnquoteNoParen(s);
  }

  lemma TrimLeadingSpace(r: string)
    requires r != [] && !IsSpace(r[0]) && !IsSpace(r[|r| - 1])
    ensures Trim(" " + r) == r
  {
    AsciiSpace(' ');
    SkipSpacesRun(" ", r);
  }

  /** A rule with one declaration, written after a comment with loose
      spacing and a stray `;`, comes out of `minifyCSS` as
      `sel{prop:val;}`: the comment and every space are gone, and of the two
      `;` before `}` one stays. */
  lemma MessyRuleMinified(note: string, sel: string, prop: string, val: string)
    requires '*' !in note && Word(sel) && Word(prop) && Word(val)
    ensures Minify(MessyRule(note, sel, prop, val)) == CompactRule(sel, prop, val)
  {
    RuleComments(note, sel, prop, val);
    RuleCollapse(sel, prop, val);
    RuleSeparators(sel, prop, val);
    RuleSemicolons(sel, prop, val);
    RuleTrim(sel, prop, val);
  }

  /** The words of the worked example qualify. */
  lemma ExampleWords()
    ensures Word("body") && Word("color") && Word("red")
  {
    LowercaseWord("body");
    LowercaseWord("color");
    LowercaseWord("red");
  }

  lemma LowercaseWord(w: string)
    requires w != [] && forall c :: c in w ==> 'a' <= c <= 'z'
    ensures Word(w)
  {
    forall c | c in w
      ensures Neutral(c) && c != '/' && c != '('
    {
      AsciiSpace(c);
    }
  }

  lemma ExampleInput()
    ensures MessyRule(" note ", "body", "color", "red") == "/* note */\nbody {  color: red; ; }"
  {
    ExampleLine();
  }

  lemma ExampleLine()
    ensures MessyLine("body", "color", "red") == "\nbody {  color: red; ; }"
  {
  }

  lemma ExampleOutput()
    ensures CompactRule("body", "color", "red") == "body{color:red;}"
  {
  }

  /** A comment line, then `body {  color: red; ; }` on the next line:
      `minifyCSS` leaves `body{color:red;}`. */
  lemma WorkedExample()
    ensures Minify("/* note */\nbody {  color: red; ; }") == "body{color:red;}"
  {
    ExampleWords();
    MessyRuleMinified(" note ", "body", "color", "red");
    ExampleInput();
    ExampleOutput();
  }
}

/**
 * Matching a sentence against compiled templates (`_match_dialog_patterns`, the
 * loop after the five rewrites).
 *
 * A compiled expression is read as literal text and `.*` wildcards: a literal
 * anchored at the start of the sentence, then literals each preceded by a
 * wildcard.  A wildcard absorbs any text without a line break, as Python's `.`
 * does.  Matching is anchored at the start only; whatever follows the last
 * literal is ignored.
 */
module Matcher {
  import opened Wrappers
  import opened Text
  import opened Compilation

  /** `head` must start the sentence; each literal of `tail` follows a wildcard. */
  datatype Pattern = Pattern(head: string, tail: seq<string>)

  /** The pieces of an expression body between its `.*` wildcards, scanned left to right. */
  function Segments(body: string): (r: seq<string>)
    ensures |r| >= 1
    ensures |r[0]| <= |body| && body[..|r[0]|] == r[0]
    decreases |body|
  {
    if body == [] then [[]]
    else if |body| >= 2 && body[0] == '.' && body[1] == '*' then [[]] + Segments(body[2..])
    else
      var rest := Segments(body[1..]);
      [[body[0]] + rest[0]] + rest[1..]
  }

  /** `piece` holds no `.*`. */
  predicate WildcardFree(piece: string)
  {
    forall j :: 0 <= j < |piece| - 1 ==> !(piece[j] == '.' && piece[j + 1] == '*')
  }

  lemma WildcardFreeCons(c: char, piece: string)
    requires WildcardFree(piece)
    requires c == '.' && piece != [] ==> piece[0] != '*'
    ensures WildcardFree([c] + piece)
  {
    var q := [c] + piece;
    forall j | 0 <= j < |q| - 1 ensures !(q[j] == '.' && q[j + 1] == '*') {
      assert q[j + 1] == piece[j];
      if j > 0 {
        assert q[j] == piece[j - 1];
      }
    }
  }

  /** No piece holds a `.*` of its own: every wildcard of the expression is a cut. */
  lemma {:induction false} SegmentsHaveNoWildcard(body: string)
    ensures forall k :: 0 <= k < |Segments(body)| ==> WildcardFree(Segments(body)[k])
    decreases |body|
  {
    var r := Segments(body);
    if body == [] {
      assert r == [[]];
    } else if |body| >= 2 && body[0] == '.' && body[1] == '*' {
      SegmentsHaveNoWildcard(body[2..]);
      var rest := Segments(body[2..]);
      assert r == [[]] + rest;
      assert forall k :: 1 <= k < |r| ==> r[k] == rest[k - 1];
    } else {
      SegmentsHaveNoWildcard(body[1..]);
      var rest := Segments(body[1..]);
      assert r == [[body[0]] + rest[0]] + rest[1..];
      assert forall k :: 1 <= k < |r| ==> r[k] == rest[k];
      assert rest[0] != [] ==> rest[0][0] == body[1];
      WildcardFreeCons(body[0], rest[0]);
    }
  }

  /** Every character of every piece comes from the expression. */
  lemma {:induction false} SegmentsChars(body: string)
    ensures forall k, c :: 0 <= k < |Segments(body)| && c in Segments(body)[k] ==> c in body
    decreases |body|
  {
    if body != [] {
      if |body| >= 2 && body[0] == '.' && body[1] == '*' {
        SegmentsChars(body[2..]);
        assert forall c :: c in body[2..] ==> c in body;
        var rest := Segments(body[2..]);
        assert Segments(body) == [[]] + rest;
        assert forall k :: 1 <= k < |Segments(body)| ==> Segments(body)[k] == rest[k - 1];
      } else {
        SegmentsChars(body[1..]);
        assert forall c :: c in body[1..] ==> c in body;
        var rest := Segments(body[1..]);
        var r := [[body[0]] + rest[0]] + rest[1..];
        assert Segments(body) == r;
        assert forall k :: 1 <= k < |r| ==> r[k] == rest[k];
      }
    }
  }

  /** The pieces put back together with `.*` between them. */
  function JoinSegments(segs: seq<string>): string
    requires |segs| >= 1
    decreases |segs|
  {
    if |segs| == 1 then segs[0] else segs[0] + ".*" + JoinSegments(segs[1..])
  }

  /** A character put in front of the first piece comes out in front of the joined text. */
  lemma {:induction false} JoinSegmentsCons(c: char, segs: seq<string>)
    requires |segs| >= 1
    ensures JoinSegments([[c] + segs[0]] + segs[1..]) == [c] + JoinSegments(segs)
  {
    var r := [[c] + segs[0]] + segs[1..];
    if |segs| == 1 {
      assert r == [[c] + segs[0]];
    } else {
      var j := JoinSegments(segs[1..]);
      assert JoinSegments(r) == ([c] + segs[0]) + ".*" + j by {
        assert r[0] == [c] + segs[0] && r[1..] == segs[1..];
      }
      assert ([c] + segs[0]) + ".*" + j == [c] + (segs[0] + ".*" + j);
    }
  }

  /** Reading an expression as pieces loses nothing. */
  lemma {:induction false} SegmentsRoundTrip(body: string)
    ensures JoinSegments(Segments(body)) == body
    decreases |body|
  {
    if body != [] {
      if |body| >= 2 && body[0] == '.' && body[1] == '*' {
        var rest := Segments(body[2..]);
        assert JoinSegments(rest) == body[2..] by {
          SegmentsRoundTrip(body[2..]);
        }
        var r := [[]] + rest;
        assert Segments(body) == r;
        assert r[0] == [] && r[1..] == rest;
        assert JoinSegments(r) == [] + ".*" + JoinSegments(rest);
        assert body == ".*" + body[2..];
      } else {
        var rest := Segments(body[1..]);
        assert JoinSegments(rest) == body[1..] by {
          SegmentsRoundTrip(body[1..]);
        }
        assert Segments(body) == [[body[0]] + rest[0]] + rest[1..];
        JoinSegmentsCons(body[0], rest);
        assert body == [body[0]] + body[1..];
      }
    }
  }

  /** Text without '.' is a single piece. */
  lemma {:induction false} SegmentsNoDot(a: string, t: string)
    requires '.' !in a
    ensures Segments(a + t) == [a + Segments(t)[0]] + Segments(t)[1..]
    decreases |a|
  {
    if a == [] {
      var st := Segments(t);
      assert a + t == t && a + st[0] == st[0];
      assert st == [st[0]] + st[1..];
    } else {
      assert (a + t)[0] == a[0] && a[0] != '.';
      assert (a + t)[1..] == a[1..] + t;
      assert '.' !in a[1..];
      SegmentsNoDot(a[1..], t);
      var rest := Segments(a[1..] + t);
      var st := Segments(t);
      assert Segments(a + t) == [[a[0]] + rest[0]] + rest[1..];
      assert rest[0] == a[1..] + st[0];
      assert rest[1..] == st[1..];
      assert [a[0]] + (a[1..] + st[0]) == a + st[0];
    }
  }

  /** How a compiled expression (which starts with the `^` anchor) is read. */
  function ParseExpression(expression: string): Pattern
    requires IsExpression(expression)
  {
    var segs := Segments(expression[1..]);
    Pattern(segs[0], segs[1..])
  }

  /** An expression without line breaks reads as literals without line breaks. */
  lemma {:induction false} ParseLineFree(expression: string)
    requires IsExpression(expression) && '\n' !in expression
    ensures var p := ParseExpression(expression);
            '\n' !in p.head && forall k :: 0 <= k < |p.tail| ==> '\n' !in p.tail[k]
  {
    var segs := Segments(expression[1..]);
    SegmentsChars(expression[1..]);
    assert forall c :: c in expression[1..] ==> c in expression;
    assert forall k :: 0 <= k < |segs[1..]| ==> segs[1..][k] == segs[k + 1];
  }

  /** The pattern a template line compiles to. */
  function PatternOf(template: string): (p: Pattern)
    ensures '\n' !in p.head && forall k :: 0 <= k < |p.tail| ==> '\n' !in p.tail[k]
  {
    ParseLineFree(Compile(template));
    ParseExpression(Compile(template))
  }

  // ---------------------------------------------------------------------------
  // Declarative matching: there is a way to split the sentence
  // ---------------------------------------------------------------------------

  /** A wildcard absorbs `s[..i]` and the literal `lit` follows it. */
  predicate LiteralAfterGap(s: string, lit: string, i: nat)
  {
    OccursAt(s, lit, i) && '\n' !in s[..i]
  }

  /** `s` splits into: gap, tail[0], gap, tail[1], ..., and an ignored rest. */
  ghost predicate MatchesRest(tail: seq<string>, s: string)
    decreases |tail|
  {
    tail == [] ||
    exists i: nat :: LiteralAfterGap(s, tail[0], i) && MatchesRest(tail[1..], s[i + |tail[0]|..])
  }

  /** The sentence `s` matches pattern `p` at its start. */
  ghost predicate Matches(p: Pattern, s: string)
  {
    |p.head| <= |s| && s[..|p.head|] == p.head && MatchesRest(p.tail, s[|p.head|..])
  }

  // ---------------------------------------------------------------------------
  // Earliest-occurrence matching: take the earliest occurrence of each literal
  // ---------------------------------------------------------------------------

  predicate EarliestRest(tail: seq<string>, s: string)
    decreases |tail|
  {
    if tail == [] then true
    else
      match IndexOf(s, tail[0])
      case None => false
      case Some(i) => '\n' !in s[..i] && EarliestRest(tail[1..], s[i + |tail[0]|..])
  }

  /**
   * Whether `re.match(expression, sentence)` succeeds, decided by taking the
   * earliest occurrence of each literal.  Python's backtracking `.*` tries the
   * longest gap first, so the two find different splits; only the yes/no outcome
   * is the same (`EarliestMatchIsMatches`).
   */
  predicate EarliestMatch(p: Pattern, s: string)
  {
    |p.head| <= |s| && s[..|p.head|] == p.head && EarliestRest(p.tail, s[|p.head|..])
  }

  /** A longer line-break-free gap in front keeps a split valid. */
  lemma {:induction false} WidenFront(tail: seq<string>, s: string, a: nat, b: nat)
    requires a <= b <= |s| && '\n' !in s[a..b]
    requires MatchesRest(tail, s[b..])
    ensures MatchesRest(tail, s[a..])
  {
    if tail != [] {
      var i: nat :| LiteralAfterGap(s[b..], tail[0], i) && MatchesRest(tail[1..], s[b..][i + |tail[0]|..]);
      ShiftGap(s, a, b, tail[0], i);
    }
  }

  /** A literal found after a gap in `s[b..]` is also found after the longer gap in `s[a..]`. */
  lemma {:induction false} ShiftGap(s: string, a: nat, b: nat, lit: string, i: nat)
    requires a <= b <= |s| && '\n' !in s[a..b]
    requires LiteralAfterGap(s[b..], lit, i)
    ensures LiteralAfterGap(s[a..], lit, b - a + i)
    ensures s[a..][b - a + i + |lit|..] == s[b..][i + |lit|..]
  {
    var u, j, L := s[a..], b - a + i, |lit|;
    assert u[j..j + L] == s[b..][i..i + L];
    assert u[..j] == s[a..b] + s[b..][..i];
  }

  /** Between the earliest and a later occurrence of a line-break-free literal there is no line break. */
  lemma {:induction false} EarlierGap(s: string, lit: string, i: nat, j: nat)
    requires '\n' !in lit && i <= j
    requires OccursAt(s, lit, i) && LiteralAfterGap(s, lit, j)
    ensures '\n' !in s[..i]
    ensures '\n' !in s[i + |lit|..j + |lit|]
  {
    var L := |lit|;
    assert s[..i] == s[..j][..i];
    var w := s[i + L..j + L];
    forall k | 0 <= k < |w| ensures w[k] != '\n' {
      if i + L + k < j {
        assert w[k] == s[..j][i + L + k];
      } else {
        assert w[k] == s[j..j + L][i + L + k - j];
      }
    }
  }

  /** Every success of the earliest-occurrence search is a split. */
  lemma {:induction false} EarliestRestSound(tail: seq<string>, s: string)
    requires EarliestRest(tail, s)
    ensures MatchesRest(tail, s)
    decreases |tail|
  {
    if tail != [] {
      var i := IndexOf(s, tail[0]).value;
      EarliestRestSound(tail[1..], s[i + |tail[0]|..]);
      assert LiteralAfterGap(s, tail[0], i);
    }
  }

  /** No literal of the list contains a line break. */
  predicate LineFree(lits: seq<string>)
    decreases |lits|
  {
    lits == [] || ('\n' !in lits[0] && LineFree(lits[1..]))
  }

  lemma {:induction false} LineFreeEach(lits: seq<string>)
    requires forall k :: 0 <= k < |lits| ==> '\n' !in lits[k]
    ensures LineFree(lits)
    decreases |lits|
  {
    if lits != [] {
      assert forall k :: 0 <= k < |lits| - 1 ==> lits[1..][k] == lits[k + 1];
      LineFreeEach(lits[1..]);
    }
  }

  /** Taking the earliest occurrence of each literal loses no split. */
  lemma {:induction false} EarliestRestComplete(tail: seq<string>, s: string)
    requires LineFree(tail)
    requires MatchesRest(tail, s)
    ensures EarliestRest(tail, s)
    decreases |tail|
  {
    if tail != [] {
      var j: nat :| LiteralAfterGap(s, tail[0], j) && MatchesRest(tail[1..], s[j + |tail[0]|..]);
      var i := EarliestKeepsSplit(s, tail[0], tail[1..], j);
      EarliestRestComplete(tail[1..], s[i + |tail[0]|..]);
    }
  }

  /** If a split uses some occurrence of a literal, one using its earliest occurrence exists too. */
  lemma {:induction false} EarliestKeepsSplit(s: string, lit: string, rest: seq<string>, j: nat) returns (i: nat)
    requires '\n' !in lit
    requires LiteralAfterGap(s, lit, j) && MatchesRest(rest, s[j + |lit|..])
    ensures IndexOf(s, lit) == Some(i)
    ensures '\n' !in s[..i] && MatchesRest(rest, s[i + |lit|..])
  {
    assert OccursAt(s, lit, j);
    i := IndexOf(s, lit).value;
    EarlierGap(s, lit, i, j);
    WidenFront(rest, s, i + |lit|, j + |lit|);
  }

  /** The earliest-occurrence search decides exactly the declarative match. */
  lemma {:induction false} EarliestMatchIsMatches(p: Pattern, s: string)
    requires forall k :: 0 <= k < |p.tail| ==> '\n' !in p.tail[k]
    ensures EarliestMatch(p, s) <==> Matches(p, s)
  {
    if |p.head| <= |s| {
      var r := s[|p.head|..];
      if EarliestRest(p.tail, r) { EarliestRestSound(p.tail, r); }
      if MatchesRest(p.tail, r) {
        LineFreeEach(p.tail);
        EarliestRestComplete(p.tail, r);
      }
    }
  }

  // ---------------------------------------------------------------------------
  // Properties of matching
  // ---------------------------------------------------------------------------

  lemma {:induction false} MatchesRestExtend(tail: seq<string>, u: string, v: string)
    requires MatchesRest(tail, u)
    ensures MatchesRest(tail, u + v)
    decreases |tail|
  {
    if tail != [] {
      var lit := tail[0];
      var i: nat :| LiteralAfterGap(u, lit, i) && MatchesRest(tail[1..], u[i + |lit|..]);
      MatchesRestExtend(tail[1..], u[i + |lit|..], v);
      var s := u + v;
      assert s[i..i + |lit|] == u[i..i + |lit|];
      assert s[..i] == u[..i];
      assert s[i + |lit|..] == u[i + |lit|..] + v;
      assert LiteralAfterGap(s, lit, i);
    }
  }

  /** Matching is anchored at the start only: a matching sentence still matches with anything appended. */
  lemma {:induction false} MatchesExtend(p: Pattern, s: string, t: string)
    requires Matches(p, s)
    ensures Matches(p, s + t)
  {
    assert (s + t)[..|p.head|] == s[..|p.head|];
    assert (s + t)[|p.head|..] == s[|p.head|..] + t;
    MatchesRestExtend(p.tail, s[|p.head|..], t);
  }

  /**
   * A template of literal characters with at most one space (and so no slot)
   * matches exactly the sentences that start with it.
   */
  lemma {:induction false} PlainTemplateMatches(first: string, second: Option<string>, s: string)
    requires first != [] && IsLiteralWord(first)
    requires second.Some? ==> second.value != [] && IsLiteralWord(second.value)
    ensures var t := if second.Some? then first + " " + second.value else first;
            Matches(PatternOf(t), s) <==> |t| <= |s| && s[..|t|] == t
  {
    PlainPattern(first, second);
  }

  /** Such a template is read as one literal piece and no wildcard. */
  lemma {:induction false} PlainPattern(first: string, second: Option<string>)
    requires first != [] && IsLiteralWord(first)
    requires second.Some? ==> second.value != [] && IsLiteralWord(second.value)
    ensures var t := if second.Some? then first + " " + second.value else first;
            PatternOf(t) == Pattern(t, [])
  {
    var t := if second.Some? then first + " " + second.value else first;
    CompilePlain(first, second);
    LiteralWordFacts(first);
    if second.Some? { LiteralWordFacts(second.value); }
    assert '.' !in t;
    SegmentsNoDot(t, []);
    assert t + [] == t;
    assert Segments([]) == [[]];
    assert Segments(t) == [t];
    assert Compile(t)[1..] == t;
    assert ParseExpression(Compile(t)) == Pattern(t, []);
  }

  /** `lit` occurs in `s` after a line-break-free gap. */
  ghost predicate FoundAfterGap(s: string, lit: string)
  {
    exists i: nat :: LiteralAfterGap(s, lit, i)
  }

  lemma {:induction false} SpannedPattern(first: string, middle: string, last: string)
    requires first != [] && IsLiteralWord(first) && IsLiteralWord(last)
    requires '\n' !in middle
    ensures PatternOf(first + " " + middle + " " + last) == Pattern(first + " ", [last])
  {
    CompileSpanned(first, middle, last);
    LiteralWordFacts(first);
    LiteralWordFacts(last);
    var body := first + " .*" + last;
    assert ("^" + first + " .*" + last)[1..] == body;
    var u := ".*" + last;
    assert body == (first + " ") + u;
    SegmentsNoDot(first + " ", u);
    SegmentsWildcardWord(last);
    assert (first + " ") + Segments(u)[0] == first + " ";
    assert Segments(body) == [first + " ", last];
  }

  /** `.*` followed by a literal word cuts into an empty piece and the word. */
  lemma {:induction false} SegmentsWildcardWord(last: string)
    requires '.' !in last
    ensures Segments(".*" + last) == [[], last]
  {
    var u := ".*" + last;
    assert u[2..] == last;
    SegmentsNoDot(last, []);
    assert last + [] == last;
    assert Segments([]) == [[]];
    assert Segments(last) == [last];
  }

  /**
   * A template with two or more spaces matches the sentences that start with its
   * first word and a space and then contain its last word on the same line,
   * whatever its middle words say.
   */
  lemma {:induction false} SpannedTemplateMatches(first: string, middle: string, last: string, s: string)
    requires first != [] && IsLiteralWord(first) && IsLiteralWord(last)
    requires '\n' !in middle
    ensures Matches(PatternOf(first + " " + middle + " " + last), s) <==>
            |first| + 1 <= |s| && s[..|first| + 1] == first + " " && FoundAfterGap(s[|first| + 1..], last)
  {
    SpannedPattern(first, middle, last);
    var p := Pattern(first + " ", [last]);
    if |first| + 1 <= |s| {
      var r := s[|first| + 1..];
      if Matches(p, s) {
        var i: nat :| LiteralAfterGap(r, last, i) && MatchesRest([], r[i + |last|..]);
      }
      if FoundAfterGap(r, last) {
        var i: nat :| LiteralAfterGap(r, last, i);
        assert [last][1..] == [];
        assert MatchesRest([last][1..], r[i + |last|..]);
      }
    }
  }

  /** `first {slot}` reads as the head `first ` and one empty literal after a wildcard. */
  lemma {:induction false} SlottedPattern(first: string, b: string)
    requires first != [] && IsLiteralWord(first)
    requires '}' !in b && '\n' !in b
    ensures PatternOf(first + " {" + b + "}") == Pattern(first + " ", [[]])
  {
    CompileSlotted(first, b);
    LiteralWordFacts(first);
    var a := first + " ";
    var body := a + ".*";
    assert ("^" + first + " .*")[1..] == body;
    SegmentsNoDot(a, ".*");
    assert ".*"[2..] == [];
    assert Segments(".*") == [[]] + Segments([]);
    assert Segments(body) == [a, []];
  }

  /**
   * A template whose slot survives compilation, `first {slot}`, matches exactly the
   * sentences that start with its first word and a space.
   */
  lemma {:induction false} SlottedTemplateMatches(first: string, b: string, s: string)
    requires first != [] && IsLiteralWord(first)
    requires '}' !in b && '\n' !in b
    ensures Matches(PatternOf(first + " {" + b + "}"), s) <==>
            |first| + 1 <= |s| && s[..|first| + 1] == first + " "
  {
    SlottedPattern(first, b);
    if |first| + 1 <= |s| && s[..|first| + 1] == first + " " {
      var r := s[|first| + 1..];
      assert LiteralAfterGap(r, [], 0);
      var tail: seq<string> := [[]];
      assert tail[1..] == [];
      assert MatchesRest(tail[1..], r[0..]);
    }
  }

  // ---------------------------------------------------------------------------
  // First match over a template list, with the debug trace
  // ---------------------------------------------------------------------------

  /** `_match_dialog_patterns` returns an index, or `False` when nothing matched. */
  datatype MatchResult = NoMatch | MatchAt(index: nat)

  /** One line pair of the debug trace: the expression tried and whether it matched. */
  datatype Attempt = Attempt(expression: string, matched: bool)

  ghost predicate TemplateMatches(template: string, sentence: string)
  {
    Matches(PatternOf(template), sentence)
  }

  /** The position of the first `true`. */
  function FirstTrue(outcomes: seq<bool>): (r: MatchResult)
    ensures r.MatchAt? ==> r.index < |outcomes| && outcomes[r.index]
    ensures r.MatchAt? ==> forall k :: 0 <= k < r.index ==> !outcomes[k]
    ensures r.NoMatch? <==> forall k :: 0 <= k < |outcomes| ==> !outcomes[k]
    decreases |outcomes|
  {
    if outcomes == [] then NoMatch
    else if outcomes[0] then MatchAt(0)
    else
      match FirstTrue(outcomes[1..])
      case NoMatch => NoMatch
      case MatchAt(i) => MatchAt(i + 1)
  }

  /** A compiled expression: anchored at the start of the sentence. */
  predicate IsExpression(expression: string)
  {
    |expression| >= 1 && expression[0] == '^'
  }

  /** The first `true` is where `FirstTrue` stops. */
  lemma {:induction false} FirstTrueAt(outcomes: seq<bool>, i: nat)
    requires i < |outcomes| && outcomes[i]
    requires forall k :: 0 <= k < i ==> !outcomes[k]
    ensures FirstTrue(outcomes) == MatchAt(i)
  {
    var r := FirstTrue(outcomes);
    assert r.MatchAt? ==> !(r.index < i) && !(i < r.index);
  }

  /** `re.match(expression, sentence) is not None` for a compiled expression. */
  predicate ExpressionMatches(expression: string, sentence: string)
    requires IsExpression(expression)
  {
    EarliestMatch(ParseExpression(expression), sentence)
  }

  /** Whether each template's compiled expression matches the sentence, in list order. */
  function Outcomes(templates: seq<string>, sentence: string): (r: seq<bool>)
    ensures |r| == |templates|
  {
    seq(|templates|, k requires 0 <= k < |templates| => ExpressionMatches(Compile(templates[k]), sentence))
  }

  /** The first template (in list order) whose compiled expression matches the start of the sentence. */
  function FirstMatch(templates: seq<string>, sentence: string): MatchResult
  {
    FirstTrue(Outcomes(templates, sentence))
  }

  /** Trying a template's compiled expression tells whether the template matches. */
  lemma {:induction false} OutcomesAreMatches(templates: seq<string>, sentence: string)
    ensures forall k :: 0 <= k < |templates| ==>
              Outcomes(templates, sentence)[k] == TemplateMatches(templates[k], sentence)
  {
    forall k | 0 <= k < |templates|
      ensures Outcomes(templates, sentence)[k] == TemplateMatches(templates[k], sentence)
    {
      EarliestMatchIsMatches(PatternOf(templates[k]), sentence);
    }
  }

  /** Template `i` is the first of the list that matches the sentence. */
  ghost predicate IsFirstMatch(templates: seq<string>, sentence: string, i: nat)
  {
    i < |templates| && TemplateMatches(templates[i], sentence) &&
    forall k :: 0 <= k < i ==> !TemplateMatches(templates[k], sentence)
  }

  /** `FirstMatch` finds the smallest index whose template matches, or reports that none does. */
  lemma {:induction false} FirstMatchIsFirst(templates: seq<string>, sentence: string)
    ensures var r := FirstMatch(templates, sentence);
            (r.MatchAt? ==> r.index < |templates| && TemplateMatches(templates[r.index], sentence) &&
                            forall k :: 0 <= k < r.index ==> !TemplateMatches(templates[k], sentence)) &&
            (r.NoMatch? <==> forall k :: 0 <= k < |templates| ==> !TemplateMatches(templates[k], sentence))
  {
    OutcomesAreMatches(templates, sentence);
  }

  /** The first trace line, naming the sentence. */
  function Header(sentence: string): string
  {
    "MATCHING: " + sentence + "\n"
  }

  /** The separator line, then the expression tried and `True` or `False`. */
  function AttemptText(a: Attempt): string
  {
    "---------------\n" + a.expression + " " + (if a.matched then "True" else "False") + "\n"
  }

  /** The trace lines of all attempts, in order. */
  function Report(attempts: seq<Attempt>): string
    decreases |attempts|
  {
    if attempts == [] then ""
    else Report(attempts[..|attempts| - 1]) + AttemptText(attempts[|attempts| - 1])
  }

  /** One more attempt adds its two lines at the end of the trace. */
  lemma {:induction false} TraceAppend(sentence: string, attempts: seq<Attempt>, a: Attempt)
    ensures Header(sentence) + Report(attempts + [a]) == Header(sentence) + Report(attempts) + AttemptText(a)
  {
    assert (attempts + [a])[..|attempts|] == attempts;
  }

  /** Whether each expression matches the sentence, in list order. */
  function ExpressionOutcomes(expressions: seq<string>, sentence: string): (r: seq<bool>)
    requires forall k :: 0 <= k < |expressions| ==> IsExpression(expressions[k])
    ensures |r| == |expressions|
  {
    seq(|expressions|, k requires 0 <= k < |expressions| => ExpressionMatches(expressions[k], sentence))
  }

  /**
   * The loop of `_match_dialog_patterns`: tries the expressions in order and stops
   * at the first match.  The trace holds one attempt per expression tried: exactly
   * `index + 1` of them on a match, one per expression otherwise.
   */
  method TryInOrder(expressions: seq<string>, sentence: string)
    returns (result: MatchResult, debug: string, ghost attempts: seq<Attempt>)
    requires forall k :: 0 <= k < |expressions| ==> IsExpression(expressions[k])
    ensures result == FirstTrue(ExpressionOutcomes(expressions, sentence))
    ensures |attempts| == if result.MatchAt? then result.index + 1 else |expressions|
    ensures forall k :: 0 <= k < |attempts| ==>
              attempts[k] == Attempt(expressions[k], ExpressionOutcomes(expressions, sentence)[k])
    ensures debug == Header(sentence) + Report(attempts)
  {
    ghost var outcomes := ExpressionOutcomes(expressions, sentence);
    debug := Header(sentence);
    attempts := [];
    var index := 0;
    while index < |expressions|
      invariant 0 <= index <= |expressions|
      invariant |attempts| == index
      invariant forall k :: 0 <= k < index ==> attempts[k] == Attempt(expressions[k], outcomes[k])
      invariant forall k :: 0 <= k < index ==> !outcomes[k]
      invariant debug == Header(sentence) + Report(attempts)
    {
      var expression := expressions[index];
      var matched := ExpressionMatches(expression, sentence);
      assert matched == outcomes[index];
      var attempt := Attempt(expression, matched);
      TraceAppend(sentence, attempts, attempt);
      debug := debug + AttemptText(attempt);
      ghost var before := attempts;
      attempts := attempts + [attempt];
      forall k | 0 <= k < |attempts| ensures attempts[k] == Attempt(expressions[k], outcomes[k]) {
        if k < index {
          assert attempts[k] == before[k];
        } else {
          assert attempts[k] == attempt;
        }
      }
      if matched {
        FirstTrueAt(outcomes, index);
        result := MatchAt(index);
        return;
      }
      index := index + 1;
    }
    result := NoMatch;
  }

  /**
   * `_match_dialog_patterns`: compiles every template, then tries the expressions
   * in order; the result is the first template that matches, and the trace names
   * each compiled expression tried with its outcome.
   */
  method MatchDialogPatterns(dialogs: seq<string>, sentence: string)
    returns (result: MatchResult, debug: string, ghost attempts: seq<Attempt>)
    ensures result == FirstMatch(dialogs, sentence)
    ensures |attempts| == if result.MatchAt? then result.index + 1 else |dialogs|
    ensures forall k :: 0 <= k < |attempts| ==>
              attempts[k] == Attempt(Compile(dialogs[k]), Outcomes(dialogs, sentence)[k])
    ensures debug == Header(sentence) + Report(attempts)
  {
    var expressions := seq(|dialogs|, k requires 0 <= k < |dialogs| => Compile(dialogs[k]));
    result, debug, attempts := TryInOrder(expressions, sentence);
    assert ExpressionOutcomes(expressions, sentence) == Outcomes(dialogs, sentence);
  }
}

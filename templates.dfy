/**
 * What a template promises: a template line, with every slot filled in, is a
 * sentence its compiled expression matches.  The proof follows the sentence
 * through the five rewrites of `_match_dialog_patterns`: each rewrite keeps the
 * filled sentence an exact fit of the expression text, and keeps the text a
 * line of single-spaced words, so that the last rewrite only adds the anchor.
 */
module Templates {
  import opened Text
  import opened Compilation
  import opened Matcher

  // ---------------------------------------------------------------------------
  // Templates and the sentences made from them
  // ---------------------------------------------------------------------------

  /**
   * `t` is a line of words separated by single spaces, with no space at either
   * end; a word is made of literal characters and closed `{...}` slots.
   * `wordNeeded` holds at the start of the line and right after a space.
   */
  predicate TemplateShape(t: string, wordNeeded: bool)
    decreases |t|
  {
    if t == [] then !wordNeeded
    else if t[0] == '{' then SlotEnd(t[1..]).Some? && TemplateShape(t[SlotEnd(t[1..]).value + 2..], false)
    else if t[0] == ' ' then !wordNeeded && TemplateShape(t[1..], true)
    else IsLiteralChar(t[0]) && TemplateShape(t[1..], false)
  }

  /** A template line such as `hello {name}`, `{x} is here` or `it is {time}`. */
  predicate IsSlotTemplate(t: string)
  {
    TemplateShape(t, true)
  }

  /**
   * The sentence made from `t` by putting `values[0]`, `values[1]`, ... in place
   * of its slots, left to right; a slot with no value left is filled with nothing.
   */
  function Fill(t: string, values: seq<string>): string
    decreases |t|
  {
    if t == [] then []
    else if t[0] == '{' && SlotEnd(t[1..]).Some? then
      var value := if values == [] then [] else values[0];
      var others := if values == [] then [] else values[1..];
      value + Fill(t[SlotEnd(t[1..]).value + 2..], others)
    else [t[0]] + Fill(t[1..], values)
  }

  // ---------------------------------------------------------------------------
  // Expression texts and the sentences they fit exactly
  // ---------------------------------------------------------------------------

  /**
   * `s` is exactly `e`, with each `.*` of `e` standing for text without a line
   * break: a wildcard either ends here or absorbs one more character.
   */
  predicate Fits(e: string, s: string)
    decreases |e| + |s|
  {
    if e == [] then s == []
    else if |e| >= 2 && e[0] == '.' && e[1] == '*' then
      Fits(e[2..], s) || (s != [] && s[0] != '\n' && Fits(e, s[1..]))
    else s != [] && s[0] == e[0] && Fits(e[1..], s[1..])
  }

  /**
   * The expression-text counterpart of `TemplateShape`: single-spaced words of
   * literal characters and `.*` wildcards.
   */
  predicate BodyShape(e: string, wordNeeded: bool)
    decreases |e|
  {
    if e == [] then !wordNeeded
    else if |e| >= 2 && e[0] == '.' && e[1] == '*' then BodyShape(e[2..], false)
    else if e[0] == ' ' then !wordNeeded && BodyShape(e[1..], true)
    else IsLiteralChar(e[0]) && BodyShape(e[1..], false)
  }

  /** A wildcard in front of an exact fit absorbs any line-break-free text. */
  lemma {:induction false} WildcardFits(x: string, v: string, y: string)
    requires Fits(x, y) && '\n' !in v
    ensures Fits(".*" + x, v + y)
  {
    var s := v + y;
    assert s[..|v|] == v && s[|v|..] == y;
    WildcardFitsAt(x, s, |v|);
  }

  /** A wildcard in front absorbs the first `k` characters when they hold no line break. */
  lemma {:induction false} WildcardFitsAt(x: string, s: string, k: nat)
    requires k <= |s| && '\n' !in s[..k] && Fits(x, s[k..])
    ensures Fits(".*" + x, s)
    decreases k
  {
    assert (".*" + x)[2..] == x;
    if k == 0 {
      assert s[0..] == s;
    } else {
      assert s[0] in s[..k];
      assert s[1..][..k - 1] == s[1..k] && s[1..][k - 1..] == s[k..];
      assert '\n' !in s[1..k];
      WildcardFitsAt(x, s[1..], k - 1);
    }
  }

  /** What a wildcard in front absorbs, and what fits after it. */
  lemma {:induction false} WildcardFitsElim(x: string, s: string) returns (k: nat)
    requires Fits(".*" + x, s)
    ensures k <= |s| && '\n' !in s[..k] && Fits(x, s[k..])
    decreases |s|
  {
    assert (".*" + x)[2..] == x;
    if Fits(x, s) {
      k := 0;
      assert s[0..] == s;
    } else {
      var k' := WildcardFitsElim(x, s[1..]);
      k := k' + 1;
      assert s[..k] == [s[0]] + s[1..][..k'];
      assert s[k..] == s[1..][k'..];
    }
  }

  /** A character that does not open a wildcard is matched by itself. */
  lemma {:induction false} CharFits(c: char, x: string, y: string)
    requires c != '.' || x == [] || x[0] != '*'
    requires Fits(x, y)
    ensures Fits([c] + x, [c] + y)
  {
    assert ([c] + x)[1..] == x;
    assert ([c] + y)[1..] == y;
  }

  /** A sentence starting with a character that does not open a wildcard fits it followed by a fit of the rest. */
  lemma {:induction false} CharFitsAt(c: char, x: string, s: string)
    requires c != '.' || x == [] || x[0] != '*'
    requires s != [] && s[0] == c && Fits(x, s[1..])
    ensures Fits([c] + x, s)
  {
    assert ([c] + x)[1..] == x;
  }

  lemma {:induction false} CharFitsElim(c: char, x: string, s: string)
    requires c != '.' || x == [] || x[0] != '*'
    requires Fits([c] + x, s)
    ensures s != [] && s[0] == c && Fits(x, s[1..])
  {
    assert ([c] + x)[1..] == x;
  }

  /** An exact fit of `x + y` splits into fits of `x` and of `y`, unless `y` would complete a wildcard. */
  lemma {:induction false} FitsSplit(x: string, y: string, s: string) returns (k: nat)
    requires Fits(x + y, s)
    requires y == [] || y[0] != '*'
    ensures k <= |s| && Fits(x, s[..k]) && Fits(y, s[k..])
    decreases |x|
  {
    if x == [] {
      FitsSplitNil(x, y, s);
      k := 0;
    } else if |x| >= 2 && x[0] == '.' && x[1] == '*' {
      var j := WildcardSplitElim(x, y, s);
      var k' := FitsSplit(x[2..], y, s[j..]);
      FitsSplitWildcard(x, y, s, j, k');
      k := j + k';
    } else {
      CharSplitElim(x, y, s);
      var k' := FitsSplit(x[1..], y, s[1..]);
      FitsSplitChar(x, y, s, k');
      k := k' + 1;
    }
  }

  lemma {:induction false} FitsSplitNil(x: string, y: string, s: string)
    requires x == [] && Fits(x + y, s)
    ensures Fits(x, s[..0]) && Fits(y, s[0..])
  {
    assert x + y == y && s[0..] == s && s[..0] == [];
  }

  lemma {:induction false} WildcardSplitElim(x: string, y: string, s: string) returns (j: nat)
    requires |x| >= 2 && x[0] == '.' && x[1] == '*' && Fits(x + y, s)
    ensures j <= |s| && '\n' !in s[..j] && Fits(x[2..] + y, s[j..])
  {
    assert x + y == ".*" + (x[2..] + y);
    j := WildcardFitsElim(x[2..] + y, s);
  }

  lemma {:induction false} CharSplitElim(x: string, y: string, s: string)
    requires x != [] && !(|x| >= 2 && x[0] == '.' && x[1] == '*')
    requires y == [] || y[0] != '*'
    requires Fits(x + y, s)
    ensures s != [] && s[0] == x[0] && Fits(x[1..] + y, s[1..])
  {
    assert x + y == [x[0]] + (x[1..] + y);
    CharFitsElim(x[0], x[1..] + y, s);
  }

  lemma {:induction false} FitsSplitWildcard(x: string, y: string, s: string, j: nat, k': nat)
    requires |x| >= 2 && x[0] == '.' && x[1] == '*'
    requires j + k' <= |s| && '\n' !in s[..j] && Fits(x[2..], s[j..][..k'])
    requires Fits(y, s[j..][k'..])
    ensures Fits(x, s[..j + k']) && Fits(y, s[j + k'..])
  {
    assert s[j..][k'..] == s[j + k'..];
    var u := s[..j + k'];
    assert u == s[..j] + s[j..][..k'];
    WildcardFits(x[2..], s[..j], s[j..][..k']);
    assert x == ".*" + x[2..];
  }

  lemma {:induction false} FitsSplitChar(x: string, y: string, s: string, k': nat)
    requires x != [] && !(|x| >= 2 && x[0] == '.' && x[1] == '*')
    requires s != [] && s[0] == x[0] && k' + 1 <= |s| && Fits(x[1..], s[1..][..k'])
    requires Fits(y, s[1..][k'..])
    ensures Fits(x, s[..k' + 1]) && Fits(y, s[k' + 1..])
  {
    assert s[1..][k'..] == s[k' + 1..];
    var u := s[..k' + 1];
    assert u == [x[0]] + s[1..][..k'];
    CharFits(x[0], x[1..], s[1..][..k']);
    assert x == [x[0]] + x[1..];
  }

  // ---------------------------------------------------------------------------
  // An exact fit is a match
  // ---------------------------------------------------------------------------

  /** A sentence that fits an expression body exactly matches the pattern the body is read as. */
  lemma {:induction false} FitsMatches(e: string, s: string)
    requires Fits(e, s)
    ensures Matches(Pattern(Segments(e)[0], Segments(e)[1..]), s)
    decreases |e|
  {
    var segs := Segments(e);
    if e == [] {
      assert segs == [[]];
    } else if |e| >= 2 && e[0] == '.' && e[1] == '*' {
      assert e == ".*" + e[2..];
      var k := WildcardFitsElim(e[2..], s);
      FitsMatches(e[2..], s[k..]);
      var r := Segments(e[2..]);
      assert segs == [[]] + r;
      assert segs[0] == [] && segs[1..] == r;
      MatchesAfterWildcard(r, s, k);
    } else {
      assert e == [e[0]] + e[1..];
      CharFitsElim(e[0], e[1..], s);
      FitsMatches(e[1..], s[1..]);
      var r := Segments(e[1..]);
      assert segs == [[e[0]] + r[0]] + r[1..];
      MatchesAfterChar(e[0], r, s);
    }
  }

  /** A literal found after a line-break-free gap continues a match of what is left. */
  lemma {:induction false} MatchesAfterWildcard(r: seq<string>, s: string, k: nat)
    requires |r| >= 1 && k <= |s| && '\n' !in s[..k]
    requires Matches(Pattern(r[0], r[1..]), s[k..])
    ensures Matches(Pattern([], r), s)
  {
    var L := |r[0]|;
    assert s[k..][..L] == r[0] && s[k..k + L] == s[k..][..L];
    assert LiteralAfterGap(s, r[0], k);
    assert s[k..][L..] == s[k + L..];
    assert MatchesRest(r[1..], s[k + L..]);
    assert s[0..] == s;
  }

  /** A character in front of a match's head is matched by itself. */
  lemma {:induction false} MatchesAfterChar(c: char, r: seq<string>, s: string)
    requires |r| >= 1 && s != [] && s[0] == c
    requires Matches(Pattern(r[0], r[1..]), s[1..])
    ensures Matches(Pattern([c] + r[0], r[1..]), s)
  {
    var L := |r[0]|;
    assert s[..L + 1] == [s[0]] + s[1..][..L];
    assert s[L + 1..] == s[1..][L..];
  }

  // ---------------------------------------------------------------------------
  // Shapes
  // ---------------------------------------------------------------------------

  /** Where a word may start, a word may also continue. */
  lemma {:induction false} ShapeRelax(e: string)
    requires BodyShape(e, true)
    ensures BodyShape(e, false)
  {
  }

  /** What follows a space of a shaped text is a shaped text that starts with a word. */
  lemma {:induction false} ShapeAfterSpace(e: string, wordNeeded: bool, p: nat)
    requires BodyShape(e, wordNeeded) && p < |e| && e[p] == ' '
    ensures BodyShape(e[p + 1..], true)
    decreases |e|
  {
    if p > 0 {
      if |e| >= 2 && e[0] == '.' && e[1] == '*' {
        ShapeAfterSpace(e[2..], false, p - 2);
        assert e[2..][p - 1..] == e[p + 1..];
      } else {
        ShapeAfterSpace(e[1..], e[0] == ' ', p - 1);
        assert e[1..][p..] == e[p + 1..];
      }
    }
  }

  /** A shaped text has no '}' and no line break. */
  lemma {:induction false} ShapeChars(e: string, wordNeeded: bool)
    requires BodyShape(e, wordNeeded)
    ensures '}' !in e && '\n' !in e
    decreases |e|
  {
    if e != [] {
      if |e| >= 2 && e[0] == '.' && e[1] == '*' {
        ShapeChars(e[2..], false);
        assert e == ".*" + e[2..];
      } else {
        ShapeChars(e[1..], e[0] == ' ');
        assert e == [e[0]] + e[1..];
      }
    }
  }

  /** A shaped text's spaces are single ' ' characters between words. */
  lemma {:induction false} ShapeSpacing(e: string, wordNeeded: bool)
    requires BodyShape(e, wordNeeded)
    ensures wordNeeded ==> e != [] && !IsSpace(e[0])
    ensures forall k :: 0 <= k < |e| && IsSpace(e[k]) ==> e[k] == ' ' && k < |e| - 1 && !IsSpace(e[k + 1])
    decreases |e|
  {
    if e != [] {
      if |e| >= 2 && e[0] == '.' && e[1] == '*' {
        ShapeSpacing(e[2..], false);
        assert forall k :: 2 <= k < |e| ==> e[k] == e[2..][k - 2];
      } else {
        ShapeSpacing(e[1..], e[0] == ' ');
        assert forall k :: 1 <= k < |e| ==> e[k] == e[1..][k - 1];
      }
    }
  }

  /** Pass 5 only adds the anchor to a text that starts with a word. */
  lemma {:induction false} NormalizeShaped(e: string)
    requires BodyShape(e, true)
    ensures Normalize(e) == "^" + e
  {
    ShapeSpacing(e, true);
    assert SingleSpaced(e);
    SingleSpacedFixed(e);
  }

  // ---------------------------------------------------------------------------
  // Pass 1: slots become wildcards
  // ---------------------------------------------------------------------------

  /** Pass 1 turns a shaped template into a shaped text that the filled template fits. */
  lemma {:induction false} SlotsFit(t: string, wordNeeded: bool, values: seq<string>)
    requires TemplateShape(t, wordNeeded)
    requires forall k :: 0 <= k < |values| ==> '\n' !in values[k]
    ensures BodyShape(ReplaceSlots(t), wordNeeded)
    ensures Fits(ReplaceSlots(t), Fill(t, values))
    ensures '\n' !in Fill(t, values)
    decreases |t|
  {
    if t != [] {
      if t[0] == '{' {
        var rest := t[SlotEnd(t[1..]).value + 2..];
        var value := if values == [] then [] else values[0];
        var others := if values == [] then [] else values[1..];
        assert forall k :: 0 <= k < |others| ==> others[k] == values[k + 1];
        SlotsFit(rest, false, others);
        var x := ReplaceSlots(rest);
        assert ReplaceSlots(t) == ".*" + x;
        assert (".*" + x)[2..] == x;
        WildcardFits(x, value, Fill(rest, others));
      } else {
        SlotsFit(t[1..], t[0] == ' ', values);
        var x := ReplaceSlots(t[1..]);
        assert ReplaceSlots(t) == [t[0]] + x;
        assert ([t[0]] + x)[1..] == x;
        CharFits(t[0], x, Fill(t[1..], values));
      }
    }
  }

  // ---------------------------------------------------------------------------
  // Pass 3: from a space to the last space on the line becomes ` .*`
  // ---------------------------------------------------------------------------

  /** Pass 3 keeps the first character of a non-empty text. */
  lemma {:induction false} WidenGapsHead(e: string)
    requires e != []
    ensures WidenGaps(e) != [] && WidenGaps(e)[0] == e[0]
  {
  }

  /** A wildcard is copied by pass 3 as it is. */
  lemma {:induction false} WidenGapsWildcard(e: string)
    requires |e| >= 2 && e[0] == '.' && e[1] == '*'
    ensures WidenGaps(e) == ".*" + WidenGaps(e[2..])
  {
    WidenGapsCopy(e);
    var u := e[1..];
    assert u[0] == '*' && u[1..] == e[2..];
    WidenGapsCopy(u);
    var w := WidenGaps(e[2..]);
    assert ['.'] + (['*'] + w) == ".*" + w;
  }

  /** Where no gap opens, pass 3 copies the first character. */
  lemma {:induction false} WidenGapsCopy(s: string)
    requires s != [] && !(s[0] == ' ' && GapEnd(s[1..]).Some?)
    ensures WidenGaps(s) == [s[0]] + WidenGaps(s[1..])
  {
  }

  /** Where a gap opens, pass 3 writes ` .*` and resumes after the gap's last space. */
  lemma {:induction false} WidenGapsOpen(s: string)
    requires s != [] && s[0] == ' ' && GapEnd(s[1..]).Some?
    ensures WidenGaps(s) == " .*" + WidenGaps(s[GapEnd(s[1..]).value + 2..])
  {
  }

  /** A sentence that fits a text without line breaks also fits its pass-3 rewrite. */
  lemma {:induction false} WidenGapsFit(e: string, s: string)
    requires Fits(e, s) && '\n' !in s
    ensures Fits(WidenGaps(e), s)
    decreases |e|
  {
    if e == [] {
    } else if e[0] == ' ' && GapEnd(e[1..]).Some? {
      var j := GapEnd(e[1..]).value;
      var x, z := e[1..j + 1], e[j + 2..];
      assert e == " " + (x + (" " + z));
      var k := GapSplit(x, z, s);
      WidenGapsFit(z, s[k + 2..]);
      WidenGapsOpen(e);
      GapJoin(WidenGaps(z), s, k);
    } else if |e| >= 2 && e[0] == '.' && e[1] == '*' {
      assert e == ".*" + e[2..];
      var k := WildcardFitsElim(e[2..], s);
      WidenGapsFit(e[2..], s[k..]);
      WidenGapsWildcard(e);
      WildcardFitsAt(WidenGaps(e[2..]), s, k);
    } else {
      assert e == [e[0]] + e[1..];
      CharFitsElim(e[0], e[1..], s);
      WidenGapsFit(e[1..], s[1..]);
      var w := WidenGaps(e[1..]);
      WidenGapsCopy(e);
      if w != [] { WidenGapsHead(e[1..]); }
      CharFitsAt(e[0], w, s);
    }
  }

  /** A sentence fitting ` x z` splits at the space before `z`. */
  lemma {:induction false} GapSplit(x: string, z: string, s: string) returns (k: nat)
    requires Fits(" " + (x + (" " + z)), s)
    ensures k + 2 <= |s| && s[0] == ' ' && Fits(z, s[k + 2..])
  {
    CharFitsElim(' ', x + (" " + z), s);
    k := FitsSplit(x, " " + z, s[1..]);
    CharFitsElim(' ', z, s[1..][k..]);
    assert s[1..][k..][1..] == s[k + 2..];
  }

  /** ` .*` absorbs everything from a leading space up to a fit of what follows. */
  lemma {:induction false} GapJoin(w: string, s: string, k: nat)
    requires '\n' !in s && k + 2 <= |s| && s[0] == ' ' && Fits(w, s[k + 2..])
    ensures Fits(" .*" + w, s)
  {
    assert s[1..][k + 1..] == s[k + 2..];
    WildcardFitsAt(w, s[1..], k + 1);
    CharFits(' ', ".*" + w, s[1..]);
    assert " .*" + w == [' '] + (".*" + w);
    assert s == [' '] + s[1..];
  }

  /** Pass 3 keeps a text single-spaced words. */
  lemma {:induction false} WidenGapsShape(e: string, wordNeeded: bool)
    requires BodyShape(e, wordNeeded)
    ensures BodyShape(WidenGaps(e), wordNeeded)
    decreases |e|
  {
    if e == [] {
    } else if e[0] == ' ' && GapEnd(e[1..]).Some? {
      var j := GapEnd(e[1..]).value;
      ShapeAfterSpace(e, wordNeeded, j + 1);
      WidenGapsShape(e[j + 2..], true);
      GapShape(e, WidenGaps(e[j + 2..]));
    } else if |e| >= 2 && e[0] == '.' && e[1] == '*' {
      WidenGapsShape(e[2..], false);
      WidenGapsWildcard(e);
      ShapeWildcard(WidenGaps(e[2..]), wordNeeded);
    } else {
      WidenGapsShape(e[1..], e[0] == ' ');
      WidenGapsCopy(e);
      ShapeChar(e[0], WidenGaps(e[1..]), wordNeeded);
    }
  }

  /** The ` .*` that pass 3 writes for a gap, followed by a text that starts with a word. */
  lemma {:induction false} GapShape(e: string, w: string)
    requires e != [] && e[0] == ' ' && GapEnd(e[1..]).Some?
    requires w == WidenGaps(e[GapEnd(e[1..]).value + 2..]) && BodyShape(w, true)
    ensures BodyShape(WidenGaps(e), false)
  {
    ShapeRelax(w);
    ShapeWildcard(w, true);
    ShapeSpace(".*" + w);
    WidenGapsOpen(e);
    assert " .*" + w == " " + (".*" + w);
  }

  /** A wildcard followed by the rest of a word. */
  lemma {:induction false} ShapeWildcard(w: string, wordNeeded: bool)
    requires BodyShape(w, false)
    ensures BodyShape(".*" + w, wordNeeded)
  {
    assert (".*" + w)[2..] == w;
  }

  /** A space followed by a word. */
  lemma {:induction false} ShapeSpace(w: string)
    requires BodyShape(w, true)
    ensures BodyShape(" " + w, false)
  {
    assert (" " + w)[1..] == w;
  }

  /** A literal character or a space in front of a shaped text. */
  lemma {:induction false} ShapeChar(c: char, w: string, wordNeeded: bool)
    requires c == ' ' ==> !wordNeeded && BodyShape(w, true)
    requires c != ' ' ==> IsLiteralChar(c) && BodyShape(w, false)
    ensures BodyShape([c] + w, wordNeeded)
  {
    assert ([c] + w)[1..] == w;
  }

  // ---------------------------------------------------------------------------
  // Pass 4: a run `.* .* ... .*` becomes `.*`
  // ---------------------------------------------------------------------------

  /** Pass 4 keeps the first character of a non-empty text. */
  lemma {:induction false} MergeWildcardsHead(e: string)
    requires e != []
    ensures MergeWildcards(e) != [] && MergeWildcards(e)[0] == e[0]
  {
  }

  /** Where no run starts, pass 4 copies the first character. */
  lemma {:induction false} MergeWildcardsCopy(s: string)
    requires s != [] && !StartsWildcardPair(s)
    ensures MergeWildcards(s) == [s[0]] + MergeWildcards(s[1..])
  {
  }

  /** A lone wildcard is copied by pass 4 as it is. */
  lemma {:induction false} MergeWildcardsWildcard(e: string)
    requires |e| >= 2 && e[0] == '.' && e[1] == '*' && !StartsWildcardPair(e)
    ensures MergeWildcards(e) == ".*" + MergeWildcards(e[2..])
  {
    MergeWildcardsCopy(e);
    var u := e[1..];
    assert u[0] == '*' && u[1..] == e[2..];
    MergeWildcardsCopy(u);
    var m := MergeWildcards(e[2..]);
    assert ['.'] + (['*'] + m) == ".*" + m;
  }

  /** Dropping ` .*` copies after a wildcard keeps every exact fit. */
  lemma {:induction false} DropWildcardRunFit(x: string, s: string)
    requires Fits(".*" + x, s) && '\n' !in s
    ensures Fits(".*" + DropWildcardRun(x), s)
    decreases |x|
  {
    if StartsSpacedWildcard(x) {
      assert x == " .*" + x[3..];
      AbsorbSpacedWildcard(x[3..], s);
      DropWildcardRunFit(x[3..], s);
    }
  }

  /** `.* .*` fits whatever `.*` alone fits, when there is no line break. */
  lemma {:induction false} AbsorbSpacedWildcard(y: string, s: string)
    requires Fits(".*" + (" .*" + y), s) && '\n' !in s
    ensures Fits(".*" + y, s)
  {
    var i := WildcardFitsElim(" .*" + y, s);
    var u := s[i..];
    assert " .*" + y == [' '] + (".*" + y);
    CharFitsElim(' ', ".*" + y, u);
    var j := WildcardFitsElim(y, u[1..]);
    var k := i + 1 + j;
    assert u[1..][j..] == s[k..];
    WildcardFitsAt(y, s, k);
  }

  /** Dropping ` .*` copies after a wildcard keeps the shape. */
  lemma {:induction false} DropWildcardRunShape(x: string)
    requires BodyShape(x, false)
    ensures BodyShape(DropWildcardRun(x), false)
    decreases |x|
  {
    if StartsSpacedWildcard(x) {
      assert x[1..][2..] == x[3..];
      DropWildcardRunShape(x[3..]);
    }
  }

  /** A sentence that fits a text without line breaks also fits its pass-4 rewrite. */
  lemma {:induction false} MergeWildcardsFit(e: string, s: string)
    requires Fits(e, s) && '\n' !in s
    ensures Fits(MergeWildcards(e), s)
    decreases |e|
  {
    if StartsWildcardPair(e) {
      assert e == ".*" + e[2..];
      DropWildcardRunFit(e[2..], s);
      var r := DropWildcardRun(e[2..]);
      var k := WildcardFitsElim(r, s);
      MergeWildcardsFit(r, s[k..]);
      WildcardFitsAt(MergeWildcards(r), s, k);
    } else if e == [] {
    } else if |e| >= 2 && e[0] == '.' && e[1] == '*' {
      assert e == ".*" + e[2..];
      var k := WildcardFitsElim(e[2..], s);
      MergeWildcardsFit(e[2..], s[k..]);
      MergeWildcardsWildcard(e);
      WildcardFitsAt(MergeWildcards(e[2..]), s, k);
    } else {
      assert e == [e[0]] + e[1..];
      CharFitsElim(e[0], e[1..], s);
      MergeWildcardsFit(e[1..], s[1..]);
      var w := MergeWildcards(e[1..]);
      assert MergeWildcards(e) == [e[0]] + w;
      if w != [] { MergeWildcardsHead(e[1..]); }
      CharFitsAt(e[0], w, s);
    }
  }

  /** Pass 4 keeps a text single-spaced words. */
  lemma {:induction false} MergeWildcardsShape(e: string, wordNeeded: bool)
    requires BodyShape(e, wordNeeded)
    ensures BodyShape(MergeWildcards(e), wordNeeded)
    decreases |e|
  {
    if StartsWildcardPair(e) {
      var r := DropWildcardRun(e[2..]);
      DropWildcardRunShape(e[2..]);
      MergeWildcardsShape(r, false);
      ShapeWildcard(MergeWildcards(r), wordNeeded);
    } else if e == [] {
    } else if |e| >= 2 && e[0] == '.' && e[1] == '*' {
      MergeWildcardsShape(e[2..], false);
      MergeWildcardsWildcard(e);
      ShapeWildcard(MergeWildcards(e[2..]), wordNeeded);
    } else {
      MergeWildcardsShape(e[1..], e[0] == ' ');
      assert MergeWildcards(e) == [e[0]] + MergeWildcards(e[1..]);
      ShapeChar(e[0], MergeWildcards(e[1..]), wordNeeded);
    }
  }

  // ---------------------------------------------------------------------------
  // The whole pipeline
  // ---------------------------------------------------------------------------

  /**
   * A template line of single-spaced words with closed slots matches every
   * sentence that starts with the template, its slots filled with any text
   * without a line break.
   */
  lemma {:induction false} FilledTemplateMatches(t: string, values: seq<string>, rest: string)
    requires IsSlotTemplate(t)
    requires forall k :: 0 <= k < |values| ==> '\n' !in values[k]
    ensures Matches(PatternOf(t), Fill(t, values) + rest)
  {
    var f := Fill(t, values);
    var s1 := ReplaceSlots(t);
    SlotsFit(t, true, values);
    ShapeChars(s1, true);
    var s2 := RemoveClosers(s1);
    assert s2 == s1;
    var s3 := WidenGaps(s2);
    WidenGapsFit(s2, f);
    WidenGapsShape(s2, true);
    var s4 := MergeWildcards(s3);
    MergeWildcardsFit(s3, f);
    MergeWildcardsShape(s3, true);
    NormalizeShaped(s4);
    assert Compile(t) == "^" + s4;
    assert ("^" + s4)[1..] == s4;
    FitsMatches(s4, f);
    MatchesExtend(Pattern(Segments(s4)[0], Segments(s4)[1..]), f, rest);
  }
}

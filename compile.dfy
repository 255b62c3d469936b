/**
 * Template compilation (`_match_dialog_patterns`, its five list comprehensions):
 * a dialog template line is rewritten into a regular-expression text by five
 * successive string rewrites.  Each rewrite is written as the left-to-right scan
 * that Python's `re.sub` performs for that particular expression, including the
 * fact that `.` in those expressions never matches a line break.
 */
module Compilation {
  import opened Wrappers
  import opened Text

  /** Every character of `r` comes from `s` or from `extra`. */
  predicate CharsFrom(r: string, s: string, extra: set<char>)
  {
    forall c :: c in r ==> c in s || c in extra
  }

  // ---------------------------------------------------------------------------
  // Pass 1: re.sub(r'{.*?\}', r'.*', dia)
  // ---------------------------------------------------------------------------

  /** The first '}' of `s` is at `j`, and no line break comes before it. */
  predicate ClosesAt(s: string, j: nat)
  {
    j < |s| && s[j] == '}' && forall k :: 0 <= k < j ==> s[k] != '}' && s[k] != '\n'
  }

  /** Every '}' of `s` comes after a line break, so a slot opened before `s` never closes. */
  predicate Unclosed(s: string)
  {
    forall k :: 0 <= k < |s| && s[k] == '}' ==> '\n' in s[..k]
  }

  /**
   * Where a slot opened just before `s` closes: the first '}' of `s`, provided no
   * line break comes before it (the lazy `.*?` cannot cross one).
   */
  function SlotEnd(s: string): (r: Option<nat>)
    ensures r.Some? ==> ClosesAt(s, r.value)
    ensures r.None? ==> Unclosed(s)
    decreases |s|
  {
    if s == [] then None
    else if s[0] == '}' then Some(0)
    else if s[0] == '\n' then None
    else
      match SlotEnd(s[1..])
      case None =>
        assert forall k :: 1 <= k < |s| ==> s[k] == s[1..][k - 1];
        assert forall k :: 1 <= k < |s| ==> s[..k] == [s[0]] + s[1..][..k - 1];
        None
      case Some(j) => Some(j + 1)
  }

  /** Pass 1: each `{...}` slot, up to the nearest following '}', becomes the wildcard `.*`. */
  function ReplaceSlots(s: string): string
    decreases |s|
  {
    if s == [] then []
    else if s[0] == '{' && SlotEnd(s[1..]).Some? then
      ".*" + ReplaceSlots(s[SlotEnd(s[1..]).value + 2..])
    else
      [s[0]] + ReplaceSlots(s[1..])
  }

  /** Pass 1 introduces no character other than those of the wildcard. */
  lemma {:induction false} ReplaceSlotsChars(s: string)
    ensures CharsFrom(ReplaceSlots(s), s, {'.', '*'})
    decreases |s|
  {
    if s != [] {
      if s[0] == '{' && SlotEnd(s[1..]).Some? {
        var rest := s[SlotEnd(s[1..]).value + 2..];
        ReplaceSlotsChars(rest);
        assert forall c :: c in rest ==> c in s;
      } else {
        ReplaceSlotsChars(s[1..]);
        assert forall c :: c in s[1..] ==> c in s;
      }
    }
  }

  /** Text before the first '{' is copied unchanged. */
  lemma {:induction false} ReplaceSlotsPrefix(a: string, t: string)
    requires forall k :: 0 <= k < |a| ==> a[k] != '{'
    ensures ReplaceSlots(a + t) == a + ReplaceSlots(t)
    decreases |a|
  {
    if a == [] {
      assert a + t == t;
    } else {
      var b := a[1..];
      assert (a + t)[0] == a[0] && (a + t)[1..] == b + t;
      assert ReplaceSlots(a + t) == [a[0]] + ReplaceSlots(b + t);
      ReplaceSlotsPrefix(b, t);
      var m := ReplaceSlots(t);
      assert a + m == [a[0]] + (b + m);
    }
  }

  /** The leftmost slot `{b}` (b without '}' or line break) becomes `.*`, and scanning resumes after it. */
  lemma {:induction false} SlotReplaced(a: string, b: string, c: string)
    requires '{' !in a
    requires '}' !in b && '\n' !in b
    ensures ReplaceSlots(a + "{" + b + "}" + c) == a + ".*" + ReplaceSlots(c)
  {
    var t := "{" + b + "}" + c;
    assert a + "{" + b + "}" + c == a + t;
    ReplaceSlotsPrefix(a, t);
    assert t[1..] == b + "}" + c;
    assert t[1..][|b|] == '}';
    assert t[1..][..|b|] == b;
    assert forall k :: 0 <= k < |b| ==> t[1..][k] == b[k];
    assert SlotEnd(t[1..]) == Some(|b|);
    assert t[|b| + 2..] == c;
  }

  /** A template without slots passes through unchanged. */
  lemma {:induction false} NoSlotUnchanged(s: string)
    requires '{' !in s
    ensures ReplaceSlots(s) == s
  {
    ReplaceSlotsPrefix(s, []);
    assert s + [] == s;
  }

  // ---------------------------------------------------------------------------
  // Pass 2: re.sub(r'\}', r'', dia)
  // ---------------------------------------------------------------------------

  /** Pass 2: every remaining '}' is deleted, every other character kept in order. */
  function RemoveClosers(s: string): (r: string)
    ensures '}' !in r
    ensures forall c :: c != '}' ==> (c in r <==> c in s)
    ensures '}' !in s ==> r == s
    decreases |s|
  {
    if s == [] then []
    else if s[0] == '}' then RemoveClosers(s[1..])
    else [s[0]] + RemoveClosers(s[1..])
  }

  // ---------------------------------------------------------------------------
  // Pass 3: re.sub(r' .* ', r' .*', dia)
  // ---------------------------------------------------------------------------

  /** Length of the first line of `s` (how far a `.*` can reach). */
  function LineLength(s: string): (n: nat)
    ensures n <= |s|
    ensures '\n' !in s[..n]
    ensures n < |s| ==> s[n] == '\n'
    decreases |s|
  {
    if s == [] || s[0] == '\n' then 0
    else
      var n := 1 + LineLength(s[1..]);
      assert s[..n] == [s[0]] + s[1..][..n - 1];
      n
  }

  /** Index of the last ' ' in `u`. */
  function LastSpace(u: string): (r: Option<nat>)
    ensures r.Some? ==> r.value < |u| && u[r.value] == ' '
    ensures r.Some? ==> forall j :: r.value < j < |u| ==> u[j] != ' '
    ensures r.None? <==> ' ' !in u
    decreases |u|
  {
    if u == [] then None
    else if u[|u| - 1] == ' ' then Some(|u| - 1)
    else
      var r := LastSpace(u[..|u| - 1]);
      assert u == u[..|u| - 1] + [u[|u| - 1]];
      r
  }

  /** Where the greedy ` .* ` opened by a space just before `s` ends: the last space on the same line. */
  function GapEnd(s: string): (r: Option<nat>)
    ensures r.Some? ==> r.value < |s| && s[r.value] == ' ' && '\n' !in s[..r.value]
  {
    var n := LineLength(s);
    var r := LastSpace(s[..n]);
    if r.Some? then assert s[..n][..r.value] == s[..r.value]; r else r
  }

  /**
   * Pass 3: from a space, everything up to the last space on the same line is
   * replaced by ` .*` (the greedy `.*` runs to the last space it can reach).
   */
  function WidenGaps(s: string): string
    decreases |s|
  {
    if s == [] then []
    else if s[0] == ' ' && GapEnd(s[1..]).Some? then
      " .*" + WidenGaps(s[GapEnd(s[1..]).value + 2..])
    else
      [s[0]] + WidenGaps(s[1..])
  }

  /** Pass 3 introduces no character other than those of the wildcard. */
  lemma {:induction false} WidenGapsChars(s: string)
    ensures CharsFrom(WidenGaps(s), s, {'.', '*'})
    decreases |s|
  {
    if s != [] {
      if s[0] == ' ' && GapEnd(s[1..]).Some? {
        var rest := s[GapEnd(s[1..]).value + 2..];
        WidenGapsChars(rest);
        assert forall c :: c in rest ==> c in s;
      } else {
        WidenGapsChars(s[1..]);
        assert forall c :: c in s[1..] ==> c in s;
      }
    }
  }

  /** Text before the first space is copied unchanged. */
  lemma {:induction false} WidenGapsPrefix(a: string, t: string)
    requires forall k :: 0 <= k < |a| ==> a[k] != ' '
    ensures WidenGaps(a + t) == a + WidenGaps(t)
    decreases |a|
  {
    if a == [] {
      assert a + t == t;
    } else {
      var b := a[1..];
      assert (a + t)[0] == a[0] && (a + t)[1..] == b + t;
      assert WidenGaps(a + t) == [a[0]] + WidenGaps(b + t);
      WidenGapsPrefix(b, t);
      var m := WidenGaps(t);
      assert a + m == [a[0]] + (b + m);
    }
  }

  /** Text without spaces is left as it is by pass 3. */
  lemma {:induction false} WidenGapsNoSpace(a: string)
    requires ' ' !in a
    ensures WidenGaps(a) == a
  {
    WidenGapsPrefix(a, []);
    assert a + [] == a;
  }

  /** A template with exactly one space is left as it is by pass 3. */
  lemma {:induction false} WidenGapsOneSpace(a: string, b: string)
    requires ' ' !in a && ' ' !in b
    ensures WidenGaps(a + " " + b) == a + " " + b
  {
    var t := " " + b;
    WidenGapsPrefix(a, t);
    assert a + " " + b == a + t;
    assert t[1..] == b;
    assert GapEnd(b).None? by {
      var n := LineLength(b);
      assert forall c :: c in b[..n] ==> c in b;
    }
    assert WidenGaps(t) == [' '] + WidenGaps(b);
    WidenGapsNoSpace(b);
  }

  /**
   * The quirk of pass 3: with two or more spaces on one line, everything from the
   * first space through the last becomes ` .*`.
   */
  lemma {:induction false} WidenGapsSpan(a: string, m: string, c: string)
    requires ' ' !in a && ' ' !in c && '\n' !in m
    ensures WidenGaps(a + " " + m + " " + c) == a + " .*" + c
  {
    var t := " " + m + " " + c;
    assert WidenGaps(a + t) == a + (" .*" + c) by {
      WidenGapsGap(m, c);
      WidenGapsPrefix(a, t);
    }
    assert a + " " + m + " " + c == a + t;
  }

  /** From the first space to the last one on the line, pass 3 leaves ` .*`. */
  lemma {:induction false} WidenGapsGap(m: string, c: string)
    requires ' ' !in c && '\n' !in m
    ensures WidenGaps(" " + m + " " + c) == " .*" + c
  {
    var t := " " + m + " " + c;
    assert t[0] == ' ' && t[1..] == m + " " + c;
    GapEndSpan(m, c);
    assert t[|m| + 2..] == c;
    WidenGapsNoSpace(c);
  }

  /** The gap opened before `m + " " + c` reaches the last space, the one before `c`. */
  lemma {:induction false} GapEndSpan(m: string, c: string)
    requires ' ' !in c && '\n' !in m
    ensures GapEnd(m + " " + c) == Some(|m|)
  {
    var u := m + " " + c;
    var n := LineLength(u);
    assert forall k :: 0 <= k < |m| ==> u[k] == m[k];
    assert u[|m|] == ' ';
    assert n > |m|;
    var v := u[..n];
    assert v[|m|] == ' ';
    forall j | |m| < j < |v| ensures v[j] != ' ' {
      assert v[j] == u[j] == c[j - |m| - 1];
    }
    var r := LastSpace(v);
    assert r.Some?;
    assert r.value == |m|;
  }

  // ---------------------------------------------------------------------------
  // Pass 4: re.sub(r'\.\*( \.\*)+', r'.*', dia)
  // ---------------------------------------------------------------------------

  /** `s` starts with " .*". */
  predicate StartsSpacedWildcard(s: string)
  {
    |s| >= 3 && s[0] == ' ' && s[1] == '.' && s[2] == '*'
  }

  /** `s` starts with ".* .*". */
  predicate StartsWildcardPair(s: string)
  {
    |s| >= 5 && s[0] == '.' && s[1] == '*' && StartsSpacedWildcard(s[2..])
  }

  /** `n` copies of " .*". */
  function SpacedWildcards(n: nat): (r: string)
    ensures |r| == 3 * n
  {
    if n == 0 then [] else " .*" + SpacedWildcards(n - 1)
  }

  /** The number of copies of " .*" at the front of `s`. */
  function WildcardRunLength(s: string): (n: nat)
    ensures 3 * n <= |s|
    decreases |s|
  {
    if StartsSpacedWildcard(s) then 1 + WildcardRunLength(s[3..]) else 0
  }

  /** Drops leading copies of " .*" (the greedy `( \.\*)+`): all of them, and nothing else. */
  function DropWildcardRun(s: string): (r: string)
    ensures |s| == 3 * WildcardRunLength(s) + |r| && r == s[|s| - |r|..]
    ensures !StartsSpacedWildcard(r)
    decreases |s|
  {
    if StartsSpacedWildcard(s) then DropWildcardRun(s[3..]) else s
  }

  /** What pass 4 drops is exactly a run of " .*" copies. */
  lemma {:induction false} DropWildcardRunSplits(s: string)
    ensures s == SpacedWildcards(WildcardRunLength(s)) + DropWildcardRun(s)
    decreases |s|
  {
    if StartsSpacedWildcard(s) {
      DropWildcardRunSplits(s[3..]);
      PrependSpacedWildcard(s, WildcardRunLength(s[3..]), DropWildcardRun(s[3..]));
    } else {
      assert SpacedWildcards(0) + s == s;
    }
  }

  lemma PrependSpacedWildcard(s: string, n: nat, r: string)
    requires StartsSpacedWildcard(s) && s[3..] == SpacedWildcards(n) + r
    ensures s == SpacedWildcards(n + 1) + r
  {
    calc {
      s;
      " .*" + s[3..];
      " .*" + (SpacedWildcards(n) + r);
      (" .*" + SpacedWildcards(n)) + r;
    }
  }

  /** Pass 4: a run `.* .* ... .*` of wildcards separated by single spaces becomes one `.*`. */
  function MergeWildcards(s: string): string
    decreases |s|
  {
    if StartsWildcardPair(s) then ".*" + MergeWildcards(DropWildcardRun(s[2..]))
    else if s == [] then []
    else [s[0]] + MergeWildcards(s[1..])
  }

  /** Pass 4 only removes characters. */
  lemma {:induction false} MergeWildcardsChars(s: string)
    ensures CharsFrom(MergeWildcards(s), s, {})
    decreases |s|
  {
    if StartsWildcardPair(s) {
      var rest := DropWildcardRun(s[2..]);
      MergeWildcardsChars(rest);
      assert forall c :: c in rest ==> c in s;
      assert s[0] == '.' && s[1] == '*';
    } else if s != [] {
      MergeWildcardsChars(s[1..]);
      assert forall c :: c in s[1..] ==> c in s;
    }
  }

  /** Text with no '.' has no wildcard run, and pass 4 leaves it as it is. */
  lemma {:induction false} MergeWildcardsNoDot(s: string)
    requires '.' !in s
    ensures MergeWildcards(s) == s
    decreases |s|
  {
    if s != [] {
      assert s[0] != '.';
      assert '.' !in s[1..];
      MergeWildcardsNoDot(s[1..]);
      assert s == [s[0]] + s[1..];
    }
  }

  /** `.* .*` collapses to `.*`, and scanning resumes after the run. */
  lemma {:induction false} MergeWildcardsPair(t: string)
    requires !StartsSpacedWildcard(t)
    ensures MergeWildcards(".* .*" + t) == ".*" + MergeWildcards(t)
  {
    var s := ".* .*" + t;
    assert StartsWildcardPair(s);
    assert s[2..][3..] == t;
    assert DropWildcardRun(s[2..]) == DropWildcardRun(t);
  }

  // ---------------------------------------------------------------------------
  // Pass 5: '^' + ' '.join(dia.split())
  // ---------------------------------------------------------------------------

  lemma {:induction false} WordsChars(s: string)
    ensures forall j, c :: 0 <= j < |Words(s)| && c in Words(s)[j] ==> c in s
    decreases |s|
  {
    if s != [] {
      if IsSpace(s[0]) {
        WordsChars(s[1..]);
        assert forall c :: c in s[1..] ==> c in s;
      } else {
        var n := WordLength(s);
        WordsChars(s[n..]);
        var ws := Words(s);
        assert ws == [s[..n]] + Words(s[n..]);
        forall j, c | 0 <= j < |ws| && c in ws[j] ensures c in s {
          if j == 0 {
            assert c in s[..n];
          } else {
            assert ws[j] == Words(s[n..])[j - 1];
            assert c in s[n..];
          }
        }
      }
    }
  }

  lemma {:induction false} JoinWordsChars(ws: seq<string>)
    ensures forall c :: c in JoinWords(ws) ==> c == ' ' || exists j :: 0 <= j < |ws| && c in ws[j]
    decreases |ws|
  {
    if |ws| > 1 {
      JoinWordsChars(ws[1..]);
      forall c | c in JoinWords(ws[1..]) ensures c == ' ' || exists j :: 0 <= j < |ws| && c in ws[j] {
        if c != ' ' {
          var j :| 0 <= j < |ws[1..]| && c in ws[1..][j];
          assert c in ws[j + 1];
        }
      }
    }
  }

  /** Pass 5: blanks collapsed to single spaces, ends trimmed, and the start anchor prepended. */
  function Normalize(s: string): (r: string)
    ensures |r| >= 1 && r[0] == '^'
    ensures SingleSpaced(r[1..])
    ensures CharsFrom(r[1..], s, {' '})
    ensures Words(r[1..]) == Words(s)
  {
    var body := JoinWords(Words(s));
    JoinWordsSingleSpaced(Words(s));
    WordsOfJoin(Words(s));
    WordsChars(s);
    JoinWordsChars(Words(s));
    var r := "^" + body;
    assert r[1..] == body;
    r
  }

  // ---------------------------------------------------------------------------
  // The whole pipeline
  // ---------------------------------------------------------------------------

  /**
   * The regular-expression text that a template line compiles to.  It starts with
   * the anchor, has no '}' and no line break, and is single-spaced after the anchor.
   */
  function Compile(template: string): (r: string)
    ensures |r| >= 1 && r[0] == '^'
    ensures '}' !in r && '\n' !in r
    ensures SingleSpaced(r[1..])
  {
    var s1 := ReplaceSlots(template);
    var s2 := RemoveClosers(s1);
    var s3 := WidenGaps(s2);
    var s4 := MergeWildcards(s3);
    ReplaceSlotsChars(template);
    WidenGapsChars(s2);
    MergeWildcardsChars(s3);
    var r := Normalize(s4);
    assert '}' !in s3 && '}' !in s4;
    assert r == [r[0]] + r[1..];
    r
  }

  // ---------------------------------------------------------------------------
  // What the pipeline does to whole templates
  // ---------------------------------------------------------------------------

  /** Characters with a meaning of their own in a Python regular expression. */
  predicate IsRegexMeta(c: char)
  {
    c in {'.', '^', '$', '*', '+', '?', '[', ']', '\\', '|', '(', ')'}
  }

  /** A character that stands for itself in every pass and in the compiled expression. */
  predicate IsLiteralChar(c: char)
  {
    !IsSpace(c) && c != '{' && c != '}' && !IsRegexMeta(c)
  }

  /** A template word made only of literal characters. */
  predicate IsLiteralWord(w: string)
  {
    forall k :: 0 <= k < |w| ==> IsLiteralChar(w[k])
  }

  lemma {:induction false} SlotEndExtend(u: string, v: string)
    requires '}' !in v
    ensures SlotEnd(u + v) == SlotEnd(u)
    decreases |u|
  {
    if u == [] {
      assert u + v == v;
      assert SlotEnd(v).None?;
    } else {
      assert (u + v)[0] == u[0];
      assert (u + v)[1..] == u[1..] + v;
      SlotEndExtend(u[1..], v);
    }
  }

  /** Brace-free text after the last slot is copied unchanged. */
  lemma {:induction false} ReplaceSlotsSuffix(m: string, tail: string)
    requires '{' !in tail && '}' !in tail
    ensures ReplaceSlots(m + tail) == ReplaceSlots(m) + tail
    decreases |m|
  {
    if m == [] {
      assert m + tail == tail;
      NoSlotUnchanged(tail);
    } else {
      assert (m + tail)[0] == m[0];
      assert (m + tail)[1..] == m[1..] + tail;
      SlotEndExtend(m[1..], tail);
      assert SlotEnd((m + tail)[1..]) == SlotEnd(m[1..]);
      if m[0] == '{' && SlotEnd(m[1..]).Some? {
        var k := SlotEnd(m[1..]).value;
        assert (m + tail)[k + 2..] == m[k + 2..] + tail;
        ReplaceSlotsSuffix(m[k + 2..], tail);
        ReplaceSlotsAtSlot(m + tail, k);
        ReplaceSlotsAtSlot(m, k);
      } else {
        ReplaceSlotsSuffix(m[1..], tail);
        assert ReplaceSlots(m + tail) == [m[0]] + ReplaceSlots(m[1..] + tail);
        assert ReplaceSlots(m) == [m[0]] + ReplaceSlots(m[1..]);
      }
    }
  }

  /** A slot whose closing brace is at `k + 1` becomes a wildcard, and scanning resumes after it. */
  lemma ReplaceSlotsAtSlot(s: string, k: nat)
    requires s != [] && s[0] == '{' && SlotEnd(s[1..]) == Some(k)
    ensures k + 2 <= |s| && ReplaceSlots(s) == ".*" + ReplaceSlots(s[k + 2..])
  {
  }

  lemma {:induction false} RemoveClosersAppend(a: string, b: string)
    ensures RemoveClosers(a + b) == RemoveClosers(a) + RemoveClosers(b)
    decreases |a|
  {
    if a == [] {
      assert a + b == b;
    } else {
      assert (a + b)[0] == a[0];
      assert (a + b)[1..] == a[1..] + b;
      RemoveClosersAppend(a[1..], b);
    }
  }

  /** A character other than '.' starts no wildcard run and is copied by pass 4. */
  lemma {:induction false} MergeWildcardsStep(c: char, rest: string)
    requires c != '.'
    ensures MergeWildcards([c] + rest) == [c] + MergeWildcards(rest)
  {
    var u := [c] + rest;
    assert u[0] == c && u[1..] == rest;
  }

  /** Text without '.' before the rest is copied unchanged by pass 4. */
  lemma {:induction false} MergeWildcardsPrefix(a: string, t: string)
    requires forall k :: 0 <= k < |a| ==> a[k] != '.'
    ensures MergeWildcards(a + t) == a + MergeWildcards(t)
    decreases |a|
  {
    if a == [] {
      assert a + t == t;
    } else {
      var b := a[1..];
      assert a[0] != '.';
      assert a + t == [a[0]] + (b + t);
      MergeWildcardsStep(a[0], b + t);
      MergeWildcardsPrefix(b, t);
      var m := MergeWildcards(t);
      calc {
        MergeWildcards(a + t);
        [a[0]] + MergeWildcards(b + t);
        [a[0]] + (b + m);
        { assert a == [a[0]] + b; }
        a + m;
      }
    }
  }

  lemma {:induction false} LiteralWordFacts(w: string)
    requires IsLiteralWord(w)
    ensures '{' !in w && '}' !in w && '.' !in w && ' ' !in w && '\n' !in w
    ensures forall k :: 0 <= k < |w| ==> !IsSpace(w[k])
  {
    forall c | c in w ensures c != '{' && c != '}' && c != '.' && c != ' ' && c != '\n' {
      var k :| 0 <= k < |w| && w[k] == c;
      assert IsLiteralChar(w[k]);
    }
  }

  /**
   * A template of literal characters, single-spaced with at most one space (and no
   * slot), compiles to itself behind the anchor.
   */
  lemma {:induction false} CompilePlain(first: string, second: Option<string>)
    requires first != [] && IsLiteralWord(first)
    requires second.Some? ==> second.value != [] && IsLiteralWord(second.value)
    ensures var t := if second.Some? then first + " " + second.value else first;
            Compile(t) == "^" + t
  {
    LiteralWordFacts(first);
    var t := if second.Some? then first + " " + second.value else first;
    if second.Some? {
      LiteralWordFacts(second.value);
      assert '{' !in t && '}' !in t && '.' !in t;
      WidenGapsOneSpace(first, second.value);
    } else {
      WidenGapsNoSpace(t);
    }
    NoSlotUnchanged(t);
    MergeWildcardsNoDot(t);
    assert SingleSpaced(t) by {
      forall k | 0 <= k < |t| && IsSpace(t[k])
        ensures t[k] == ' ' && 0 < k < |t| - 1 && !IsSpace(t[k + 1])
      {
        if second.Some? && k == |first| {
          assert t[k + 1] == second.value[0];
        }
      }
    }
    SingleSpacedFixed(t);
  }

  /** Pass 1 on a spanned template touches only its middle. */
  lemma {:induction false} SpannedSlots(first: string, middle: string, last: string)
    requires '{' !in first && '{' !in last && '}' !in last
    ensures ReplaceSlots(first + " " + middle + " " + last) == first + " " + ReplaceSlots(middle) + " " + last
  {
    var a, tail := first + " ", " " + last;
    var r := ReplaceSlots(middle);
    assert ReplaceSlots(a + (middle + tail)) == a + (r + tail) by {
      assert forall k :: 0 <= k < |a| ==> a[k] != '{';
      ReplaceSlotsSuffix(middle, tail);
      ReplaceSlotsPrefix(a, middle + tail);
    }
    assert first + " " + middle + " " + last == a + (middle + tail);
    assert first + " " + r + " " + last == a + (r + tail);
  }

  /** Pass 2 on a spanned template touches only its middle. */
  lemma {:induction false} SpannedClosers(first: string, middle: string, last: string)
    requires '}' !in first && '}' !in last
    ensures RemoveClosers(first + " " + middle + " " + last) == first + " " + RemoveClosers(middle) + " " + last
  {
    var a, z := first + " ", " " + last;
    var r := RemoveClosers(middle);
    assert RemoveClosers(a + middle + z) == a + r + z by {
      assert RemoveClosers(a) == a && RemoveClosers(z) == z;
      RemoveClosersAppend(a, middle);
      RemoveClosersAppend(a + middle, z);
    }
    assert first + " " + middle + " " + last == a + middle + z;
    assert first + " " + r + " " + last == a + r + z;
  }

  /** Pass 4 leaves `first .*last` alone. */
  lemma {:induction false} SpannedMerge(first: string, last: string)
    requires '.' !in first && '.' !in last && ' ' !in last
    ensures MergeWildcards(first + " .*" + last) == first + " .*" + last
  {
    var a, u := first + " ", ".*" + last;
    assert MergeWildcards(u) == u by {
      assert !StartsWildcardPair(u) by {
        if |u| >= 5 { assert u[2] == last[0]; }
      }
      var v := "*" + last;
      assert u[0] == '.' && u[1..] == v;
      assert MergeWildcards(u) == ['.'] + MergeWildcards(v);
      MergeWildcardsNoDot(v);
      assert ['.'] + v == u;
    }
    assert MergeWildcards(a + u) == a + u by {
      assert forall k :: 0 <= k < |a| ==> a[k] != '.';
      MergeWildcardsPrefix(a, u);
    }
    assert first + " .*" + last == a + u;
  }

  /** Pass 5 only prepends the anchor to `first .*last`. */
  lemma {:induction false} SpannedNormalize(first: string, last: string)
    requires first != [] && IsLiteralWord(first) && IsLiteralWord(last)
    ensures Normalize(first + " .*" + last) == "^" + first + " .*" + last
  {
    LiteralWordFacts(first);
    LiteralWordFacts(last);
    var s3 := first + " .*" + last;
    assert SingleSpaced(s3) by {
      forall k | 0 <= k < |s3| && IsSpace(s3[k])
        ensures s3[k] == ' ' && 0 < k < |s3| - 1 && !IsSpace(s3[k + 1])
      {
      }
    }
    SingleSpacedFixed(s3);
  }

  /**
   * The quirk of pass 3 on whole templates: when a template has two or more spaces,
   * its first word is kept, everything from the first space through the last one
   * (slots or not) becomes ` .*`, and its last word is kept.
   */
  lemma {:induction false} CompileSpanned(first: string, middle: string, last: string)
    requires first != [] && IsLiteralWord(first) && IsLiteralWord(last)
    requires '\n' !in middle
    ensures Compile(first + " " + middle + " " + last) == "^" + first + " .*" + last
  {
    LiteralWordFacts(first);
    LiteralWordFacts(last);
    var t := first + " " + middle + " " + last;
    var m1 := ReplaceSlots(middle);
    var s1 := ReplaceSlots(t);
    SpannedSlots(first, middle, last);
    assert s1 == first + " " + m1 + " " + last;
    var m2 := RemoveClosers(m1);
    var s2 := RemoveClosers(s1);
    SpannedClosers(first, m1, last);
    assert s2 == first + " " + m2 + " " + last;
    ReplaceSlotsChars(middle);
    assert '\n' !in m1;
    assert '\n' !in m2;
    var s3 := WidenGaps(s2);
    WidenGapsSpan(first, m2, last);
    assert s3 == first + " .*" + last;
    var s4 := MergeWildcards(s3);
    SpannedMerge(first, last);
    assert s4 == s3;
    SpannedNormalize(first, last);
    assert Compile(t) == Normalize(s4);
  }

  /**
   * A slot that survives: a literal first word followed by one slot compiles to
   * the word, a space and a wildcard.
   */
  lemma {:induction false} CompileSlotted(first: string, b: string)
    requires first != [] && IsLiteralWord(first)
    requires '}' !in b && '\n' !in b
    ensures Compile(first + " {" + b + "}") == "^" + first + " .*"
  {
    LiteralWordFacts(first);
    var a := first + " ";
    var t := first + " {" + b + "}";
    assert t == a + "{" + b + "}" + [];
    SlotReplaced(a, b, []);
    var s1 := ReplaceSlots(t);
    assert s1 == first + " " + ".*";
    assert RemoveClosers(s1) == s1;
    WidenGapsOneSpace(first, ".*");
    SpannedMerge(first, []);
    SpannedNormalize(first, []);
    assert first + " .*" + [] == s1;
    assert Compile(t) == Normalize(MergeWildcards(WidenGaps(s1)));
  }
}

/**
 * The handful of Python `str` operations the step definitions rely on:
 * `isspace`, `lower`, `strip`, `split()`, `' '.join`, the `in` substring test
 * and `replace(old, '')`.
 */
module Text {
  import opened Wrappers

  /** Python's `str.isspace` for one code point: the characters `strip()` and `split()` treat as blanks. */
  predicate IsSpace(c: char)
  {
    var n := c as int;
    (9 <= n <= 13) || (28 <= n <= 32) || n == 0x85 || n == 0xA0 || n == 0x1680 ||
    (0x2000 <= n <= 0x200A) || n == 0x2028 || n == 0x2029 || n == 0x202F || n == 0x205F || n == 0x3000
  }

  predicate IsUpper(c: char) { 'A' <= c <= 'Z' }

  function LowerChar(c: char): (d: char)
    ensures !IsUpper(d)
    ensures IsUpper(c) ==> d as int == c as int + 32
    ensures !IsUpper(c) ==> d == c
    ensures IsSpace(d) <==> IsSpace(c)
  {
    if IsUpper(c) then (c as int + 32) as char else c
  }

  /** `str.lower()`, restricted to the ASCII letters. */
  function Lower(s: string): (r: string)
    ensures |r| == |s|
    ensures forall i :: 0 <= i < |s| ==> r[i] == LowerChar(s[i])
  {
    seq(|s|, i requires 0 <= i < |s| => LowerChar(s[i]))
  }

  predicate IsLowered(s: string) { forall i :: 0 <= i < |s| ==> !IsUpper(s[i]) }

  lemma LowerIsLowered(s: string)
    ensures IsLowered(Lower(s))
    ensures Lower(Lower(s)) == Lower(s)
  {
  }

  /** Number of leading blanks. */
  function LeadingSpaces(s: string): (n: nat)
    ensures n <= |s|
    ensures forall k :: 0 <= k < n ==> IsSpace(s[k])
    ensures n < |s| ==> !IsSpace(s[n])
    decreases |s|
  {
    if s != [] && IsSpace(s[0]) then 1 + LeadingSpaces(s[1..]) else 0
  }

  /** Number of trailing blanks. */
  function TrailingSpaces(s: string): (n: nat)
    ensures n <= |s|
    ensures forall k :: |s| - n <= k < |s| ==> IsSpace(s[k])
    ensures n < |s| ==> !IsSpace(s[|s| - 1 - n])
    decreases |s|
  {
    if s != [] && IsSpace(s[|s| - 1]) then 1 + TrailingSpaces(s[..|s| - 1]) else 0
  }

  /** Neither starts nor ends with a blank. */
  predicate IsStripped(s: string)
  {
    s == [] || (!IsSpace(s[0]) && !IsSpace(s[|s| - 1]))
  }

  /** `str.strip()`: drops the blanks at both ends and keeps the middle untouched. */
  function Strip(s: string): (r: string)
    ensures IsStripped(r)
    ensures r == [] <==> forall k :: 0 <= k < |s| ==> IsSpace(s[k])
    ensures r != [] ==> exists i: nat :: OccursAt(s, r, i) &&
                         (forall k :: 0 <= k < i ==> IsSpace(s[k])) &&
                         (forall k :: i + |r| <= k < |s| ==> IsSpace(s[k]))
  {
    var lead := LeadingSpaces(s);
    if lead == |s| then []
    else
      var trail := TrailingSpaces(s);
      assert !IsSpace(s[lead]);
      assert lead < |s| - trail;
      var r := s[lead..|s| - trail];
      assert OccursAt(s, r, lead);
      r
  }

  lemma StripStripped(s: string)
    requires IsStripped(s)
    ensures Strip(s) == s
  {
  }

  lemma LowerKeepsStripped(s: string)
    requires IsStripped(s)
    ensures IsStripped(Lower(s))
  {
  }

  /** Length of the run of non-blank characters that `s` starts with. */
  function WordLength(s: string): (n: nat)
    requires s != [] && !IsSpace(s[0])
    ensures 1 <= n <= |s|
    ensures forall k :: 0 <= k < n ==> !IsSpace(s[k])
    ensures n < |s| ==> IsSpace(s[n])
    decreases |s|
  {
    if |s| == 1 || IsSpace(s[1]) then 1 else 1 + WordLength(s[1..])
  }

  predicate IsWord(w: string)
  {
    w != [] && forall k :: 0 <= k < |w| ==> !IsSpace(w[k])
  }

  /** `str.split()` with no separator: the maximal runs of non-blank characters, in order. */
  function Words(s: string): (ws: seq<string>)
    ensures forall j :: 0 <= j < |ws| ==> IsWord(ws[j])
    decreases |s|
  {
    if s == [] then []
    else if IsSpace(s[0]) then Words(s[1..])
    else
      var n := WordLength(s);
      [s[..n]] + Words(s[n..])
  }

  /** A single word splits into itself. */
  lemma {:induction false} WordsOfWord(w: string)
    requires IsWord(w)
    ensures Words(w) == [w]
  {
    var n := WordLength(w);
    assert n == |w|;
    assert w[..n] == w && w[n..] == [];
  }

  /** A blank separates words: the words before it, then the words after it. */
  lemma {:induction false} WordsSplit(a: string, c: char, b: string)
    requires IsSpace(c)
    ensures Words(a + [c] + b) == Words(a) + Words(b)
    decreases |a|
  {
    var s := a + [c] + b;
    if a == [] {
      assert s[0] == c && s[1..] == b;
    } else if IsSpace(a[0]) {
      assert s[0] == a[0] && s[1..] == a[1..] + [c] + b;
      WordsSplit(a[1..], c, b);
    } else {
      var m := WordLength(a);
      assert s[m] == if m < |a| then a[m] else c;
      assert forall k :: 0 <= k < m ==> s[k] == a[k];
      WordLengthIs(s, m);
      assert Words(s) == [s[..m]] + Words(s[m..]);
      assert s[..m] == a[..m];
      assert s[m..] == a[m..] + [c] + b;
      WordsSplit(a[m..], c, b);
    }
  }

  /** The word at the front ends at the first blank. */
  lemma WordLengthIs(s: string, n: nat)
    requires s != [] && !IsSpace(s[0])
    requires 1 <= n <= |s| && forall k :: 0 <= k < n ==> !IsSpace(s[k])
    requires n < |s| ==> IsSpace(s[n])
    ensures WordLength(s) == n
  {
  }

  /** `' '.join(ws)`. */
  function JoinWords(ws: seq<string>): string
  {
    if ws == [] then []
    else if |ws| == 1 then ws[0]
    else ws[0] + " " + JoinWords(ws[1..])
  }

  /**
   * Single-spaced text: the only blank character is ' ', never at either end and
   * never next to another blank.
   */
  predicate SingleSpaced(t: string)
  {
    forall k :: 0 <= k < |t| && IsSpace(t[k]) ==>
      t[k] == ' ' && 0 < k < |t| - 1 && !IsSpace(t[k + 1])
  }

  lemma {:induction false} JoinWordsSingleSpaced(ws: seq<string>)
    requires forall j :: 0 <= j < |ws| ==> IsWord(ws[j])
    ensures SingleSpaced(JoinWords(ws))
    ensures ws != [] ==> IsWord(ws[0]) && JoinWords(ws) != [] && JoinWords(ws)[0] == ws[0][0]
    decreases |ws|
  {
    if |ws| > 1 {
      JoinWordsSingleSpaced(ws[1..]);
      var w, t := ws[0], JoinWords(ws[1..]);
      var u := w + " " + t;
      assert JoinWords(ws) == u;
      forall k | 0 <= k < |u| && IsSpace(u[k])
        ensures u[k] == ' ' && 0 < k < |u| - 1 && !IsSpace(u[k + 1])
      {
        if k == |w| {
          assert u[k + 1] == t[0];
        } else if k > |w| {
          assert u[k] == t[k - |w| - 1];
          if k + 1 < |u| { assert u[k + 1] == t[k - |w|]; }
        }
      }
    }
  }

  /** Splitting words joined by single spaces gives the words back. */
  lemma {:induction false} WordsOfJoin(ws: seq<string>)
    requires forall j :: 0 <= j < |ws| ==> IsWord(ws[j])
    ensures Words(JoinWords(ws)) == ws
    decreases |ws|
  {
    if |ws| == 1 {
      WordsOfWord(ws[0]);
    } else if |ws| > 1 {
      WordsOfJoin(ws[1..]);
      WordsOfWord(ws[0]);
      assert JoinWords(ws) == ws[0] + [' '] + JoinWords(ws[1..]);
      WordsSplit(ws[0], ' ', JoinWords(ws[1..]));
      assert ws == [ws[0]] + ws[1..];
    }
  }

  /** Collapsing the blanks changes nothing in text that is already single-spaced. */
  lemma {:induction false} SingleSpacedFixed(t: string)
    requires SingleSpaced(t)
    ensures JoinWords(Words(t)) == t
    ensures t != [] ==> Words(t) != []
    decreases |t|
  {
    if t != [] {
      assert !IsSpace(t[0]);
      var n := WordLength(t);
      if n == |t| {
        assert t[n..] == [];
        assert Words(t) == [t[..n]];
      } else {
        assert IsSpace(t[n]) && t[n] == ' ' && n + 1 < |t|;
        var rest := t[n + 1..];
        assert SingleSpaced(rest) by {
          forall k | 0 <= k < |rest| && IsSpace(rest[k])
            ensures rest[k] == ' ' && 0 < k < |rest| - 1 && !IsSpace(rest[k + 1])
          {
            assert rest[k] == t[n + 1 + k];
            assert !IsSpace(t[n + 1]);
          }
        }
        SingleSpacedFixed(rest);
        assert t[n..][1..] == rest;
        assert Words(t[n..]) == Words(rest);
        assert Words(t) == [t[..n]] + Words(rest);
        assert t == t[..n] + " " + rest;
      }
    }
  }

  /** `lit` occurs in `s` starting at position `j`. */
  predicate OccursAt(s: string, lit: string, j: nat)
  {
    j + |lit| <= |s| && s[j..j + |lit|] == lit
  }

  /** Position of the first occurrence of `lit` in `s` (Python's `s.find(lit)`), if any. */
  function IndexOf(s: string, lit: string): (r: Option<nat>)
    ensures r.Some? ==> OccursAt(s, lit, r.value)
    ensures r.Some? ==> forall j: nat :: j < r.value ==> !OccursAt(s, lit, j)
    ensures r.None? ==> forall j: nat :: !OccursAt(s, lit, j)
    decreases |s|
  {
    if |lit| > |s| then None
    else if s[..|lit|] == lit then Some(0)
    else
      match IndexOf(s[1..], lit)
      case None =>
        assert forall j: nat :: 1 <= j ==> OccursAt(s, lit, j) == OccursAt(s[1..], lit, j - 1);
        None
      case Some(k) =>
        assert forall j: nat :: 1 <= j ==> OccursAt(s, lit, j) == OccursAt(s[1..], lit, j - 1);
        Some(k + 1)
  }

  /** `needle in hay` for strings, stated as the existence of an occurrence. */
  ghost predicate IsSubstring(needle: string, hay: string)
  {
    exists j: nat :: OccursAt(hay, needle, j)
  }

  lemma {:induction false} IndexOfFinds(s: string, lit: string)
    ensures IndexOf(s, lit).Some? <==> IsSubstring(lit, s)
  {
    if IndexOf(s, lit).Some? {
      assert OccursAt(s, lit, IndexOf(s, lit).value);
    }
  }

  /** `s.replace(".dialog", "")`: every occurrence, scanned left to right, removed. */
  function RemoveDialogExt(s: string): string
    decreases |s|
  {
    if |s| >= 7 && s[..7] == ".dialog" then RemoveDialogExt(s[7..])
    else if s == [] then []
    else [s[0]] + RemoveDialogExt(s[1..])
  }

  /** `.dialog` occurs nowhere in `s`. */
  ghost predicate NoExt(s: string)
  {
    forall j: nat :: !OccursAt(s, ".dialog", j)
  }

  /** Occurrences in `s[1..]` are the occurrences in `s` after its first character. */
  lemma OccursAtShift(s: string, lit: string, j: nat)
    requires s != []
    ensures OccursAt(s[1..], lit, j) == OccursAt(s, lit, j + 1)
  {
    if j + 1 + |lit| <= |s| {
      assert s[1..][j..j + |lit|] == s[j + 1..j + 1 + |lit|];
    }
  }

  /** Without the extension in it, the rest of a text after its first character has none either. */
  lemma NoExtTail(s: string)
    requires s != [] && NoExt(s)
    ensures NoExt(s[1..])
  {
    forall j: nat ensures !OccursAt(s[1..], ".dialog", j) {
      OccursAtShift(s, ".dialog", j);
    }
  }

  /** Text in which `.dialog` does not occur is left as it is. */
  lemma {:induction false} RemoveDialogExtNoExt(s: string)
    ensures NoExt(s) ==> RemoveDialogExt(s) == s
    decreases |s|
  {
    if s != [] && NoExt(s) {
      assert !OccursAt(s, ".dialog", 0);
      NoExtTail(s);
      RemoveDialogExtNoExt(s[1..]);
      assert s == [s[0]] + s[1..];
    }
  }

  /** A name in which `.dialog` does not occur loses exactly its `.dialog` extension. */
  lemma {:induction false} RemoveDialogExtOfName(name: string)
    requires NoExt(name)
    ensures RemoveDialogExt(name + ".dialog") == name
    decreases |name|
  {
    var s := name + ".dialog";
    if name == [] {
      assert s == ".dialog";
      assert s[7..] == [];
    } else {
      assert !OccursAt(s, ".dialog", 0) by {
        if |name| >= 7 {
          assert s[..7] == name[..7];
          assert !OccursAt(name, ".dialog", 0);
        } else {
          assert s[|name|] == '.';
        }
      }
      assert s[1..] == name[1..] + ".dialog";
      NoExtTail(name);
      RemoveDialogExtOfName(name[1..]);
      assert name == [name[0]] + name[1..];
    }
  }
}

/**
 * `dialog_from_sentence`: which dialog file of a skill a sentence was spoken
 * from. Every file's templates are tried against the lower-cased sentence; the
 * file whose first matching template is longest wins, and on equal lengths the
 * file seen first keeps its place.
 */
module Selection {
  import opened Wrappers
  import opened Text
  import opened Matcher
  import opened Dialogs

  /** A dialog file as the directory listing yields it: its path and its lines. */
  datatype DialogFile = DialogFile(path: string, lines: seq<string>)

  /**
   * The score of a dialog file: the length of its first template that matches
   * the lower-cased sentence, or `None` when no template does.
   */
  function MatchedLength(lines: seq<string>, sentence: string): (r: Option<nat>)
    ensures r.Some? ==> r.value >= 1
  {
    var templates := LoadDialogFile(lines);
    match FirstMatch(templates, Lower(sentence))
    case NoMatch => None
    case MatchAt(i) => Some(|templates[i]|)
  }

  /** A file has no score exactly when none of its templates matches the lower-cased sentence. */
  lemma MatchedLengthNone(lines: seq<string>, sentence: string)
    ensures var templates := LoadDialogFile(lines);
      MatchedLength(lines, sentence).None? <==>
      forall k :: 0 <= k < |templates| ==> !TemplateMatches(templates[k], Lower(sentence))
  {
    MatchedLengthIsFirstMatch(lines, sentence);
    FirstMatchIsFirst(LoadDialogFile(lines), Lower(sentence));
  }

  lemma MatchedLengthIsFirstMatch(lines: seq<string>, sentence: string)
    ensures MatchedLength(lines, sentence).None? <==> FirstMatch(LoadDialogFile(lines), Lower(sentence)).NoMatch?
  {
  }

  /** A file's score is the length of its first template that matches the lower-cased sentence. */
  lemma MatchedLengthFirst(lines: seq<string>, sentence: string)
    ensures var templates, m := LoadDialogFile(lines), FirstMatch(LoadDialogFile(lines), Lower(sentence));
      MatchedLength(lines, sentence).Some? ==>
      m.MatchAt? && m.index < |templates| && MatchedLength(lines, sentence).value == |templates[m.index]| &&
      IsFirstMatch(templates, Lower(sentence), m.index)
  {
    FirstMatchIsFirst(LoadDialogFile(lines), Lower(sentence));
  }

  /** The score of every file, in listing order. */
  function Scores(files: seq<DialogFile>, sentence: string): (r: seq<Option<nat>>)
    ensures |r| == |files|
  {
    seq(|files|, k requires 0 <= k < |files| => MatchedLength(files[k].lines, sentence))
  }

  /** A file that matches scores at least one, as every template is non-empty. */
  lemma ScoresPositive(files: seq<DialogFile>, sentence: string)
    ensures var scores := Scores(files, sentence);
      forall k :: 0 <= k < |scores| && scores[k].Some? ==> scores[k].value >= 1
  {
  }

  /** Some template of the file matches the lower-cased sentence. */
  ghost predicate FileMatches(file: DialogFile, sentence: string)
  {
    var templates := LoadDialogFile(file.lines);
    exists k :: 0 <= k < |templates| && TemplateMatches(templates[k], Lower(sentence))
  }

  /** A file has a score exactly when one of its templates matches. */
  lemma ScoresMeanMatches(files: seq<DialogFile>, sentence: string)
    ensures var scores := Scores(files, sentence);
      forall j :: 0 <= j < |files| ==> (scores[j].Some? <==> FileMatches(files[j], sentence))
  {
    forall j | 0 <= j < |files|
      ensures Scores(files, sentence)[j].Some? <==> FileMatches(files[j], sentence)
    {
      assert Scores(files, sentence)[j] == MatchedLength(files[j].lines, sentence);
      MatchedLengthNone(files[j].lines, sentence);
    }
  }

  /** The file in the lead and the length of its matching template (the source's `best` pair). */
  datatype Leader = Leader(index: Option<nat>, length: nat)

  /** A file replaces the leader only with a strictly longer matching template. */
  function Challenge(leader: Leader, k: nat, score: Option<nat>): Leader
  {
    match score
    case Some(len) => if len > leader.length then Leader(Some(k), len) else leader
    case None => leader
  }

  /** The leader after the first `n` scores have been considered. */
  function LeaderAfter(scores: seq<Option<nat>>, n: nat): Leader
    requires n <= |scores|
  {
    if n == 0 then Leader(None, 0)
    else Challenge(LeaderAfter(scores, n - 1), n - 1, scores[n - 1])
  }

  /** One more score considered: a strictly longer match takes the lead. */
  lemma LeaderAfterNext(scores: seq<Option<nat>>, k: nat, leader: Leader, score: Option<nat>)
    requires k < |scores| && leader == LeaderAfter(scores, k) && score == scores[k]
    ensures LeaderAfter(scores, k + 1) ==
      if score.Some? && score.value > leader.length then Leader(Some(k), score.value) else leader
  {
  }

  /** The index of the file `dialog_from_sentence` chooses, if any. */
  function Selected(files: seq<DialogFile>, sentence: string): Option<nat>
  {
    LeaderAfter(Scores(files, sentence), |files|).index
  }

  /** What `dialog_from_sentence` answers: the file name of the chosen file, if any. */
  function SelectedDialog(files: seq<DialogFile>, sentence: string): Option<string>
  {
    match Selected(files, sentence)
    case None => None
    case Some(i) => if i < |files| then Some(Basename(files[i].path)) else None
  }

  /**
   * Among the first `n` scores, `i` holds the largest, `len`, and every earlier
   * score is smaller.
   */
  ghost predicate IsBest(scores: seq<Option<nat>>, n: nat, i: nat, len: nat)
    requires n <= |scores|
  {
    i < n && scores[i] == Some(len) &&
    (forall j :: 0 <= j < n && scores[j].Some? ==> scores[j].value <= len) &&
    (forall j :: 0 <= j < i && scores[j].Some? ==> scores[j].value < len)
  }

  /**
   * The leader is nobody exactly when nothing scored; otherwise it holds the
   * largest score, and is the first to hold it. Scores are positive, as every
   * template is non-empty.
   */
  lemma {:induction false} LeaderIsBest(scores: seq<Option<nat>>, n: nat)
    requires n <= |scores|
    requires forall j :: 0 <= j < |scores| && scores[j].Some? ==> scores[j].value >= 1
    ensures var l := LeaderAfter(scores, n);
      (l.index.None? <==> forall j :: 0 <= j < n ==> scores[j].None?) &&
      (l.index.None? ==> l.length == 0) &&
      (l.index.Some? ==> IsBest(scores, n, l.index.value, l.length))
  {
    if n > 0 {
      LeaderIsBest(scores, n - 1);
      var prev := LeaderAfter(scores, n - 1);
      var m := scores[n - 1];
      if m.Some? && m.value > prev.length {
        assert LeaderAfter(scores, n) == Leader(Some(n - 1), m.value);
      } else {
        assert LeaderAfter(scores, n) == prev;
        if prev.index.None? {
          assert m.None?;
        }
      }
    }
  }

  /**
   * A file is chosen exactly when some file's templates match the sentence, and
   * then its first matching template is at least as long as every other file's
   * first matching template; on ties the earliest file wins.
   */
  lemma {:induction false} SelectedIsBest(files: seq<DialogFile>, sentence: string)
    ensures Selected(files, sentence).None? <==> forall j :: 0 <= j < |files| ==> !FileMatches(files[j], sentence)
    ensures Selected(files, sentence).Some? ==>
      Selected(files, sentence).value < |files| && FileMatches(files[Selected(files, sentence).value], sentence)
    ensures var scores := Scores(files, sentence);
      (Selected(files, sentence).None? <==> forall j :: 0 <= j < |files| ==> scores[j].None?) &&
      (Selected(files, sentence).Some? ==>
        var i := Selected(files, sentence).value;
        i < |files| && scores[i].Some? && IsBest(scores, |files|, i, scores[i].value))
  {
    ScoresPositive(files, sentence);
    ScoresMeanMatches(files, sentence);
    LeaderIsBest(Scores(files, sentence), |files|);
  }

  /** One pass of the loop in `dialog_from_sentence`: load a file and try its templates. */
  method ScoreFile(file: DialogFile, sentence: string) returns (score: Option<nat>)
    ensures score == MatchedLength(file.lines, sentence)
  {
    var patterns := LoadDialogFile(file.lines);
    var found, _, _ := MatchDialogPatterns(patterns, Lower(sentence));
    score := if found.MatchAt? then Some(|patterns[found.index]|) else None;
  }

  /**
   * `dialog_from_sentence` over the dialog files of a skill, in listing order:
   * the name of the file chosen, or `None` when no template of any file matches.
   */
  method DialogFromSentence(files: seq<DialogFile>, sentence: string) returns (r: Option<string>)
    ensures r == SelectedDialog(files, sentence)
  {
    ghost var scores := Scores(files, sentence);
    var best: Option<string> := None;
    var bestLength: nat := 0;
    ghost var leader := Leader(None, 0);
    var k := 0;
    while k < |files|
      invariant k <= |files|
      invariant leader == LeaderAfter(scores, k)
      invariant bestLength == leader.length
      invariant best == if leader.index.Some? && leader.index.value < |files| then Some(files[leader.index.value].path) else None
    {
      var score := ScoreFile(files[k], sentence);
      assert score == scores[k];
      LeaderAfterNext(scores, k, leader, score);
      if score.Some? && score.value > bestLength {
        best := Some(files[k].path);
        bestLength := score.value;
        leader := Leader(Some(k), score.value);
      }
      k := k + 1;
    }
    assert leader == LeaderAfter(Scores(files, sentence), |files|);
    r := if best.Some? then Some(Basename(best.value)) else None;
  }
}

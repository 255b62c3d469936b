# Voight Kampff reply steps, modelled in Dafny

Voight Kampff is Mycroft's integration-test runner. Test scenarios are written in
Gherkin. The step definitions in
`test/integrationtests/voight_kampff/features/steps/utterance_responses.py` decide
whether a skill answered correctly. This project models that file's core:

- **Dialog files** (`dialogs.dfy`). A dialog file holds one template per line.
  Loading keeps the lines that are neither blank nor `#` comments, each stripped
  and lower-cased. `find_dialog` builds the path of a dialog file below
  `dialog/en-us` or `locale/en-us`.
- **Template compilation** (`compile.dfy`). `_match_dialog_patterns` turns every
  template into a regular expression with five rewrites:
  1. `{slot}` becomes `.*`;
  2. stray `}` are dropped;
  3. on each line, everything from the first space to the last space becomes a
     single ` .*`, so the words in between are dropped;
  4. runs of `.* .*` are merged;
  5. blanks are collapsed and a `^` anchor is added.

  Each rewrite is written as the left-to-right scan Python's `re.sub` performs.
- **Matching** (`matcher.dfy`). A compiled expression is a literal anchored at
  the start of the sentence, followed by literals that each come after a `.*`
  gap. The model decides it by taking the earliest occurrence of each literal.
  Python's `.*` is greedy and backtracks, so `re.match` may pick a different
  split, but the two decide the same outcome. A declarative reading (some split
  of the sentence exists) is proved equivalent to the search. The loop returns the first template that matches,
  together with its debug trace.
- **Filled templates** (`templates.dfy`). Take a template line made of words
  separated by single spaces, where each word holds literal characters and
  closed `{slot}`s. Fill every slot with text that has no line break. The
  resulting sentence matches the template's compiled expression, whatever text
  follows it. The proof follows the sentence through the five rewrites.
- **Choosing a dialog file** (`selection.dfy`). `dialog_from_sentence` tries
  every dialog file of a skill against an example sentence. A file's score is
  the length of its first matching template, not of its longest one. The file
  with the highest score wins. On a tie, the file listed first keeps its place.
- **Waiting for a reply** (`polling.dfy`). `then_wait` polls the message bus
  `TIMEOUT` (10) times. It stops at the first `speak` message that passes the
  step's check and records that message in the test context. The checks are:
  - the reply came from a given dialog;
  - the reply equals a text, ignoring case;
  - the reply contains a text, ignoring case;
  - any reply at all.

The bus is replaced by what it answers: `polls(n)` is the list of `speak`
messages returned by the n-th poll. The file system is replaced by its contents:
- a dialog file is its list of lines;
- a skill's dialog directory is the list of its `.dialog` files, in listing order;
- whether a `dialog` directory exists is a boolean parameter.

## Model

| member | source | states |
|---|---|---|
| Text.LowerChar | test/integrationtests/voight_kampff/features/steps/utterance_responses.py:48 | Lower-casing one character: the result is never an upper-case ASCII letter. Upper-case letters move by 32, every other character is kept, and blanks stay blanks. |
| Text.Lower | test/integrationtests/voight_kampff/features/steps/utterance_responses.py:48 | `str.lower()`: same length, each character lower-cased in place. |
| Text.LowerIsLowered | test/integrationtests/voight_kampff/features/steps/utterance_responses.py:48 | Lower-cased text holds no upper-case letter, and lower-casing it again changes nothing. |
| Text.LeadingSpaces | test/integrationtests/voight_kampff/features/steps/utterance_responses.py:48 | Counts exactly the blanks the text starts with. |
| Text.TrailingSpaces | test/integrationtests/voight_kampff/features/steps/utterance_responses.py:48 | Counts exactly the blanks the text ends with. |
| Text.Strip | test/integrationtests/voight_kampff/features/steps/utterance_responses.py:48-49 | `str.strip()`: the result neither starts nor ends with a blank. It is empty exactly when the line is all blanks. Otherwise it occurs in the line with only blanks before and after it. |
| Text.StripStripped | test/integrationtests/voight_kampff/features/steps/utterance_responses.py:48 | Stripping already-stripped text changes nothing. |
| Text.WordLength | test/integrationtests/voight_kampff/features/steps/utterance_responses.py:97 | The length of the maximal run of non-blanks the text starts with. |
| Text.Words | test/integrationtests/voight_kampff/features/steps/utterance_responses.py:97 | `str.split()`: every word is non-empty and free of blanks. `WordsOfWord` and `WordsSplit` pin the rest: the words are the maximal runs of non-blanks, in order. |
| Text.WordsOfWord | test/integrationtests/voight_kampff/features/steps/utterance_responses.py:97 | A single word splits into itself. |
| Text.WordsSplit | test/integrationtests/voight_kampff/features/steps/utterance_responses.py:97 | A blank cuts the text in two: the words are those before it followed by those after it. |
| Text.WordsOfJoin | test/integrationtests/voight_kampff/features/steps/utterance_responses.py:97 | Splitting words joined by `JoinWords` (`' '.join`) gives the words back. |
| Text.JoinWordsSingleSpaced | test/integrationtests/voight_kampff/features/steps/utterance_responses.py:97 | `' '.join` of words (`JoinWords`) is single-spaced: only single ' ' characters, and none at either end. |
| Text.SingleSpacedFixed | test/integrationtests/voight_kampff/features/steps/utterance_responses.py:97 | Splitting and re-joining single-spaced text gives it back unchanged. |
| Text.IndexOf | test/integrationtests/voight_kampff/features/steps/utterance_responses.py:204 | The first position where the text occurs, or `None` exactly when it occurs nowhere. |
| Text.IndexOfFinds | test/integrationtests/voight_kampff/features/steps/utterance_responses.py:204 | The search succeeds iff the needle is a substring (`in`). |
| Text.RemoveDialogExtNoExt | test/integrationtests/voight_kampff/features/steps/utterance_responses.py:152 | `replace('.dialog', '')` (`RemoveDialogExt`) leaves unchanged every text in which `.dialog` does not occur (`NoExt`), dotted names included. |
| Text.RemoveDialogExtOfName | test/integrationtests/voight_kampff/features/steps/utterance_responses.py:152 | `replace('.dialog', '')` turns `name.dialog` back into `name` for every name in which `.dialog` does not occur, such as `time.current`. |
| Dialogs.LoadDialogFile | test/integrationtests/voight_kampff/features/steps/utterance_responses.py:44-49 | `load_dialog_file`: no more templates than lines. Every template is non-empty, stripped, lower-cased and does not start with `#` (`AllTemplates`). |
| Dialogs.TemplateOfLine | test/integrationtests/voight_kampff/features/steps/utterance_responses.py:48-49 | A line that is neither blank nor a comment, stripped and lower-cased, is such a template. |
| Dialogs.LoadDialogFileLine | test/integrationtests/voight_kampff/features/steps/utterance_responses.py:48-49 | A single line is kept, stripped and lower-cased, exactly when it is neither blank nor a comment (`IsTemplateLine`, the filter of the comprehension). Otherwise it is dropped. |
| Dialogs.LoadDialogFileAppend | test/integrationtests/voight_kampff/features/steps/utterance_responses.py:48-49 | Loading works line by line: loading two pieces of a file gives their templates one after the other. |
| Dialogs.LoadDialogFileIdempotent | test/integrationtests/voight_kampff/features/steps/utterance_responses.py:48-49 | Loading the loaded templates again returns them unchanged. |
| Dialogs.PathJoin | test/integrationtests/voight_kampff/features/steps/utterance_responses.py:39-41 | `os.path.join`: an absolute second part is returned as is. Otherwise, when the first part is empty or ends in '/', the result is the two parts one after the other. In the remaining case exactly one '/' comes between them. |
| Dialogs.Basename | test/integrationtests/voight_kampff/features/steps/utterance_responses.py:79 | `os.path.basename`: a '/'-free suffix of the path, preceded by '/' unless it is the whole path. |
| Dialogs.BasenameSuffix | test/integrationtests/voight_kampff/features/steps/utterance_responses.py:79 | The basename is the one '/'-free suffix that follows a '/' or the start of the path. |
| Dialogs.BasenameOfJoin | test/integrationtests/voight_kampff/features/steps/utterance_responses.py:70-79 | A '/'-free name joined onto any directory has that name as its basename. |
| Dialogs.JoinBelow | test/integrationtests/voight_kampff/features/steps/utterance_responses.py:39-41 | Joining onto a directory that does not end in '/' adds exactly one '/'. |
| Dialogs.FindDialogPath | test/integrationtests/voight_kampff/features/steps/utterance_responses.py:33-41 | `find_dialog` (`FindDialog`): `<skill>/dialog/en-us/<dialog>` when the `dialog` directory exists, `<skill>/locale/en-us/<dialog>` otherwise. |
| Dialogs.FindDialogBasename | test/integrationtests/voight_kampff/features/steps/utterance_responses.py:33-41 | The file `find_dialog` points at is named by the dialog asked for. |
| Compilation.SlotEnd | test/integrationtests/voight_kampff/features/steps/utterance_responses.py:90 | The lazy `.*?\}` of pass 1 ends at the first '}' when no line break comes before it (`ClosesAt`). It finds no end exactly when every '}' comes after a line break (`Unclosed`). |
| Compilation.ReplaceSlotsChars | test/integrationtests/voight_kampff/features/steps/utterance_responses.py:90 | Pass 1 adds no character except '.' and '*'. |
| Compilation.ReplaceSlotsPrefix | test/integrationtests/voight_kampff/features/steps/utterance_responses.py:90 | Pass 1 copies everything before the first '{' unchanged. |
| Compilation.SlotReplaced | test/integrationtests/voight_kampff/features/steps/utterance_responses.py:90 | Pass 1 (`ReplaceSlots`) replaces the leftmost slot `{b}` with `.*` and resumes after its '}'. |
| Compilation.NoSlotUnchanged | test/integrationtests/voight_kampff/features/steps/utterance_responses.py:90 | Pass 1 leaves a template without '{' unchanged. |
| Compilation.RemoveClosers | test/integrationtests/voight_kampff/features/steps/utterance_responses.py:92 | Pass 2 leaves no '}'. Every other character is present after iff it was present before. Text without '}' is unchanged. |
| Compilation.RemoveClosersAppend | test/integrationtests/voight_kampff/features/steps/utterance_responses.py:92 | Pass 2 acts on each piece of a text independently. |
| Compilation.LineLength | test/integrationtests/voight_kampff/features/steps/utterance_responses.py:93 | The length of the first line: no line break before it, and a line break (or the end) at it. |
| Compilation.LastSpace | test/integrationtests/voight_kampff/features/steps/utterance_responses.py:93 | The last ' ' of a text, or `None` exactly when the text has no ' '. |
| Compilation.GapEnd | test/integrationtests/voight_kampff/features/steps/utterance_responses.py:93 | The greedy ` .* ` of pass 3 ends at a space with no line break before it. |
| Compilation.WidenGapsChars | test/integrationtests/voight_kampff/features/steps/utterance_responses.py:93 | Pass 3 adds no character except '.' and '*'. |
| Compilation.WidenGapsPrefix | test/integrationtests/voight_kampff/features/steps/utterance_responses.py:93 | Pass 3 copies everything before the first space unchanged. |
| Compilation.WidenGapsNoSpace | test/integrationtests/voight_kampff/features/steps/utterance_responses.py:93 | Pass 3 leaves text without spaces unchanged. |
| Compilation.WidenGapsOneSpace | test/integrationtests/voight_kampff/features/steps/utterance_responses.py:93 | Pass 3 leaves a template with exactly one space unchanged. |
| Compilation.WidenGapsSpan | test/integrationtests/voight_kampff/features/steps/utterance_responses.py:93 | With two or more spaces on a line, pass 3 (`WidenGaps`) replaces everything from the first space to the last with ` .*`. The middle words are lost. |
| Compilation.WidenGapsGap | test/integrationtests/voight_kampff/features/steps/utterance_responses.py:93 | From a space to the last space on its line, pass 3 leaves ` .*`. |
| Compilation.GapEndSpan | test/integrationtests/voight_kampff/features/steps/utterance_responses.py:93 | The gap opened before `m c` (m on one line, c without spaces) ends at the space before `c`. |
| Compilation.DropWildcardRun | test/integrationtests/voight_kampff/features/steps/utterance_responses.py:95 | The greedy `( \.\*)+` of pass 4 removes `WildcardRunLength` copies' worth of characters from the front, keeps the rest as it is, and leaves no ` .*` at the front. |
| Compilation.DropWildcardRunSplits | test/integrationtests/voight_kampff/features/steps/utterance_responses.py:95 | What the run removes is exactly whole copies of ` .*` (`SpacedWildcards`), as many as start the text. |
| Compilation.MergeWildcardsChars | test/integrationtests/voight_kampff/features/steps/utterance_responses.py:95 | Pass 4 only removes characters. |
| Compilation.MergeWildcardsNoDot | test/integrationtests/voight_kampff/features/steps/utterance_responses.py:95 | Pass 4 leaves text without '.' unchanged. |
| Compilation.MergeWildcardsPair | test/integrationtests/voight_kampff/features/steps/utterance_responses.py:95 | Pass 4 (`MergeWildcards`) collapses `.* .*` into `.*` and resumes after the run. |
| Compilation.MergeWildcardsStep | test/integrationtests/voight_kampff/features/steps/utterance_responses.py:95 | Pass 4 copies a character other than '.'. |
| Compilation.MergeWildcardsPrefix | test/integrationtests/voight_kampff/features/steps/utterance_responses.py:95 | Pass 4 copies a '.'-free prefix unchanged. |
| Compilation.WordsChars | test/integrationtests/voight_kampff/features/steps/utterance_responses.py:97 | Every character of every word comes from the text that was split. |
| Compilation.JoinWordsChars | test/integrationtests/voight_kampff/features/steps/utterance_responses.py:97 | Joining words adds only ' '. |
| Compilation.Normalize | test/integrationtests/voight_kampff/features/steps/utterance_responses.py:97 | Pass 5 output starts with `^`. The rest is single-spaced, its characters come from the input or are ' ', and it holds the input's words in order. |
| Compilation.Compile | test/integrationtests/voight_kampff/features/steps/utterance_responses.py:90-97 | A compiled template starts with `^`. It holds no '}' and no line break, and is single-spaced after the anchor. |
| Compilation.SlotEndExtend | test/integrationtests/voight_kampff/features/steps/utterance_responses.py:90 | Appending text without '}' does not move the end of a slot. |
| Compilation.ReplaceSlotsSuffix | test/integrationtests/voight_kampff/features/steps/utterance_responses.py:90 | Pass 1 copies brace-free text after the last slot unchanged. |
| Compilation.LiteralWordFacts | test/integrationtests/voight_kampff/features/steps/utterance_responses.py:90-97 | A literal word contains no brace, dot, blank or line break. |
| Compilation.CompilePlain | test/integrationtests/voight_kampff/features/steps/utterance_responses.py:90-97 | A template of one or two literal words compiles to itself behind `^`. |
| Compilation.SpannedSlots | test/integrationtests/voight_kampff/features/steps/utterance_responses.py:90 | Pass 1 on `first middle last` (ends without '{', `last` without '}') rewrites only the middle. |
| Compilation.SpannedClosers | test/integrationtests/voight_kampff/features/steps/utterance_responses.py:92 | Pass 2 on `first middle last` (ends without '}') rewrites only the middle. |
| Compilation.SpannedMerge | test/integrationtests/voight_kampff/features/steps/utterance_responses.py:95 | Pass 4 leaves `first .*last` as it is. |
| Compilation.SpannedNormalize | test/integrationtests/voight_kampff/features/steps/utterance_responses.py:97 | Pass 5 turns `first .*last` into `^first .*last`. |
| Compilation.CompileSpanned | test/integrationtests/voight_kampff/features/steps/utterance_responses.py:90-97 | A template `first middle last` with literal end words compiles to `^first .*last`, whatever the middle holds. |
| Compilation.CompileSlotted | test/integrationtests/voight_kampff/features/steps/utterance_responses.py:90-97 | A template `first {slot}` (one literal word and a slot on the same line) compiles to `^first .*`. |
| Matcher.Segments | test/integrationtests/voight_kampff/features/steps/utterance_responses.py:100 | An expression body splits into at least one piece at its `.*` wildcards. The first piece is the body's prefix up to the first wildcard. |
| Matcher.SegmentsHaveNoWildcard | test/integrationtests/voight_kampff/features/steps/utterance_responses.py:100 | No piece contains `.*`. |
| Matcher.SegmentsWildcardWord | test/integrationtests/voight_kampff/features/steps/utterance_responses.py:100 | `.*` followed by a dot-free word splits into an empty piece and the word. |
| Matcher.SegmentsChars | test/integrationtests/voight_kampff/features/steps/utterance_responses.py:100 | Each piece's characters come from the expression. |
| Matcher.JoinSegmentsCons | test/integrationtests/voight_kampff/features/steps/utterance_responses.py:100 | Joining pieces distributes over the first piece. |
| Matcher.SegmentsRoundTrip | test/integrationtests/voight_kampff/features/steps/utterance_responses.py:100 | Splitting an expression at its wildcards and joining the pieces with `.*` gives it back. |
| Matcher.SegmentsNoDot | test/integrationtests/voight_kampff/features/steps/utterance_responses.py:100 | A '.'-free prefix stays in the first piece. |
| Matcher.ParseLineFree | test/integrationtests/voight_kampff/features/steps/utterance_responses.py:100 | An expression without line breaks reads as literals without line breaks. |
| Matcher.PatternOf | test/integrationtests/voight_kampff/features/steps/utterance_responses.py:90-100 | The literals that `ParseExpression` reads off every compiled template are free of line breaks. |
| Matcher.WidenFront | test/integrationtests/voight_kampff/features/steps/utterance_responses.py:100 | A longer gap in front, still without line breaks, keeps a match. |
| Matcher.EarliestRestSound | test/integrationtests/voight_kampff/features/steps/utterance_responses.py:100 | Every success of the earliest-occurrence search (`EarliestRest`) is a real split of the sentence. |
| Matcher.LineFreeEach | test/integrationtests/voight_kampff/features/steps/utterance_responses.py:100 | Line-break-free literals, listed one by one. |
| Matcher.EarliestRestComplete | test/integrationtests/voight_kampff/features/steps/utterance_responses.py:100 | When some split exists, the earliest-occurrence search (`EarliestRest`) finds one. |
| Matcher.EarliestMatchIsMatches | test/integrationtests/voight_kampff/features/steps/utterance_responses.py:100 | The earliest-occurrence search (`EarliestMatch`) decides the same outcome as `re.match`: it succeeds iff the sentence splits into the pattern's literals and gaps (`Matches`). |
| Matcher.MatchesRestExtend | test/integrationtests/voight_kampff/features/steps/utterance_responses.py:100 | Appending text to a sentence keeps a split of its literals. |
| Matcher.MatchesExtend | test/integrationtests/voight_kampff/features/steps/utterance_responses.py:100 | `re.match` is anchored only at the start: a matching sentence still matches with anything appended. |
| Matcher.PlainTemplateMatches | test/integrationtests/voight_kampff/features/steps/utterance_responses.py:90-100 | A template of one or two literal words matches exactly the sentences that start with it. |
| Matcher.PlainPattern | test/integrationtests/voight_kampff/features/steps/utterance_responses.py:90-100 | One or two literal words read as a single literal with no gap after it. |
| Matcher.SpannedPattern | test/integrationtests/voight_kampff/features/steps/utterance_responses.py:90-100 | `first middle last` reads as the head `first ` and the single literal `last`. |
| Matcher.SpannedTemplateMatches | test/integrationtests/voight_kampff/features/steps/utterance_responses.py:90-100 | A template with two or more spaces matches iff the sentence starts with its first word and a space, and its last word follows on the same line. The middle words are ignored. |
| Matcher.SlottedPattern | test/integrationtests/voight_kampff/features/steps/utterance_responses.py:90-100 | `first {slot}` reads as the head `first ` followed by one gap. |
| Matcher.SlottedTemplateMatches | test/integrationtests/voight_kampff/features/steps/utterance_responses.py:90-100 | `first {slot}` matches exactly the sentences that start with `first ` and a space, whatever follows. |
| Matcher.FirstTrue | test/integrationtests/voight_kampff/features/steps/utterance_responses.py:99-106 | The first `true` outcome: it is true, every earlier outcome is false, and `NoMatch` exactly when all outcomes are false. |
| Matcher.FirstTrueAt | test/integrationtests/voight_kampff/features/steps/utterance_responses.py:103-104 | A true outcome with only false ones before it is where the loop returns. |
| Matcher.Outcomes | test/integrationtests/voight_kampff/features/steps/utterance_responses.py:99-100 | One outcome per template. |
| Matcher.OutcomesAreMatches | test/integrationtests/voight_kampff/features/steps/utterance_responses.py:90-100 | Each outcome, `re.match(expression, sentence) is not None` (`ExpressionMatches` on the compiled template), tells whether the template matches the sentence in the declarative sense. |
| Matcher.FirstMatchIsFirst | test/integrationtests/voight_kampff/features/steps/utterance_responses.py:84-106 | `FirstMatch` returns the smallest index whose template matches. `False` comes back exactly when no template matches. |
| Matcher.TraceAppend | test/integrationtests/voight_kampff/features/steps/utterance_responses.py:101-102 | Each attempt adds its separator line and its result line (`AttemptText`) at the end of the trace (`Header` then `Report`). |
| Matcher.ExpressionOutcomes | test/integrationtests/voight_kampff/features/steps/utterance_responses.py:99-100 | One outcome per expression. |
| Matcher.TryInOrder | test/integrationtests/voight_kampff/features/steps/utterance_responses.py:98-106 | The loop returns the first matching index. The trace holds the `MATCHING:` header and one attempt per expression tried: `index + 1` on a match, all of them otherwise. |
| Matcher.MatchDialogPatterns | test/integrationtests/voight_kampff/features/steps/utterance_responses.py:84-106 | `_match_dialog_patterns`: the result is the first template that matches, and the trace names each compiled expression tried with its outcome. |
| Templates.FilledTemplateMatches | test/integrationtests/voight_kampff/features/steps/utterance_responses.py:90-100 | A template line of single-spaced words made of literal characters and closed slots (`IsSlotTemplate`) matches every sentence that starts with the template with its slots filled (`Fill`) by text without line breaks, whatever follows. |
| Templates.SlotsFit | test/integrationtests/voight_kampff/features/steps/utterance_responses.py:90 | Pass 1 turns such a template into single-spaced words of literals and `.*` wildcards. The filled template fits that text exactly (`Fits`: each `.*` stands for text without line breaks), and the filled template has no line break. |
| Templates.WidenGapsFit | test/integrationtests/voight_kampff/features/steps/utterance_responses.py:93 | Pass 3 keeps every exact fit of a sentence without line breaks: dropping the middle words behind one ` .*` loses no sentence. |
| Templates.WidenGapsShape | test/integrationtests/voight_kampff/features/steps/utterance_responses.py:93 | Pass 3 keeps the text single-spaced words of literals and wildcards. |
| Templates.DropWildcardRunFit | test/integrationtests/voight_kampff/features/steps/utterance_responses.py:95 | Removing the ` .*` copies that follow a wildcard keeps every exact fit of a sentence without line breaks. |
| Templates.MergeWildcardsFit | test/integrationtests/voight_kampff/features/steps/utterance_responses.py:95 | Pass 4 keeps every exact fit of a sentence without line breaks. |
| Templates.MergeWildcardsShape | test/integrationtests/voight_kampff/features/steps/utterance_responses.py:95 | Pass 4 keeps the text single-spaced words of literals and wildcards. |
| Templates.NormalizeShaped | test/integrationtests/voight_kampff/features/steps/utterance_responses.py:97 | On single-spaced words, pass 5 changes nothing but adding the `^` anchor. |
| Templates.FitsSplit | test/integrationtests/voight_kampff/features/steps/utterance_responses.py:100 | An exact fit of two joined texts splits into an exact fit of each part, unless the join would complete a `.*`. |
| Templates.FitsMatches | test/integrationtests/voight_kampff/features/steps/utterance_responses.py:100 | A sentence that fits an expression text exactly matches the pattern that text is read as. |
| Selection.MatchedLength | test/integrationtests/voight_kampff/features/steps/utterance_responses.py:73-77 | A file's score, when there is one, is at least 1. |
| Selection.MatchedLengthNone | test/integrationtests/voight_kampff/features/steps/utterance_responses.py:73-77 | A file has no score iff none of its templates matches the lower-cased sentence. |
| Selection.MatchedLengthFirst | test/integrationtests/voight_kampff/features/steps/utterance_responses.py:73-77 | Otherwise the score is the length of the first template that matches. |
| Selection.Scores | test/integrationtests/voight_kampff/features/steps/utterance_responses.py:72-77 | One score per dialog file. |
| Selection.ScoresPositive | test/integrationtests/voight_kampff/features/steps/utterance_responses.py:75-76 | Every score that exists is positive, so any matching file beats the initial `(None, 0)`. |
| Selection.ScoresMeanMatches | test/integrationtests/voight_kampff/features/steps/utterance_responses.py:73-77 | A file has a score iff some template of it matches the lower-cased sentence (`FileMatches`). |
| Selection.LeaderIsBest | test/integrationtests/voight_kampff/features/steps/utterance_responses.py:71-77 | After n files the leader (`LeaderAfter`, one `Challenge` per file) is none exactly when no file scored. Otherwise it holds the largest score and is the first file to hold it. |
| Selection.LeaderAfterNext | test/integrationtests/voight_kampff/features/steps/utterance_responses.py:75-77 | One more file takes the lead only with a score strictly above the leader's; otherwise the leader stays. |
| Selection.SelectedIsBest | test/integrationtests/voight_kampff/features/steps/utterance_responses.py:68-81 | A file is chosen iff some template of some file matches the lower-cased sentence, and the chosen file has such a template. Its first matching template (`Selected`) is at least as long as every other file's first matching template; on ties the earliest file wins. |
| Selection.ScoreFile | test/integrationtests/voight_kampff/features/steps/utterance_responses.py:73-77 | One loop pass: load the file, match it against the lower-cased sentence, and score the matching template's length. |
| Selection.DialogFromSentence | test/integrationtests/voight_kampff/features/steps/utterance_responses.py:68-81 | `dialog_from_sentence` returns `SelectedDialog`: the basename of the file `SelectedIsBest` characterises, or `None`. |
| Polling.Context.constructor | test/integrationtests/voight_kampff/features/steps/utterance_responses.py:132 | A fresh context has no matched message. |
| Polling.Verdicts | test/integrationtests/voight_kampff/features/steps/utterance_responses.py:129-131 | The check's verdict for each polled message, in order. |
| Polling.FirstPassing | test/integrationtests/voight_kampff/features/steps/utterance_responses.py:128-133 | The message a wait records: there is one iff some message passes the check. It is a polled message that passes, and no message before it passes. |
| Polling.FirstPassingAgree | test/integrationtests/voight_kampff/features/steps/utterance_responses.py:128-133 | Two checks that agree on every message record the same message. |
| Polling.PolledMembers | test/integrationtests/voight_kampff/features/steps/utterance_responses.py:127-128 | A message is seen (`Polled`) iff one of the first n polls returns it. |
| Polling.PolledAgree | test/integrationtests/voight_kampff/features/steps/utterance_responses.py:127 | Only the first TIMEOUT polls matter: buses that agree on them give the same wait. |
| Polling.WaitPasses | test/integrationtests/voight_kampff/features/steps/utterance_responses.py:124-137 | A wait succeeds iff one of the first TIMEOUT polls returns a message that passes the check. |
| Polling.StopsAt | test/integrationtests/voight_kampff/features/steps/utterance_responses.py:131-133 | The messages examined (`Examined`) end at the first one that passes. |
| Polling.ExaminesAll | test/integrationtests/voight_kampff/features/steps/utterance_responses.py:127-137 | When nothing passes, every polled message is examined. |
| Polling.DebugAppend | test/integrationtests/voight_kampff/features/steps/utterance_responses.py:130 | The debug text (`DebugOf`) of two batches of messages is the first batch's followed by the second's. |
| Polling.PollFails | test/integrationtests/voight_kampff/features/steps/utterance_responses.py:127-135 | A poll in which nothing passes extends what has been examined by the whole poll. |
| Polling.PassesAt | test/integrationtests/voight_kampff/features/steps/utterance_responses.py:128-133 | When the first pass comes at message j of a poll, the examined messages end there. |
| Polling.WaitStep | test/integrationtests/voight_kampff/features/steps/utterance_responses.py:127-135 | One failed poll keeps the loop invariant of the wait. |
| Polling.WaitStops | test/integrationtests/voight_kampff/features/steps/utterance_responses.py:131-133 | On a pass, the wait's result and debug text are final. |
| Polling.WaitTimesOut | test/integrationtests/voight_kampff/features/steps/utterance_responses.py:136-137 | After TIMEOUT failed polls, the debug text covers every message. |
| Polling.FirstPassAt | test/integrationtests/voight_kampff/features/steps/utterance_responses.py:131-133 | A passing message with none before it is the first pass. |
| Polling.NonePassSnoc | test/integrationtests/voight_kampff/features/steps/utterance_responses.py:128-131 | A failed message extends the run of failures. |
| Polling.ScanPoll | test/integrationtests/voight_kampff/features/steps/utterance_responses.py:128-133 | The inner `for` over one poll finds its first passing message, if any. The debug text gains the check texts up to that message, or of all messages. |
| Polling.ThenWait | test/integrationtests/voight_kampff/features/steps/utterance_responses.py:124-137 | `then_wait` passes iff a message of the first TIMEOUT polls passes the check. On a pass, that first passing message is stored in the context; otherwise the context is unchanged. The debug text is the check texts of every message examined, in order. |
| Polling.CheckDialog | test/integrationtests/voight_kampff/features/steps/utterance_responses.py:150-152 | `check_dialog` reports nothing. For every dialog name in which `.dialog` does not occur, dotted names included, it passes iff the reply's metadata names that dialog. |
| Polling.CheckDialogByName | test/integrationtests/voight_kampff/features/steps/utterance_responses.py:150-152 | A dialog named with or without `.dialog` accepts exactly the replies whose metadata names it, for every name in which `.dialog` does not otherwise occur. |
| Polling.CheckExact | test/integrationtests/voight_kampff/features/steps/utterance_responses.py:186-190 | `check_exact_match` passes iff the reply has the text's length and agrees with it letter by letter, ignoring case. |
| Polling.CheckContains | test/integrationtests/voight_kampff/features/steps/utterance_responses.py:201-205 | `check_contains` passes iff the lower-cased text is a substring of the lower-cased reply. |
| Polling.ExactContains | test/integrationtests/voight_kampff/features/steps/utterance_responses.py:186-205 | A reply that is exactly the text also contains it. |
| Polling.ChecksIgnoreCase | test/integrationtests/voight_kampff/features/steps/utterance_responses.py:186-205 | Neither check depends on the case of the expected text. |
| Polling.CheckAny | test/integrationtests/voight_kampff/features/steps/utterance_responses.py:173-176 | `check_any_messages` passes every message and reports nothing. |
| Polling.ThenDialog | test/integrationtests/voight_kampff/features/steps/utterance_responses.py:148-159 | `then_dialog` holds iff a reply of the first TIMEOUT polls came from the dialog. On a pass the first passing reply is stored in the context; otherwise the context is unchanged. |
| Polling.ThenExample | test/integrationtests/voight_kampff/features/steps/utterance_responses.py:162-168 | `then_example` holds iff a dialog file is chosen for the example and a reply came from it. On a pass the first passing reply is stored in the context; otherwise the context is unchanged. |
| Polling.ThenExactly | test/integrationtests/voight_kampff/features/steps/utterance_responses.py:184-196 | `then_exactly` holds iff a reply of the first TIMEOUT polls is the text, ignoring case. On a pass the first passing reply is stored in the context; otherwise the context is unchanged. |
| Polling.ThenContains | test/integrationtests/voight_kampff/features/steps/utterance_responses.py:199-212 | `then_contains` holds iff a reply of the first TIMEOUT polls contains the text, ignoring case. On a pass the first passing reply is stored in the context; otherwise the context is unchanged. |
| Polling.ThenAnything | test/integrationtests/voight_kampff/features/steps/utterance_responses.py:171-181 | `then_anything` as written always holds. What the wait itself found, `heard`, is true iff some poll returned a reply. When it is, the first reply is stored in the context; otherwise the context is unchanged. |
| Polling.NonEmptyPoll | test/integrationtests/voight_kampff/features/steps/utterance_responses.py:173-178 | With `check_any_messages`, a passing message exists iff some poll is non-empty. |
| Polling.SilenceNotHeard | test/integrationtests/voight_kampff/features/steps/utterance_responses.py:178-181 | When nothing is said, the wait finds nothing, yet the step as written holds. |
| Polling.ThenAnythingChecked | test/integrationtests/voight_kampff/features/steps/utterance_responses.py:171-181 | `then_anything` as intended holds iff some reply was spoken within TIMEOUT polls. On a pass the first passing reply is stored in the context; otherwise the context is unchanged. |

## Left out

- Regular-expression metacharacters in templates. The model reads a compiled expression as literal text and `.*` gaps. A template holding `.`, `?`, `(` or another metacharacter (for example `wait...`) would be matched by Python's regex engine with that meaning. Such templates are not captured; the lemmas about whole templates require literal words (`IsLiteralWord`) or literal characters (`IsLiteralChar`).
- Templates.FilledTemplateMatches: it covers template lines whose words are separated by single blanks, with every `{` closed. A line with doubled, leading or trailing blanks, or an unclosed `{`, is covered only by the fixed shapes of `Matcher.PlainTemplateMatches`, `Matcher.SpannedTemplateMatches` and `Matcher.SlottedTemplateMatches`. The lemma gives one direction only: a filled template matches. The converse does not hold, because pass 3 drops the middle words of a template.
- `str.lower()` is modelled for ASCII letters only. `str.isspace()` is modelled by its set of code points.
- File I/O. Opening and reading a dialog file, `glob` and `exists` are replaced by their results: a file's lines, the listed files in `glob` order, and a boolean. `readlines` line endings are treated as blanks that `strip()` removes.
- `load_dialog_list` (lines 52-65) is `find_dialog` followed by `load_dialog_file` plus an `Opening ...` debug line. Both halves are modelled; the combination is not.
- The message bus. `when_user_says` (emitting an utterance), `context.bus.get_messages` and the `msg_type` filter are replaced by the `polls` function, which returns the `speak` messages of each poll. `time.sleep(1)` between polls is not modelled.
- `context.msm.find_skill(skill).path` in `then_example` is replaced by the skill's dialog files given as data.
- A `speak` message without an `utterance` field raises `KeyError` in `check_exact_match` and `check_contains`. The model's messages always carry an utterance.
- `given_english`, `then_user_follow_up` and the rest of the file after line 212 are not part of this model.
- The printing: `print_mycroft_responses` and the `print` calls of the steps. The steps' debug text is computed by `ThenWait` but not printed.
- Polling.ThenWait: the `timeout` argument is accepted and ignored, as in the source: the loop always runs `TIMEOUT` polls. No caller passes a different value.
- Python's `assert` in the steps becomes the `passed` result of each step method.

## Findings

| source | as written | input that shows it | evidently intended | confidence | as-written member | corrected member |
|---|---|---|---|---|---|---|
| test/integrationtests/voight_kampff/features/steps/utterance_responses.py:178-181 | `passed = then_wait(...)` binds the `(status, debug)` pair, and `assert passed` tests the pair, which is always true | no `speak` message in any of the 10 polls: the wait returns `(False, '')`, yet the step passes | unpack the pair and assert the status, so the step fails when nothing was said | high, not executed | Polling.ThenAnything (with Polling.SilenceNotHeard) | Polling.ThenAnythingChecked |

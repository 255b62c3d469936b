/**
 * Dialog files and where they live: `load_dialog_file` (reading a file's
 * template lines) and `find_dialog` (the path of a dialog file), with the two
 * `os.path` helpers they rely on, `join` and `basename`, in their POSIX form.
 */
module Dialogs {
  import opened Text

  // ---------------------------------------------------------------------------
  // load_dialog_file
  // ---------------------------------------------------------------------------

  /** A line that holds a template: something other than blanks, and not a `#` comment. */
  predicate IsTemplateLine(line: string)
  {
    var t := Strip(line);
    t != [] && t[0] != '#'
  }

  /** What `load_dialog_file` returns for each line: stripped and lower-cased. */
  predicate IsTemplate(t: string)
  {
    t != [] && t[0] != '#' && IsStripped(t) && IsLowered(t)
  }

  /**
   * `load_dialog_file` on the lines of a file: the template lines, in order,
   * each stripped and lower-cased; blank lines and comments are dropped.
   */
  function LoadDialogFile(lines: seq<string>): (r: seq<string>)
    ensures |r| <= |lines|
    ensures AllTemplates(r)
    decreases |lines|
  {
    if lines == [] then []
    else
      var rest := LoadDialogFile(lines[1..]);
      if IsTemplateLine(lines[0]) then
        TemplateOfLine(lines[0]);
        TemplatesCons(Lower(Strip(lines[0])), rest);
        [Lower(Strip(lines[0]))] + rest
      else rest
  }

  /** A template line, stripped and lower-cased, is a template. */
  lemma TemplateOfLine(line: string)
    requires IsTemplateLine(line)
    ensures IsTemplate(Lower(Strip(line)))
  {
    LowerIsLowered(Strip(line));
    LowerKeepsStripped(Strip(line));
  }

  /** Each of the strings is a template. */
  predicate AllTemplates(ts: seq<string>)
  {
    forall k :: 0 <= k < |ts| ==> IsTemplate(ts[k])
  }

  lemma TemplatesCons(t: string, rest: seq<string>)
    requires IsTemplate(t) && AllTemplates(rest)
    ensures AllTemplates([t] + rest)
  {
  }

  /** One line on its own: kept (stripped and lower-cased) exactly when it is a template line. */
  lemma {:induction false} LoadDialogFileLine(line: string)
    ensures IsTemplateLine(line) ==> LoadDialogFile([line]) == [Lower(Strip(line))]
    ensures !IsTemplateLine(line) ==> LoadDialogFile([line]) == []
  {
    assert [line][1..] == [];
  }

  /** Loading works line by line: the templates of two pieces of a file, one after the other. */
  lemma {:induction false} LoadDialogFileAppend(a: seq<string>, b: seq<string>)
    ensures LoadDialogFile(a + b) == LoadDialogFile(a) + LoadDialogFile(b)
    decreases |a|
  {
    if a == [] {
      assert a + b == b;
    } else {
      assert (a + b)[0] == a[0] && (a + b)[1..] == a[1..] + b;
      LoadDialogFileAppend(a[1..], b);
    }
  }

  /** A template read back as a line is kept unchanged. */
  lemma TemplateLineKept(t: string)
    requires IsTemplate(t)
    ensures IsTemplateLine(t) && Lower(Strip(t)) == t
  {
    StripStripped(t);
    assert forall i :: 0 <= i < |t| ==> LowerChar(t[i]) == t[i];
  }

  /** Loading the loaded templates again changes nothing. */
  lemma {:induction false} LoadDialogFileIdempotent(lines: seq<string>)
    ensures LoadDialogFile(LoadDialogFile(lines)) == LoadDialogFile(lines)
    decreases |lines|
  {
    if lines != [] {
      var r := LoadDialogFile(lines);
      var rest := LoadDialogFile(lines[1..]);
      LoadDialogFileIdempotent(lines[1..]);
      if IsTemplateLine(lines[0]) {
        var t := r[0];
        assert r == [t] + rest;
        TemplateLineKept(t);
        LoadDialogFileAppend([t], rest);
        LoadDialogFileLine(t);
      }
    }
  }

  // ---------------------------------------------------------------------------
  // os.path.join and os.path.basename (POSIX)
  // ---------------------------------------------------------------------------

  /**
   * `os.path.join(a, b)`: an absolute `b` replaces `a`; otherwise `b` is appended,
   * with a '/' in between unless `a` is empty or already ends with one.
   */
  function PathJoin(a: string, b: string): (r: string)
    ensures |b| > 0 && b[0] == '/' ==> r == b
    ensures !(|b| > 0 && b[0] == '/') ==> |a| + |b| <= |r| && r[..|a|] == a && r[|r| - |b|..] == b
    ensures !(|b| > 0 && b[0] == '/') && (a == [] || a[|a| - 1] == '/') ==> r == a + b
    ensures !(|b| > 0 && b[0] == '/') && !(a == [] || a[|a| - 1] == '/') ==> |r| == |a| + 1 + |b| && r[|a|] == '/'
  {
    if |b| > 0 && b[0] == '/' then b
    else if a == [] || a[|a| - 1] == '/' then a + b
    else a + "/" + b
  }

  /** `os.path.basename(p)`: what follows the last '/', or all of `p` when it has none. */
  function Basename(p: string): (r: string)
    ensures '/' !in r
    ensures |r| <= |p| && r == p[|p| - |r|..]
    ensures |r| < |p| ==> p[|p| - |r| - 1] == '/'
    decreases |p|
  {
    if p == [] || p[|p| - 1] == '/' then []
    else
      var r := Basename(p[..|p| - 1]);
      assert p[..|p| - 1][|p| - 1 - |r|..] + [p[|p| - 1]] == p[|p| - 1 - |r|..];
      r + [p[|p| - 1]]
  }

  /** A name without '/' is the basename of anything it is joined onto. */
  lemma {:induction false} BasenameOfJoin(a: string, name: string)
    requires '/' !in name
    ensures Basename(PathJoin(a, name)) == name
  {
    var p := PathJoin(a, name);
    BasenameSuffix(p, name);
  }

  /** The basename is the longest '/'-free suffix: a '/'-free suffix right after a '/' (or the start) is it. */
  lemma BasenameSuffix(p: string, name: string)
    requires '/' !in name && |name| <= |p| && p[|p| - |name|..] == name
    requires |name| < |p| ==> p[|p| - |name| - 1] == '/'
    ensures Basename(p) == name
  {
    var r := Basename(p);
    assert |r| == |name|;
  }

  // ---------------------------------------------------------------------------
  // find_dialog
  // ---------------------------------------------------------------------------

  /**
   * `find_dialog`: the dialog file under `dialog/en-us` when the skill has a
   * `dialog` directory (`dialogDirExists` says whether `PathJoin(skillPath,
   * "dialog")` exists), under `locale/en-us` otherwise.
   */
  function FindDialog(skillPath: string, dialog: string, dialogDirExists: bool): string
  {
    var sub := if dialogDirExists then "dialog" else "locale";
    PathJoin(PathJoin(PathJoin(skillPath, sub), "en-us"), dialog)
  }

  /** Joining onto a directory that does not end in '/' puts exactly one '/' in between. */
  lemma JoinBelow(a: string, b: string)
    requires a != [] && a[|a| - 1] != '/'
    requires !(|b| > 0 && b[0] == '/')
    ensures PathJoin(a, b) == a + "/" + b
  {
  }

  /** For an ordinary skill directory and a plain file name the path is spelled out. */
  lemma {:induction false} FindDialogPath(skillPath: string, dialog: string, dialogDirExists: bool)
    requires skillPath != [] && skillPath[|skillPath| - 1] != '/'
    requires !(|dialog| > 0 && dialog[0] == '/')
    ensures dialogDirExists ==>
      FindDialog(skillPath, dialog, dialogDirExists) == skillPath + "/" + "dialog" + "/" + "en-us" + "/" + dialog
    ensures !dialogDirExists ==>
      FindDialog(skillPath, dialog, dialogDirExists) == skillPath + "/" + "locale" + "/" + "en-us" + "/" + dialog
  {
    var sub := if dialogDirExists then "dialog" else "locale";
    JoinBelow(skillPath, sub);
    var p1 := skillPath + "/" + sub;
    assert p1[|p1| - 1] == sub[5];
    JoinBelow(p1, "en-us");
    var p2 := p1 + "/" + "en-us";
    assert p2[|p2| - 1] == 's';
    JoinBelow(p2, dialog);
  }

  /** The file found is always named by the dialog it was asked for. */
  lemma {:induction false} FindDialogBasename(skillPath: string, dialog: string, dialogDirExists: bool)
    requires '/' !in dialog
    ensures Basename(FindDialog(skillPath, dialog, dialogDirExists)) == dialog
  {
    var sub := if dialogDirExists then "dialog" else "locale";
    BasenameOfJoin(PathJoin(PathJoin(skillPath, sub), "en-us"), dialog);
  }
}

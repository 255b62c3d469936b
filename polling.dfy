/**
 * The "then" steps: waiting for a spoken reply that passes a check (`then_wait`)
 * and the checks the steps hand it. The message bus is replaced by what it
 * answers: `polls(n)` is the list of `speak` messages it returns on the n-th
 * poll, counting from 0.
 */
module Polling {
  import opened Wrappers
  import opened Text
  import opened Matcher
  import opened Selection

  /** Number of polls before a wait gives up (one per second in the source). */
  const TIMEOUT: nat := 10

  /** A `speak` message: what was said, and the dialog it came from when its metadata names one. */
  datatype Message = Message(utterance: string, metaDialog: Option<string>)

  /** What a check answers for one message: whether it passes, and text for the failure report. */
  datatype Verdict = Verdict(passed: bool, debug: string)

  /** The test context; the steps record in it the message that satisfied them. */
  class Context {
    var matchedMessage: Option<Message>

    constructor()
      ensures matchedMessage == None
    {
      matchedMessage := None;
    }
  }

  // ---------------------------------------------------------------------------
  // What a wait sees and reports
  // ---------------------------------------------------------------------------

  /** Every message the first `n` polls return, poll after poll. */
  function Polled(polls: nat -> seq<Message>, n: nat): seq<Message>
  {
    if n == 0 then [] else Polled(polls, n - 1) + polls(n - 1)
  }

  /** Whether each message passes the check. */
  function Verdicts(messages: seq<Message>, check: Message -> Verdict): (r: seq<bool>)
    ensures |r| == |messages|
    ensures forall k :: 0 <= k < |r| ==> r[k] == check(messages[k]).passed
  {
    seq(|messages|, k requires 0 <= k < |messages| => check(messages[k]).passed)
  }

  /** The messages a wait hands to its check: up to and including the first that passes. */
  function Examined(messages: seq<Message>, check: Message -> Verdict): seq<Message>
  {
    match FirstTrue(Verdicts(messages, check))
    case MatchAt(i) => if i < |messages| then messages[..i + 1] else messages
    case NoMatch => messages
  }

  /** The debug texts of the checks of `messages`, in order. */
  function DebugOf(messages: seq<Message>, check: Message -> Verdict): string
  {
    if messages == [] then ""
    else DebugOf(messages[..|messages| - 1], check) + check(messages[|messages| - 1]).debug
  }

  /** The first message that passes the check, if any: the message a wait records. */
  function FirstPassing(messages: seq<Message>, check: Message -> Verdict): (r: Option<Message>)
    ensures r.Some? <==> exists k :: 0 <= k < |messages| && check(messages[k]).passed
    ensures r.Some? ==> r.value in messages && check(r.value).passed
    ensures r.Some? ==>
      exists i :: 0 <= i < |messages| && messages[i] == r.value &&
                  forall k :: 0 <= k < i ==> !check(messages[k]).passed
  {
    match FirstTrue(Verdicts(messages, check))
    case NoMatch => None
    case MatchAt(i) => Some(messages[i])
  }

  /** Two checks that agree on every message pick the same first passing message. */
  lemma FirstPassingAgree(messages: seq<Message>, c1: Message -> Verdict, c2: Message -> Verdict)
    requires forall k :: 0 <= k < |messages| ==> c1(messages[k]).passed == c2(messages[k]).passed
    ensures FirstPassing(messages, c1) == FirstPassing(messages, c2)
  {
    assert Verdicts(messages, c1) == Verdicts(messages, c2);
  }

  /** No message of `messages` passes the check. */
  predicate NonePass(messages: seq<Message>, check: Message -> Verdict)
  {
    forall k :: 0 <= k < |messages| ==> !check(messages[k]).passed
  }

  /** A prefix of a prefix is a prefix. */
  lemma PrefixOfPrefix<T>(a: seq<T>, b: seq<T>, c: seq<T>)
    requires |c| <= |b| <= |a| && a[..|b|] == b && b[..|c|] == c
    ensures a[..|c|] == c
  {
    assert forall i :: 0 <= i < |c| ==> a[i] == b[i];
  }

  lemma AppendPrefix<T>(a: seq<T>, b: seq<T>, n: nat)
    requires n <= |b|
    ensures (a + b)[..|a| + n] == a + b[..n]
  {
  }

  /** Checking one more message appends its debug text. */
  lemma DebugSnoc(messages: seq<Message>, j: nat, check: Message -> Verdict)
    requires j < |messages|
    ensures DebugOf(messages[..j + 1], check) == DebugOf(messages[..j], check) + check(messages[j]).debug
  {
    assert messages[..j + 1][..j] == messages[..j];
  }

  /** Every earlier poll's messages come before the later ones. */
  lemma {:induction false} PolledPrefix(polls: nat -> seq<Message>, n: nat, m: nat)
    requires n <= m
    ensures |Polled(polls, n)| <= |Polled(polls, m)|
    ensures Polled(polls, m)[..|Polled(polls, n)|] == Polled(polls, n)
    decreases m
  {
    if n < m {
      PolledPrefix(polls, n, m - 1);
      var a, b := Polled(polls, n), Polled(polls, m - 1);
      assert Polled(polls, m) == b + polls(m - 1);
      assert (b + polls(m - 1))[..|a|] == b[..|a|];
    }
  }

  /** A message was polled exactly when one of the first `n` polls returned it. */
  lemma {:induction false} PolledMembers(polls: nat -> seq<Message>, n: nat, msg: Message)
    ensures msg in Polled(polls, n) <==> exists i :: 0 <= i < n && msg in polls(i)
    decreases n
  {
    if n > 0 {
      PolledMembers(polls, n - 1, msg);
      assert Polled(polls, n) == Polled(polls, n - 1) + polls(n - 1);
    }
  }

  /** Only the first TIMEOUT polls matter: what the bus would answer later is never looked at. */
  lemma {:induction false} PolledAgree(p: nat -> seq<Message>, q: nat -> seq<Message>, n: nat)
    requires forall i :: 0 <= i < n ==> p(i) == q(i)
    ensures Polled(p, n) == Polled(q, n)
    decreases n
  {
    if n > 0 {
      PolledAgree(p, q, n - 1);
      assert p(n - 1) == q(n - 1);
    }
  }

  /**
   * A wait succeeds exactly when one of the first TIMEOUT polls returns a
   * message that passes the check.
   */
  lemma {:induction false} WaitPasses(polls: nat -> seq<Message>, check: Message -> Verdict)
    ensures FirstTrue(Verdicts(Polled(polls, TIMEOUT), check)).MatchAt? <==>
      exists i, msg :: 0 <= i < TIMEOUT && msg in polls(i) && check(msg).passed
  {
    var all := Polled(polls, TIMEOUT);
    var r := FirstTrue(Verdicts(all, check));
    if r.MatchAt? {
      var msg := all[r.index];
      PolledMembers(polls, TIMEOUT, msg);
    } else {
      forall i, msg | 0 <= i < TIMEOUT && msg in polls(i)
        ensures !check(msg).passed
      {
        PolledMembers(polls, TIMEOUT, msg);
        var k :| 0 <= k < |all| && all[k] == msg;
        assert !Verdicts(all, check)[k];
      }
    }
  }

  /** When `pre` is where the first passing message shows up, the wait stops there. */
  lemma {:induction false} StopsAt(all: seq<Message>, check: Message -> Verdict, pre: seq<Message>)
    requires 0 < |pre| <= |all| && all[..|pre|] == pre
    requires check(pre[|pre| - 1]).passed
    requires forall k :: 0 <= k < |pre| - 1 ==> !check(pre[k]).passed
    ensures FirstTrue(Verdicts(all, check)) == MatchAt(|pre| - 1)
    ensures Examined(all, check) == pre
  {
    var v := Verdicts(all, check);
    forall k | 0 <= k < |pre| - 1
      ensures !v[k]
    {
      assert all[k] == pre[k];
    }
    assert all[|pre| - 1] == pre[|pre| - 1];
    FirstTrueAt(v, |pre| - 1);
  }

  /** When no polled message passes, the wait examines them all. */
  lemma {:induction false} ExaminesAll(all: seq<Message>, check: Message -> Verdict)
    requires NonePass(all, check)
    ensures FirstTrue(Verdicts(all, check)) == NoMatch
    ensures Examined(all, check) == all
  {
    var v := Verdicts(all, check);
    assert forall k :: 0 <= k < |v| ==> !v[k];
  }

  /** The debug text of two runs of checks is the text of one, then of the other. */
  lemma {:induction false} DebugAppend(a: seq<Message>, b: seq<Message>, check: Message -> Verdict)
    ensures DebugOf(a + b, check) == DebugOf(a, check) + DebugOf(b, check)
    decreases |b|
  {
    if b == [] {
      assert a + b == a;
    } else {
      var c := b[..|b| - 1];
      DebugAppend(a, c, check);
      assert (a + b)[..|a + b| - 1] == a + c;
    }
  }

  /** A poll none of whose messages passes extends the run of failures. */
  lemma {:induction false} PollFails(polls: nat -> seq<Message>, check: Message -> Verdict, count: nat)
    requires NonePass(Polled(polls, count), check) && NonePass(polls(count), check)
    ensures NonePass(Polled(polls, count + 1), check)
  {
    var seen, messages := Polled(polls, count), polls(count);
    assert Polled(polls, count + 1) == seen + messages;
    forall k | 0 <= k < |seen + messages|
      ensures !check((seen + messages)[k]).passed
    {
      if k >= |seen| {
        assert (seen + messages)[k] == messages[k - |seen|];
      } else {
        assert (seen + messages)[k] == seen[k];
      }
    }
  }

  /**
   * The message at position `j` of poll `count` passes and none before it did:
   * it is the first passing message of the whole wait.
   */
  lemma {:induction false} PassesAt(polls: nat -> seq<Message>, check: Message -> Verdict, count: nat, j: nat)
    requires count < TIMEOUT && j < |polls(count)|
    requires NonePass(Polled(polls, count), check)
    requires forall k :: 0 <= k < j ==> !check(polls(count)[k]).passed
    requires check(polls(count)[j]).passed
    ensures var all := Polled(polls, TIMEOUT);
      var pre := Polled(polls, count) + polls(count)[..j + 1];
      FirstTrue(Verdicts(all, check)) == MatchAt(|pre| - 1) && |pre| <= |all| &&
      all[|pre| - 1] == polls(count)[j] && Examined(all, check) == pre
  {
    var seen, messages := Polled(polls, count), polls(count);
    var all := Polled(polls, TIMEOUT);
    var pre := seen + messages[..j + 1];
    assert all[..|pre|] == pre by {
      var next := Polled(polls, count + 1);
      assert next == seen + messages;
      AppendPrefix(seen, messages, j + 1);
      PolledPrefix(polls, count + 1, TIMEOUT);
      PrefixOfPrefix(all, next, pre);
    }
    assert forall k :: 0 <= k < |pre| - 1 ==> !check(pre[k]).passed by {
      forall k | 0 <= k < |pre| - 1
        ensures !check(pre[k]).passed
      {
        if k < |seen| {
          assert pre[k] == seen[k];
        } else {
          assert pre[k] == messages[k - |seen|];
        }
      }
    }
    assert pre[|pre| - 1] == messages[j];
    StopsAt(all, check, pre);
  }

  /** A poll whose messages all fail: the wait's run of failures and its debug text grow by that poll. */
  lemma {:induction false} WaitStep(polls: nat -> seq<Message>, check: Message -> Verdict, count: nat,
                                    before: string, after: string)
    requires NonePass(Polled(polls, count), check) && NonePass(polls(count), check)
    requires before == DebugOf(Polled(polls, count), check)
    requires after == before + DebugOf(polls(count), check)
    ensures NonePass(Polled(polls, count + 1), check)
    ensures after == DebugOf(Polled(polls, count + 1), check)
  {
    PollFails(polls, check, count);
    DebugAppend(Polled(polls, count), polls(count), check);
  }

  /** The wait stops at message `j` of poll `count`: what `then_wait` then reports. */
  lemma {:induction false} WaitStops(polls: nat -> seq<Message>, check: Message -> Verdict, count: nat, j: nat,
                                     before: string, after: string)
    requires count < TIMEOUT && j < |polls(count)|
    requires NonePass(Polled(polls, count), check) && NonePass(polls(count)[..j], check)
    requires check(polls(count)[j]).passed
    requires before == DebugOf(Polled(polls, count), check)
    requires after == before + DebugOf(polls(count)[..j + 1], check)
    ensures var all := Polled(polls, TIMEOUT);
      var first := FirstTrue(Verdicts(all, check));
      first.MatchAt? && first.index < |all| && all[first.index] == polls(count)[j] &&
      after == DebugOf(Examined(all, check), check)
  {
    var messages := polls(count);
    assert forall k :: 0 <= k < j ==> !check(messages[k]).passed by {
      assert forall k :: 0 <= k < j ==> messages[..j][k] == messages[k];
    }
    PassesAt(polls, check, count, j);
    DebugAppend(Polled(polls, count), messages[..j + 1], check);
  }

  /** No message of the TIMEOUT polls passed: what `then_wait` then reports. */
  lemma {:induction false} WaitTimesOut(polls: nat -> seq<Message>, check: Message -> Verdict, debug: string)
    requires NonePass(Polled(polls, TIMEOUT), check)
    requires debug == DebugOf(Polled(polls, TIMEOUT), check)
    ensures var all := Polled(polls, TIMEOUT);
      FirstTrue(Verdicts(all, check)).NoMatch? && debug == DebugOf(Examined(all, check), check)
  {
    ExaminesAll(Polled(polls, TIMEOUT), check);
  }

  // ---------------------------------------------------------------------------
  // then_wait
  // ---------------------------------------------------------------------------

  /** The first `j` messages fail and message `j` passes: the first passing message is at `j`. */
  lemma {:induction false} FirstPassAt(messages: seq<Message>, check: Message -> Verdict, j: nat)
    requires j < |messages| && NonePass(messages[..j], check) && check(messages[j]).passed
    ensures FirstTrue(Verdicts(messages, check)) == MatchAt(j)
  {
    var v := Verdicts(messages, check);
    forall k | 0 <= k < j
      ensures !v[k]
    {
      assert messages[..j][k] == messages[k];
    }
    FirstTrueAt(v, j);
  }

  /** One more failing message extends a run of failures. */
  lemma {:induction false} NonePassSnoc(messages: seq<Message>, check: Message -> Verdict, j: nat)
    requires j < |messages| && NonePass(messages[..j], check) && !check(messages[j]).passed
    ensures NonePass(messages[..j + 1], check)
  {
    var pre := messages[..j + 1];
    forall k | 0 <= k < |pre|
      ensures !check(pre[k]).passed
    {
      if k < j {
        assert pre[k] == messages[..j][k];
      }
    }
  }

  /**
   * The inner loop of `then_wait`: the messages of one poll handed to `check`
   * in order, stopping at the first that passes. `debugIn` is the debug text
   * gathered so far; the checks run here append theirs.
   */
  method ScanPoll(messages: seq<Message>, check: Message -> Verdict, debugIn: string)
    returns (found: MatchResult, debug: string)
    ensures found == FirstTrue(Verdicts(messages, check))
    ensures found.MatchAt? ==> (found.index < |messages| && NonePass(messages[..found.index], check) &&
      debug == debugIn + DebugOf(messages[..found.index + 1], check))
    ensures found.NoMatch? ==> NonePass(messages, check) && debug == debugIn + DebugOf(messages, check)
  {
    debug := debugIn;
    var j := 0;
    while j < |messages|
      invariant j <= |messages|
      invariant NonePass(messages[..j], check)
      invariant debug == debugIn + DebugOf(messages[..j], check)
    {
      var verdict := check(messages[j]);
      ghost var before := debug;
      debug := debug + verdict.debug;
      assert debug == debugIn + DebugOf(messages[..j + 1], check) by {
        DebugSnoc(messages, j, check);
      }
      if verdict.passed {
        FirstPassAt(messages, check, j);
        return MatchAt(j), debug;
      }
      NonePassSnoc(messages, check, j);
      j := j + 1;
    }
    assert messages[..j] == messages;
    ExaminesAll(messages, check);
    found := NoMatch;
  }

  /**
   * `then_wait`: polls the bus TIMEOUT times and hands every message to `check`
   * until one passes. It succeeds exactly when some message of the first
   * TIMEOUT polls passes, records the first such message in the context, and
   * returns the debug texts of every check it ran. Its `timeout` argument is
   * not consulted.
   */
  method ThenWait(context: Context, polls: nat -> seq<Message>, check: Message -> Verdict, timeout: nat)
    returns (passed: bool, debug: string)
    modifies context
    ensures var all := Polled(polls, TIMEOUT);
      var first := FirstTrue(Verdicts(all, check));
      passed == first.MatchAt? &&
      debug == DebugOf(Examined(all, check), check) &&
      (first.MatchAt? ==> first.index < |all| && context.matchedMessage == Some(all[first.index])) &&
      (first.NoMatch? ==> context.matchedMessage == old(context.matchedMessage))
  {
    var count := 0;
    debug := "";
    while count < TIMEOUT
      invariant count <= TIMEOUT
      invariant NonePass(Polled(polls, count), check)
      invariant debug == DebugOf(Polled(polls, count), check)
      invariant context.matchedMessage == old(context.matchedMessage)
    {
      var messages := polls(count);
      var before := debug;
      var found;
      found, debug := ScanPoll(messages, check, before);
      if found.MatchAt? {
        context.matchedMessage := Some(messages[found.index]);
        WaitStops(polls, check, count, found.index, before, debug);
        return true, debug;
      }
      WaitStep(polls, check, count, before, debug);
      count := count + 1;
    }
    WaitTimesOut(polls, check, debug);
    passed := false;
  }

  // ---------------------------------------------------------------------------
  // The checks
  // ---------------------------------------------------------------------------

  /**
   * `check_dialog`: the message came from the expected dialog, named with or
   * without its `.dialog` extension. It reports nothing.
   */
  function CheckDialog(dialog: string, msg: Message): (v: Verdict)
    ensures NoExt(dialog) ==> (v.passed <==> msg.metaDialog == Some(dialog))
    ensures v.debug == ""
  {
    RemoveDialogExtNoExt(dialog);
    Verdict(msg.metaDialog == Some(RemoveDialogExt(dialog)), "")
  }

  /** A dialog named with or without its extension is recognised by its bare name. */
  lemma CheckDialogByName(name: string, msg: Message)
    requires NoExt(name)
    ensures CheckDialog(name + ".dialog", msg).passed <==> msg.metaDialog == Some(name)
    ensures CheckDialog(name, msg).passed <==> msg.metaDialog == Some(name)
  {
    RemoveDialogExtOfName(name);
    RemoveDialogExtNoExt(name);
  }

  /** `check_exact_match`: the utterance is the expected text, ignoring case. */
  function CheckExact(text: string, msg: Message): (v: Verdict)
    ensures v.passed <==> (|msg.utterance| == |text| &&
      forall i :: 0 <= i < |text| ==> LowerChar(msg.utterance[i]) == LowerChar(text[i]))
  {
    var utt := Lower(msg.utterance);
    Verdict(utt == Lower(text), "Comparing " + utt + " with expected " + text + "\n")
  }

  /** `check_contains`: the expected text occurs in the utterance, ignoring case. */
  function CheckContains(text: string, msg: Message): (v: Verdict)
    ensures v.passed <==> IsSubstring(Lower(text), Lower(msg.utterance))
  {
    var utt := Lower(msg.utterance);
    IndexOfFinds(utt, Lower(text));
    Verdict(IndexOf(utt, Lower(text)).Some?, "Checking if \"" + utt + "\" contains \"" + text + "\"\n")
  }

  /** A reply that is exactly the text also contains it. */
  lemma ExactContains(text: string, msg: Message)
    ensures CheckExact(text, msg).passed ==> CheckContains(text, msg).passed
  {
    if CheckExact(text, msg).passed {
      var utt := Lower(msg.utterance);
      assert utt == Lower(text);
      assert OccursAt(utt, Lower(text), 0);
    }
  }

  /** Neither check depends on the case of the expected text. */
  lemma ChecksIgnoreCase(text: string, msg: Message)
    ensures CheckExact(Lower(text), msg).passed == CheckExact(text, msg).passed
    ensures CheckContains(Lower(text), msg).passed == CheckContains(text, msg).passed
  {
    LowerIsLowered(text);
  }

  /** `check_any_messages`: every message there is passes. */
  function CheckAny(msg: Message): (v: Verdict)
    ensures v.passed && v.debug == ""
  {
    Verdict(true, "")
  }

  // ---------------------------------------------------------------------------
  // The steps
  // ---------------------------------------------------------------------------

  /** `then_dialog`: the step holds when a reply of the first TIMEOUT polls came from the dialog. */
  method ThenDialog(context: Context, polls: nat -> seq<Message>, dialog: string) returns (passed: bool)
    modifies context
    ensures passed <==> exists i, msg :: 0 <= i < TIMEOUT && msg in polls(i) && CheckDialog(dialog, msg).passed
    ensures passed ==> context.matchedMessage == FirstPassing(Polled(polls, TIMEOUT), m => CheckDialog(dialog, m))
    ensures !passed ==> context.matchedMessage == old(context.matchedMessage)
  {
    var check := (msg: Message) => CheckDialog(dialog, msg);
    var debug;
    passed, debug := ThenWait(context, polls, check, TIMEOUT);
    FirstPassingAgree(Polled(polls, TIMEOUT), check, m => CheckDialog(dialog, m));
    WaitPasses(polls, check);
    if passed {
      var i, msg :| 0 <= i < TIMEOUT && msg in polls(i) && check(msg).passed;
      assert CheckDialog(dialog, msg).passed;
    } else {
      forall i, msg | 0 <= i < TIMEOUT && msg in polls(i)
        ensures !CheckDialog(dialog, msg).passed
      {
        assert !check(msg).passed;
      }
    }
  }

  /**
   * `then_example`: the dialog file chosen for the example sentence among the
   * skill's dialog files, then `then_dialog` with it; without a file the step fails.
   */
  method ThenExample(context: Context, polls: nat -> seq<Message>, files: seq<DialogFile>, example: string)
    returns (passed: bool)
    modifies context
    ensures passed <==> (SelectedDialog(files, example).Some? &&
      exists i, msg :: 0 <= i < TIMEOUT && msg in polls(i) &&
        CheckDialog(SelectedDialog(files, example).value, msg).passed)
    ensures passed ==> (SelectedDialog(files, example).Some? &&
      context.matchedMessage ==
        FirstPassing(Polled(polls, TIMEOUT), m => CheckDialog(SelectedDialog(files, example).value, m)))
    ensures !passed ==> context.matchedMessage == old(context.matchedMessage)
  {
    var dialog := DialogFromSentence(files, example);
    if dialog.None? {
      passed := false;
    } else {
      passed := ThenDialog(context, polls, dialog.value);
    }
  }

  /** `then_exactly`: the step holds when a reply of the first TIMEOUT polls is the text, ignoring case. */
  method ThenExactly(context: Context, polls: nat -> seq<Message>, text: string) returns (passed: bool)
    modifies context
    ensures passed <==> exists i, msg :: 0 <= i < TIMEOUT && msg in polls(i) && CheckExact(text, msg).passed
    ensures passed ==> context.matchedMessage == FirstPassing(Polled(polls, TIMEOUT), m => CheckExact(text, m))
    ensures !passed ==> context.matchedMessage == old(context.matchedMessage)
  {
    var check := (msg: Message) => CheckExact(text, msg);
    var debug;
    passed, debug := ThenWait(context, polls, check, TIMEOUT);
    FirstPassingAgree(Polled(polls, TIMEOUT), check, m => CheckExact(text, m));
    WaitPasses(polls, check);
    if passed {
      var i, msg :| 0 <= i < TIMEOUT && msg in polls(i) && check(msg).passed;
      assert CheckExact(text, msg).passed;
    } else {
      forall i, msg | 0 <= i < TIMEOUT && msg in polls(i)
        ensures !CheckExact(text, msg).passed
      {
        assert !check(msg).passed;
      }
    }
  }

  /** `then_contains`: the step holds when a reply of the first TIMEOUT polls contains the text, ignoring case. */
  method ThenContains(context: Context, polls: nat -> seq<Message>, text: string) returns (passed: bool)
    modifies context
    ensures passed <==> exists i, msg :: 0 <= i < TIMEOUT && msg in polls(i) && CheckContains(text, msg).passed
    ensures passed ==> context.matchedMessage == FirstPassing(Polled(polls, TIMEOUT), m => CheckContains(text, m))
    ensures !passed ==> context.matchedMessage == old(context.matchedMessage)
  {
    var check := (msg: Message) => CheckContains(text, msg);
    var debug;
    passed, debug := ThenWait(context, polls, check, TIMEOUT);
    FirstPassingAgree(Polled(polls, TIMEOUT), check, m => CheckContains(text, m));
    WaitPasses(polls, check);
    if passed {
      var i, msg :| 0 <= i < TIMEOUT && msg in polls(i) && check(msg).passed;
      assert CheckContains(text, msg).passed;
    } else {
      forall i, msg | 0 <= i < TIMEOUT && msg in polls(i)
        ensures !CheckContains(text, msg).passed
      {
        assert !check(msg).passed;
      }
    }
  }

  /**
   * `then_anything` as written: it asserts the pair that `then_wait` returns,
   * and a pair is always true, so the step holds whatever was said. `heard`
   * is what the wait itself found.
   */
  method ThenAnything(context: Context, polls: nat -> seq<Message>) returns (passed: bool, heard: bool)
    modifies context
    ensures passed
    ensures heard <==> exists i :: 0 <= i < TIMEOUT && polls(i) != []
    ensures heard ==> context.matchedMessage == FirstPassing(Polled(polls, TIMEOUT), CheckAny)
    ensures !heard ==> context.matchedMessage == old(context.matchedMessage)
  {
    var debug;
    heard, debug := ThenWait(context, polls, CheckAny, TIMEOUT);
    WaitPasses(polls, CheckAny);
    NonEmptyPoll(polls);
    passed := true;
  }

  lemma NonEmptyPoll(polls: nat -> seq<Message>)
    ensures (exists i, msg :: 0 <= i < TIMEOUT && msg in polls(i) && CheckAny(msg).passed) <==>
      exists i :: 0 <= i < TIMEOUT && polls(i) != []
  {
    if exists i :: 0 <= i < TIMEOUT && polls(i) != [] {
      var i :| 0 <= i < TIMEOUT && polls(i) != [];
      var msg := polls(i)[0];
      assert msg in polls(i) && CheckAny(msg).passed;
    }
  }

  /** Nothing said at all: the wait finds nothing, yet `then_anything` as written holds. */
  lemma SilenceNotHeard()
    ensures !FirstTrue(Verdicts(Polled(_ => [], TIMEOUT), CheckAny)).MatchAt?
  {
    WaitPasses(_ => [], CheckAny);
  }

  /** `then_anything` as intended: the step holds when some reply was spoken within TIMEOUT polls. */
  method ThenAnythingChecked(context: Context, polls: nat -> seq<Message>) returns (passed: bool)
    modifies context
    ensures passed <==> exists i :: 0 <= i < TIMEOUT && polls(i) != []
    ensures passed ==> context.matchedMessage == FirstPassing(Polled(polls, TIMEOUT), CheckAny)
    ensures !passed ==> context.matchedMessage == old(context.matchedMessage)
  {
    var debug;
    passed, debug := ThenWait(context, polls, CheckAny, TIMEOUT);
    WaitPasses(polls, CheckAny);
    NonEmptyPoll(polls);
  }
}

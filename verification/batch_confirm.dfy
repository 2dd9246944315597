/** Batch-run confirmation: the host's queue function is replaced by a wrapper
    that reads the batch count from its second argument and, for more than one
    image, asks for confirmation in a modal dialog before passing the call on to
    the saved original; a failure anywhere in that path falls back to calling the
    original once more. Functions are identified by value; the dialog is the
    record of its overlay and its single answer. */
module BatchConfirm {
  import opened Optional
  import opened Strings

  /** One argument of the queue call, as far as the wrapper looks at it: a number
      (integers only, see the README) or anything else. */
  datatype Arg = Num(n: int) | NotNumber

  /** A function reference: one of the host's, or the bound wrapper installed by
      the `generation`-th setup (each `bind` makes a new function). */
  datatype Fn = HostFn(id: nat) | Wrapper(generation: nat)

  /** A call of `target` with `args`, `app` as receiver. */
  datatype Call = Call(target: Fn, args: seq<Arg>)

  /** The batch count: the second argument when there is one and it is a number,
      1 otherwise. */
  function BatchCount(args: seq<Arg>): (r: int)
    ensures |args| > 1 && args[1].Num? ==> args[1] == Num(r)
    ensures r != 1 ==> |args| > 1 && args[1] == Num(r)
  {
    if |args| > 1 && args[1].Num? then args[1].n else 1
  }

  const WarningSign := "\U{26A0}\U{FE0F}"
  const MessagePrefix := WarningSign + " You are about to run a batch of "
  const MessageSuffix := " images. Continue?"

  /** The dialog's question for a batch of `n`. */
  function DialogMessage(n: int): (m: string)
    ensures |m| > |MessagePrefix| + |MessageSuffix|
    ensures m[..|MessagePrefix|] == MessagePrefix
    ensures m[|m| - |MessageSuffix|..] == MessageSuffix
  {
    MessagePrefix + IntToString(n) + MessageSuffix
  }

  /** Reads the batch size back out of a dialog question. */
  function MessageCount(m: string): Option<int> {
    if |m| >= |MessagePrefix| + |MessageSuffix| && m[..|MessagePrefix|] == MessagePrefix
       && m[|m| - |MessageSuffix|..] == MessageSuffix
    then ParseInt(m[|MessagePrefix|..|m| - |MessageSuffix|])
    else None
  }

  /** The question names the batch size: it can be read back exactly. */
  lemma MessageCountRoundTrip(n: int)
    ensures MessageCount(DialogMessage(n)) == Some(n)
  {
    var m := DialogMessage(n);
    assert m[|MessagePrefix|..|m| - |MessageSuffix|] == IntToString(n);
    IntToStringRoundTrip(n);
  }

  /** Different batch sizes give different questions. */
  lemma MessageInjective(a: int, b: int)
    ensures DialogMessage(a) == DialogMessage(b) <==> a == b
  {
    if DialogMessage(a) == DialogMessage(b) {
      MessageCountRoundTrip(a);
      MessageCountRoundTrip(b);
    }
  }

  // ----- the confirmation dialog -----

  datatype Button = YesRun | CancelRun

  /** The dialog: whether its overlay is in the document, and the answer its
      promise resolved with, once it has. */
  datatype Dialog = Dialog(overlayAttached: bool, answer: Option<bool>)

  /** A freshly shown dialog: overlay attached, unanswered. */
  function Show(): (d: Dialog)
    ensures DialogValid(d) && d.answer.None?
  {
    Dialog(true, None)
  }

  /** The overlay is in the document exactly while the dialog is unanswered. */
  predicate DialogValid(d: Dialog) {
    d.overlayAttached <==> d.answer.None?
  }

  /** A button click: while the overlay is attached, detaches it and resolves
      true for "Yes, Run" and false for "Cancel"; a detached button is no longer
      clickable, and a promise resolves at most once. */
  function Click(d: Dialog, b: Button): (r: Dialog)
    ensures DialogValid(d) ==> DialogValid(r)
    ensures DialogValid(d) && d.answer.Some? ==> r == d
    ensures d.overlayAttached ==> r.answer == Some(b == YesRun) && !r.overlayAttached
  {
    if d.overlayAttached then Dialog(false, Some(b == YesRun)) else d
  }

  function Clicks(d: Dialog, bs: seq<Button>): Dialog
    decreases |bs|
  {
    if bs == [] then d else Clicks(Click(d, bs[0]), bs[1..])
  }

  /** However many clicks follow, the dialog resolves once, with the first
      click's answer, and its overlay is gone after it. */
  lemma {:induction false} FirstClickDecides(bs: seq<Button>)
    ensures bs == [] ==> Clicks(Show(), bs) == Show()
    ensures bs != [] ==> Clicks(Show(), bs) == Dialog(false, Some(bs[0] == YesRun))
  {
    if bs != [] {
      ResolvedStays(Click(Show(), bs[0]), bs[1..]);
    }
  }

  lemma {:induction false} ResolvedStays(d: Dialog, bs: seq<Button>)
    requires !d.overlayAttached
    ensures Clicks(d, bs) == d
    decreases |bs|
  {
    if bs != [] {
      ResolvedStays(Click(d, bs[0]), bs[1..]);
    }
  }

  // ----- one call of the wrapper -----

  /** What the dialog step produced: confirmed, cancelled, still waiting for a
      click, or an exception while building the dialog. */
  datatype Answer = Confirmed | Cancelled | Unanswered | DialogThrows

  /** The answer a dialog reached by clicks stands for. */
  function AnswerOf(d: Dialog): (a: Answer)
    ensures a == Unanswered <==> d.answer.None?
    ensures a == Confirmed <==> d.answer == Some(true)
  {
    if d.answer.None? then Unanswered else if d.answer.value then Confirmed else Cancelled
  }

  /** How a call of the wrapper ends: still awaiting the dialog, skipped (resolves
      to undefined without running), settled with the original's result, or
      rejected because the original failed on both attempts. */
  datatype Outcome = Pending | Skipped | Completed | Rejected

  /** The question shown (if any), the calls passed on to the original, and the
      outcome. */
  datatype Run = Run(question: Option<string>, calls: seq<Call>, outcome: Outcome)

  /** One attempt at `originalQueuePrompt.apply(app, args)`: with no saved original
      the call itself throws before reaching anything. Gives the calls made and
      whether the attempt succeeded. */
  function Attempt(saved: Option<Fn>, args: seq<Arg>, fails: bool): (r: (seq<Call>, bool))
    ensures saved.None? ==> r == ([], false)
    ensures saved.Some? ==> r == ([Call(saved.value, args)], !fails)
  {
    if saved.None? then ([], false) else ([Call(saved.value, args)], !fails)
  }

  /** `patchedQueuePrompt(...args)` with the saved original `saved`: the dialog's
      `answer`, and whether the first and a second attempt at the original fail. */
  function Invoke(saved: Option<Fn>, args: seq<Arg>, answer: Answer, firstFails: bool, secondFails: bool): (r: Run)
    ensures var asks := BatchCount(args) > 1;
      && (r.question.Some? <==> asks && answer != DialogThrows)
      && (r.question.Some? ==> r.question.value == DialogMessage(BatchCount(args)))
      && (r.outcome == Pending <==> asks && answer == Unanswered)
      && (r.outcome == Skipped <==> asks && answer == Cancelled)
      && (r.outcome == Rejected <==>
            (!(asks && (answer == Unanswered || answer == Cancelled)) &&
             (saved.None? || ((firstFails || (asks && answer == DialogThrows)) && secondFails))))
    ensures |r.calls| <= 2
    ensures r.calls != [] ==> saved.Some?
    ensures forall k :: 0 <= k < |r.calls| ==> r.calls[k] == Call(saved.value, args)
    ensures r.outcome == Completed ==> r.calls != []
  {
    var n := BatchCount(args);
    var asks := n > 1;
    var question := if asks && answer != DialogThrows then Some(DialogMessage(n)) else None;
    if asks && answer == Unanswered then Run(question, [], Pending)
    else if asks && answer == Cancelled then Run(question, [], Skipped)
    else
      var first := if asks && answer == DialogThrows then ([], false) else Attempt(saved, args, firstFails);
      if first.1 then Run(question, first.0, Completed)
      else
        var second := Attempt(saved, args, secondFails);
        Run(question, first.0 + second.0, if second.1 then Completed else Rejected)
  }

  /** A batch of at most one image is passed straight on: no question, one call
      with the same arguments. */
  lemma SmallBatchPassesThrough(f: Fn, args: seq<Arg>, answer: Answer, secondFails: bool)
    requires BatchCount(args) <= 1
    ensures Invoke(Some(f), args, answer, false, secondFails) == Run(None, [Call(f, args)], Completed)
  {
  }

  /** A larger batch runs only after a "Yes, Run" click, and then exactly once
      when the original succeeds; "Cancel" runs nothing. */
  lemma LargeBatchNeedsYes(f: Fn, args: seq<Arg>, bs: seq<Button>, secondFails: bool)
    requires BatchCount(args) > 1
    ensures var r := Invoke(Some(f), args, AnswerOf(Clicks(Show(), bs)), false, secondFails);
      && r.question == Some(DialogMessage(BatchCount(args)))
      && (r.calls != [] <==> bs != [] && bs[0] == YesRun)
      && (bs != [] && bs[0] == YesRun ==> r.calls == [Call(f, args)] && r.outcome == Completed)
  {
    FirstClickDecides(bs);
  }

  /** A failure while building the dialog is caught, and the batch is run without
      any confirmation. */
  lemma DialogFailureSkipsConfirmation(f: Fn, args: seq<Arg>, firstFails: bool)
    requires BatchCount(args) > 1
    ensures Invoke(Some(f), args, DialogThrows, firstFails, false) == Run(None, [Call(f, args)], Completed)
  {
  }

  /** An original that fails, whether reached directly or after "Yes, Run", is
      called a second time from the catch, with the same arguments. */
  lemma FailingOriginalRunsTwice(f: Fn, args: seq<Arg>, secondFails: bool)
    ensures var r := Invoke(Some(f), args, Confirmed, true, secondFails);
      r.calls == [Call(f, args), Call(f, args)] && (r.outcome == Rejected <==> secondFails)
  {
  }

  /** A wrapper invoked after cleanup has no original to call: whatever the
      dialog's answer that lets it continue, it rejects without a call. */
  lemma StaleWrapperRejects(args: seq<Arg>, answer: Answer, firstFails: bool, secondFails: bool)
    requires BatchCount(args) <= 1 || answer == Confirmed || answer == DialogThrows
    ensures var r := Invoke(None, args, answer, firstFails, secondFails);
      r.calls == [] && r.outcome == Rejected
  {
  }

  // ----- installing and removing the wrapper -----

  /** The patch: `isInitialized`, the saved original, the host's current queue
      function, and how many wrappers have been bound so far. */
  datatype Patch = Patch(initialized: bool, saved: Option<Fn>, queuePrompt: Fn, binds: nat)

  /** A page before any setup: the host's function in place. */
  function Unpatched(host: nat): (p: Patch)
    ensures PatchValid(p) && p.queuePrompt == HostFn(host)
  {
    Patch(false, None, HostFn(host), 0)
  }

  /** While initialized, the latest wrapper is installed and a host function is
      saved; otherwise nothing is saved and a host function is in place. */
  predicate PatchValid(p: Patch) {
    if p.initialized then
      p.binds > 0 && p.queuePrompt == Wrapper(p.binds - 1) && p.saved.Some? && p.saved.value.HostFn?
    else
      p.saved.None? && p.queuePrompt.HostFn?
  }

  /** `setup` once the host's queue function is available (the polling is taken as
      done): ignored when initialized; otherwise saves the current function and
      installs a newly bound wrapper. */
  function Setup(p: Patch): (r: Patch)
    ensures p.initialized ==> r == p
    ensures !p.initialized ==> r.initialized && r.saved == Some(p.queuePrompt) && r.queuePrompt.Wrapper?
  {
    if p.initialized then p
    else Patch(true, Some(p.queuePrompt), Wrapper(p.binds), p.binds + 1)
  }

  /** `cleanup`: ignored when not initialized; otherwise puts the saved function
      back (when there is one) and forgets it. */
  function Cleanup(p: Patch): (r: Patch)
    ensures !p.initialized ==> r == p
    ensures p.initialized ==> !r.initialized && r.saved.None?
    ensures p.initialized && p.saved.Some? ==> r.queuePrompt == p.saved.value
  {
    if !p.initialized then p
    else Patch(false, None, if p.saved.Some? then p.saved.value else p.queuePrompt, p.binds)
  }

  /** Setup followed by cleanup puts the host's function back and leaves nothing
      saved. */
  lemma SetupThenCleanup(p: Patch)
    requires !p.initialized && p.saved.None?
    ensures Cleanup(Setup(p)).queuePrompt == p.queuePrompt
    ensures Cleanup(Setup(p)) == p.(binds := p.binds + 1)
  {
  }

  /** What happens to the patch: the setting is switched, or the host assigns a
      queue function of its own. */
  datatype PatchEvent = SettingOn | SettingOff | HostAssigns(id: nat)

  function Step(p: Patch, ev: PatchEvent): Patch {
    match ev
    case SettingOn => Setup(p)
    case SettingOff => Cleanup(p)
    case HostAssigns(id) => p.(queuePrompt := HostFn(id))
  }

  function Replay(p: Patch, evs: seq<PatchEvent>): Patch
    decreases |evs|
  {
    if evs == [] then p else Replay(Step(p, evs[0]), evs[1..])
  }

  /** What calling `app.queuePrompt(...args)` does in state `p`: a host function
      is called directly; a wrapper runs with the patch's saved original. */
  function CallQueue(p: Patch, args: seq<Arg>, answer: Answer, firstFails: bool, secondFails: bool): (r: Run)
    ensures p.queuePrompt.HostFn? ==> r == Run(None, [Call(p.queuePrompt, args)], if firstFails then Rejected else Completed)
  {
    if p.queuePrompt.HostFn? then Run(None, [Call(p.queuePrompt, args)], if firstFails then Rejected else Completed)
    else Invoke(p.saved, args, answer, firstFails, secondFails)
  }

  /** The switches keep the patch valid, provided the host leaves its function in
      place while the wrapper is installed. */
  predicate Orderly(p: Patch, ev: PatchEvent) {
    ev.HostAssigns? ==> !p.initialized
  }

  lemma {:induction false} ReplayKeepsValid(p: Patch, evs: seq<PatchEvent>)
    requires PatchValid(p)
    requires OrderlyAll(p, evs)
    ensures PatchValid(Replay(p, evs))
    decreases |evs|
  {
    if evs != [] {
      ReplayKeepsValid(Step(p, evs[0]), evs[1..]);
    }
  }

  predicate OrderlyAll(p: Patch, evs: seq<PatchEvent>)
    decreases |evs|
  {
    evs == [] || (Orderly(p, evs[0]) && OrderlyAll(Step(p, evs[0]), evs[1..]))
  }

  /** What every call through `app.queuePrompt` relies on: while initialized the
      saved original is a host function (whatever is installed), otherwise nothing
      is saved and a host function is installed. */
  predicate Delegates(p: Patch) {
    if p.initialized then p.saved.Some? && p.saved.value.HostFn? else p.saved.None? && p.queuePrompt.HostFn?
  }

  lemma ValidDelegates(p: Patch)
    requires PatchValid(p)
    ensures Delegates(p)
  {
  }

  /** Any switch, and any assignment by the host, even while the wrapper is
      installed, keeps `Delegates`. */
  lemma {:induction false} ReplayKeepsDelegates(p: Patch, evs: seq<PatchEvent>)
    requires Delegates(p)
    ensures Delegates(Replay(p, evs))
    decreases |evs|
  {
    if evs != [] {
      ReplayKeepsDelegates(Step(p, evs[0]), evs[1..]);
    }
  }

  /** After any sequence of switches and host assignments, every call reaches the
      host's function, never a wrapper: switching the setting on and off never
      makes the wrapper wrap itself. */
  lemma {:induction false} CallsReachHost(p: Patch, evs: seq<PatchEvent>, args: seq<Arg>,
                                          answer: Answer, firstFails: bool, secondFails: bool)
    requires Delegates(p)
    ensures var r := CallQueue(Replay(p, evs), args, answer, firstFails, secondFails);
      forall k :: 0 <= k < |r.calls| ==> r.calls[k].target.HostFn? && r.calls[k].args == args
  {
    ReplayKeepsDelegates(p, evs);
  }
}

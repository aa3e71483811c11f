// Any number of transport tasks and one UI task over two locks, a request
// queue and one response queue per question: src/cmd_lock.h:42-65,
// src/main.c:235-300, src/ui/ui_task.c:575-853 and the transports' task loops.
// Every step below is one blocking call, or one release, of one task.
module LockProtocol {
  import opened Options
  import Approval

  datatype Verdict = Yes | No | TimedOut | Unavailable

  // Where a transport is in its command.
  datatype Phase =
    | Idle
    | WantCmd                                  // cmd_lock_acquire
    | HasCmd                                   // vault_lock_acquire
    | Handling                                 // inside dispatcher_handle, both locks held
    | Asking                                   // in a confirm callback, vault_lock released
    | Waiting(token: nat)                      // xQueueReceive on its own response queue
    | Answered(token: nat, verdict: Verdict)   // vault_lock_acquire again
    | Leaving                                  // vault_lock released, cmd_lock_release next

  datatype Request = Request(token: nat, from: nat)
  datatype Answer = Answer(about: nat, verdict: Verdict)

  // The record of a question on screen: when it began, its timeout, and every
  // poll of the buttons since.
  datatype Record = Record(now: int, timeoutMs: nat, polls: seq<Approval.Sample>)

  const NOT_SHOWN: Record := Record(0, 0, [])

  // Where the UI task is in its loop.
  datatype Ui =
    | Top                                        // polling the request queue
    | Servicing(req: Request, prompt: Approval.State, record: Record)   // polling the buttons
    | Replying(req: Request, verdict: Verdict, record: Record)          // xQueueSend to the response queue
    | Holding                                    // the outcome stays on screen
    | WantVault(sections: nat)                   // vault_lock_acquire, so many times before the loop ends
    | InVault(sections: nat)

  datatype Owner = ByTransport(i: nat) | ByUi

  datatype State = State(tasks: seq<Phase>, cmd: Option<nat>, vault: Option<Owner>, queue: seq<Request>,
                         responses: map<nat, seq<Answer>>, ui: Ui, nextToken: nat)

  const QUEUE_CAPACITY := 4
  const RESPONSE_CAPACITY := 1
  // A delay of 20 ms between polls lasts at least half as long, on a clock that
  // ticks every 10 ms or faster. There is none after the first poll, which is
  // made before the card is drawn.
  const POLL_US := 10 * 1000

  function LastPoll(record: Record): int {
    if record.polls == [] then record.now else record.polls[|record.polls| - 1].at
  }

  function NextPoll(record: Record): int {
    LastPoll(record) + if |record.polls| <= 1 then 0 else POLL_US
  }

  function VerdictOf(outcome: Approval.Outcome): Verdict {
    match outcome
    case Granted => Yes
    case Denied => No
    case _ => TimedOut
  }

  // One poll of the prompt, and what follows from it.
  function Polled(req: Request, prompt: Approval.State, record: Record, sample: Approval.Sample): Ui {
    var next := Approval.Poll(prompt, sample);
    var more := record.(polls := record.polls + [sample]);
    if next.outcome == Approval.Pending then Servicing(req, next, more)
    else Replying(req, VerdictOf(next.outcome), more)
  }

  // The first, at the time the prompt begins.
  function Shown(req: Request, timeoutMs: nat, sample: Approval.Sample): Ui {
    Polled(req, Approval.Begin(sample.at, timeoutMs), Record(sample.at, timeoutMs, []), sample)
  }

  ghost predicate Init(s: State) {
    && (forall i | 0 <= i < |s.tasks| :: s.tasks[i] == Idle)
    && s.cmd == None && s.vault == None && s.queue == [] && s.responses == map[] && s.ui == Top
  }

  // ---- The steps of transport i ----

  // releases is what the confirm callbacks do: true in the code. It is a
  // parameter only to show, below, what happens otherwise.
  ghost predicate TaskStep(s: State, i: nat, v: State, releases: bool) {
    && i < |s.tasks|
    && match s.tasks[i]
       case Idle => v == s.(tasks := s.tasks[i := WantCmd])
       case WantCmd => s.cmd == None && v == s.(tasks := s.tasks[i := HasCmd], cmd := Some(i))
       case HasCmd => s.vault == None && v == s.(tasks := s.tasks[i := Handling], vault := Some(ByTransport(i)))
       case Handling =>
         || v == s.(tasks := s.tasks[i := Leaving], vault := None)
         || v == s.(tasks := s.tasks[i := Asking], vault := if releases then None else s.vault)
       case Asking =>
         || (|s.queue| < QUEUE_CAPACITY
             && v == s.(tasks := s.tasks[i := Waiting(s.nextToken)],
                        queue := s.queue + [Request(s.nextToken, i)],
                        responses := s.responses[s.nextToken := []],
                        nextToken := s.nextToken + 1))
         || v == s.(tasks := s.tasks[i := Answered(s.nextToken, Unavailable)])
       case Waiting(token) =>
         && token in s.responses && s.responses[token] != []
         && v == s.(tasks := s.tasks[i := Answered(token, s.responses[token][0].verdict)],
                    responses := s.responses - {token})
       case Answered(token, verdict) =>
         && (!releases || s.vault == None)
         && v == s.(tasks := s.tasks[i := Handling], vault := Some(ByTransport(i)))
       case Leaving => v == s.(tasks := s.tasks[i := Idle], cmd := None)
  }

  // ---- The steps of the UI task ----

  ghost predicate UiStep(s: State, v: State) {
    match s.ui
    case Top =>
      if s.queue != [] then
        || v == s.(queue := s.queue[1..], ui := Replying(s.queue[0], Unavailable, NOT_SHOWN))
        || (exists timeoutMs: nat, sample: Approval.Sample ::
              v == s.(queue := s.queue[1..], ui := Shown(s.queue[0], timeoutMs, sample)))
      else
        || v == s
        || (exists k: nat :: 0 < k && v == s.(ui := WantVault(k)))
        || (s.vault == None && exists k: nat :: 0 < k && v == s.(ui := InVault(k), vault := Some(ByUi)))
    case Servicing(req, prompt, record) =>
      exists sample: Approval.Sample ::
        sample.at >= NextPoll(record) && v == s.(ui := Polled(req, prompt, record, sample))
    case Replying(req, verdict, _) =>
      && req.token in s.responses && |s.responses[req.token]| < RESPONSE_CAPACITY
      && v == s.(responses := s.responses[req.token := s.responses[req.token] + [Answer(req.token, verdict)]],
                 ui := if verdict == Unavailable then WantVault(1) else Holding)
    case Holding => v == s.(ui := WantVault(1))
    case WantVault(k) => s.vault == None && v == s.(ui := InVault(k), vault := Some(ByUi))
    case InVault(k) => v == s.(ui := if k <= 1 then Top else WantVault(k - 1), vault := None)
  }

  ghost predicate Step(s: State, v: State) {
    UiStep(s, v) || exists i: nat :: TaskStep(s, i, v, true)
  }

  // ---- What every step keeps ----

  predicate HoldsCmd(p: Phase) {
    !p.Idle? && !p.WantCmd?
  }

  predicate Engaged(ui: Ui) {
    ui.Servicing? || ui.Replying?
  }

  // The question under way: still queued, on screen, or answered and not yet
  // picked up. There is exactly one of it.
  ghost predicate Conversation(s: State, i: nat, token: nat) {
    && token < s.nextToken && s.responses.Keys == {token}
    && ((s.queue == [Request(token, i)] && !Engaged(s.ui) && s.responses[token] == [])
        || (s.queue == [] && Engaged(s.ui) && s.ui.req == Request(token, i) && s.responses[token] == [])
        || (s.queue == [] && !Engaged(s.ui) && |s.responses[token]| == 1 && s.responses[token][0].about == token))
  }

  ghost predicate NoConversation(s: State) {
    s.queue == [] && s.responses == map[] && !Engaged(s.ui)
  }

  ghost predicate Locks(s: State) {
    && (forall i | 0 <= i < |s.tasks| :: HoldsCmd(s.tasks[i]) <==> s.cmd == Some(i))
    && (s.cmd.Some? ==> s.cmd.value < |s.tasks|)
    && (forall i | 0 <= i < |s.tasks| :: s.tasks[i] == Handling <==> s.vault == Some(ByTransport(i)))
    && (s.vault.Some? && s.vault.value.ByTransport? ==> s.vault.value.i < |s.tasks|)
    && (s.ui.InVault? <==> s.vault == Some(ByUi))
  }

  ghost predicate Talk(s: State) {
    if s.cmd.Some? && s.cmd.value < |s.tasks| && s.tasks[s.cmd.value].Waiting?
    then Conversation(s, s.cmd.value, s.tasks[s.cmd.value].token)
    else NoConversation(s)
  }

  ghost predicate Inv(s: State) {
    Locks(s) && Talk(s)
  }

  lemma InitHolds(s: State)
    requires Init(s)
    ensures Inv(s)
  {
  }

  lemma TaskStepKeepsLocks(s: State, i: nat, v: State)
    requires Locks(s) && TaskStep(s, i, v, true)
    ensures Locks(v)
  {
  }

  lemma TaskStepKeepsTalk(s: State, i: nat, v: State)
    requires Inv(s) && TaskStep(s, i, v, true)
    ensures Talk(v)
  {
    if HoldsCmd(s.tasks[i]) {
      assert s.cmd == Some(i);
    }
  }

  lemma UiStepKeepsInv(s: State, v: State)
    requires Inv(s) && UiStep(s, v)
    ensures Inv(v)
  {
  }

  lemma StepKeepsInv(s: State, v: State)
    requires Inv(s) && Step(s, v)
    ensures Inv(v)
  {
    hide Locks, Talk;
    if UiStep(s, v) {
      UiStepKeepsInv(s, v);
    } else {
      var i: nat :| TaskStep(s, i, v, true);
      TaskStepKeepsLocks(s, i, v);
      TaskStepKeepsTalk(s, i, v);
    }
  }

  // ---- Runs ----

  ghost predicate Run(ss: seq<State>) {
    |ss| > 0 && Init(ss[0]) && forall k | 0 <= k < |ss| - 1 :: Step(ss[k], ss[k + 1])
  }

  lemma {:induction false} Reachable(ss: seq<State>, k: nat)
    requires Run(ss) && k < |ss|
    ensures Inv(ss[k])
  {
    if k == 0 {
      InitHolds(ss[0]);
    } else {
      Reachable(ss, k - 1);
      hide Inv, Step, Init;
      StepKeepsInv(ss[k - 1], ss[k]);
    }
  }

  // One command at a time is inside the dispatcher, one question at a time is
  // outstanding, and so neither queue is ever full when something is sent.
  lemma MutualExclusion(ss: seq<State>, k: nat, i: nat, j: nat)
    requires Run(ss) && k < |ss| && i < |ss[k].tasks| && j < |ss[k].tasks|
    ensures HoldsCmd(ss[k].tasks[i]) && HoldsCmd(ss[k].tasks[j]) ==> i == j
    ensures ss[k].tasks[i].Asking? ==> ss[k].queue == [] && ss[k].responses == map[] && !Engaged(ss[k].ui)
    ensures |ss[k].queue| + (if Engaged(ss[k].ui) then 1 else 0) <= 1
    ensures ss[k].ui.Replying? ==>
              ss[k].ui.req.token in ss[k].responses && ss[k].responses[ss[k].ui.req.token] == []
  {
    Reachable(ss, k);
    hide Run;
    var s := ss[k];
    if HoldsCmd(s.tasks[i]) && HoldsCmd(s.tasks[j]) {
      assert s.cmd == Some(i) && s.cmd == Some(j);
    }
  }

  // ---- Each answer reaches its own requester ----

  // About to send this verdict in reply to this request.
  predicate Replies(ui: Ui, req: Request, verdict: Verdict) {
    ui.Replying? && ui.req == req && ui.verdict == verdict
  }

  // At some earlier point the UI task was about to send exactly this verdict
  // in reply to exactly this request.
  ghost predicate Decided(ss: seq<State>, k: nat, req: Request, verdict: Verdict)
    requires k < |ss|
  {
    exists j | 0 <= j <= k :: Replies(ss[j].ui, req, verdict)
  }

  lemma DecidedLater(ss: seq<State>, k: nat, req: Request, verdict: Verdict)
    requires k + 1 < |ss| && Decided(ss, k, req, verdict)
    ensures Decided(ss, k + 1, req, verdict)
  {
  }

  lemma {:induction false} AnswersWereDecided(ss: seq<State>, k: nat, i: nat, token: nat)
    requires Run(ss) && k < |ss| && i < |ss[k].tasks| && ss[k].tasks[i] == Waiting(token)
    requires token in ss[k].responses && ss[k].responses[token] != []
    ensures Decided(ss, k, Request(token, i), ss[k].responses[token][0].verdict)
  {
    if k > 0 {
      Reachable(ss, k - 1);
      Reachable(ss, k);
      var s, v := ss[k - 1], ss[k];
      assert Step(s, v);
      if UiStep(s, v) && !HasAnswer(s, i, token) {
        AnswerArrives(s, v, i, token);
        assert Replies(ss[k - 1].ui, Request(token, i), v.responses[token][0].verdict);
      } else {
        if !UiStep(s, v) {
          var j: nat :| TaskStep(s, j, v, true);
          TasksBringNoAnswer(s, j, v, i, token);
        }
        AnswersWereDecided(ss, k - 1, i, token);
        AnswerStays(s, v, i, token);
        DecidedLater(ss, k - 1, Request(token, i), v.responses[token][0].verdict);
      }
    }
  }

  lemma AnswerStays(s: State, v: State, i: nat, token: nat)
    requires Inv(s) && Step(s, v) && i < |s.tasks| && i < |v.tasks|
    requires s.tasks[i] == Waiting(token) == v.tasks[i]
    requires token in s.responses && s.responses[token] != []
    ensures token in v.responses && v.responses[token] == s.responses[token]
  {
    assert s.cmd == Some(i);
    if !UiStep(s, v) {
      var j: nat :| TaskStep(s, j, v, true);
      assert HoldsCmd(s.tasks[j]) ==> j == i;
    }
  }

  ghost predicate HasAnswer(s: State, i: nat, token: nat) {
    i < |s.tasks| && s.tasks[i] == Waiting(token) && token in s.responses && s.responses[token] != []
  }

  lemma TasksBringNoAnswer(s: State, j: nat, v: State, i: nat, token: nat)
    requires Inv(s) && Inv(v) && TaskStep(s, j, v, true) && HasAnswer(v, i, token)
    ensures HasAnswer(s, i, token)
  {
    assert v.cmd == Some(i);
  }

  lemma AnswerArrives(s: State, v: State, i: nat, token: nat)
    requires Inv(s) && UiStep(s, v) && HasAnswer(v, i, token) && !HasAnswer(s, i, token)
    ensures Replies(s.ui, Request(token, i), v.responses[token][0].verdict)
  {
    assert s.cmd == Some(i);
  }

  // What a transport takes off its response queue is what the owner, or the
  // deadline, decided about its own question.
  lemma VerdictIsOwn(ss: seq<State>, k: nat, i: nat, token: nat, verdict: Verdict)
    requires Run(ss) && k + 1 < |ss| && i < |ss[k].tasks| && ss[k].tasks[i] == Waiting(token)
    requires TaskStep(ss[k], i, ss[k + 1], true) && ss[k + 1].tasks[i] == Answered(token, verdict)
    ensures Decided(ss, k, Request(token, i), verdict)
  {
    AnswersWereDecided(ss, k, i, token);
  }

  // ---- A verdict is what the polls say ----

  // The prompt as the polls on record leave it.
  ghost function Left(record: Record): Approval.State {
    Approval.After(Approval.Begin(record.now, record.timeoutMs), record.polls)
  }

  ghost function LeftBefore(record: Record): Approval.State
    requires record.polls != []
  {
    Approval.After(Approval.Begin(record.now, record.timeoutMs), record.polls[..|record.polls| - 1])
  }

  // What is on screen is the prompt that the polls on record made; and a
  // verdict is the outcome of the last of them.
  ghost predicate Honest(ui: Ui) {
    match ui
    case Servicing(_, prompt, record) =>
      && record.polls != [] && Approval.Monotone(record.polls)
      && prompt == Left(record) && prompt.outcome == Approval.Pending
    case Replying(_, verdict, record) =>
      verdict != Unavailable ==>
        && record.polls != [] && Approval.Monotone(record.polls) && LeftBefore(record).outcome == Approval.Pending
        && Left(record).outcome != Approval.Pending && verdict == VerdictOf(Left(record).outcome)
    case _ => true
  }

  lemma OneMorePoll(record: Record, sample: Approval.Sample)
    requires Approval.Monotone(record.polls) && sample.at >= LastPoll(record)
    ensures var more := record.(polls := record.polls + [sample]);
            && Approval.Monotone(more.polls) && LeftBefore(more) == Left(record)
            && Left(more) == Approval.Poll(Left(record), sample)
  {
    hide Approval.Poll, Approval.Begin, Approval.After;
    var more := record.polls + [sample];
    Approval.AfterNext(Approval.Begin(record.now, record.timeoutMs), more, |record.polls|);
    assert more[..|record.polls|] == record.polls && more[..|record.polls| + 1] == more;
  }

  lemma PolledIsHonest(req: Request, prompt: Approval.State, record: Record, sample: Approval.Sample)
    requires Approval.Monotone(record.polls) && sample.at >= LastPoll(record)
    requires prompt == Left(record) && prompt.outcome == Approval.Pending
    ensures Honest(Polled(req, prompt, record, sample))
  {
    OneMorePoll(record, sample);
    hide Left, LeftBefore, Approval.Monotone, Approval.Poll;
  }

  lemma ShownIsHonest(req: Request, timeoutMs: nat, sample: Approval.Sample)
    ensures Honest(Shown(req, timeoutMs, sample))
  {
    hide Polled, Honest, Approval.Poll;
    PolledIsHonest(req, Approval.Begin(sample.at, timeoutMs), Record(sample.at, timeoutMs, []), sample);
  }

  lemma UiStepIsHonest(s: State, v: State)
    requires UiStep(s, v) && Honest(s.ui)
    ensures Honest(v.ui)
  {
    if s.ui.Servicing? {
      var sample: Approval.Sample :|
        sample.at >= NextPoll(s.ui.record) && v == s.(ui := Polled(s.ui.req, s.ui.prompt, s.ui.record, sample));
      PolledIsHonest(s.ui.req, s.ui.prompt, s.ui.record, sample);
    } else if s.ui.Top? && v.ui != s.ui && s.queue != [] && v.ui != Replying(s.queue[0], Unavailable, NOT_SHOWN) {
      var timeoutMs: nat, sample: Approval.Sample :|
        v == s.(queue := s.queue[1..], ui := Shown(s.queue[0], timeoutMs, sample));
      ShownIsHonest(s.queue[0], timeoutMs, sample);
    }
  }

  lemma TasksLeaveTheScreen(s: State, i: nat, v: State)
    requires TaskStep(s, i, v, true)
    ensures v.ui == s.ui
  {
  }

  lemma {:induction false} VerdictsAreHonest(ss: seq<State>, k: nat)
    requires Run(ss) && k < |ss|
    ensures Honest(ss[k].ui)
  {
    if k > 0 {
      assert Step(ss[k - 1], ss[k]);
      hide Run, UiStep, TaskStep, Honest;
      VerdictsAreHonest(ss, k - 1);
      if UiStep(ss[k - 1], ss[k]) {
        UiStepIsHonest(ss[k - 1], ss[k]);
      } else {
        var i: nat :| TaskStep(ss[k - 1], i, ss[k], true);
        TasksLeaveTheScreen(ss[k - 1], i, ss[k]);
      }
    }
  }

  // A verdict that the prompt gave is the prompt's: yes if and only if the polls
  // grant, no if and only if they deny, and no answer if and only if they let it
  // expire.
  lemma VerdictIsTheOutcome(ss: seq<State>, k: nat)
    requires Run(ss) && k < |ss| && ss[k].ui.Replying? && ss[k].ui.verdict != Unavailable
    ensures var outcome := Left(ss[k].ui.record).outcome;
            && (ss[k].ui.verdict == Yes <==> outcome == Approval.Granted)
            && (ss[k].ui.verdict == No <==> outcome == Approval.Denied)
            && (ss[k].ui.verdict == TimedOut <==> outcome == Approval.Expired)
  {
    VerdictsAreHonest(ss, k);
    hide Run, Left, LeftBefore;
  }

  // And the record is of this run: each poll in it was, at some earlier point,
  // the last one made for this very question.
  ghost predicate Engages(ui: Ui, req: Request, polls: seq<Approval.Sample>) {
    Engaged(ui) && ui.req == req && ui.record.polls == polls
  }

  lemma OnePollAtATime(s: State, v: State)
    requires Step(s, v) && Engaged(v.ui) && v.ui.record.polls != []
    ensures || v.ui == s.ui || |v.ui.record.polls| == 1
            || (s.ui.Servicing? && s.ui.req == v.ui.req
                && v.ui.record.polls[..|v.ui.record.polls| - 1] == s.ui.record.polls)
  {
    hide Approval.Poll;
    if UiStep(s, v) {
      if s.ui.Servicing? {
        var sample: Approval.Sample :|
          sample.at >= NextPoll(s.ui.record) && v == s.(ui := Polled(s.ui.req, s.ui.prompt, s.ui.record, sample));
      }
    } else {
      var i: nat :| TaskStep(s, i, v, true);
      TasksLeaveTheScreen(s, i, v);
    }
  }

  lemma {:induction false} PollsWereMade(ss: seq<State>, k: nat, n: nat)
    requires Run(ss) && k < |ss| && Engaged(ss[k].ui) && 0 < n <= |ss[k].ui.record.polls|
    ensures exists j | 0 <= j <= k :: Engages(ss[j].ui, ss[k].ui.req, ss[k].ui.record.polls[..n])
  {
    var polls := ss[k].ui.record.polls;
    if n == |polls| {
      assert polls[..n] == polls;
      assert Engages(ss[k].ui, ss[k].ui.req, polls[..n]);
    } else {
      assert k > 0;
      assert Step(ss[k - 1], ss[k]);
      OnePollAtATime(ss[k - 1], ss[k]);
      hide Run, Step;
      var before := ss[k - 1].ui.record.polls;
      PollsWereMade(ss, k - 1, n);
      assert before[..n] == polls[..n];
      var j :| 0 <= j <= k - 1 && Engages(ss[j].ui, ss[k - 1].ui.req, before[..n]);
    }
  }

  // ---- A yes is the owner's hold, a no is a cancel ----

  // The polls end in a hold of two seconds, begun by a press before any poll
  // saw the deadline, without a gap of 40 ms, and with no fresh cancel down.
  ghost predicate HeldForYes(record: Record, i: nat) {
    var polls, last := record.polls, |record.polls| - 1;
    && 0 < i < |polls| && !polls[i - 1].approve && polls[i].approve && polls[last].approve
    && polls[last].at - polls[i].at >= 2000000
    && (forall p, q | i < p <= q < last && Approval.Gap(polls, p, q) ::
          polls[q].at - polls[p].at < 40000)
    && (!polls[last].cancel || forall j | 0 <= j <= last :: polls[j].cancel)
    && (forall j | 0 <= j < i :: polls[j].at < record.now + record.timeoutMs * 1000)
  }

  // They end in a quarter of a second of cancel, seen released before.
  ghost predicate CancelledForNo(record: Record, i: nat) {
    var polls, last := record.polls, |record.polls| - 1;
    && 0 < i < |polls| && polls[last].at - polls[i].at >= 250000
    && (forall j | i <= j <= last :: polls[j].cancel) && exists j | 0 <= j < i :: !polls[j].cancel
  }

  lemma YesMeansHold(ui: Ui) returns (i: nat)
    requires Honest(ui) && ui.Replying? && ui.verdict == Yes
    ensures HeldForYes(ui.record, i)
  {
    var record := ui.record;
    var last := |record.polls| - 1;
    assert record.polls[..last + 1] == record.polls;
    hide Approval.After, Approval.Begin;
    i := Approval.GrantMeansHold(record.now, record.timeoutMs, record.polls, last);
  }

  lemma NoMeansCancel(ui: Ui) returns (i: nat)
    requires Honest(ui) && ui.Replying? && ui.verdict == No
    ensures CancelledForNo(ui.record, i)
  {
    var record := ui.record;
    var last := |record.polls| - 1;
    assert record.polls[..last + 1] == record.polls;
    hide Approval.After, Approval.Begin;
    i := Approval.DenialMeansCancel(record.now, record.timeoutMs, record.polls, last);
  }

  // So whenever a transport is told yes, there was a point j in this run at
  // which the UI task was about to answer this very question so, and the polls
  // it had made for it, on record there, end in the owner's hold; if it is told
  // no, in a cancel.
  lemma YesIsAHold(ss: seq<State>, k: nat, i: nat, token: nat, verdict: Verdict) returns (j: nat, press: nat)
    requires Run(ss) && k + 1 < |ss| && i < |ss[k].tasks| && ss[k].tasks[i] == Waiting(token)
    requires TaskStep(ss[k], i, ss[k + 1], true) && ss[k + 1].tasks[i] == Answered(token, verdict)
    ensures j <= k && Replies(ss[j].ui, Request(token, i), verdict)
    ensures verdict == Yes ==> HeldForYes(ss[j].ui.record, press)
    ensures verdict == No ==> CancelledForNo(ss[j].ui.record, press)
  {
    VerdictIsOwn(ss, k, i, token, verdict);
    j :| j <= k && Replies(ss[j].ui, Request(token, i), verdict);
    VerdictsAreHonest(ss, j);
    hide Run, Honest, HeldForYes, CancelledForNo;
    press := 0;
    if verdict == Yes {
      press := YesMeansHold(ss[j].ui);
    } else if verdict == No {
      press := NoMeansCancel(ss[j].ui);
    }
  }

  // ---- No deadlock ----

  ghost predicate TaskCanMove(s: State, i: nat) {
    exists v :: TaskStep(s, i, v, true)
  }

  ghost predicate UiCanMove(s: State) {
    exists v :: UiStep(s, v)
  }

  // Task j waits for something only the UI task can provide.
  predicate WaitsForUi(s: State, j: nat)
    requires j < |s.tasks|
  {
    match s.tasks[j]
    case Waiting(token) => token in s.responses && s.responses[token] == []
    case HasCmd => s.vault == Some(ByUi)
    case Answered(_, _) => s.vault == Some(ByUi)
    case _ => false
  }

  lemma HolderMoves(s: State, j: nat)
    requires Inv(s) && j < |s.tasks| && s.cmd == Some(j)
    ensures TaskCanMove(s, j) || WaitsForUi(s, j)
  {
    assert HoldsCmd(s.tasks[j]);
    match s.tasks[j] {
      case HasCmd =>
        VaultOwner(s, j);
        if s.vault == None {
          assert TaskStep(s, j, s.(tasks := s.tasks[j := Handling], vault := Some(ByTransport(j))), true);
        }
      case Handling => assert TaskStep(s, j, s.(tasks := s.tasks[j := Leaving], vault := None), true);
      case Asking => assert TaskStep(s, j, s.(tasks := s.tasks[j := Answered(s.nextToken, Unavailable)]), true);
      case Waiting(token) =>
        if s.responses[token] != [] {
          assert TaskStep(s, j, s.(tasks := s.tasks[j := Answered(token, s.responses[token][0].verdict)],
                                   responses := s.responses - {token}), true);
        }
      case Answered(token, verdict) =>
        VaultOwner(s, j);
        if s.vault == None {
          assert TaskStep(s, j, s.(tasks := s.tasks[j := Handling], vault := Some(ByTransport(j))), true);
        }
      case Leaving => assert TaskStep(s, j, s.(tasks := s.tasks[j := Idle], cmd := None), true);
    }
  }

  // If the holder of cmd_lock does not hold vault_lock, no transport does.
  lemma VaultOwner(s: State, j: nat)
    requires Inv(s) && j < |s.tasks| && s.cmd == Some(j) && s.tasks[j] != Handling
    ensures s.vault == None || s.vault == Some(ByUi)
  {
    var owner := if s.vault.Some? && s.vault.value.ByTransport? then s.vault.value.i else j;
    assert HoldsCmd(s.tasks[owner]);
  }

  lemma UiMoves(s: State)
    requires Inv(s)
    ensures UiCanMove(s) || (s.ui.WantVault? && s.vault.Some? && s.vault.value.ByTransport?)
  {
    match s.ui {
      case Top =>
        if s.queue != [] {
          assert UiStep(s, s.(queue := s.queue[1..], ui := Replying(s.queue[0], Unavailable, NOT_SHOWN)));
        } else {
          assert UiStep(s, s);
        }
      case Servicing(req, prompt, record) =>
        var sample := Approval.Sample(false, false, NextPoll(record));
        assert UiStep(s, s.(ui := Polled(req, prompt, record, sample)));
      case Replying(req, verdict, _) =>
        var replies := s.responses[req.token] + [Answer(req.token, verdict)];
        assert UiStep(s, s.(responses := s.responses[req.token := replies],
                            ui := if verdict == Unavailable then WantVault(1) else Holding));
      case Holding => assert UiStep(s, s.(ui := WantVault(1)));
      case WantVault(k) =>
        if s.vault == None {
          assert UiStep(s, s.(ui := InVault(k), vault := Some(ByUi)));
        }
      case InVault(k) => assert UiStep(s, s.(ui := if k <= 1 then Top else WantVault(k - 1), vault := None));
    }
  }

  // In every reachable state every task can move, or the task it is waiting
  // for can.
  lemma NoDeadlock(ss: seq<State>, k: nat, i: nat)
    requires Run(ss) && k < |ss| && i < |ss[k].tasks|
    ensures var s := ss[k];
            TaskCanMove(s, i)
            || (s.cmd.Some? && s.cmd.value < |s.tasks|
                && (TaskCanMove(s, s.cmd.value) || (WaitsForUi(s, s.cmd.value) && UiCanMove(s))))
    ensures var s := ss[k];
            UiCanMove(s) || (s.ui.WantVault? && s.vault.Some? && s.vault.value.ByTransport?
                             && TaskCanMove(s, s.vault.value.i))
  {
    Reachable(ss, k);
    hide Run;
    var s := ss[k];
    UiMoves(s);
    if s.vault.Some? && s.vault.value.ByTransport? {
      var j := s.vault.value.i;
      assert s.tasks[j] == Handling && HoldsCmd(s.tasks[j]);
      assert TaskStep(s, j, s.(tasks := s.tasks[j := Leaving], vault := None), true);
    }
    if s.cmd.Some? {
      HolderMoves(s, s.cmd.value);
    } else if s.tasks[i].Idle? {
      assert TaskStep(s, i, s.(tasks := s.tasks[i := WantCmd]), true);
    } else {
      assert s.tasks[i].WantCmd?;
      assert TaskStep(s, i, s.(tasks := s.tasks[i := HasCmd], cmd := Some(i)), true);
    }
  }

  // ---- The UI task gets to the question ----

  // How many more polls a prompt can take.
  function PollsLeft(deadline: int, record: Record): nat {
    var last := LastPoll(record);
    (if |record.polls| <= 1 then 2 - |record.polls| else 0)
    + (if last >= deadline + Approval.HOLD_US then 0 else (deadline + Approval.HOLD_US - last) / POLL_US + 1)
  }

  lemma PollBringsItNearer(req: Request, prompt: Approval.State, record: Record, sample: Approval.Sample)
    requires sample.at >= NextPoll(record)
    ensures UiRank(Polled(req, prompt, record, sample)) < UiRank(Servicing(req, prompt, record))
  {
    if Approval.Poll(prompt, sample).outcome == Approval.Pending {
      Approval.PollStale(prompt, sample);
      if sample.at >= prompt.deadline + Approval.HOLD_US {
        Approval.PollLate(prompt, sample);
      }
    }
  }

  // How far the UI task is from the top of its loop, in its own steps.
  function UiRank(ui: Ui): nat {
    match ui
    case Top => 0
    case InVault(k) => 2 * k + 1
    case WantVault(k) => 2 * k + 2
    case Holding => 5
    case Replying(_, _, _) => 6
    case Servicing(_, prompt, record) => 7 + PollsLeft(prompt.deadline, record)
  }

  // What is left before the question is answered: whether it is still queued,
  // then the steps to go.
  function WaitRank(s: State, token: nat): (nat, nat) {
    if token in s.responses && s.responses[token] != [] then (0, 0)
    else if s.queue != [] then (2, UiRank(s.ui))
    else (1, UiRank(s.ui))
  }

  predicate Below(a: (nat, nat), b: (nat, nat)) {
    a.0 < b.0 || (a.0 == b.0 && a.1 < b.1)
  }

  // While a transport waits for an answer nothing can hold the UI task up, and
  // each step it takes brings the answer nearer.
  lemma UiReachesTheQuestion(s: State, i: nat, token: nat)
    requires Inv(s) && i < |s.tasks| && s.tasks[i] == Waiting(token) && WaitsForUi(s, i)
    ensures UiCanMove(s)
    ensures forall v | UiStep(s, v) :: Below(WaitRank(v, token), WaitRank(s, token))
  {
    assert s.cmd == Some(i);
    VaultOwner(s, i);
    UiMoves(s);
    hide Polled;
    forall v | UiStep(s, v)
      ensures Below(WaitRank(v, token), WaitRank(s, token))
    {
      if s.ui.Servicing? {
        var sample: Approval.Sample :|
          sample.at >= NextPoll(s.ui.record) && v == s.(ui := Polled(s.ui.req, s.ui.prompt, s.ui.record, sample));
        PollBringsItNearer(s.ui.req, s.ui.prompt, s.ui.record, sample);
      }
    }
  }

  // Nor can another transport put it off.
  lemma OthersDoNotDelay(s: State, i: nat, token: nat, j: nat, v: State)
    requires Inv(s) && i < |s.tasks| && s.tasks[i] == Waiting(token) && WaitsForUi(s, i)
    requires TaskStep(s, j, v, true)
    ensures WaitRank(v, token) == WaitRank(s, token)
  {
    assert s.cmd == Some(i);
    assert HoldsCmd(s.tasks[j]) ==> s.cmd == Some(j);
  }

  // ---- Why vault_lock is released around the wait ----

  // One transport asking, with vault_lock kept, while the owner browses.
  function StuckRun(): seq<State> {
    [ State([Idle], None, None, [], map[], Top, 0),
      State([WantCmd], None, None, [], map[], Top, 0),
      State([HasCmd], Some(0), None, [], map[], Top, 0),
      State([Handling], Some(0), Some(ByTransport(0)), [], map[], Top, 0),
      State([Handling], Some(0), Some(ByTransport(0)), [], map[], WantVault(1), 0),
      State([Asking], Some(0), Some(ByTransport(0)), [], map[], WantVault(1), 0),
      State([Waiting(0)], Some(0), Some(ByTransport(0)), [Request(0, 0)], map[0 := []], WantVault(1), 1) ]
  }

  lemma StuckRunIsARun(k: nat)
    requires k < 6
    ensures UiStep(StuckRun()[k], StuckRun()[k + 1]) || TaskStep(StuckRun()[k], 0, StuckRun()[k + 1], false)
  {
    var ss := StuckRun();
    if k == 3 {
      assert UiStep(ss[3], ss[4]);
    } else {
      assert ss[k].tasks[0 := ss[k + 1].tasks[0]] == ss[k + 1].tasks;
      assert TaskStep(ss[k], 0, ss[k + 1], false);
    }
  }

  // If the confirm callbacks kept vault_lock, a reachable state would be one
  // that nobody ever leaves.
  lemma KeepingTheLockDeadlocks()
    ensures Init(StuckRun()[0])
    ensures forall k | 0 <= k < 6 ::
              UiStep(StuckRun()[k], StuckRun()[k + 1]) || TaskStep(StuckRun()[k], 0, StuckRun()[k + 1], false)
    ensures StuckRun()[6].tasks[0].Waiting?
    ensures forall v :: !UiStep(StuckRun()[6], v) && !TaskStep(StuckRun()[6], 0, v, false)
  {
    forall k | 0 <= k < 6
      ensures UiStep(StuckRun()[k], StuckRun()[k + 1]) || TaskStep(StuckRun()[k], 0, StuckRun()[k + 1], false)
    {
      StuckRunIsARun(k);
    }
  }
}

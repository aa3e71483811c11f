// The two-second hold in front of every disclosure: src/proto/approval.c.
// Times are microseconds on a clock that does not go back.
module Approval {

  const HOLD_US := 2 * 1000 * 1000
  const RELEASE_BOUNCE_US := 40 * 1000
  const CANCEL_DEBOUNCE_US := 250 * 1000

  datatype Outcome = Pending | Granted | Denied | Expired

  // One poll: the raw levels of both buttons, and when.
  datatype Sample = Sample(approve: bool, cancel: bool, at: int)

  // approval_t.
  datatype State = State(deadline: int, outcome: Outcome, approveStale: bool, cancelStale: bool,
                         holding: bool, holdSince: int, releaseSeen: bool, releaseSince: int,
                         cancelDown: bool, cancelSince: int)

  function Begin(now: int, timeoutMs: nat): State {
    State(now + timeoutMs * 1000, Pending, true, true, false, 0, false, 0, false, 0)
  }

  // ---- One poll, in the order the code takes its decisions ----

  // A press counts only once that button has been seen released.
  function SeeReleases(a: State, s: Sample): State {
    a.(approveStale := a.approveStale && s.approve, cancelStale := a.cancelStale && s.cancel)
  }

  function SeeCancel(a: State, s: Sample): State {
    if s.cancel && !a.cancelStale then
      var since := if a.cancelDown then a.cancelSince else s.at;
      a.(cancelDown := true, cancelSince := since,
         outcome := if s.at - since >= CANCEL_DEBOUNCE_US then Denied else Pending)
    else a.(cancelDown := false)
  }

  function SeeHold(a: State, s: Sample): State {
    if s.approve && !a.approveStale then
      var since := if a.holding then a.holdSince else s.at;
      a.(holding := true, holdSince := since, releaseSeen := false,
         outcome := if !a.cancelDown && s.at - since >= HOLD_US then Granted else Pending)
    else if a.holding then
      if !a.releaseSeen then a.(releaseSeen := true, releaseSince := s.at)
      else if s.at - a.releaseSince >= RELEASE_BOUNCE_US then a.(holding := false, releaseSeen := false)
      else a
    else a
  }

  // Past the deadline only a hold that is still running keeps the prompt.
  function SeeDeadline(a: State, s: Sample): State {
    if s.at >= a.deadline
       && !(a.holding && s.at - a.holdSince < HOLD_US && s.at - a.deadline < HOLD_US)
    then a.(outcome := Expired) else a
  }

  function Poll(a: State, s: Sample): State {
    if a.outcome != Pending then a
    else
      var b := SeeCancel(SeeReleases(a, s), s);
      if b.outcome != Pending then b
      else
        var d := SeeHold(b, s);
        if d.outcome != Pending then d else SeeDeadline(d, s)
  }

  // ---- The code ----

  class Prompt {
    var deadline: int
    var outcome: Outcome
    var approveStale: bool
    var cancelStale: bool
    var holding: bool
    var holdSince: int
    var releaseSeen: bool
    var releaseSince: int
    var cancelDown: bool
    var cancelSince: int

    ghost function Now(): State
      reads this
    {
      State(deadline, outcome, approveStale, cancelStale, holding, holdSince, releaseSeen, releaseSince,
            cancelDown, cancelSince)
    }

    // approval_begin.
    constructor (now: int, timeoutMs: nat)
      ensures Now() == Begin(now, timeoutMs)
    {
      deadline := now + timeoutMs * 1000;
      outcome := Pending;
      approveStale, cancelStale := true, true;
      holding, holdSince, releaseSeen, releaseSince := false, 0, false, 0;
      cancelDown, cancelSince := false, 0;
    }

    // approval_poll.
    method Tick(approvePressed: bool, cancelPressed: bool, now: int) returns (result: Outcome)
      modifies this
      ensures Now() == Poll(old(Now()), Sample(approvePressed, cancelPressed, now)) && result == outcome
    {
      hide SeeCancel, SeeHold, SeeDeadline;
      if outcome != Pending {
        return outcome;
      }
      if !approvePressed {
        approveStale := false;
      }
      if !cancelPressed {
        cancelStale := false;
      }
      assert Now() == SeeReleases(old(Now()), Sample(approvePressed, cancelPressed, now));
      CheckCancel(cancelPressed && !cancelStale, Sample(approvePressed, cancelPressed, now));
      if outcome != Pending {
        return outcome;
      }
      CheckHold(approvePressed && !approveStale, Sample(approvePressed, cancelPressed, now));
      if outcome != Pending {
        return outcome;
      }
      CheckDeadline(Sample(approvePressed, cancelPressed, now));
      result := outcome;
    }

    method CheckCancel(pressed: bool, s: Sample)
      requires outcome == Pending && pressed == (s.cancel && !cancelStale)
      modifies this`cancelDown, this`cancelSince, this`outcome
      ensures Now() == SeeCancel(old(Now()), s)
    {
      if pressed {
        if !cancelDown {
          cancelDown := true;
          cancelSince := s.at;
        }
        if s.at - cancelSince >= CANCEL_DEBOUNCE_US {
          outcome := Denied;
        }
      } else {
        cancelDown := false;
      }
    }

    method CheckHold(pressed: bool, s: Sample)
      requires outcome == Pending && pressed == (s.approve && !approveStale)
      modifies this`holding, this`holdSince, this`releaseSeen, this`releaseSince, this`outcome
      ensures Now() == SeeHold(old(Now()), s)
    {
      if pressed {
        if !holding {
          holding := true;
          holdSince := s.at;
        }
        releaseSeen := false;
        if !cancelDown && s.at - holdSince >= HOLD_US {
          outcome := Granted;
        }
      } else if holding {
        if !releaseSeen {
          releaseSeen := true;
          releaseSince := s.at;
        } else if s.at - releaseSince >= RELEASE_BOUNCE_US {
          holding := false;
          releaseSeen := false;
        }
      }
    }

    method CheckDeadline(s: Sample)
      requires outcome == Pending
      modifies this`outcome
      ensures Now() == SeeDeadline(old(Now()), s)
    {
      if s.at >= deadline {
        var finishing := holding && s.at - holdSince < HOLD_US && s.at - deadline < HOLD_US;
        if !finishing {
          outcome := Expired;
        }
      }
    }
  }

  // approval_progress_permille.
  function ProgressPermille(a: State, now: int): (p: int)
    ensures 0 <= p <= 1000
    ensures a.outcome == Granted ==> p == 1000
    ensures a.outcome == Denied || a.outcome == Expired || (a.outcome == Pending && !a.holding) ==> p == 0
    ensures a.outcome == Pending && a.holding ==>
              var held := now - a.holdSince;
              p == if held <= 0 then 0 else if held >= 2000000 then 1000 else held / 2000
  {
    if a.outcome == Granted then 1000
    else if a.outcome != Pending || !a.holding then 0
    else
      var held := now - a.holdSince;
      if held <= 0 then 0 else if held >= HOLD_US then 1000 else held * 1000 / HOLD_US
  }

  // ---- Runs ----

  // The clock does not go back.
  ghost predicate Monotone(ss: seq<Sample>) {
    forall i, j | 0 <= i <= j < |ss| :: ss[i].at <= ss[j].at
  }

  function After(a: State, ss: seq<Sample>): State {
    if ss == [] then a else Poll(After(a, ss[..|ss| - 1]), ss[|ss| - 1])
  }

  lemma AfterNext(a: State, ss: seq<Sample>, k: nat)
    requires k < |ss|
    ensures After(a, ss[..k + 1]) == Poll(After(a, ss[..k]), ss[k])
  {
    assert ss[..k + 1][..k] == ss[..k];
    hide Poll;
  }

  // Outcomes absorb.
  lemma {:induction false} OutcomesAbsorb(a: State, ss: seq<Sample>, j: nat, k: nat)
    requires j <= k <= |ss| && After(a, ss[..j]).outcome != Pending
    ensures After(a, ss[..k]) == After(a, ss[..j])
    decreases k
  {
    if j < k {
      OutcomesAbsorb(a, ss, j, k - 1);
      AfterNext(a, ss, k - 1);
    }
  }

  // The released samples from p to q are one gap in the contact.
  ghost predicate Gap(ss: seq<Sample>, p: nat, q: nat) {
    p <= q < |ss| && forall i | p <= i <= q :: !ss[i].approve
  }

  // Since the press at sample i the button has been down but for bounce: every
  // gap before sample k spans less than 40 ms.
  ghost predicate HeldSince(ss: seq<Sample>, i: nat, k: nat) {
    && 0 < i < k <= |ss| && ss[i].approve && !ss[i - 1].approve
    && forall p, q | i < p <= q < k && Gap(ss, p, q) :: ss[q].at - ss[p].at < RELEASE_BOUNCE_US
  }

  // What the fields of a running hold mean.
  ghost predicate HoldFields(a: State, ss: seq<Sample>, k: nat, i: nat, r: nat) {
    && HeldSince(ss, i, k) && a.holdSince == ss[i].at
    && if a.releaseSeen then
         i < r < k && ss[r - 1].approve && Gap(ss, r, k - 1) && a.releaseSince == ss[r].at
       else ss[k - 1].approve
  }

  lemma PollStale(a: State, s: Sample)
    requires Poll(a, s).outcome == Pending
    ensures var b := Poll(a, s);
            && a.outcome == Pending && b.deadline == a.deadline
            && b.approveStale == (a.approveStale && s.approve) && b.cancelStale == (a.cancelStale && s.cancel)
  {
  }

  lemma OneMoreSample(a: State, b: State, ss: seq<Sample>, k: nat)
    requires k < |ss| && b.approveStale == (a.approveStale && ss[k].approve)
    requires b.cancelStale == (a.cancelStale && ss[k].cancel)
    requires (a.approveStale <==> forall j | 0 <= j < k :: ss[j].approve)
    requires (a.cancelStale <==> forall j | 0 <= j < k :: ss[j].cancel)
    ensures (b.approveStale <==> forall j | 0 <= j < k + 1 :: ss[j].approve)
    ensures (b.cancelStale <==> forall j | 0 <= j < k + 1 :: ss[j].cancel)
  {
  }

  lemma {:induction false} StaleMeaning(now: int, timeoutMs: nat, ss: seq<Sample>, k: nat)
    requires k <= |ss| && After(Begin(now, timeoutMs), ss[..k]).outcome == Pending
    ensures var a := After(Begin(now, timeoutMs), ss[..k]);
            && (a.approveStale <==> forall j | 0 <= j < k :: ss[j].approve)
            && (a.cancelStale <==> forall j | 0 <= j < k :: ss[j].cancel)
            && a.deadline == now + timeoutMs * 1000
  {
    if k > 0 {
      hide Poll, After, Begin;
      var before := After(Begin(now, timeoutMs), ss[..k - 1]);
      AfterNext(Begin(now, timeoutMs), ss, k - 1);
      PollStale(before, ss[k - 1]);
      StaleMeaning(now, timeoutMs, ss, k - 1);
      OneMoreSample(before, Poll(before, ss[k - 1]), ss, k - 1);
    }
  }

  // ---- What a running hold means ----

  // Where the hold began, and where the gap under way did. No poll before it
  // was at or past the deadline.
  lemma {:induction false} HoldMeaning(now: int, timeoutMs: nat, ss: seq<Sample>, k: nat) returns (i: nat, r: nat)
    requires k <= |ss| && Monotone(ss)
    requires var a := After(Begin(now, timeoutMs), ss[..k]); a.outcome == Pending && a.holding
    ensures HoldFields(After(Begin(now, timeoutMs), ss[..k]), ss, k, i, r)
    ensures forall j | 0 <= j < i :: ss[j].at < now + timeoutMs * 1000
  {
    var a := After(Begin(now, timeoutMs), ss[..k - 1]);
    hide Poll, After;
    AfterNext(Begin(now, timeoutMs), ss, k - 1);
    PollStale(a, ss[k - 1]);
    if a.holding {
      i, r := HoldMeaning(now, timeoutMs, ss, k - 1);
      StaleMeaning(now, timeoutMs, ss, k - 1);
      PollHolding(a, ss[k - 1]);
      r := HoldGoesOn(a, Poll(a, ss[k - 1]), ss, k - 1, i, r);
    } else {
      StaleMeaning(now, timeoutMs, ss, k - 1);
      PollFirstPress(a, ss[k - 1]);
      NotHeldMeansUp(now, timeoutMs, ss, k - 1);
      i, r := k - 1, 0;
      if k > 1 {
        NotHoldingIsEarly(now, timeoutMs, ss, k - 1);
      }
    }
  }

  // A button that could start a hold and has not is up.
  lemma NotHeldMeansUp(now: int, timeoutMs: nat, ss: seq<Sample>, k: nat)
    requires k <= |ss|
    requires var a := After(Begin(now, timeoutMs), ss[..k]); a.outcome == Pending && !a.holding && !a.approveStale
    ensures k > 0 && !ss[k - 1].approve
  {
    if k > 0 {
      AfterNext(Begin(now, timeoutMs), ss, k - 1);
      PollNotHeld(After(Begin(now, timeoutMs), ss[..k - 1]), ss[k - 1]);
    }
  }

  lemma PollNotHeld(a: State, s: Sample)
    requires var b := Poll(a, s); b.outcome == Pending && !b.holding && !b.approveStale
    ensures !s.approve
  {
  }

  // The poll that starts a hold.
  lemma PollFirstPress(a: State, s: Sample)
    requires !a.holding && Poll(a, s).outcome == Pending && Poll(a, s).holding
    ensures s.approve && !a.approveStale && Poll(a, s).holdSince == s.at && !Poll(a, s).releaseSeen
  {
  }

  // A poll during one.
  lemma PollHolding(a: State, s: Sample)
    requires a.holding && Poll(a, s).outcome == Pending && Poll(a, s).holding
    ensures Poll(a, s).holdSince == a.holdSince && Poll(a, s).releaseSeen == !(s.approve && !a.approveStale)
    ensures Poll(a, s).releaseSeen ==>
              if a.releaseSeen then
                Poll(a, s).releaseSince == a.releaseSince && s.at - a.releaseSince < RELEASE_BOUNCE_US
              else Poll(a, s).releaseSince == s.at
  {
  }

  // A gap that reaches k and begins after contact at r - 1 is no longer than
  // the time since r.
  lemma GapStartsLate(ss: seq<Sample>, p: nat, k: nat, r: nat)
    requires Monotone(ss) && Gap(ss, p, k) && 0 < r <= k && ss[r - 1].approve
    ensures r <= p && ss[k].at - ss[p].at <= ss[k].at - ss[r].at
  {
  }

  lemma HeldLonger(ss: seq<Sample>, i: nat, k: nat, r: nat)
    requires Monotone(ss) && k < |ss| && HeldSince(ss, i, k) && i < r <= k && ss[r - 1].approve
    requires !ss[k].approve ==> ss[k].at - ss[r].at < RELEASE_BOUNCE_US
    ensures HeldSince(ss, i, k + 1)
  {
    forall p, q | i < p <= q < k + 1 && Gap(ss, p, q)
      ensures ss[q].at - ss[p].at < RELEASE_BOUNCE_US
    {
      if q == k {
        GapStartsLate(ss, p, k, r);
      }
    }
  }

  lemma GapGrows(ss: seq<Sample>, r: nat, k: nat)
    requires 0 < k < |ss| && !ss[k].approve && (r == k || Gap(ss, r, k - 1))
    ensures Gap(ss, r, k)
  {
  }

  // One sample more: contact, the start of a gap, or a gap still short.
  lemma HoldGoesOn(a: State, b: State, ss: seq<Sample>, k: nat, i: nat, r: nat) returns (r2: nat)
    requires Monotone(ss) && k < |ss| && HoldFields(a, ss, k, i, r) && !a.approveStale
    requires b.holdSince == a.holdSince && b.releaseSeen == !ss[k].approve
    requires b.releaseSeen ==>
               if a.releaseSeen then b.releaseSince == a.releaseSince && ss[k].at - a.releaseSince < RELEASE_BOUNCE_US
               else b.releaseSince == ss[k].at
    ensures HoldFields(b, ss, k + 1, i, r2)
  {
    hide HeldSince, Gap, Monotone;
    HoldStarts(ss, i, k);
    r2 := if a.releaseSeen then r else k;
    HeldLonger(ss, i, k, r2);
    if b.releaseSeen {
      GapGrows(ss, r2, k);
    }
  }

  lemma HoldStarts(ss: seq<Sample>, i: nat, k: nat)
    requires HeldSince(ss, i, k)
    ensures i < k && ss[i].approve
  {
  }

  // ---- The main results ----

  // A grant comes only at the end of a hold of two seconds or more, begun by a
  // press right after the button was seen released, in contact but for bounce; and
  // at that poll no cancel is down that was pressed since the prompt began.
  // The hold does not begin after the first poll at or past the deadline.
  lemma GrantMeansHold(now: int, timeoutMs: nat, ss: seq<Sample>, k: nat) returns (i: nat)
    requires k < |ss| && Monotone(ss)
    requires After(Begin(now, timeoutMs), ss[..k]).outcome == Pending
    requires After(Begin(now, timeoutMs), ss[..k + 1]).outcome == Granted
    ensures 0 < i <= k && !ss[i - 1].approve && ss[i].approve
    ensures ss[k].approve && ss[k].at - ss[i].at >= 2000000
    ensures forall p, q | i < p <= q < k && Gap(ss, p, q) :: ss[q].at - ss[p].at < 40000
    ensures !ss[k].cancel || forall j | 0 <= j <= k :: ss[j].cancel
    ensures forall j | 0 <= j < i :: ss[j].at < now + timeoutMs * 1000
  {
    var a := After(Begin(now, timeoutMs), ss[..k]);
    AfterNext(Begin(now, timeoutMs), ss, k);
    hide After, Poll;
    PollGrants(a, ss[k]);
    StaleMeaning(now, timeoutMs, ss, k);
    var r;
    i, r := HoldMeaning(now, timeoutMs, ss, k);
  }

  lemma PollGrants(a: State, s: Sample)
    requires a.outcome == Pending && Poll(a, s).outcome == Granted
    ensures s.approve && !a.approveStale && (!s.cancel || a.cancelStale)
    ensures a.holding && s.at - a.holdSince >= HOLD_US
  {
  }

  // A denial comes only from a cancel that was seen released and then stayed
  // down for a quarter of a second.
  lemma {:induction false} CancelMeaning(now: int, timeoutMs: nat, ss: seq<Sample>, k: nat) returns (i: nat)
    requires k <= |ss|
    requires var a := After(Begin(now, timeoutMs), ss[..k]); a.outcome == Pending && a.cancelDown
    ensures var a := After(Begin(now, timeoutMs), ss[..k]);
            i < k && a.cancelSince == ss[i].at && (forall j | i <= j < k :: ss[j].cancel)
            && exists j | 0 <= j < i :: !ss[j].cancel
  {
    var a := After(Begin(now, timeoutMs), ss[..k - 1]);
    AfterNext(Begin(now, timeoutMs), ss, k - 1);
    PollStale(a, ss[k - 1]);
    PollCancel(a, ss[k - 1]);
    hide After, Poll;
    if a.cancelDown {
      i := CancelMeaning(now, timeoutMs, ss, k - 1);
    } else {
      StaleMeaning(now, timeoutMs, ss, k - 1);
      i := k - 1;
    }
  }

  lemma PollCancel(a: State, s: Sample)
    requires a.outcome == Pending && Poll(a, s).outcome == Pending && Poll(a, s).cancelDown
    ensures s.cancel && !a.cancelStale
    ensures Poll(a, s).cancelSince == if a.cancelDown then a.cancelSince else s.at
  {
  }

  lemma DenialMeansCancel(now: int, timeoutMs: nat, ss: seq<Sample>, k: nat) returns (i: nat)
    requires k < |ss| && After(Begin(now, timeoutMs), ss[..k]).outcome == Pending
    requires After(Begin(now, timeoutMs), ss[..k + 1]).outcome == Denied
    ensures i <= k && ss[k].at - ss[i].at >= 250000
    ensures (forall j | i <= j <= k :: ss[j].cancel) && exists j | 0 <= j < i :: !ss[j].cancel
  {
    var a := After(Begin(now, timeoutMs), ss[..k]);
    AfterNext(Begin(now, timeoutMs), ss, k);
    hide After, Poll;
    PollDenies(a, ss[k]);
    i := CancelMeaning(now, timeoutMs, ss, k);
  }

  lemma PollDenies(a: State, s: Sample)
    requires a.outcome == Pending && Poll(a, s).outcome == Denied
    ensures a.cancelDown && s.cancel && s.at - a.cancelSince >= CANCEL_DEBOUNCE_US
  {
  }

  // A cancel line pressed at every poll changes nothing: same outcomes, same
  // holds, as one never pressed.
  function WithCancel(ss: seq<Sample>, level: bool): (r: seq<Sample>)
    ensures |r| == |ss|
  {
    seq(|ss|, i requires 0 <= i < |ss| => ss[i].(cancel := level))
  }

  lemma {:induction false} StuckCancelIsHarmless(now: int, timeoutMs: nat, ss: seq<Sample>, k: nat)
    requires k <= |ss|
    ensures var stuck := After(Begin(now, timeoutMs), WithCancel(ss, true)[..k]);
            var free := After(Begin(now, timeoutMs), WithCancel(ss, false)[..k]);
            Twins(stuck, free)
  {
    if k > 0 {
      hide Poll, After, Begin, Twins;
      StuckCancelIsHarmless(now, timeoutMs, ss, k - 1);
      AfterNext(Begin(now, timeoutMs), WithCancel(ss, true), k - 1);
      AfterNext(Begin(now, timeoutMs), WithCancel(ss, false), k - 1);
      StuckPoll(After(Begin(now, timeoutMs), WithCancel(ss, true)[..k - 1]),
                After(Begin(now, timeoutMs), WithCancel(ss, false)[..k - 1]), ss[k - 1]);
    }
  }

  // Two prompts that differ at most in what they think of the cancel line.
  predicate Twins(stuck: State, free: State) {
    stuck.cancelStale && stuck.(cancelStale := free.cancelStale) == free && !free.cancelDown
  }

  lemma TwinsSeeCancel(stuck: State, free: State, s: Sample)
    requires Twins(stuck, free)
    ensures Twins(SeeCancel(SeeReleases(stuck, s.(cancel := true)), s.(cancel := true)),
                  SeeCancel(SeeReleases(free, s.(cancel := false)), s.(cancel := false)))
  {
  }

  lemma TwinsSeeHold(stuck: State, free: State, s: Sample)
    requires Twins(stuck, free)
    ensures Twins(SeeHold(stuck, s.(cancel := true)), SeeHold(free, s.(cancel := false)))
  {
  }

  lemma TwinsSeeDeadline(stuck: State, free: State, s: Sample)
    requires Twins(stuck, free)
    ensures Twins(SeeDeadline(stuck, s.(cancel := true)), SeeDeadline(free, s.(cancel := false)))
  {
  }

  lemma StuckPoll(stuck: State, free: State, s: Sample)
    requires Twins(stuck, free)
    ensures Twins(Poll(stuck, s.(cancel := true)), Poll(free, s.(cancel := false)))
  {
    hide SeeReleases, SeeCancel, SeeHold, SeeDeadline;
    var up, down := s.(cancel := true), s.(cancel := false);
    TwinsSeeCancel(stuck, free, s);
    var stuck1, free1 := SeeCancel(SeeReleases(stuck, up), up), SeeCancel(SeeReleases(free, down), down);
    TwinsSeeHold(stuck1, free1, s);
    TwinsSeeDeadline(SeeHold(stuck1, up), SeeHold(free1, down), s);
  }

  // No prompt outlives its deadline by the length of a hold.
  lemma PromptEnds(now: int, timeoutMs: nat, ss: seq<Sample>, j: nat, k: nat)
    requires j < k <= |ss| && ss[j].at >= now + timeoutMs * 1000 + 2000000
    ensures After(Begin(now, timeoutMs), ss[..k]).outcome != Pending
  {
    var a := After(Begin(now, timeoutMs), ss[..j]);
    AfterNext(Begin(now, timeoutMs), ss, j);
    if a.outcome == Pending {
      StaleMeaning(now, timeoutMs, ss, j);
      PollLate(a, ss[j]);
    }
    hide After, Poll;
    OutcomesAbsorb(Begin(now, timeoutMs), ss, if a.outcome == Pending then j + 1 else j, k);
  }

  // So a loop that polls at least every so often asks only so many times.
  lemma PollsAreFew(now: int, timeoutMs: nat, ss: seq<Sample>, step: nat)
    requires step > 0 && (forall k | 0 <= k < |ss| :: ss[k].at >= now + k * step)
    requires |ss| > (timeoutMs * 1000 + 2000000) / step + 1
    ensures After(Begin(now, timeoutMs), ss).outcome != Pending
  {
    var j := (timeoutMs * 1000 + 2000000) / step + 1;
    EnoughSteps(timeoutMs * 1000 + 2000000, step);
    PromptEnds(now, timeoutMs, ss, j, |ss|);
    assert ss[..|ss|] == ss;
  }

  lemma EnoughSteps(span: nat, step: nat)
    requires step > 0
    ensures (span / step + 1) * step > span
  {
  }

  lemma PollLate(a: State, s: Sample)
    requires s.at >= a.deadline + HOLD_US
    ensures Poll(a, s).outcome != Pending
  {
    hide SeeHold;
    if a.outcome == Pending {
      var b := SeeCancel(SeeReleases(a, s), s);
      assert b.outcome == Pending ==> b.deadline == a.deadline;
      HoldKeepsDeadline(b, s);
    }
  }

  lemma HoldKeepsDeadline(b: State, s: Sample)
    ensures SeeHold(b, s).deadline == b.deadline
  {
  }

  // A poll past the deadline keeps the prompt only for a hold.
  lemma PollPastDeadline(a: State, s: Sample)
    requires s.at >= a.deadline && Poll(a, s).outcome == Pending
    ensures Poll(a, s).holding
  {
  }

  lemma NotHoldingIsEarly(now: int, timeoutMs: nat, ss: seq<Sample>, k: nat)
    requires 0 < k <= |ss| && Monotone(ss)
    requires var a := After(Begin(now, timeoutMs), ss[..k]); a.outcome == Pending && !a.holding
    ensures forall j | 0 <= j < k :: ss[j].at < now + timeoutMs * 1000
  {
    var a := After(Begin(now, timeoutMs), ss[..k - 1]);
    AfterNext(Begin(now, timeoutMs), ss, k - 1);
    PollStale(a, ss[k - 1]);
    hide After, Poll;
    StaleMeaning(now, timeoutMs, ss, k - 1);
    if ss[k - 1].at >= a.deadline {
      PollPastDeadline(a, ss[k - 1]);
    }
  }

  // And the other way: a button seen released, then pressed and kept down for
  // two seconds before the deadline with no cancel, is granted.
  lemma {:induction false} CleanHoldGrants(now: int, timeoutMs: nat, ss: seq<Sample>, i: nat, k: nat)
    requires 0 < i <= k < |ss| && Monotone(ss) && After(Begin(now, timeoutMs), ss[..i]).outcome == Pending
    requires !ss[i - 1].approve && !ss[i - 1].cancel
    requires forall j | i <= j <= k :: ss[j].approve && !ss[j].cancel
    requires ss[k].at < now + timeoutMs * 1000
    ensures var a := After(Begin(now, timeoutMs), ss[..k + 1]);
            a.outcome == Granted || (a.outcome == Pending && a.holding && !a.approveStale && a.holdSince <= ss[i].at)
    ensures ss[k].at - ss[i].at >= 2000000 ==> After(Begin(now, timeoutMs), ss[..k + 1]).outcome == Granted
  {
    hide After, Poll;
    var a := After(Begin(now, timeoutMs), ss[..k]);
    AfterNext(Begin(now, timeoutMs), ss, k);
    if k > i {
      CleanHoldGrants(now, timeoutMs, ss, i, k - 1);
    }
    if a.outcome == Pending {
      StaleMeaning(now, timeoutMs, ss, k);
      if a.holding && k == i {
        var i0, r0 := HoldMeaning(now, timeoutMs, ss, k);
      }
      PollPressed(a, ss[k]);
    } else {
      PollSettled(a, ss[k]);
    }
  }

  lemma PollSettled(a: State, s: Sample)
    requires a.outcome != Pending
    ensures Poll(a, s) == a
  {
  }

  lemma PollPressed(a: State, s: Sample)
    requires a.outcome == Pending && s.approve && !a.approveStale && !s.cancel && s.at < a.deadline
    ensures var since := if a.holding then a.holdSince else s.at;
            var b := Poll(a, s);
            if s.at - since >= HOLD_US then b.outcome == Granted
            else b.outcome == Pending && b.holding && b.holdSince == since && !b.approveStale
  {
  }

  // ---- And what has to happen ----

  lemma EarlierPending(a: State, ss: seq<Sample>, j: nat, k: nat)
    requires j <= k <= |ss| && After(a, ss[..k]).outcome == Pending
    ensures After(a, ss[..j]).outcome == Pending
  {
    hide After;
    if After(a, ss[..j]).outcome != Pending {
      OutcomesAbsorb(a, ss, j, k);
    }
  }

  lemma PollSeesCancel(a: State, s: Sample)
    requires a.outcome == Pending && s.cancel && !a.cancelStale
    ensures var since := if a.cancelDown then a.cancelSince else s.at;
            if s.at - since >= 250000 then Poll(a, s).outcome == Denied
            else Poll(a, s).outcome == Pending ==> Poll(a, s).cancelDown && Poll(a, s).cancelSince == since
  {
  }

  // A cancel that was seen released, and is then down at every poll for a
  // quarter of a second, denies at that poll.
  lemma {:induction false} CancelDenies(now: int, timeoutMs: nat, ss: seq<Sample>, j: nat, i: nat, k: nat)
    requires j < i <= k < |ss| && Monotone(ss) && After(Begin(now, timeoutMs), ss[..k]).outcome == Pending
    requires !ss[j].cancel && forall m | i <= m <= k :: ss[m].cancel
    ensures var a := After(Begin(now, timeoutMs), ss[..k + 1]);
            a.outcome == Pending ==> a.cancelDown && a.cancelSince <= ss[i].at
    ensures ss[k].at - ss[i].at >= 250000 ==> After(Begin(now, timeoutMs), ss[..k + 1]).outcome == Denied
  {
    hide After, Poll;
    var a := After(Begin(now, timeoutMs), ss[..k]);
    AfterNext(Begin(now, timeoutMs), ss, k);
    StaleMeaning(now, timeoutMs, ss, k);
    if k > i {
      EarlierPending(Begin(now, timeoutMs), ss, k - 1, k);
      CancelDenies(now, timeoutMs, ss, j, i, k - 1);
    } else if a.cancelDown {
      var m := CancelMeaning(now, timeoutMs, ss, k);
    }
    PollSeesCancel(a, ss[k]);
  }

  // The button has not been pressed yet, or was let go for 40 ms.
  ghost predicate LetGo(ss: seq<Sample>, i: nat) {
    && 0 < i <= |ss| && !ss[i - 1].approve
    && ((forall j | 0 <= j < i :: !ss[j].approve)
        || exists p: nat | p < i :: Gap(ss, p, i - 1) && ss[i - 1].at - ss[p].at >= 40000)
  }

  lemma PollUp(a: State, s: Sample)
    requires a.outcome == Pending && Poll(a, s).outcome == Pending && !s.approve
    ensures !a.holding ==> !Poll(a, s).holding
    ensures a.holding && a.releaseSeen && s.at - a.releaseSince >= 40000 ==> !Poll(a, s).holding
    ensures Poll(a, s).holding ==> a.holding && Poll(a, s).releaseSeen
    ensures Poll(a, s).holding ==> Poll(a, s).releaseSince == if a.releaseSeen then a.releaseSince else s.at
  {
  }

  // While a button stays up a hold that was running ends after 40 ms.
  lemma {:induction false} UpSince(now: int, timeoutMs: nat, ss: seq<Sample>, p: nat, k: nat)
    requires Monotone(ss) && Gap(ss, p, k) && After(Begin(now, timeoutMs), ss[..k + 1]).outcome == Pending
    ensures var a := After(Begin(now, timeoutMs), ss[..k + 1]);
            a.holding ==> a.releaseSeen && a.releaseSince <= ss[p].at
    ensures ss[k].at - ss[p].at >= 40000 && p < k ==> !After(Begin(now, timeoutMs), ss[..k + 1]).holding
  {
    hide After, Poll;
    var a := After(Begin(now, timeoutMs), ss[..k]);
    EarlierPending(Begin(now, timeoutMs), ss, k, k + 1);
    AfterNext(Begin(now, timeoutMs), ss, k);
    if k > p {
      UpSince(now, timeoutMs, ss, p, k - 1);
    } else if a.holding && a.releaseSeen {
      var i, r := HoldMeaning(now, timeoutMs, ss, k);
    }
    PollUp(a, ss[k]);
  }

  lemma {:induction false} NeverPressed(now: int, timeoutMs: nat, ss: seq<Sample>, k: nat)
    requires k <= |ss| && After(Begin(now, timeoutMs), ss[..k]).outcome == Pending
    requires forall j | 0 <= j < k :: !ss[j].approve
    ensures !After(Begin(now, timeoutMs), ss[..k]).holding
  {
    if k > 0 {
      hide After, Poll;
      EarlierPending(Begin(now, timeoutMs), ss, k - 1, k);
      AfterNext(Begin(now, timeoutMs), ss, k - 1);
      NeverPressed(now, timeoutMs, ss, k - 1);
      PollUp(After(Begin(now, timeoutMs), ss[..k - 1]), ss[k - 1]);
    }
  }

  lemma LetGoMeansNoHold(now: int, timeoutMs: nat, ss: seq<Sample>, i: nat)
    requires Monotone(ss) && LetGo(ss, i) && After(Begin(now, timeoutMs), ss[..i]).outcome == Pending
    ensures !After(Begin(now, timeoutMs), ss[..i]).holding
  {
    hide After;
    if p: nat :| p < i && Gap(ss, p, i - 1) && ss[i - 1].at - ss[p].at >= 40000 {
      UpSince(now, timeoutMs, ss, p, i - 1);
    } else {
      NeverPressed(now, timeoutMs, ss, i);
    }
  }

  // A poll that starts a hold, and one that finds it running.
  lemma PollStarts(a: State, s: Sample)
    requires a.outcome == Pending && !a.holding && !a.approveStale && s.approve && !s.cancel && s.at < a.deadline
    ensures var b := Poll(a, s); b.outcome == Pending && b.holding && b.holdSince == s.at && !b.approveStale
  {
  }

  lemma PollRuns(a: State, s: Sample)
    requires a.outcome == Pending && a.holding && !a.approveStale && !s.cancel && a.holdSince < a.deadline
    requires s.approve || !a.releaseSeen || s.at - a.releaseSince < 40000
    ensures var b := Poll(a, s);
            if s.at - a.holdSince < 2000000 then
              b.outcome == Pending && b.holding && b.holdSince == a.holdSince && !b.approveStale
            else s.approve ==> b.outcome == Granted
  {
  }

  // A press, after the button was let go, before the deadline and with no
  // cancel: it is a hold as long as every gap is shorter than 40 ms, past the
  // deadline too; and the first poll that finds the button down after two
  // seconds grants.
  lemma {:induction false} HoldRuns(now: int, timeoutMs: nat, ss: seq<Sample>, i: nat, k: nat)
    requires i <= k < |ss| && Monotone(ss) && LetGo(ss, i) && After(Begin(now, timeoutMs), ss[..i]).outcome == Pending
    requires ss[i].approve && ss[i].at < now + timeoutMs * 1000
    requires forall j | i <= j <= k :: !ss[j].cancel
    requires forall p, q | i < p <= q <= k && Gap(ss, p, q) :: ss[q].at - ss[p].at < 40000
    requires forall j | i <= j < k :: ss[j].at - ss[i].at < 2000000
    ensures var a := After(Begin(now, timeoutMs), ss[..k + 1]);
            if ss[k].at - ss[i].at < 2000000 then
              a.outcome == Pending && a.holding && !a.approveStale && a.holdSince == ss[i].at
            else ss[k].approve ==> a.outcome == Granted
  {
    hide After, Poll;
    var a := After(Begin(now, timeoutMs), ss[..k]);
    AfterNext(Begin(now, timeoutMs), ss, k);
    if k == i {
      LetGoMeansNoHold(now, timeoutMs, ss, i);
      StaleMeaning(now, timeoutMs, ss, i);
      PollStarts(a, ss[i]);
    } else {
      HoldRuns(now, timeoutMs, ss, i, k - 1);
      StaleMeaning(now, timeoutMs, ss, k);
      if a.releaseSeen && !ss[k].approve {
        var i0, r := HoldMeaning(now, timeoutMs, ss, k);
        GapGrows(ss, r, k);
        assert !(r <= i <= k - 1);
      }
      PollRuns(a, ss[k]);
    }
  }

  lemma PollExpires(a: State, s: Sample)
    requires a.outcome == Pending && !s.approve && !s.cancel && !a.holding
    ensures var b := Poll(a, s);
            if s.at >= a.deadline then b.outcome == Expired else b.outcome == Pending && !b.holding
    ensures Poll(a, s).outcome == Expired ==> s.at >= a.deadline
  {
  }

  // A prompt that nobody touches expires at the first poll at or past its
  // deadline,
  lemma {:induction false} UntouchedExpires(now: int, timeoutMs: nat, ss: seq<Sample>, k: nat)
    requires k < |ss| && Monotone(ss) && (forall j | 0 <= j <= k :: !ss[j].approve && !ss[j].cancel)
    requires forall j | 0 <= j < k :: ss[j].at < now + timeoutMs * 1000
    ensures var a := After(Begin(now, timeoutMs), ss[..k + 1]);
            if ss[k].at >= now + timeoutMs * 1000 then a.outcome == Expired else a.outcome == Pending && !a.holding
  {
    AfterNext(Begin(now, timeoutMs), ss, k);
    if k > 0 {
      UntouchedExpires(now, timeoutMs, ss, k - 1);
    }
    assert ss[..0] == [];
    StaleMeaning(now, timeoutMs, ss, k);
    PollExpires(After(Begin(now, timeoutMs), ss[..k]), ss[k]);
    hide After, Poll;
  }

  lemma PollIsLate(a: State, s: Sample)
    requires a.outcome == Pending && Poll(a, s).outcome == Expired
    ensures s.at >= a.deadline
  {
  }

  // and no prompt expires before that.
  lemma ExpiryIsLate(now: int, timeoutMs: nat, ss: seq<Sample>, k: nat)
    requires k < |ss| && After(Begin(now, timeoutMs), ss[..k]).outcome == Pending
    requires After(Begin(now, timeoutMs), ss[..k + 1]).outcome == Expired
    ensures ss[k].at >= now + timeoutMs * 1000
  {
    AfterNext(Begin(now, timeoutMs), ss, k);
    StaleMeaning(now, timeoutMs, ss, k);
    hide After, Poll;
    PollIsLate(After(Begin(now, timeoutMs), ss[..k]), ss[k]);
  }
}

/** What the entry points of the DMA channel do to its status and request, said
    over whole runs: when a chunk is started, what a stop leaves, and that every
    queue of issued descriptors is worked off by its interrupts. */
module DmaChannelProgress {
  import opened Common
  import opened DmaDescriptors
  import opened DmaChannel
  import opened DmaChannelInvariant
  import opened DmaChannelRuns

  // ---------- runs, step by step ----------

  lemma RunPrefix(steps: seq<Step>, k: nat, llMax: nat)
    requires k < |steps| && Run(steps, llMax).Some?
    ensures Run(steps[..k], llMax).Some? && Run(steps[..k + 1], llMax).Some?
    ensures Enabled(Run(steps[..k], llMax).value, steps[k], llMax)
    ensures Run(steps[..k + 1], llMax).value == Next(Run(steps[..k], llMax).value, steps[k], llMax)
  {
    RunExtends(steps, k + 1, llMax);
    assert steps[..k + 1][..k] == steps[..k];
  }

  /** Steps of the client and of the interrupts that are always possible */
  predicate Free(step: Step) { step.Issue? || step.Done? || step.Abort? || step.Reset? || step.Terminate? }

  lemma RunThen(steps: seq<Step>, step: Step, llMax: nat)
    requires Run(steps, llMax).Some? && Free(step)
    ensures Run(steps + [step], llMax) == Some(Next(Run(steps, llMax).value, step, llMax))
  {
    RunMore(steps, step, llMax);
  }

  lemma RunTwo(steps: seq<Step>, a: Step, b: Step, llMax: nat)
    requires Run(steps, llMax).Some? && Free(a) && Free(b)
    ensures Run(steps + [a, b], llMax) == Some(Next(Next(Run(steps, llMax).value, a, llMax), b, llMax))
  {
    hide Run, Next;
    RunThen(steps, a, llMax);
    RunThen(steps + [a], b, llMax);
    assert steps + [a, b] == steps + [a] + [b];
  }

  // ---------- what holds of every run ----------

  /** The channel never pauses, as nothing asks it to; a chunk list is never
      empty when it is prepared. */
  ghost predicate Unpaused(c: Channel) {
    && c.request != ReqPause && c.status != Paused
    && forall obj :: obj in c.lists.made ==> c.lists.made[obj] != []
  }

  lemma {:induction false} NeverPaused(steps: seq<Step>, llMax: nat)
    requires Run(steps, llMax).Some?
    ensures Unpaused(Run(steps, llMax).value)
    decreases |steps|
  {
    if steps != [] {
      var front := steps[..|steps| - 1];
      NeverPaused(front, llMax);
      StaysUnpaused(Run(front, llMax).value, steps[|steps| - 1], llMax);
    }
  }

  lemma StaysUnpaused(c: Channel, step: Step, llMax: nat)
    requires Unpaused(c) && Enabled(c, step, llMax)
    ensures Unpaused(Next(c, step, llMax))
  {
    hide ChunkObjects, DescObjects, DescOk;
  }

  /** A retired descriptor has given its cookie back; a waiting one has one. */
  ghost predicate CookiesMarked(s: Lists) {
    && (forall k :: 0 <= k < |s.completed| ==> s.completed[k].cookie == 0)
    && (forall k :: 0 <= k < |s.finishing| ==> s.finishing[k].cookie == 0)
    && (forall k :: 0 <= k < |s.submitted| ==> s.submitted[k].cookie > 0)
    && (forall k :: 0 <= k < |s.issued| ==> s.issued[k].cookie > 0)
  }

  lemma {:induction false} RunCookies(steps: seq<Step>, llMax: nat)
    requires Run(steps, llMax).Some?
    ensures CookiesMarked(Run(steps, llMax).value.lists) && Run(steps, llMax).value.lists.cookie > 0
    decreases |steps|
  {
    if steps != [] {
      var front := steps[..|steps| - 1];
      RunCookies(front, llMax);
      StepCookies(Run(front, llMax).value, steps[|steps| - 1], llMax);
    }
  }

  lemma StepCookies(c: Channel, step: Step, llMax: nat)
    requires CookiesMarked(c.lists) && c.lists.cookie > 0 && Enabled(c, step, llMax)
    ensures CookiesMarked(Next(c, step, llMax).lists) && Next(c, step, llMax).lists.cookie > 0
  {
    hide ChunkObjects, DescObjects, DescOk;
  }

  // ---------- one chunk at a time ----------

  /** Step k hands a chunk to the hardware. */
  ghost predicate Starts(steps: seq<Step>, k: nat, llMax: nat)
    requires k < |steps| && Run(steps, llMax).Some?
  {
    RunPrefix(steps, k, llMax);
    Run(steps[..k + 1], llMax).value.lists.trace != Run(steps[..k], llMax).value.lists.trace
  }

  /** Only these make a busy channel ready again. */
  predicate Releases(step: Step) { step.Done? || step.Reset? || step.Terminate? }

  lemma StartsWhen(c: Channel, step: Step, llMax: nat)
    requires Enabled(c, step, llMax)
    ensures Next(c, step, llMax).lists.trace != c.lists.trace ==>
              && Next(c, step, llMax).status == Busy
              && ((step.Issue? && c.configured && c.status == Idle && c.request == ReqNone) || step.Done?)
    ensures c.status == Busy && !Releases(step) ==>
              Next(c, step, llMax).status == Busy && Next(c, step, llMax).lists.trace == c.lists.trace
  {
    hide ChunkObjects, DescObjects, DescOk, NextCookie;
  }

  /** Between two starts there is a done interrupt, a reset or a termination: a
      chunk is never started while another is under way. */
  lemma StartsApart(steps: seq<Step>, p: nat, q: nat, llMax: nat)
    requires Run(steps, llMax).Some? && p < q < |steps| && Starts(steps, p, llMax) && Starts(steps, q, llMax)
    ensures exists k :: p < k <= q && Releases(steps[k])
  {
    RunPrefix(steps, p, llMax);
    StartsWhen(Run(steps[..p], llMax).value, steps[p], llMax);
    if forall k :: p < k <= q ==> !Releases(steps[k]) {
      BusyUpTo(steps, p + 1, q, llMax);
      RunPrefix(steps, q, llMax);
      StartsWhen(Run(steps[..q], llMax).value, steps[q], llMax);
    }
  }

  lemma {:induction false} BusyUpTo(steps: seq<Step>, p: nat, q: nat, llMax: nat)
    requires p <= q < |steps| && Run(steps, llMax).Some?
    requires Run(steps[..p], llMax).Some? && Run(steps[..p], llMax).value.status == Busy
    requires forall k :: p <= k < q ==> !Releases(steps[k])
    ensures Run(steps[..q], llMax).Some? && Run(steps[..q], llMax).value.status == Busy
    decreases q - p
  {
    if p < q {
      RunPrefix(steps, p, llMax);
      StartsWhen(Run(steps[..p], llMax).value, steps[p], llMax);
      BusyUpTo(steps, p + 1, q, llMax);
    }
  }

  // ---------- the next descriptor ----------

  /** From `c` to `c'` the first chunk of the k-th descriptor ever submitted is
      handed to the hardware, and nothing else. */
  ghost predicate Given(c: Channel, c': Channel, k: nat) {
    && k < |c.lists.order| && c'.status == Busy
    && var obj := c.lists.order[k];
       && obj in c.lists.made && c.lists.made[obj] != []
       && c'.lists.trace == c.lists.trace + [Start(obj, c.lists.made[obj][0])]
  }

  /** Issuing on a ready channel whose head has not been started starts it. */
  lemma IssueStarts(c: Channel, llMax: nat)
    requires Inv(c.lists, llMax) && Unpaused(c)
    requires c.configured && c.status == Idle && c.request == ReqNone
    requires c.lists.issued + c.lists.submitted != []
    requires c.lists.issued != [] ==> Whole(c.lists, c.lists.issued[0])
    ensures Given(c, IssuePending(c), |c.lists.retired|)
    ensures var c' := IssuePending(c); c'.configured && c'.request == ReqNone
  {
    hide CallbacksInOrder, CookiesInOrder, NothingLost, AllOk, TraceInOrder, FinishedWhole, OnOneList, ChunkObjects;
    InvParts(c.lists, llMax);
    var s := c.lists;
    var d := (s.issued + s.submitted)[0];
    assert Whole(s, d) by {
      if s.issued == [] { assert d == s.submitted[0]; }
    }
    assert s.order[|s.retired|] == d.obj;
  }

  /** When a descriptor has been retired and others are there, the next one has
      not been started. */
  lemma NextIsWhole(s: Lists, cause: Cause, llMax: nat)
    requires Inv(s, llMax) && s.issued != []
    ensures var s' := Retire(s, cause);
            && (s'.issued != [] ==> Whole(s', s'.issued[0])) && Moved(s, s', cause)
  {
    hide CallbacksInOrder, CookiesInOrder, NothingLost, AllOk, TraceInOrder, FinishedWhole, OnOneList;
    InvParts(s, llMax);
  }

  /** The first issued descriptor, and no other, has been retired as `cause`, and
      the completed cookie is its own; nothing has been started. */
  ghost predicate Moved(s: Lists, s': Lists, cause: Cause) {
    && s.issued != [] && |s'.retired| == |s.retired| + 1 && s'.retired[..|s.retired|] == s.retired
    && s'.retired[|s.retired|].obj == s.issued[0].obj && s'.retired[|s.retired|].cause == cause
    && s'.issued == s.issued[1..] && s'.submitted == s.submitted && s'.completedCookie == s.issued[0].cookie
    && s'.trace == s.trace && s'.order == s.order && s'.made == s.made
  }

  /** After `c` retired its head as `cause` without starting anything, the
      channel is ready, and issuing starts the next descriptor if there is one. */
  ghost predicate Over(c: Channel, c': Channel, cause: Cause) {
    && Moved(c.lists, c'.lists, cause)
    && c'.status == Idle && c'.request == ReqNone && c'.configured == c.configured
    && (c.configured && |c.lists.issued| + |c.lists.submitted| > 1 ==>
          Given(c', IssuePending(c'), |c.lists.retired| + 1))
  }

  lemma IsOver(c: Channel, c': Channel, cause: Cause, llMax: nat)
    requires Inv(c.lists, llMax) && Unpaused(c) && c.lists.issued != [] && c'.lists == Retire(c.lists, cause)
    requires cause == Finished ==> c.lists.issued[0].chunksAlloc == 0
    requires c'.status == Idle && c'.request == ReqNone && c'.configured == c.configured
    ensures Over(c, c', cause)
  {
    hide Inv, Retire, Given, Whole;
    NextIsWhole(c.lists, cause, llMax);
    RetireKeeps(c.lists, cause, llMax);
    if c.configured && |c.lists.issued| + |c.lists.submitted| > 1 {
      IssueStarts(c', llMax);
    }
  }

  /** The done interrupt that finds no chunk left finishes the descriptor, and
      leaves the channel ready for the next one. */
  lemma DoneFinishes(steps: seq<Step>, llMax: nat)
    requires Run(steps, llMax).Some?
    requires var c := Run(steps, llMax).value;
             c.lists.issued != [] && c.request == ReqNone && c.lists.issued[0].chunks == []
    ensures Run(steps + [Done], llMax).Some?
    ensures Over(Run(steps, llMax).value, Run(steps + [Done], llMax).value, Finished)
  {
    var c := Run(steps, llMax).value;
    RunKeeps(steps, llMax);
    NeverPaused(steps, llMax);
    RunThen(steps, Done, llMax);
    HeadCount(c.lists, llMax);
    hide Run, Inv, Retire, Over, StartTransfer;
    IsOver(c, DoneInterrupt(c), Finished, llMax);
  }

  lemma HeadCount(s: Lists, llMax: nat)
    requires Inv(s, llMax) && s.issued != []
    ensures s.issued[0].chunksAlloc == |s.issued[0].chunks|
  {
    hide InOrder, OnOneList, CallbacksInOrder, OnlyHeadStarted, TraceInOrder, FinishedWhole, CookiesInOrder,
         NothingLost;
    assert DescOk(s.issued[0], llMax);
  }

  /** A busy channel that is told to stop retires its descriptor as stopped at
      the next done interrupt, starts nothing, and is ready afterwards. */
  lemma StopStops(steps: seq<Step>, llMax: nat)
    requires Run(steps, llMax).Some?
    requires var c := Run(steps, llMax).value; c.configured && c.status == Busy && c.lists.issued != []
    ensures var all := steps + [Terminate(false), Done];
            && Run(all, llMax).Some?
            && Over(Run(steps, llMax).value, Run(all, llMax).value, Stopped)
  {
    hide Run, Inv, Over, Unpaused, DoneInterrupt, TerminateAll;
    var c := Run(steps, llMax).value;
    RunKeeps(steps, llMax);
    NeverPaused(steps, llMax);
    RunTwo(steps, Terminate(false), Done, llMax);
    StopThenDone(c);
    hide Retire;
    IsOver(c, DoneInterrupt(TerminateAll(c, false).0), Stopped, llMax);
  }

  lemma StopThenDone(c: Channel)
    requires c.configured && c.status == Busy && c.lists.issued != []
    ensures var c' := DoneInterrupt(TerminateAll(c, false).0);
            && c'.lists == Retire(c.lists, Stopped)
            && c'.status == Idle && c'.request == ReqNone && c'.configured == c.configured
  {
    hide Retire, StartTransfer;
  }

  /** An abort retires the descriptor as aborted, whatever was requested, and the
      assignments behind it make the channel ready. */
  lemma AbortEnds(steps: seq<Step>, llMax: nat)
    requires Run(steps, llMax).Some? && Run(steps, llMax).value.lists.issued != []
    ensures var all := steps + [Abort, Reset];
            && Run(all, llMax).Some?
            && Over(Run(steps, llMax).value, Run(all, llMax).value, Aborted)
  {
    hide Run, Inv, Over, Unpaused, AbortReset, AbortInterrupt;
    var c := Run(steps, llMax).value;
    RunKeeps(steps, llMax);
    NeverPaused(steps, llMax);
    RunTwo(steps, Abort, Reset, llMax);
    AbortThenReset(c);
    hide Retire;
    IsOver(c, AbortReset(AbortInterrupt(c)), Aborted, llMax);
  }

  lemma AbortThenReset(c: Channel)
    requires c.lists.issued != []
    ensures var c' := AbortReset(AbortInterrupt(c));
            && c'.lists == Retire(c.lists, Aborted)
            && c'.status == Idle && c'.request == ReqNone && c'.configured == c.configured
  {
    hide Retire;
  }

  /** Terminating a channel that is not busy, or that the hardware reports as
      done, ends it: until it is configured again nothing can be prepared, and
      issuing changes nothing. */
  lemma TerminateEnds(steps: seq<Step>, idle: bool, llMax: nat)
    requires Run(steps, llMax).Some? && (idle || Run(steps, llMax).value.status != Busy)
    ensures var all := steps + [Terminate(idle)];
            && Run(all, llMax).Some? && Run(steps + [Terminate(idle), Issue], llMax) == Run(all, llMax)
            && var c := Run(all, llMax).value;
               && !c.configured && c.lists == Run(steps, llMax).value.lists
               && (Run(steps, llMax).value.configured ==> c.status == Idle)
               && forall d: Desc :: !Enabled(c, Prep(d), llMax)
  {
    NeverPaused(steps, llMax);
    RunThen(steps, Terminate(idle), llMax);
    RunTwo(steps, Terminate(idle), Issue, llMax);
  }

  /** Exactly when issue_pending starts something. */
  lemma IssueStartsIff(steps: seq<Step>, llMax: nat)
    requires Run(steps, llMax).Some?
    ensures var c := Run(steps, llMax).value;
            var waiting := c.lists.issued + c.lists.submitted;
            && Run(steps + [Issue], llMax).Some?
            && (Starts(steps + [Issue], |steps|, llMax) <==>
                  c.configured && c.status == Idle && c.request == ReqNone
                  && waiting != [] && waiting[0].chunks != [])
  {
    hide ChunkObjects;
    RunThen(steps, Issue, llMax);
    assert (steps + [Issue])[..|steps|] == steps && (steps + [Issue])[..|steps| + 1] == steps + [Issue];
  }

  /** A stop request that no interrupt has honoured survives the end of the
      channel: configured again, it starts nothing. */
  lemma StopSurvives(steps: seq<Step>, llMax: nat)
    requires Run(steps, llMax).Some?
    requires var c := Run(steps, llMax).value; c.configured && c.status == Busy
    ensures var all := steps + [Terminate(false), Terminate(true), Config];
            && Run(all, llMax).Some?
            && Run(all, llMax).value == Run(steps, llMax).value.(status := Idle, request := ReqStop)
            && !Starts(all + [Issue], |all|, llMax)
  {
    var one, two := steps + [Terminate(false)], steps + [Terminate(false), Terminate(true)];
    var all := steps + [Terminate(false), Terminate(true), Config];
    RunThen(steps, Terminate(false), llMax);
    assert two == one + [Terminate(true)] && all == two + [Config];
    NeverPaused(steps, llMax);
    RunThen(one, Terminate(true), llMax);
    RunMore(two, Config, llMax);
    IssueStartsIff(all, llMax);
  }

  // ---------- a whole queue ----------

  /** The hardware has been given `starts`, `rs` have been retired, and `left`
      are still waiting. */
  ghost predicate Progressed(s: Lists, s': Lists, starts: seq<Start>, rs: seq<Retired>, left: seq<Desc>) {
    && s'.trace == s.trace + starts && s'.retired == s.retired + rs && s'.issued + s'.submitted == left
    && s'.made == s.made && s'.order == s.order
  }

  lemma ProgressedTwice(s: Lists, s': Lists, s'': Lists, a: seq<Start>, b: seq<Start>,
                        rs: seq<Retired>, rs': seq<Retired>, left: seq<Desc>, left': seq<Desc>)
    requires Progressed(s, s', a, rs, left) && Progressed(s', s'', b, rs', left')
    ensures Progressed(s, s'', a + b, rs + rs', left')
  {
  }

  /** n done interrupts */
  function Interrupted(c: Channel, n: nat): Channel
    decreases n
  {
    if n == 0 then c else Interrupted(DoneInterrupt(c), n - 1)
  }

  /** The descriptor at the head has got its remaining chunks and is finished. */
  ghost predicate HeadFinished(c: Channel, c': Channel) {
    && c.lists.issued != []
    && var d := c.lists.issued[0];
       && d.obj in c.lists.made
       && Progressed(c.lists, c'.lists, Tagged(d.obj, d.chunks),
                     [Retired(d.obj, |c.lists.made[d.obj]|, Finished)], (c.lists.issued + c.lists.submitted)[1..])
       && c'.status == Idle && c'.request == ReqNone && c'.configured == c.configured
  }

  /** The interrupts of the descriptor at the head: one for each chunk that is
      still to be started, and one more. */
  lemma {:induction false} Interrupts(c: Channel, llMax: nat)
    requires Inv(c.lists, llMax) && c.lists.issued != [] && c.request == ReqNone
    ensures HeadFinished(c, Interrupted(c, |c.lists.issued[0].chunks| + 1))
    decreases |c.lists.issued[0].chunks|
  {
    hide Inv, Interrupted, HeadFinished, DoneInterrupt;
    var n := |c.lists.issued[0].chunks|;
    HeadMade(c.lists, llMax);
    HeadCount(c.lists, llMax);
    DoneKeeps(c, llMax);
    OneInterrupt(c, n);
    if n == 0 {
      LastDone(c);
      OneInterrupt(DoneInterrupt(c), 0);
    } else {
      MoreDone(c);
      Interrupts(DoneInterrupt(c), llMax);
      OneMore(c, DoneInterrupt(c), Interrupted(c, n + 1));
    }
  }

  lemma OneInterrupt(c: Channel, n: nat)
    ensures Interrupted(c, n + 1) == Interrupted(DoneInterrupt(c), n) && Interrupted(c, 0) == c
  {
  }

  lemma DoneKeeps(c: Channel, llMax: nat)
    requires Inv(c.lists, llMax)
    ensures Inv(DoneInterrupt(c).lists, llMax)
  {
    hide Inv, DoneInterrupt;
    StepKeeps(c, Done, llMax);
  }

  lemma HeadMade(s: Lists, llMax: nat)
    requires Inv(s, llMax) && s.issued != []
    ensures s.issued[0].obj in s.made
  {
    hide InOrder, OnOneList, CallbacksInOrder, TraceInOrder, FinishedWhole, CookiesInOrder, NothingLost, AllOk;
  }

  lemma LastDone(c: Channel)
    requires c.lists.issued != [] && c.request == ReqNone && c.lists.issued[0].chunksAlloc == 0
    requires c.lists.issued[0].chunks == [] && c.lists.issued[0].obj in c.lists.made
    ensures HeadFinished(c, DoneInterrupt(c))
  {
  }

  lemma MoreDone(c: Channel)
    requires c.lists.issued != [] && c.request == ReqNone
    requires c.lists.issued[0].chunksAlloc == |c.lists.issued[0].chunks| > 0
    ensures GivesHead(c, DoneInterrupt(c))
  {
    hide ChunkObjects;
  }

  /** The next chunk of the first descriptor waiting is started. */
  ghost predicate GivesHead(c: Channel, c': Channel) {
    var waiting, waiting' := c.lists.issued + c.lists.submitted, c'.lists.issued + c'.lists.submitted;
    && waiting != [] && waiting[0].chunks != [] && c'.lists.issued != []
    && c'.lists.issued[0].obj == waiting[0].obj && c'.lists.issued[0].chunks == waiting[0].chunks[1..]
    && Progressed(c.lists, c'.lists, [Start(waiting[0].obj, waiting[0].chunks[0])], [], waiting')
    && waiting'[1..] == waiting[1..] && c'.request == ReqNone && c'.configured == c.configured
  }

  lemma OneMore(c: Channel, c': Channel, c'': Channel)
    requires c.lists.issued != [] && c.lists.issued[0].obj in c.lists.made
    requires GivesHead(c, c') && HeadFinished(c', c'')
    ensures HeadFinished(c, c'')
  {
    hide Progressed;
    var d := c.lists.issued[0];
    var r := [Retired(d.obj, |c.lists.made[d.obj]|, Finished)];
    TaggedMore(d);
    assert [] + r == r;
    SameMade(c, c');
    ProgressedTwice(c.lists, c'.lists, c''.lists, [Start(d.obj, d.chunks[0])], Tagged(d.obj, d.chunks[1..]),
                    [], r, c'.lists.issued + c'.lists.submitted, (c'.lists.issued + c'.lists.submitted)[1..]);
  }

  lemma TaggedMore(d: Desc)
    requires d.chunks != []
    ensures Tagged(d.obj, d.chunks) == [Start(d.obj, d.chunks[0])] + Tagged(d.obj, d.chunks[1..])
  {
  }

  lemma SameMade(c: Channel, c': Channel)
    requires GivesHead(c, c')
    ensures c'.lists.made == c.lists.made
  {
  }

  lemma {:induction false} InterruptedKeeps(c: Channel, n: nat, llMax: nat)
    requires Inv(c.lists, llMax)
    ensures Inv(Interrupted(c, n).lists, llMax)
    decreases n
  {
    hide Inv, DoneInterrupt;
    if n > 0 {
      DoneKeeps(c, llMax);
      InterruptedKeeps(DoneInterrupt(c), n - 1, llMax);
    }
  }

  lemma IssueKeeps(c: Channel, llMax: nat)
    requires Inv(c.lists, llMax)
    ensures Inv(IssuePending(c).lists, llMax)
  {
    hide Inv, IssuePending;
    StepKeeps(c, Issue, llMax);
  }

  predicate Ready(c: Channel) { c.configured && c.status == Idle && c.request == ReqNone }

  /** All that wait for the hardware still have all their chunks. */
  ghost predicate AllWhole(s: Lists) {
    forall k :: 0 <= k < |s.issued + s.submitted| ==>
      var d := (s.issued + s.submitted)[k];
      Whole(s, d) && d.chunks != []
  }

  lemma IssueGives(c: Channel)
    requires Ready(c) && c.lists.issued + c.lists.submitted != [] && AllWhole(c.lists)
    ensures GivesHead(c, IssuePending(c))
  {
    hide ChunkObjects;
    assert Whole(c.lists, (c.lists.issued + c.lists.submitted)[0]);
  }

  /** One descriptor: an issue_pending, and an interrupt for each chunk. */
  function Served(c: Channel, n: nat): Channel { Interrupted(IssuePending(c), n) }

  ghost predicate FirstServed(c: Channel, c': Channel) {
    var waiting := c.lists.issued + c.lists.submitted;
    && waiting != [] && Ready(c') && AllWhole(c'.lists)
    && var d := waiting[0];
       Progressed(c.lists, c'.lists, Tagged(d.obj, d.chunks), [Retired(d.obj, |d.chunks|, Finished)], waiting[1..])
  }

  lemma OneServed(c: Channel, llMax: nat)
    requires Inv(c.lists, llMax) && Ready(c) && c.lists.issued + c.lists.submitted != [] && AllWhole(c.lists)
    ensures var d := (c.lists.issued + c.lists.submitted)[0];
            FirstServed(c, Served(c, |d.chunks|)) && Inv(Served(c, |d.chunks|).lists, llMax)
  {
    var d := (c.lists.issued + c.lists.submitted)[0];
    assert Whole(c.lists, d) && d.chunks != [];
    hide Inv, IssuePending, Interrupted, AllWhole, HeadFinished;
    var c1 := IssuePending(c);
    IssueGives(c);
    IssueKeeps(c, llMax);
    Interrupts(c1, llMax);
    InterruptedKeeps(c1, |d.chunks|, llMax);
    GivenFinished(c, c1, Interrupted(c1, |d.chunks|));
  }

  lemma GivenFinished(c: Channel, c1: Channel, c2: Channel)
    requires Ready(c) && AllWhole(c.lists) && GivesHead(c, c1) && HeadFinished(c1, c2)
    ensures FirstServed(c, c2)
  {
    var waiting := c.lists.issued + c.lists.submitted;
    var d := waiting[0];
    assert Whole(c.lists, d);
    StillWhole(c, c1, c2);
    hide Progressed, AllWhole;
    TaggedMore(d);
    var r := [Retired(d.obj, |d.chunks|, Finished)];
    assert [] + r == r;
    SameMade(c, c1);
    ProgressedTwice(c.lists, c1.lists, c2.lists, [Start(d.obj, d.chunks[0])], Tagged(d.obj, d.chunks[1..]),
                    [], r, c1.lists.issued + c1.lists.submitted, (c1.lists.issued + c1.lists.submitted)[1..]);
  }

  lemma StillWhole(c: Channel, c1: Channel, c2: Channel)
    requires AllWhole(c.lists) && GivesHead(c, c1) && HeadFinished(c1, c2)
    ensures AllWhole(c2.lists)
  {
    var waiting, left := c.lists.issued + c.lists.submitted, c2.lists.issued + c2.lists.submitted;
    assert left == waiting[1..];
    forall k | 0 <= k < |left| ensures Whole(c2.lists, left[k]) && left[k].chunks != [] {
      assert left[k] == waiting[k + 1];
      assert Whole(c.lists, waiting[k + 1]);
    }
  }

  /** The whole queue. */
  function AllServed(c: Channel, ds: seq<Desc>): Channel
    decreases |ds|
  {
    if ds == [] then c else AllServed(Served(c, |ds[0].chunks|), ds[1..])
  }

  lemma {:induction false} QueueServed(c: Channel, llMax: nat)
    requires Inv(c.lists, llMax) && Ready(c) && AllWhole(c.lists)
    ensures var waiting := c.lists.issued + c.lists.submitted;
            var c' := AllServed(c, waiting);
            Ready(c') && Progressed(c.lists, c'.lists, AllStarts(waiting), AllFinished(waiting), [])
    decreases |c.lists.issued + c.lists.submitted|
  {
    hide Inv, AllWhole, Served;
    var waiting := c.lists.issued + c.lists.submitted;
    if waiting == [] {
      NothingWaits(c.lists);
    } else {
      OneServed(c, llMax);
      var c1 := Served(c, |waiting[0].chunks|);
      QueueServed(c1, llMax);
      hide Progressed;
      var d := waiting[0];
      ProgressedTwice(c.lists, c1.lists, AllServed(c, waiting).lists, Tagged(d.obj, d.chunks), AllStarts(waiting[1..]),
                      [Retired(d.obj, |d.chunks|, Finished)], AllFinished(waiting[1..]), waiting[1..], []);
    }
  }

  lemma NothingWaits(s: Lists)
    requires s.issued + s.submitted == []
    ensures Progressed(s, s, [], [], [])
  {
  }

  // ---------- the same as runs ----------

  function Dones(n: nat): seq<Step>
    decreases n
  {
    if n == 0 then [] else [Done] + Dones(n - 1)
  }

  /** For each descriptor one issue_pending, and an interrupt for each chunk. */
  function WorkOff(ds: seq<Desc>): seq<Step>
    decreases |ds|
  {
    if ds == [] then [] else [Issue] + Dones(|ds[0].chunks|) + WorkOff(ds[1..])
  }

  /** All chunks of the descriptors, in order. */
  function AllStarts(ds: seq<Desc>): seq<Start> {
    if ds == [] then [] else Tagged(ds[0].obj, ds[0].chunks) + AllStarts(ds[1..])
  }

  function AllFinished(ds: seq<Desc>): seq<Retired> {
    if ds == [] then [] else [Retired(ds[0].obj, |ds[0].chunks|, Finished)] + AllFinished(ds[1..])
  }

  lemma {:induction false} RunDones(steps: seq<Step>, n: nat, llMax: nat)
    requires Run(steps, llMax).Some?
    ensures Run(steps + Dones(n), llMax) == Some(Interrupted(Run(steps, llMax).value, n))
    decreases n
  {
    hide Run, DoneInterrupt;
    if n == 0 {
      assert steps + [] == steps;
    } else {
      RunThen(steps, Done, llMax);
      RunDones(steps + [Done], n - 1, llMax);
      assert steps + [Done] + Dones(n - 1) == steps + Dones(n);
    }
  }

  lemma {:induction false} RunWorkOff(steps: seq<Step>, ds: seq<Desc>, llMax: nat)
    requires Run(steps, llMax).Some?
    ensures Run(steps + WorkOff(ds), llMax) == Some(AllServed(Run(steps, llMax).value, ds))
    decreases |ds|
  {
    hide Run, IssuePending, Dones, Interrupted;
    if ds == [] {
      assert steps + [] == steps;
    } else {
      var n := |ds[0].chunks|;
      RunThen(steps, Issue, llMax);
      RunDones(steps + [Issue], n, llMax);
      RunWorkOff(steps + [Issue] + Dones(n), ds[1..], llMax);
      Regroup(steps, [Issue], Dones(n), WorkOff(ds[1..]));
    }
  }

  lemma Regroup(a: seq<Step>, b: seq<Step>, c: seq<Step>, d: seq<Step>)
    ensures a + b + c + d == a + (b + c + d)
  {
  }

  /** A ready channel works off its queue: with an issue_pending for each
      descriptor and an interrupt for each chunk, the hardware is given all chunks
      of all descriptors, each once and in order, and every descriptor is retired
      as finished, in order. */
  lemma QueueWorkedOff(steps: seq<Step>, llMax: nat)
    requires Run(steps, llMax).Some? && Ready(Run(steps, llMax).value)
    requires var s := Run(steps, llMax).value.lists; s.issued != [] ==> Whole(s, s.issued[0])
    ensures var s := Run(steps, llMax).value.lists;
            var waiting := s.issued + s.submitted;
            var all := steps + WorkOff(waiting);
            && Run(all, llMax).Some? && Ready(Run(all, llMax).value)
            && Progressed(s, Run(all, llMax).value.lists, AllStarts(waiting), AllFinished(waiting), [])
  {
    var c := Run(steps, llMax).value;
    RunKeeps(steps, llMax);
    NeverPaused(steps, llMax);
    WholeQueue(c, llMax);
    hide Run, Inv, WorkOff, AllServed, Progressed, AllStarts, AllFinished, AllWhole, Unpaused;
    QueueServed(c, llMax);
    RunWorkOff(steps, c.lists.issued + c.lists.submitted, llMax);
  }

  lemma WholeQueue(c: Channel, llMax: nat)
    requires Inv(c.lists, llMax) && Unpaused(c) && (c.lists.issued != [] ==> Whole(c.lists, c.lists.issued[0]))
    ensures AllWhole(c.lists)
  {
    hide InOrder, OnOneList, CallbacksInOrder, TraceInOrder, FinishedWhole, CookiesInOrder, NothingLost, AllOk;
  }
}

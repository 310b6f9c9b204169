/** The channel object of driver/mt-emu-mtdma-core.c: its fields, its five
    descriptor lists and the methods that change them, each proved to be the
    step of DmaChannel that it implements. */
module DmaDriver {
  import opened Common
  import opened DmaDescriptors
  import opened DmaChannel
  import Invariant = DmaChannelInvariant
  import T = DmaTransfer
  import Table = DmaTable

  ghost function Values(ds: seq<Descriptor>): (r: seq<Desc>)
    reads ds
    ensures |r| == |ds| && forall k :: 0 <= k < |ds| ==> r[k] == ds[k].Value()
  {
    if ds == [] then [] else Values(ds[..|ds| - 1]) + [ds[|ds| - 1].Value()]
  }

  lemma ValuesMore(ds: seq<Descriptor>, d: Descriptor)
    ensures Values(ds + [d]) == Values(ds) + [d.Value()]
  {
    assert (ds + [d])[..|ds|] == ds;
  }

  lemma {:induction false} ValuesConcat(a: seq<Descriptor>, b: seq<Descriptor>)
    ensures Values(a + b) == Values(a) + Values(b)
    decreases |b|
  {
    if b == [] {
      assert a + b == a;
    } else {
      var n := |b| - 1;
      assert (a + b)[..|a + b| - 1] == a + b[..n];
      ValuesConcat(a, b[..n]);
    }
  }

  lemma ValuesTail(ds: seq<Descriptor>)
    requires ds != []
    ensures Values(ds) == [ds[0].Value()] + Values(ds[1..])
  {
    assert ds == ds[..1] + ds[1..];
    ValuesConcat(ds[..1], ds[1..]);
  }

  ghost predicate Below(made: map<nat, seq<Chunk>>, next: nat) {
    forall obj :: obj in made ==> obj < next
  }

  /** struct mtdma_chan with its struct virt_dma_chan */
  class MtdmaChannel {
    const kernel: Kernel
    const memory: Table.ChannelMemory
    const dir: T.Direction
    const llMax: nat

    var status: Status
    var request: Request
    var configured: bool
    var config: T.SlaveConfig

    var prepared: seq<Descriptor>
    var submitted: seq<Descriptor>
    var issued: seq<Descriptor>
    var completed: seq<Descriptor>
    var finishing: seq<Descriptor>
    var cookie: int
    var completedCookie: int

    ghost var made: map<nat, seq<Chunk>>
    ghost var order: seq<nat>
    ghost var retired: seq<Retired>
    ghost var trace: seq<Start>
    ghost var called: seq<nat>

    ghost function Contents(): Lists
      reads this`prepared, this`submitted, this`issued, this`completed, this`finishing, this`cookie,
            this`completedCookie, this`made, this`order, this`retired, this`trace, this`called, kernel`live
      reads prepared, submitted, issued, completed, finishing
    {
      Lists(Values(prepared), Values(submitted), Values(issued), Values(completed), Values(finishing),
            cookie, completedCookie, made, order, retired, trace, called, kernel.live)
    }

    ghost function State(): Channel
      reads this, kernel, prepared, submitted, issued, completed, finishing
    {
      Channel(status, request, configured, Contents())
    }

    ghost predicate Valid()
      reads this, kernel, prepared, submitted, issued, completed, finishing
    {
      && Inv(Contents(), llMax) && Below(made, kernel.next)
      && 1 <= llMax <= memory.table.Length + 1
      && config.srcAddr < U64 && config.dstAddr < U64
    }

    /** vchan_init and the channel part of mtdma_channel_setup */
    constructor (kernel: Kernel, memory: Table.ChannelMemory, dir: T.Direction, llMax: nat)
      requires kernel.live == multiset{} && 1 <= llMax <= memory.table.Length + 1
      ensures Valid() && State() == INITIAL && fresh(this)
      ensures this.kernel == kernel && this.memory == memory && this.dir == dir && this.llMax == llMax
    {
      this.kernel, this.memory, this.dir, this.llMax := kernel, memory, dir, llMax;
      status, request, configured, config := Idle, ReqNone, false, T.SlaveConfig(0, 0);
      prepared, submitted, issued, completed, finishing := [], [], [], [], [];
      cookie, completedCookie := DMA_MIN_COOKIE, DMA_MIN_COOKIE;
      made, order, retired, trace, called := map[], [], [], [], [];
      new;
      Invariant.InitialInv(llMax);
    }

    /** mtdma_device_config */
    method DeviceConfig(config: T.SlaveConfig)
      requires Valid() && config.srcAddr < U64 && config.dstAddr < U64
      modifies this`configured, this`config
      ensures Valid() && State() == old(State()).(configured := true) && this.config == config
    {
      hide Inv, Below, Contents;
      this.config := config;
      configured := true;
    }

    /** mtdma_device_prep_slave_sg: a new descriptor on the list of prepared
        ones, or nothing. */
    method PrepSlaveSg(sgl: seq<T.Sg>) returns (desc: Descriptor?)
      requires Valid()
      modifies this`prepared, this`made, kernel
      ensures Valid()
      ensures desc == null <==> !configured || sgl == [] || kernel.failures > old(kernel.failures)
      ensures desc == null ==> State() == old(State())
      ensures desc != null ==>
                && fresh(desc) && prepared == old(prepared) + [desc]
                && (dir.MemToDev? ==> T.Prepared(desc.Value(), dir, config.dstAddr, sgl, llMax))
                && (dir.DevToMem? ==> T.Prepared(desc.Value(), dir, config.srcAddr, sgl, llMax))
                && Enabled(old(State()), Prep(desc.Value()), llMax)
                && State() == Next(old(State()), Prep(desc.Value()), llMax)
    {
      hide Inv, DescOk, DescObjects, T.Prepared, Values;
      ghost var before := Contents();
      desc := T.MtdmaDeviceTransfer(kernel, configured, config, dir, sgl, llMax);
      if desc == null {
        return;
      }
      assert Contents() == before.(live := kernel.live);
      NewDescriptor(desc.Value(), dir, if dir.MemToDev? then config.dstAddr else config.srcAddr, sgl, llMax);
      Invariant.PrepareKeeps(before, desc.Value(), llMax);
      TxPrep(desc);
    }

    /** vchan_tx_prep */
    method TxPrep(desc: Descriptor)
      modifies this`prepared, this`made
      ensures prepared == old(prepared) + [desc] && made == old(made)[desc.obj := desc.chunks]
      ensures Contents() == old(Contents()).(prepared := old(Contents()).prepared + [desc.Value()], made := made)
    {
      hide Values;
      ValuesMore(prepared, desc);
      prepared := prepared + [desc];
      made := made[desc.obj := desc.chunks];
    }

    /** vchan_tx_submit: the descriptor gets a cookie and moves to the end of
        the submitted list. */
    method TxSubmit(i: nat) returns (c: int)
      requires Valid() && i < |prepared|
      modifies this`prepared, this`submitted, this`cookie, this`order, prepared
      ensures Valid() && State() == old(State()).(lists := Submit(old(Contents()), i))
      ensures c == cookie && submitted == old(submitted) + [old(prepared[i])]
    {
      hide Inv, Values, Below, Contents, Submit;
      PreparedCount();
      Invariant.SubmitKeeps(Contents(), i, llMax);
      c := cookie + 1;
      if cookie + 1 > INT_MAX {
        c := DMA_MIN_COOKIE;
      }
      MoveToSubmitted(i, c);
    }

    /** The assignments and the list move of vchan_tx_submit. */
    method MoveToSubmitted(i: nat, c: int)
      requires Inv(Contents(), llMax) && i < |prepared| && c == NextCookie(cookie)
      modifies this`prepared, this`submitted, this`cookie, this`order, prepared
      ensures Contents() == Submit(old(Contents()), i) && cookie == c
      ensures submitted == old(submitted) + [old(prepared[i])]
    {
      hide Inv, Values, Absent, NextCookie;
      PreparedApart(Contents(), i, llMax);
      var desc := prepared[i];
      ValuesCut(prepared, i);
      Others(prepared[..i], desc);
      Others(prepared[i + 1..], desc);
      Others(submitted, desc);
      Others(issued, desc);
      Others(completed, desc);
      Others(finishing, desc);
      ghost var front, back, sub := prepared[..i], prepared[i + 1..], submitted;
      desc.cookie := c;
      cookie := c;
      prepared := prepared[..i] + prepared[i + 1..];
      submitted := submitted + [desc];
      order := order + [desc.obj];
      ValuesConcat(front, back);
      ValuesMore(sub, desc);
    }

    /** If a chunk has been started since the trace had `before` elements, it is
        the last one, and registers and table hold it. */
    ghost predicate ChunkWritten(before: nat, table: seq<Table.Slot>)
      reads this`trace, memory, memory.table
    {
      |trace| == before
      || (|trace| == before + 1
          && trace[before].chunk.bursts != [] && memory.Written(trace[before].chunk.bursts, table))
    }

    /** mtdma_start_transfer with mtdma_v0_core_start: the next chunk of the
        first issued descriptor is written to the channel memory and freed. */
    method StartTransfer()
      requires Valid()
      modifies this`trace, kernel`live, issued, memory`register, memory.table
      ensures Valid() && Contents() == DmaChannel.StartTransfer(old(Contents()))
      ensures ChunkWritten(|old(trace)|, old(memory.table[..]))
    {
      hide Inv, Values, DescOk, Table.SlotAt, Table.Holds, Contents, Below, DmaChannel.StartTransfer;
      HeadValue();
      NothingToStart(Contents());
      if |issued| == 0 {
        return;
      }
      var desc := issued[0];
      if |desc.chunks| == 0 {
        return;
      }
      HeadFacts(Contents(), llMax);
      memory.WriteChunk(desc.chunks[0].bursts);
      ChunkStarted();
    }

    lemma PreparedCount()
      ensures |Contents().prepared| == |prepared|
    {
    }

    lemma HeadValue()
      ensures |Contents().issued| == |issued|
      ensures |issued| > 0 ==> Contents().issued[0] == issued[0].Value()
    {
    }

    /** The bookkeeping of mtdma_start_transfer once the chunk is written. */
    method ChunkStarted()
      requires Valid() && |issued| > 0 && issued[0].chunks != []
      modifies this`trace, kernel`live, issued
      ensures Valid() && Contents() == DmaChannel.StartTransfer(old(Contents()))
      ensures trace == old(trace) + [Start(issued[0].obj, old(issued[0].chunks[0]))]
    {
      hide Inv, Values, Absent, DescObjects, ChunkObjects, DescOk, RestObjects;
      ghost var before := Contents();
      Invariant.StartKeeps(before, llMax);
      HeadFacts(before, llMax);
      HeadApart(before, llMax);
      StartLive(before, llMax);
      var desc := issued[0];
      ValuesTail(issued);
      Others(issued[1..], desc);
      Others(prepared, desc);
      Others(submitted, desc);
      Others(completed, desc);
      Others(finishing, desc);
      var child := desc.chunks[0];
      SizeFree(desc.Value(), (desc.xferSz + child.sz) % U32);
      trace := trace + [Start(desc.obj, child)];
      desc.xferSz := (desc.xferSz + child.sz) % U32;
      FreeFirstChunk(kernel, desc, RestObjects(before));
      ValuesTail(issued);
    }

    /** list_del of the first issued descriptor and vchan_cookie_complete */
    method CookieComplete(ghost cause: Cause)
      requires Valid() && |issued| > 0 && (cause == Finished ==> issued[0].chunksAlloc == 0)
      modifies this`issued, this`completed, this`completedCookie, this`retired, issued
      ensures Valid() && Contents() == Retire(old(Contents()), cause)
    {
      hide Inv, Values, Absent;
      ghost var before := Contents();
      Invariant.RetireKeeps(before, cause, llMax);
      HeadApart(before, llMax);
      var desc := issued[0];
      ghost var rest, done := issued[1..], completed;
      ValuesTail(issued);
      Others(rest, desc);
      Others(prepared, desc);
      Others(submitted, desc);
      Others(done, desc);
      Others(finishing, desc);
      issued := issued[1..];
      completedCookie := desc.cookie;
      desc.cookie := 0;
      completed := completed + [desc];
      retired := Retire(before, cause).retired;
      ValuesMore(done, desc);
    }

    /** vchan_issue_pending */
    method VchanIssuePending()
      requires Valid()
      modifies this`submitted, this`issued
      ensures Valid() && Contents() == Splice(old(Contents()))
      ensures issued == old(issued + submitted) && submitted == []
    {
      hide Inv, Values, Below;
      Invariant.SpliceKeeps(Contents(), llMax);
      ValuesConcat(issued, submitted);
      issued := issued + submitted;
      submitted := [];
    }

    /** mtdma_device_issue_pending */
    method IssuePending()
      requires Valid()
      modifies this`submitted, this`issued, this`status, this`trace, kernel`live, issued, submitted,
               memory`register, memory.table
      ensures Valid() && State() == DmaChannel.IssuePending(old(State()))
      ensures ChunkWritten(|old(trace)|, old(memory.table[..]))
    {
      hide Inv, Values, DmaChannel.StartTransfer, Below, Contents, Splice;
      SpliceEmpty(Contents());
      HeadValue();
      if configured && request == ReqNone && status == Idle {
        VchanIssuePending();
        HeadValue();
        if |issued| > 0 {
          status := Busy;
          StartTransfer();
        }
      }
    }

    /** mtdma_done_interrupt */
    method DoneInterrupt()
      requires Valid()
      modifies this`issued, this`completed, this`completedCookie, this`retired, this`trace, this`status, this`request,
               kernel`live, issued, memory`register, memory.table
      ensures Valid() && State() == DmaChannel.DoneInterrupt(old(State()))
      ensures ChunkWritten(|old(trace)|, old(memory.table[..]))
    {
      hide Inv, Values, DmaChannel.StartTransfer, Retire, Contents, Below, Table.SlotAt, Table.Holds;
      HeadValue();
      if |issued| > 0 {
        match request
        case ReqNone =>
          if issued[0].chunksAlloc != 0 {
            status := Busy;
            StartTransfer();
          } else {
            CookieComplete(Finished);
            status := Idle;
          }
        case ReqStop =>
          CookieComplete(Stopped);
          request := ReqNone;
          status := Idle;
        case ReqPause =>
          request := ReqNone;
          status := Paused;
      }
    }

    /** mtdma_abort_interrupt under the lock */
    method AbortInterrupt()
      requires Valid()
      modifies this`issued, this`completed, this`completedCookie, this`retired, issued
      ensures Valid() && State() == DmaChannel.AbortInterrupt(old(State()))
    {
      hide Inv, Values, Retire;
      HeadValue();
      if |issued| > 0 {
        CookieComplete(Aborted);
      }
    }

    /** and the assignments after it */
    method AbortReset()
      requires Valid()
      modifies this`request, this`status
      ensures Valid() && State() == DmaChannel.AbortReset(old(State()))
    {
      hide Inv, Values, Contents;
      request := ReqNone;
      status := Idle;
    }

    /** mtdma_device_terminate_all; `idle` is what the status register says.  Its
        error return is dead, as no request is beyond a pause, and a channel that
        stays configured is busy with a stop request. */
    method DeviceTerminateAll(idle: bool) returns (err: bool)
      requires Valid()
      modifies this`request, this`status, this`configured
      ensures Valid() && State() == DmaChannel.TerminateAll(old(State()), idle).0 && !err
      ensures configured ==> request == ReqStop && status == Busy
    {
      hide Inv, Values, Contents;
      err := false;
      if !configured {
      } else if status == Paused {
        status := Idle;
        configured := false;
      } else if status == Idle {
        configured := false;
      } else if idle {
        status := Idle;
        configured := false;
      } else if Code(request) > Code(ReqPause) {
        err := true;
      } else {
        request := ReqStop;
      }
    }

    /** vchan_find_desc */
    method FindDesc(c: int) returns (found: Descriptor?)
      ensures found == null ==> DmaChannel.FindDesc(Contents().issued, c) == None
      ensures found != null ==> DmaChannel.FindDesc(Contents().issued, c) == Some(found.Value())
    {
      hide Values;
      ghost var list := Contents().issued;
      assert list[0..] == list;
      for i := 0 to |issued|
        invariant DmaChannel.FindDesc(list[i..], c) == DmaChannel.FindDesc(list, c)
      {
        assert list[i..][0] == issued[i].Value() && list[i..][1..] == list[i + 1..];
        if issued[i].cookie == c {
          return issued[i];
        }
      }
      found := null;
    }

    /** mtdma_device_tx_status with a state to fill in */
    method DeviceTxStatus(c: int) returns (ret: TxStatus, residue: nat)
      ensures (ret, residue) == DmaChannel.DeviceTxStatus(State(), c)
    {
      hide Values, DmaChannel.FindDesc, IsComplete;
      if IsComplete(c, completedCookie, cookie) {
        return Complete, 0;
      }
      ret := if status == Paused then StatusPaused else InProgress;
      residue := 0;
      var desc := FindDesc(c);
      if desc != null {
        residue := (desc.allocSz - desc.xferSz) % U32;
      }
    }

    /** One turn of the loop of vchan_complete: callback and vchan_vdesc_fini. */
    method TaskletCall()
      requires Valid() && |finishing| > 0
      modifies this`finishing, this`called, kernel`live, finishing
      ensures Valid() && finishing == old(finishing[1..]) && Contents() == Call(old(Contents()))
    {
      hide Inv, Values, Absent, DescObjects, DescOk, CallRest;
      ghost var before := Contents();
      Invariant.CallKeeps(before, llMax);
      CallFacts(before, llMax);
      FinishingApart(before, llMax);
      CallLive(before, llMax);
      var vd := finishing[0];
      ghost var rest := finishing[1..];
      ValuesTail(finishing);
      Others(rest, vd);
      Others(prepared, vd);
      Others(submitted, vd);
      Others(issued, vd);
      Others(completed, vd);
      finishing := finishing[1..];
      called := called + [vd.obj];
      FreeDesc(kernel, vd, CallRest(before));
    }

    /** vchan_complete, if nothing intervenes: every completed descriptor is
        called back and freed, in order. */
    method VchanComplete()
      requires Valid() && finishing == []
      modifies this`completed, this`finishing, this`called, kernel`live, completed
      ensures Valid() && finishing == [] && Contents() == CallAll(Take(old(Contents())))
    {
      hide Inv, Values, CallAll, Below;
      ghost var before := Contents();
      Invariant.TakeKeeps(before, llMax);
      finishing := completed;
      completed := [];
      CallFinishing();
    }

    /** The loop of vchan_complete. */
    method CallFinishing()
      requires Valid()
      modifies this`finishing, this`called, kernel`live, finishing
      ensures Valid() && finishing == [] && Contents() == CallAll(old(Contents()))
    {
      hide Inv, Values, Call, CallAll, Below, Contents;
      ghost var taken := finishing;
      while |finishing| > 0
        invariant Valid() && forall k :: 0 <= k < |finishing| ==> finishing[k] in taken
        invariant CallAll(Contents()) == CallAll(old(Contents()))
        decreases |finishing|
      {
        CallAllStep(Contents());
        FinishingValues();
        TaskletCall();
      }
      CallAllStep(Contents());
      FinishingValues();
    }

    lemma FinishingValues()
      ensures |Contents().finishing| == |finishing|
    {
    }
  }

  // ---------- no descriptor object is on two lists ----------

  /** No descriptor value with that name in the list. */
  ghost predicate Absent(obj: nat, ds: seq<Desc>) {
    forall k :: 0 <= k < |ds| ==> ds[k].obj != obj
  }

  lemma Others(ds: seq<Descriptor>, d: Descriptor)
    requires Absent(d.obj, Values(ds))
    ensures d !in ds
  {
    forall k | 0 <= k < |ds| ensures ds[k] != d {
      assert Values(ds)[k].obj == ds[k].obj;
    }
  }

  /** The descriptors stand from `at` on, in the order of all cookies with the
      prepared descriptors behind. */
  ghost predicate StandAt(s: Lists, at: nat, ds: seq<Desc>) {
    var all := s.order + Ids(s.prepared);
    at + |ds| <= |all| && forall k :: 0 <= k < |ds| ==> all[at + k] == ds[k].obj
  }

  lemma OnePlace(s: Lists, p: nat, ds: seq<Desc>, at: nat)
    requires OnOneList(s) && StandAt(s, at, ds)
    requires p < |s.order + Ids(s.prepared)| && !(at <= p < at + |ds|)
    ensures Absent((s.order + Ids(s.prepared))[p], ds)
  {
    var all := s.order + Ids(s.prepared);
    forall k | 0 <= k < |ds| ensures ds[k].obj != all[p] {
      assert all[at + k] == ds[k].obj;
    }
  }

  lemma Places(s: Lists, llMax: nat)
    requires Inv(s, llMax)
    ensures OnOneList(s)
    ensures StandAt(s, |s.called|, s.finishing) && StandAt(s, |s.called| + |s.finishing|, s.completed)
    ensures StandAt(s, |s.retired|, s.issued) && StandAt(s, |s.retired| + |s.issued|, s.submitted)
    ensures StandAt(s, |s.order|, s.prepared)
    ensures |s.called| + |s.finishing| + |s.completed| == |s.retired|
    ensures |s.retired| + |s.issued| + |s.submitted| == |s.order|
  {
    hide OnlyHeadStarted, TraceInOrder, FinishedWhole, CookiesInOrder, AllOk, NothingLost;
    var rs, callbacks := RetiredIds(s.retired), s.called + Ids(s.finishing) + Ids(s.completed);
    var all := s.order + Ids(s.prepared);
    assert |callbacks| == |rs| && all[..|rs|] == callbacks;
    forall k | 0 <= k < |rs| ensures all[k] == callbacks[k] {
      assert all[..|rs|][k] == callbacks[k];
    }
    forall k | 0 <= k < |s.finishing| ensures all[|s.called| + k] == s.finishing[k].obj {
      assert callbacks[|s.called| + k] == Ids(s.finishing)[k];
    }
    forall k | 0 <= k < |s.completed| ensures all[|s.called| + |s.finishing| + k] == s.completed[k].obj {
      assert callbacks[|s.called| + |s.finishing| + k] == Ids(s.completed)[k];
    }
  }

  /** A part of a list stands where the list does. */
  lemma PartStands(s: Lists, at: nat, ds: seq<Desc>, from: nat, to: nat)
    requires StandAt(s, at, ds) && from <= to <= |ds|
    ensures StandAt(s, at + from, ds[from..to])
  {
    var all, part := s.order + Ids(s.prepared), ds[from..to];
    forall k | 0 <= k < |part| ensures all[at + from + k] == part[k].obj {
      assert part[k] == ds[from + k];
      assert all[at + (from + k)] == ds[from + k].obj;
    }
  }

  lemma PreparedApart(s: Lists, i: nat, llMax: nat)
    requires Inv(s, llMax) && i < |s.prepared|
    ensures var obj := s.prepared[i].obj;
            && Absent(obj, s.prepared[..i]) && Absent(obj, s.prepared[i + 1..]) && Absent(obj, s.submitted)
            && Absent(obj, s.issued) && Absent(obj, s.completed) && Absent(obj, s.finishing)
  {
    hide Inv, Absent, OnOneList, StandAt;
    Places(s, llMax);
    var p := |s.order| + i;
    PartStands(s, |s.order|, s.prepared, 0, i);
    PartStands(s, |s.order|, s.prepared, i + 1, |s.prepared|);
    OnePlace(s, p, s.prepared[0..i], |s.order|);
    OnePlace(s, p, s.prepared[i + 1..|s.prepared|], p + 1);
    OnePlace(s, p, s.submitted, |s.retired| + |s.issued|);
    OnePlace(s, p, s.issued, |s.retired|);
    OnePlace(s, p, s.completed, |s.called| + |s.finishing|);
    OnePlace(s, p, s.finishing, |s.called|);
    assert s.prepared[0..i] == s.prepared[..i] && s.prepared[i + 1..|s.prepared|] == s.prepared[i + 1..];
  }

  lemma HeadApart(s: Lists, llMax: nat)
    requires Inv(s, llMax) && s.issued != []
    ensures var obj := s.issued[0].obj;
            && Absent(obj, s.issued[1..]) && Absent(obj, s.prepared) && Absent(obj, s.submitted)
            && Absent(obj, s.completed) && Absent(obj, s.finishing)
  {
    hide Inv, Absent, OnOneList;
    Places(s, llMax);
    var p := |s.retired|;
    PartStands(s, p, s.issued, 1, |s.issued|);
    OnePlace(s, p, s.issued[1..|s.issued|], p + 1);
    assert s.issued[1..|s.issued|] == s.issued[1..];
    OnePlace(s, p, s.prepared, |s.order|);
    OnePlace(s, p, s.submitted, |s.retired| + |s.issued|);
    OnePlace(s, p, s.completed, |s.called| + |s.finishing|);
    OnePlace(s, p, s.finishing, |s.called|);
  }

  lemma NewDescriptor(d: Desc, dir: T.Direction, laddr: nat, sgl: seq<T.Sg>, llMax: nat)
    requires T.Prepared(d, dir, laddr, sgl, llMax)
    ensures DescOk(d, llMax) && d.chunks != [] && d.xferSz == 0 && d.cookie == 0
  {
  }

  lemma ValuesCut(ds: seq<Descriptor>, i: nat)
    requires i < |ds|
    ensures Values(ds)[..i] == Values(ds[..i]) && Values(ds)[i] == ds[i].Value()
    ensures Values(ds)[i + 1..] == Values(ds[i + 1..])
  {
    hide Values;
    assert ds == ds[..i] + ds[i..];
    ValuesConcat(ds[..i], ds[i..]);
    ValuesTail(ds[i..]);
    assert ds[i..][1..] == ds[i + 1..];
  }

  /** The objects of all descriptors but the first issued one. */
  ghost function RestObjects(s: Lists): multiset<nat>
    requires s.issued != []
  {
    Objects(s.prepared) + Objects(s.submitted) + Objects(s.issued[1..]) + Objects(s.completed) + Objects(s.finishing)
  }

  lemma SpliceEmpty(s: Lists)
    ensures Splice(s).issued == s.issued + s.submitted
  {
  }

  lemma NothingToStart(s: Lists)
    ensures s.issued == [] || s.issued[0].chunks == [] ==> StartTransfer(s) == s
  {
  }

  lemma HeadFacts(s: Lists, llMax: nat)
    requires Inv(s, llMax) && s.issued != []
    ensures var d := s.issued[0];
            && DescOk(d, llMax) && d.chunksAlloc == |d.chunks|
            && (d.chunks != [] ==> d.chunks[0].head.Some? && 1 <= |d.chunks[0].bursts| <= llMax)
  {
    assert DescOk(s.issued[0], llMax);
  }

  lemma StartLive(s: Lists, llMax: nat)
    requires Inv(s, llMax) && s.issued != [] && s.issued[0].chunks != []
    ensures s.live == RestObjects(s) + DescObjects(s.issued[0])
    ensures s.live - ChunkObjects(s.issued[0].chunks[0]) == RestObjects(s) + DescObjects(AfterStart(s.issued[0]))
  {
    hide Inv, Objects, DescObjects, ChunkObjects;
    Lost(s, llMax);
    Invariant.ObjectsHead(s.issued);
    Invariant.AfterStartObjects(s.issued[0]);
  }

  lemma Lost(s: Lists, llMax: nat)
    requires Inv(s, llMax)
    ensures NothingLost(s)
  {
  }

  lemma SizeFree(d: Desc, xferSz: nat)
    ensures DescObjects(d.(xferSz := xferSz)) == DescObjects(d)
  {
  }

  // ---------- the tasklet ----------

  /** The whole loop of vchan_complete. */
  function CallAll(s: Lists): Lists
    decreases |s.finishing|
  {
    if s.finishing == [] then s else CallAll(Call(s))
  }

  lemma CallAllStep(s: Lists)
    ensures CallAll(s) == if s.finishing == [] then s else CallAll(Call(s))
  {
  }

  /** Exactly the finishing descriptors are called back, in their order. */
  lemma {:induction false} CallAllCalls(s: Lists)
    ensures CallAll(s).called == s.called + Ids(s.finishing) && CallAll(s).finishing == []
    decreases |s.finishing|
  {
    hide Ids, DescObjects;
    if s.finishing == [] {
      assert s.called + Ids(s.finishing) == s.called;
    } else {
      CallAllCalls(Call(s));
      Invariant.HeadFirst(s.finishing);
      assert s.called + [s.finishing[0].obj] + Ids(s.finishing[1..])
          == s.called + ([s.finishing[0].obj] + Ids(s.finishing[1..]));
    }
  }

  ghost function CallRest(s: Lists): multiset<nat>
    requires s.finishing != []
  {
    Objects(s.prepared) + Objects(s.submitted) + Objects(s.issued) + Objects(s.completed) + Objects(s.finishing[1..])
  }

  lemma CallLive(s: Lists, llMax: nat)
    requires Inv(s, llMax) && s.finishing != []
    ensures s.live == CallRest(s) + DescObjects(s.finishing[0])
    ensures s.live - DescObjects(s.finishing[0]) == CallRest(s)
  {
    hide Inv, Objects, DescObjects;
    Lost(s, llMax);
    Invariant.ObjectsHead(s.finishing);
  }

  lemma CallFacts(s: Lists, llMax: nat)
    requires Inv(s, llMax) && s.finishing != []
    ensures var d := s.finishing[0];
            && d.head.Some? && d.chunksAlloc == |d.chunks|
            && forall j :: 0 <= j < |d.chunks| ==> d.chunks[j].head.Some?
  {
    var d := s.finishing[0];
    assert DescOk(d, llMax);
    forall j | 0 <= j < |d.chunks| ensures d.chunks[j].head.Some? {
      assert ChunkOk(d.chunks[j], llMax);
    }
  }

  lemma FinishingApart(s: Lists, llMax: nat)
    requires Inv(s, llMax) && s.finishing != []
    ensures var obj := s.finishing[0].obj;
            && Absent(obj, s.finishing[1..]) && Absent(obj, s.prepared) && Absent(obj, s.submitted)
            && Absent(obj, s.issued) && Absent(obj, s.completed)
  {
    hide Inv, Absent, OnOneList;
    Places(s, llMax);
    var p := |s.called|;
    PartStands(s, p, s.finishing, 1, |s.finishing|);
    OnePlace(s, p, s.finishing[1..|s.finishing|], p + 1);
    assert s.finishing[1..|s.finishing|] == s.finishing[1..];
    OnePlace(s, p, s.prepared, |s.order|);
    OnePlace(s, p, s.submitted, |s.retired| + |s.issued|);
    OnePlace(s, p, s.issued, |s.retired|);
    OnePlace(s, p, s.completed, p + |s.finishing|);
  }
}

/** Every step of the DMA channel keeps the invariant of DmaChannel, and what
    follows from it for every run. */
module DmaChannelInvariant {
  import opened Common
  import opened DmaDescriptors
  import opened DmaChannel

  // ---------- lists ----------

  lemma IdsConcat(a: seq<Desc>, b: seq<Desc>)
    ensures Ids(a + b) == Ids(a) + Ids(b)
  {
  }

  lemma IdsOne(d: Desc)
    ensures Ids([d]) == [d.obj]
  {
  }

  lemma RetiredIdsMore(rs: seq<Retired>, r: Retired)
    ensures RetiredIds(rs + [r]) == RetiredIds(rs) + [r.obj]
  {
  }

  lemma HeadFirst(ds: seq<Desc>)
    requires ds != []
    ensures ds == [ds[0]] + ds[1..] && Ids(ds) == [ds[0].obj] + Ids(ds[1..])
  {
  }

  lemma SubmitInOrder(s: Lists, i: nat)
    requires i < |s.prepared| && InOrder(s)
    ensures InOrder(Submit(s, i))
  {
    hide Ids, RetiredIds;
    IdsConcat(s.submitted, [Submit(s, i).submitted[|s.submitted|]]);
    IdsOne(Submit(s, i).submitted[|s.submitted|]);
    assert RetiredIds(s.retired) + Ids(s.issued) + (Ids(s.submitted) + [s.prepared[i].obj])
        == RetiredIds(s.retired) + Ids(s.issued) + Ids(s.submitted) + [s.prepared[i].obj];
  }

  lemma SpliceInOrder(s: Lists)
    requires InOrder(s)
    ensures InOrder(Splice(s))
  {
    hide Ids, RetiredIds;
    IdsConcat(s.issued, s.submitted);
    assert Ids([]) == [];
    assert RetiredIds(s.retired) + (Ids(s.issued) + Ids(s.submitted)) + []
        == RetiredIds(s.retired) + Ids(s.issued) + Ids(s.submitted);
  }

  lemma StartIds(s: Lists)
    ensures Ids(StartTransfer(s).issued) == Ids(s.issued)
  {
  }

  lemma RetireInOrder(s: Lists, cause: Cause)
    requires s.issued != [] && InOrder(s)
    ensures InOrder(Retire(s, cause))
  {
    hide Ids, RetiredIds;
    HeadFirst(s.issued);
    RetiredIdsMore(s.retired, Retire(s, cause).retired[|s.retired|]);
    var a, x, b, c := RetiredIds(s.retired), s.issued[0].obj, Ids(s.issued[1..]), Ids(s.submitted);
    assert a + ([x] + b) + c == a + [x] + b + c;
  }

  lemma PrepareOnOneList(s: Lists, d: Desc)
    requires OnOneList(s) && d.obj !in s.made
    ensures OnOneList(Prepare(s, d))
  {
    hide Ids;
    IdsConcat(s.prepared, [d]);
    IdsOne(d);
    var before := s.order + Ids(s.prepared);
    assert s.order + (Ids(s.prepared) + [d.obj]) == before + [d.obj];
  }

  lemma SubmitOnOneList(s: Lists, i: nat)
    requires i < |s.prepared| && OnOneList(s)
    ensures OnOneList(Submit(s, i))
  {
    var n := |s.order|;
    var before, after := s.order + Ids(s.prepared), s.order + [s.prepared[i].obj] + Ids(Without(s.prepared, i));
    assert forall k :: 0 <= k < |after| ==>
      after[k] == before[if k < n then k else if k == n then n + i else if k <= n + i then k - 1 else k];
  }

  lemma CallbacksStep(a: seq<nat>, b: seq<nat>, c: seq<nat>, x: nat)
    ensures a + b + (c + [x]) == a + b + c + [x]
    ensures a + ([x] + b) + c == a + [x] + b + c
  {
  }

  lemma RetireCallbacks(s: Lists, cause: Cause)
    requires s.issued != [] && CallbacksInOrder(s)
    ensures CallbacksInOrder(Retire(s, cause))
  {
    hide Ids, RetiredIds;
    var d := s.issued[0].(cookie := 0);
    IdsConcat(s.completed, [d]);
    IdsOne(d);
    RetiredIdsMore(s.retired, Retire(s, cause).retired[|s.retired|]);
    CallbacksStep(s.called, Ids(s.finishing), Ids(s.completed), d.obj);
  }

  lemma TakeCallbacks(s: Lists)
    requires s.finishing == [] && CallbacksInOrder(s)
    ensures CallbacksInOrder(Take(s))
  {
    assert Ids([]) == [];
  }

  lemma CallCallbacks(s: Lists)
    requires s.finishing != [] && CallbacksInOrder(s)
    ensures CallbacksInOrder(Call(s))
  {
    hide Ids, RetiredIds;
    HeadFirst(s.finishing);
    CallbacksStep(s.called, Ids(s.finishing[1..]), Ids(s.completed), s.finishing[0].obj);
  }

  // ---------- chunks and the trace ----------

  lemma WholeStarted(s: Lists, d: Desc)
    requires Whole(s, d)
    ensures Started(s, d) == 0 && StartedTo(s, d, 0) && Prefix(s.made, d.obj, 0) == []
  {
  }

  lemma AfterStartStarted(s: Lists, d: Desc)
    requires StartedTo(s, d, Started(s, d)) && d.chunks != []
    ensures Started(s, AfterStart(d)) == Started(s, d) + 1 && StartedTo(s, AfterStart(d), Started(s, d) + 1)
    ensures Prefix(s.made, d.obj, Started(s, d) + 1)
         == Prefix(s.made, d.obj, Started(s, d)) + [Start(d.obj, d.chunks[0])]
  {
    var whole, n := s.made[d.obj], Started(s, d);
    assert whole[n..][1..] == whole[n + 1..];
    assert whole[..n + 1] == whole[..n] + [d.chunks[0]];
  }

  lemma {:induction false} PiecesFrame(s: Lists, obj: nat, chunks: seq<Chunk>, rs: seq<Retired>)
    requires obj !in s.made && forall k :: 0 <= k < |rs| ==> rs[k].obj in s.made
    ensures Pieces(s.made[obj := chunks], rs) == Pieces(s.made, rs)
    decreases |rs|
  {
    if rs != [] { PiecesFrame(s, obj, chunks, rs[..|rs| - 1]); }
  }

  lemma PiecesMore(made: map<nat, seq<Chunk>>, rs: seq<Retired>, r: Retired)
    ensures Pieces(made, rs + [r]) == Pieces(made, rs) + Prefix(made, r.obj, r.started)
  {
    assert (rs + [r])[..|rs|] == rs;
  }

  lemma PrepareTrace(s: Lists, d: Desc)
    requires OnlyHeadStarted(s) && TraceInOrder(s) && FinishedWhole(s) && d.obj !in s.made
    ensures TraceInOrder(Prepare(s, d)) && FinishedWhole(Prepare(s, d))
  {
    hide Pieces, Whole;
    PiecesFrame(s, d.obj, d.chunks, s.retired);
  }

  lemma PrepareStarted(s: Lists, d: Desc)
    requires OnlyHeadStarted(s) && d.obj !in s.made
    ensures OnlyHeadStarted(Prepare(s, d))
  {
    hide Whole, StartedTo, Started;
    var t := Prepare(s, d);
    forall e: Desc ensures Whole(s, e) ==> Whole(t, e) { StillThere(s, d, e); }
    StillThere(s, d, d);
    if s.issued != [] { StillThere(s, d, s.issued[0]); }
  }

  lemma StillThere(s: Lists, d: Desc, e: Desc)
    requires d.obj !in s.made
    ensures Whole(s, e) ==> Whole(Prepare(s, d), e)
    ensures StartedTo(s, e, Started(s, e)) ==> StartedTo(Prepare(s, d), e, Started(Prepare(s, d), e))
    ensures e == d ==> Whole(Prepare(s, d), e)
  {
  }

  lemma SubmitTrace(s: Lists, i: nat)
    requires i < |s.prepared| && OnlyHeadStarted(s) && TraceInOrder(s)
    ensures OnlyHeadStarted(Submit(s, i)) && TraceInOrder(Submit(s, i))
  {
    hide Pieces;
  }

  lemma SpliceTrace(s: Lists)
    requires OnlyHeadStarted(s) && TraceInOrder(s)
    ensures OnlyHeadStarted(Splice(s)) && TraceInOrder(Splice(s))
  {
    hide Pieces, Prefix;
    if s.issued == [] && s.submitted != [] {
      WholeStarted(s, s.submitted[0]);
    }
  }

  lemma StartTrace(s: Lists)
    requires OnlyHeadStarted(s) && TraceInOrder(s)
    ensures OnlyHeadStarted(StartTransfer(s)) && TraceInOrder(StartTransfer(s))
  {
    hide Pieces, Prefix;
    if s.issued != [] && s.issued[0].chunks != [] {
      AfterStartStarted(s, s.issued[0]);
    }
  }

  lemma RetireTrace(s: Lists, cause: Cause)
    requires s.issued != [] && OnlyHeadStarted(s) && TraceInOrder(s) && FinishedWhole(s)
    requires cause == Finished ==> s.issued[0].chunks == []
    ensures OnlyHeadStarted(Retire(s, cause)) && TraceInOrder(Retire(s, cause)) && FinishedWhole(Retire(s, cause))
  {
    hide Pieces, Prefix;
    PiecesMore(s.made, s.retired, Retire(s, cause).retired[|s.retired|]);
    if |s.issued| > 1 {
      WholeStarted(s, s.issued[1]);
    }
  }

  // ---------- cookies ----------

  lemma NextCookieAt(n: nat)
    ensures NextCookie(CookieAt(n)) == CookieAt(n + 1) && CookieAt(n) >= DMA_MIN_COOKIE
  {
  }

  lemma OrderLength(s: Lists)
    requires InOrder(s)
    ensures |s.order| == |s.retired| + |s.issued| + |s.submitted|
  {
  }

  lemma SubmitCookies(s: Lists, i: nat)
    requires i < |s.prepared| && InOrder(s) && CookiesInOrder(s)
    ensures CookiesInOrder(Submit(s, i))
  {
    hide CookieAt, InOrder;
    OrderLength(s);
    NextCookieAt(|s.order|);
  }

  lemma SpliceCookies(s: Lists)
    requires CookiesInOrder(s)
    ensures CookiesInOrder(Splice(s))
  {
    hide CookieAt;
  }

  lemma RetireCookies(s: Lists, cause: Cause)
    requires s.issued != [] && CookiesInOrder(s)
    ensures CookiesInOrder(Retire(s, cause))
  {
    hide CookieAt;
    forall k | 0 <= k < |s.issued| - 1 ensures s.issued[1..][k].cookie == CookieAt(|s.retired| + 1 + k + 1) {
      assert s.issued[1..][k] == s.issued[k + 1];
    }
  }

  // ---------- counters and sizes ----------

  lemma AfterStartOk(d: Desc, llMax: nat)
    requires DescOk(d, llMax) && d.chunks != []
    ensures DescOk(AfterStart(d), llMax)
  {
    var c, rest := d.chunks[0], d.chunks[1..];
    assert ChunkOk(c, llMax);
    assert ChunksOk(rest, llMax) by {
      forall k | 0 <= k < |rest| ensures ChunkOk(rest[k], llMax) { assert rest[k] == d.chunks[k + 1]; }
    }
    BurstSumConcat(c.bursts, AllBursts(rest));
    Residue(d.allocSz, d.xferSz, BurstSum(c.bursts), BurstSum(AllBursts(rest)));
  }

  /** Counting modulo 2^32 on both sides. */
  lemma Residue(total: nat, done: nat, now: nat, rest: nat)
    requires (total - done) % U32 == (now + rest) % U32
    ensures (total - (done + now % U32) % U32) % U32 == rest % U32
  {
    var a, b := (total - done) / U32, (now + rest) / U32;
    assert total - done - now - rest == (a - b) * U32;
    var q, r := now / U32, (done + now % U32) / U32;
    assert total - (done + now % U32) % U32 - rest == (a - b + q + r) * U32;
    Multiple(total - (done + now % U32) % U32, rest, a - b + q + r);
  }

  lemma Multiple(x: int, y: nat, k: int)
    requires x - y == k * U32
    ensures x % U32 == y % U32
  {
    var q := y / U32;
    assert x == (k + q) * U32 + y % U32;
  }

  // ---------- objects ----------

  lemma {:induction false} ObjectsConcat(a: seq<Desc>, b: seq<Desc>)
    ensures Objects(a + b) == Objects(a) + Objects(b)
  {
    hide DescObjects;
    if a == [] {
      assert a + b == b;
    } else {
      assert (a + b)[1..] == a[1..] + b;
      ObjectsConcat(a[1..], b);
    }
  }

  lemma ObjectsOne(d: Desc)
    ensures Objects([d]) == DescObjects(d)
  {
    hide DescObjects;
  }

  lemma NoObjects()
    ensures Objects([]) == multiset{}
  {
  }

  lemma CookieFree(d: Desc, cookie: int)
    ensures DescObjects(d.(cookie := cookie)) == DescObjects(d)
  {
  }

  lemma ObjectsHead(ds: seq<Desc>)
    requires ds != []
    ensures Objects(ds) == DescObjects(ds[0]) + Objects(ds[1..])
  {
  }

  lemma PrepareObjects(s: Lists, d: Desc)
    requires NothingLost(s)
    ensures NothingLost(Prepare(s, d))
  {
    hide Objects, DescObjects;
    ObjectsConcat(s.prepared, [d]);
    ObjectsOne(d);
  }

  lemma SubmitObjects(s: Lists, i: nat)
    requires i < |s.prepared| && NothingLost(s)
    ensures NothingLost(Submit(s, i))
  {
    hide Objects, DescObjects;
    var d, cookie := s.prepared[i], NextCookie(s.cookie);
    assert s.prepared == s.prepared[..i] + ([d] + s.prepared[i + 1..]);
    ObjectsConcat(s.prepared[..i], [d] + s.prepared[i + 1..]);
    ObjectsConcat([d], s.prepared[i + 1..]);
    ObjectsConcat(s.prepared[..i], s.prepared[i + 1..]);
    ObjectsConcat(s.submitted, [d.(cookie := cookie)]);
    ObjectsOne(d);
    ObjectsOne(d.(cookie := cookie));
    CookieFree(d, cookie);
  }

  lemma SpliceObjects(s: Lists)
    requires NothingLost(s)
    ensures NothingLost(Splice(s))
  {
    hide Objects;
    ObjectsConcat(s.issued, s.submitted);
    NoObjects();
  }

  lemma AfterStartObjects(d: Desc)
    requires d.chunks != []
    ensures DescObjects(d) == DescObjects(AfterStart(d)) + ChunkObjects(d.chunks[0])
  {
    hide ChunkObjects;
  }

  lemma StartObjects(s: Lists)
    requires NothingLost(s)
    ensures NothingLost(StartTransfer(s))
    ensures s.issued != [] && s.issued[0].chunks != [] ==> ChunkObjects(s.issued[0].chunks[0]) <= s.live
  {
    if s.issued != [] && s.issued[0].chunks != [] {
      var d := s.issued[0];
      AfterStartObjects(d);
      ObjectsHead(s.issued);
      ObjectsHead([AfterStart(d)] + s.issued[1..]);
      assert ([AfterStart(d)] + s.issued[1..])[1..] == s.issued[1..];
      hide Objects, DescObjects, ChunkObjects;
    }
  }

  lemma RetireObjects(s: Lists, cause: Cause)
    requires s.issued != [] && NothingLost(s)
    ensures NothingLost(Retire(s, cause))
  {
    hide Objects, DescObjects;
    var d := s.issued[0];
    ObjectsHead(s.issued);
    ObjectsConcat(s.completed, [d.(cookie := 0)]);
    ObjectsOne(d.(cookie := 0));
    CookieFree(d, 0);
  }

  lemma TakeObjects(s: Lists)
    requires s.finishing == [] && NothingLost(s)
    ensures NothingLost(Take(s))
  {
    hide Objects;
    NoObjects();
  }

  lemma CallObjects(s: Lists)
    requires s.finishing != [] && NothingLost(s)
    ensures NothingLost(Call(s)) && DescObjects(s.finishing[0]) <= s.live
  {
    hide Objects, DescObjects;
    ObjectsHead(s.finishing);
  }

  // ---------- every operation keeps the invariant ----------

  lemma PrepareKeeps(s: Lists, d: Desc, llMax: nat)
    requires Inv(s, llMax) && d.obj !in s.made && DescOk(d, llMax)
    ensures Inv(Prepare(s, d), llMax)
  {
    hide InOrder, OnOneList, CallbacksInOrder, OnlyHeadStarted, TraceInOrder, FinishedWhole, CookiesInOrder,
         NothingLost, DescOk;
    PrepareOnOneList(s, d);
    PrepareTrace(s, d);
    PrepareStarted(s, d);
    PrepareObjects(s, d);
    PrepareRest(s, d);
  }

  /** The lists that an operation does not touch. */
  lemma PrepareRest(s: Lists, d: Desc)
    ensures InOrder(s) ==> InOrder(Prepare(s, d))
    ensures CallbacksInOrder(s) ==> CallbacksInOrder(Prepare(s, d))
    ensures CookiesInOrder(s) ==> CookiesInOrder(Prepare(s, d))
  {
  }

  lemma SubmitKeeps(s: Lists, i: nat, llMax: nat)
    requires Inv(s, llMax) && i < |s.prepared|
    ensures Inv(Submit(s, i), llMax)
  {
    hide InOrder, OnOneList, CallbacksInOrder, OnlyHeadStarted, TraceInOrder, FinishedWhole, CookiesInOrder,
         AllOk, NothingLost;
    SubmitInOrder(s, i);
    SubmitOnOneList(s, i);
    SubmitTrace(s, i);
    SubmitCookies(s, i);
    SubmitObjects(s, i);
    SubmitOk(s, i, llMax);
    SubmitRest(s, i);
  }

  lemma SubmitOk(s: Lists, i: nat, llMax: nat)
    requires AllOk(s, llMax) && i < |s.prepared|
    ensures AllOk(Submit(s, i), llMax)
  {
  }

  lemma SubmitRest(s: Lists, i: nat)
    requires i < |s.prepared|
    ensures CallbacksInOrder(s) ==> CallbacksInOrder(Submit(s, i))
    ensures FinishedWhole(s) ==> FinishedWhole(Submit(s, i))
  {
  }

  lemma SpliceKeeps(s: Lists, llMax: nat)
    requires Inv(s, llMax)
    ensures Inv(Splice(s), llMax)
  {
    hide InOrder, OnOneList, CallbacksInOrder, OnlyHeadStarted, TraceInOrder, FinishedWhole, CookiesInOrder,
         NothingLost, DescOk;
    SpliceInOrder(s);
    SpliceTrace(s);
    SpliceCookies(s);
    SpliceObjects(s);
    SpliceRest(s);
  }

  lemma SpliceRest(s: Lists)
    ensures OnOneList(s) ==> OnOneList(Splice(s))
    ensures CallbacksInOrder(s) ==> CallbacksInOrder(Splice(s))
    ensures FinishedWhole(s) ==> FinishedWhole(Splice(s))
  {
  }

  lemma StartKeeps(s: Lists, llMax: nat)
    requires Inv(s, llMax)
    ensures Inv(StartTransfer(s), llMax)
  {
    hide InOrder, OnOneList, CallbacksInOrder, OnlyHeadStarted, TraceInOrder, FinishedWhole, CookiesInOrder,
         AllOk, NothingLost;
    StartTrace(s);
    StartObjects(s);
    StartOk(s, llMax);
    StartRest(s);
  }

  lemma StartOk(s: Lists, llMax: nat)
    requires AllOk(s, llMax)
    ensures AllOk(StartTransfer(s), llMax)
  {
    hide DescOk;
    if s.issued != [] && s.issued[0].chunks != [] {
      AfterStartOk(s.issued[0], llMax);
    }
  }

  lemma StartRest(s: Lists)
    ensures InOrder(s) ==> InOrder(StartTransfer(s))
    ensures OnOneList(s) ==> OnOneList(StartTransfer(s))
    ensures CallbacksInOrder(s) ==> CallbacksInOrder(StartTransfer(s))
    ensures FinishedWhole(s) ==> FinishedWhole(StartTransfer(s))
    ensures CookiesInOrder(s) ==> CookiesInOrder(StartTransfer(s))
  {
    hide Ids, RetiredIds, DescObjects, ChunkObjects, CookieAt, Distinct, NextCookie;
    StartIds(s);
  }

  lemma RetireKeeps(s: Lists, cause: Cause, llMax: nat)
    requires Inv(s, llMax) && s.issued != [] && (cause == Finished ==> s.issued[0].chunksAlloc == 0)
    ensures Inv(Retire(s, cause), llMax)
  {
    hide InOrder, OnOneList, CallbacksInOrder, OnlyHeadStarted, TraceInOrder, FinishedWhole, CookiesInOrder,
         NothingLost;
    assert DescOk(s.issued[0], llMax);
    RetireInOrder(s, cause);
    RetireCallbacks(s, cause);
    RetireTrace(s, cause);
    RetireCookies(s, cause);
    RetireObjects(s, cause);
    RetireRest(s, cause);
  }

  lemma RetireRest(s: Lists, cause: Cause)
    requires s.issued != []
    ensures OnOneList(s) ==> OnOneList(Retire(s, cause))
  {
  }

  lemma TakeKeeps(s: Lists, llMax: nat)
    requires Inv(s, llMax) && s.finishing == []
    ensures Inv(Take(s), llMax)
  {
    hide Ids, DescOk, Pieces, Objects;
    TakeCallbacks(s);
    TakeObjects(s);
  }

  lemma CallKeeps(s: Lists, llMax: nat)
    requires Inv(s, llMax) && s.finishing != []
    ensures Inv(Call(s), llMax)
  {
    hide Ids, DescOk, Pieces, Objects;
    CallCallbacks(s);
    CallObjects(s);
  }

  // ---------- every run ----------

  /** Every entry point keeps the invariant, in whatever state it is called. */
  lemma StepKeeps(c: Channel, step: Step, llMax: nat)
    requires Inv(c.lists, llMax) && Enabled(c, step, llMax)
    ensures Inv(Next(c, step, llMax).lists, llMax)
  {
    hide Inv, StartTransfer, Retire, Splice;
    match step
    case Prep(d) => PrepareKeeps(c.lists, d, llMax);
    case TxSubmit(i) => SubmitKeeps(c.lists, i, llMax);
    case Issue =>
      SpliceKeeps(c.lists, llMax);
      StartKeeps(Splice(c.lists), llMax);
    case Done =>
      if c.lists.issued != [] {
        StartKeeps(c.lists, llMax);
        if c.lists.issued[0].chunksAlloc == 0 { RetireKeeps(c.lists, Finished, llMax); }
        RetireKeeps(c.lists, Stopped, llMax);
      }
    case Abort =>
      if c.lists.issued != [] { RetireKeeps(c.lists, Aborted, llMax); }
    case TaskletTake => TakeKeeps(c.lists, llMax);
    case TaskletCall => CallKeeps(c.lists, llMax);
    case _ =>
  }

  lemma {:induction false} RunKeeps(steps: seq<Step>, llMax: nat)
    requires Run(steps, llMax).Some?
    ensures Inv(Run(steps, llMax).value.lists, llMax)
    decreases |steps|
  {
    if steps == [] {
      InitialInv(llMax);
    } else {
      hide Inv;
      RunKeeps(steps[..|steps| - 1], llMax);
      StepKeeps(Run(steps[..|steps| - 1], llMax).value, steps[|steps| - 1], llMax);
    }
  }

  lemma InitialInv(llMax: nat)
    ensures Inv(INITIAL.lists, llMax)
  {
  }
}

/** What the invariant of the DMA channel means to its clients: which chunks
    the hardware was given, which callbacks were made, what a cookie's status
    and residue say, and what is left allocated. */
module DmaChannelRuns {
  import opened Common
  import opened DmaDescriptors
  import opened DmaChannel
  import opened DmaChannelInvariant
  import T = DmaTransfer
  import Table = DmaTable

  // ---------- the trace ----------

  lemma PrefixObjects(made: map<nat, seq<Chunk>>, obj: nat, n: nat)
    ensures forall j :: 0 <= j < |Prefix(made, obj, n)| ==> Prefix(made, obj, n)[j].obj == obj
  {
  }

  lemma {:induction false} PiecesObjects(made: map<nat, seq<Chunk>>, rs: seq<Retired>)
    ensures forall j :: 0 <= j < |Pieces(made, rs)| ==> Pieces(made, rs)[j].obj in RetiredIds(rs)
    decreases |rs|
  {
    hide Prefix;
    if rs != [] {
      var n := |rs| - 1;
      PiecesObjects(made, rs[..n]);
      PrefixObjects(made, rs[n].obj, rs[n].started);
      assert RetiredIds(rs)[n] == rs[n].obj;
      assert forall x :: x in RetiredIds(rs[..n]) ==> x in RetiredIds(rs) by {
        forall x | x in RetiredIds(rs[..n]) ensures x in RetiredIds(rs) {
          var k :| 0 <= k < n && RetiredIds(rs[..n])[k] == x;
          assert RetiredIds(rs)[k] == x;
        }
      }
    }
  }

  lemma {:induction false} PiecesConcat(made: map<nat, seq<Chunk>>, a: seq<Retired>, b: seq<Retired>)
    ensures Pieces(made, a + b) == Pieces(made, a) + Pieces(made, b)
    decreases |b|
  {
    hide Prefix;
    if b == [] {
      assert a + b == a;
    } else {
      var n := |b| - 1;
      assert (a + b)[..|a + b| - 1] == a + b[..n];
      PiecesConcat(made, a, b[..n]);
    }
  }

  /** What was started after the k-th retired descriptor. */
  ghost function Later(s: Lists, k: nat): seq<Start>
    requires k < |s.retired|
  {
    Pieces(s.made, s.retired[k + 1..])
    + if s.issued == [] then [] else Prefix(s.made, s.issued[0].obj, Started(s, s.issued[0]))
  }

  lemma TraceSplit(s: Lists, k: nat)
    requires TraceInOrder(s) && k < |s.retired|
    ensures s.trace == Pieces(s.made, s.retired[..k])
                     + Prefix(s.made, s.retired[k].obj, s.retired[k].started) + Later(s, k)
  {
    hide Prefix, Pieces, Started;
    var rs := s.retired;
    assert rs == rs[..k + 1] + rs[k + 1..];
    PiecesConcat(s.made, rs[..k + 1], rs[k + 1..]);
    assert rs[..k + 1] == rs[..k] + [rs[k]];
    PiecesMore(s.made, rs[..k], rs[k]);
  }

  /** The place of a retired descriptor in cookie order is its own. */
  lemma OwnPlace(s: Lists, k: nat, obj: nat)
    requires InOrder(s) && OnOneList(s) && k < |s.retired| && obj == s.retired[k].obj
    ensures obj !in RetiredIds(s.retired[..k]) && obj !in RetiredIds(s.retired[k + 1..])
    ensures s.issued != [] ==> s.issued[0].obj != obj
  {
    var all := s.order + Ids(s.prepared);
    assert all[k] == obj;
    forall x | x in RetiredIds(s.retired[..k]) ensures x != obj {
      var j :| 0 <= j < k && RetiredIds(s.retired[..k])[j] == x;
      assert all[j] == x;
    }
    var behind := RetiredIds(s.retired[k + 1..]);
    forall x | x in behind ensures x != obj {
      var j :| 0 <= j < |behind| && behind[j] == x;
      assert all[k + 1 + j] == x;
    }
    if s.issued != [] {
      assert all[|s.retired|] == s.issued[0].obj;
    }
  }

  /** The hardware was given the first `started` chunks of a retired
      descriptor, one directly after the other, and none of them at any other
      time; if the descriptor was not stopped or aborted, these are all. */
  lemma GivenOnce(s: Lists, llMax: nat, k: nat)
    requires Inv(s, llMax) && k < |s.retired|
    ensures var r := s.retired[k];
            var at := |Pieces(s.made, s.retired[..k])|;
            && r.obj in s.made && r.started <= |s.made[r.obj]| && at + r.started <= |s.trace|
            && s.trace[at..at + r.started] == Tagged(r.obj, s.made[r.obj][..r.started])
            && (r.cause == Finished ==> r.started == |s.made[r.obj]|)
            && forall j :: 0 <= j < |s.trace| && s.trace[j].obj == r.obj ==> at <= j < at + r.started
  {
    hide Inv, AllOk, CookiesInOrder, CallbacksInOrder, NothingLost, OnlyHeadStarted, Pieces, InOrder,
         OnOneList, Started;
    InvParts(s, llMax);
    var r := s.retired[k];
    TraceSplit(s, k);
    OwnPlace(s, k, r.obj);
    var a, b, c := Pieces(s.made, s.retired[..k]), Prefix(s.made, r.obj, r.started), Later(s, k);
    PiecesObjects(s.made, s.retired[..k]);
    LaterObjects(s, k);
    assert |b| == r.started && s.trace == a + b + c;
    forall j | 0 <= j < |a| ensures s.trace[j].obj != r.obj {
      assert s.trace[j] == a[j];
    }
    forall j | |a| + |b| <= j < |s.trace| ensures s.trace[j].obj != r.obj {
      assert s.trace[j] == c[j - |a| - |b|];
    }
  }

  lemma InvParts(s: Lists, llMax: nat)
    requires Inv(s, llMax)
    ensures InOrder(s) && OnOneList(s) && CallbacksInOrder(s) && OnlyHeadStarted(s) && TraceInOrder(s)
    ensures FinishedWhole(s) && CookiesInOrder(s) && AllOk(s, llMax) && NothingLost(s)
  {
  }

  lemma LaterObjects(s: Lists, k: nat)
    requires k < |s.retired|
    ensures forall j :: 0 <= j < |Later(s, k)| ==>
              Later(s, k)[j].obj in RetiredIds(s.retired[k + 1..])
              || (s.issued != [] && Later(s, k)[j].obj == s.issued[0].obj)
  {
    hide Pieces, Prefix;
    PiecesObjects(s.made, s.retired[k + 1..]);
    if s.issued != [] { PrefixObjects(s.made, s.issued[0].obj, Started(s, s.issued[0])); }
  }

  /** The chunks of a stretch of the trace. */
  function Chunks(trace: seq<Start>): (r: seq<Chunk>)
    ensures |r| == |trace| && forall k :: 0 <= k < |r| ==> r[k] == trace[k].chunk
  {
    seq(|trace|, k requires 0 <= k < |trace| => trace[k].chunk)
  }

  /** When a descriptor that mtdma_device_transfer made of a user buffer has
      finished, its stretch of the trace has moved the buffer - each byte once,
      in order, against consecutive device addresses - if and only if the buffer
      is not empty. */
  lemma FinishedDelivers(s: Lists, llMax: nat, k: nat, d: Desc, sgl: seq<T.Segment>, offset: nat, size: nat,
                         bus: nat -> nat, dir: T.Direction, config: T.SlaveConfig, tableAddress: nat, slots: nat)
    requires Inv(s, llMax) && k < |s.retired| && s.retired[k].cause == Finished
    requires d.obj == s.retired[k].obj && Whole(s, d)
    requires Table.PreparedFor(d, dir, config, T.MapSg(sgl, bus), llMax)
    requires T.FromBuffer(sgl, offset, size) && Table.PagesFit(bus)
    requires config.srcAddr < U64 && config.dstAddr < U64
    requires llMax <= slots + 1 && tableAddress + SLOT_SIZE * slots <= U64
    ensures var at := |Pieces(s.made, s.retired[..k])|;
            var n := |d.chunks|;
            && at + n <= |s.trace|
            && var chunks := Chunks(s.trace[at..at + n]);
            && Table.HardwareRun(chunks, tableAddress, slots, Table.ChunkPieces(chunks))
            && (Table.Delivered(Table.Moves(Table.AllPieces(Table.ChunkPieces(chunks))), dir, config, offset, size, bus)
                <==> size > 0)
  {
    hide Inv, Pieces, Table.PreparedFor, T.FromBuffer, Table.HardwareRun, Table.Moves, Table.Delivered;
    GivenOnce(s, llMax, k);
    Table.EndToEnd(sgl, offset, size, bus, dir, config, d, llMax, tableAddress, slots);
    var at := |Pieces(s.made, s.retired[..k])|;
    assert Chunks(s.trace[at..at + |d.chunks|]) == d.chunks;
  }

  // ---------- callbacks ----------

  /** Callbacks are made in cookie order, at most once for each descriptor, and
      only for retired ones; when the tasklet has caught up, for all of them. */
  lemma CallbacksOnce(s: Lists, llMax: nat)
    requires Inv(s, llMax)
    ensures |s.called| <= |s.retired| <= |s.order| && s.called == s.order[..|s.called|]
    ensures Distinct(s.called)
    ensures s.completed == [] && s.finishing == [] ==> s.called == s.order[..|s.retired|]
  {
    hide Inv, AllOk, CookiesInOrder, NothingLost, OnlyHeadStarted, TraceInOrder, FinishedWhole;
    InvParts(s, llMax);
    OrderLength(s);
    hide Ids, RetiredIds;
    var a := RetiredIds(s.retired);
    assert s.order[..|a|] == a;
    assert a[..|s.called|] == s.called;
    assert s.order[..|s.called|] == s.order[..|a|][..|s.called|];
    DistinctPrefix(s.order, Ids(s.prepared), |s.called|);
  }

  lemma DistinctPrefix(a: seq<nat>, b: seq<nat>, n: nat)
    requires Distinct(a + b) && n <= |a|
    ensures Distinct(a[..n])
  {
    var all := a + b;
    forall i, j | 0 <= i < j < n ensures a[..n][i] != a[..n][j] {
      assert all[i] == a[i] && all[j] == a[j];
    }
  }

  // ---------- memory ----------

  /** When every descriptor has been called back, nothing is left allocated. */
  lemma NothingLeft(s: Lists, llMax: nat)
    requires Inv(s, llMax)
    requires s.prepared == [] && s.submitted == [] && s.issued == [] && s.completed == [] && s.finishing == []
    ensures s.live == multiset{} && s.called == s.order
  {
    CallbacksOnce(s, llMax);
    OrderLength(s);
  }

  /** No step frees an object twice: what start_transfer and the tasklet free
      is allocated. */
  lemma FreesWhatIsLive(s: Lists, llMax: nat)
    requires Inv(s, llMax)
    ensures s.issued != [] && s.issued[0].chunks != [] ==> ChunkObjects(s.issued[0].chunks[0]) <= s.live
    ensures s.finishing != [] ==> DescObjects(s.finishing[0]) <= s.live
  {
    hide Inv, StartTransfer, Call, ChunkObjects, DescObjects;
    InvParts(s, llMax);
    StartObjects(s);
    if s.finishing != [] { CallObjects(s); }
  }

  // ---------- status and residue ----------

  lemma Window(x: nat, n: nat)
    requires n - INT_MAX < x <= n
    ensures var b := n - n % INT_MAX; x % INT_MAX == if x >= b then x - b else x - b + INT_MAX
  {
    var b, q := n - n % INT_MAX, n / INT_MAX;
    assert b == q * INT_MAX;
    if x >= b {
      assert x == q * INT_MAX + (x - b);
    } else {
      assert x == (q - 1) * INT_MAX + (x - b + INT_MAX);
    }
  }

  lemma CompleteWindow(i: nat, r: nat, n: nat)
    requires n - INT_MAX < i <= n && n - INT_MAX < r <= n
    ensures IsComplete(CookieAt(i), CookieAt(r), CookieAt(n)) <==> i <= r
  {
    Window(i, n);
    Window(r, n);
    Window(n, n);
  }

  /** Whole periods make no difference. */
  lemma Periodic(i: nat, periods: nat)
    ensures CookieAt(i + periods * INT_MAX) == CookieAt(i)
  {
    var q := i / INT_MAX;
    assert i + periods * INT_MAX == (q + periods) * INT_MAX + i % INT_MAX;
  }

  /** The number with the cookie of i among INT_MAX successive ones. */
  lemma Representative(i: nat, top: nat) returns (j: nat)
    requires top >= INT_MAX
    ensures top - INT_MAX < j <= top && CookieAt(j) == CookieAt(i)
  {
    var d := (top - i) % INT_MAX;
    j := top - d;
    var q := (top - i) / INT_MAX;
    assert top - i == q * INT_MAX + d;
    if q >= 0 { Periodic(i, q); } else { Periodic(j, -q); }
  }

  /** After r retirements out of n cookies, a cookie reads as not complete
      exactly if it is that of one of the (n - r) modulo INT_MAX numbers behind r. */
  lemma StatusOf(i: nat, r: nat, n: nat)
    requires r <= n
    ensures !IsComplete(CookieAt(i), CookieAt(r), CookieAt(n)) <==>
            exists j :: r < j <= r + (n - r) % INT_MAX && CookieAt(j) == CookieAt(i)
  {
    hide IsComplete, CookieAt;
    var d, q := (n - r) % INT_MAX, (n - r) / INT_MAX;
    var m := r + d;
    assert n == m + q * INT_MAX;
    Periodic(m, q);
    var i' := Representative(i, m + INT_MAX);
    Periodic(r, 1);
    Periodic(m, 1);
    CompleteWindow(i', r + INT_MAX, m + INT_MAX);
    if i' > r + INT_MAX {
      var j := i' - INT_MAX;
      Periodic(j, 1);
      assert r < j <= m && CookieAt(j) == CookieAt(i);
    }
    forall j | r < j <= m && CookieAt(j) == CookieAt(i) ensures i' == j + INT_MAX {
      Periodic(j, 1);
      SameCookie(i', j + INT_MAX);
    }
  }

  lemma SameCookie(i: nat, j: nat)
    requires i - INT_MAX < j < i + INT_MAX && CookieAt(i) == CookieAt(j)
    ensures i == j
  {
    if i < j { DistinctCookies(i, j); }
    if j < i { DistinctCookies(j, i); }
  }

  lemma DistinctCookies(i: nat, j: nat)
    requires i < j < i + INT_MAX
    ensures CookieAt(i) != CookieAt(j)
  {
    Window(i, j);
    Window(j, j);
  }

  /** The status of the i-th cookie ever given out */
  predicate ReportsComplete(s: Lists, i: nat) {
    IsComplete(CookieAt(i), s.completedCookie, s.cookie)
  }

  /** The same for a channel: whatever its state, this says which cookies read
      as not complete.  For a retired one with fewer than INT_MAX outstanding it
      is exactly those that an outstanding descriptor has again. */
  lemma StatusIs(s: Lists, llMax: nat, i: nat)
    requires Inv(s, llMax)
    ensures !ReportsComplete(s, i) <==>
            exists j ::
              |s.retired| < j <= |s.retired| + (|s.order| - |s.retired|) % INT_MAX && CookieAt(j) == CookieAt(i)
  {
    hide Inv, IsComplete, CookieAt;
    Marks(s, llMax);
    StatusOf(i, |s.retired|, |s.order|);
  }

  /** The channel's two cookies mark the last retired and the last submitted
      descriptor. */
  lemma Marks(s: Lists, llMax: nat)
    requires Inv(s, llMax)
    ensures |s.retired| <= |s.order|
    ensures s.completedCookie == CookieAt(|s.retired|) && s.cookie == CookieAt(|s.order|)
  {
    hide OnOneList, CallbacksInOrder, OnlyHeadStarted, TraceInOrder, FinishedWhole, AllOk, NothingLost, CookieAt;
    OrderLength(s);
  }

  lemma OutstandingReads(s: Lists, llMax: nat, i: nat)
    requires Inv(s, llMax) && |s.retired| < i <= |s.order| && |s.order| - |s.retired| < INT_MAX
    ensures !ReportsComplete(s, i)
  {
    hide Inv, ReportsComplete, CookieAt;
    Marks(s, llMax);
    StatusIs(s, llMax, i);
    var window := (|s.order| - |s.retired|) % INT_MAX;
    assert window == |s.order| - |s.retired|;
    assert |s.retired| < i <= |s.retired| + window && CookieAt(i) == CookieAt(i);
  }

  lemma RetiredReads(s: Lists, llMax: nat, i: nat)
    requires Inv(s, llMax) && 1 <= i <= |s.retired| && |s.order| - |s.retired| < INT_MAX
    ensures !ReportsComplete(s, i) <==> exists j :: |s.retired| < j <= |s.order| && CookieAt(j) == CookieAt(i)
  {
    hide Inv, ReportsComplete, CookieAt;
    Marks(s, llMax);
    StatusIs(s, llMax, i);
    assert (|s.order| - |s.retired|) % INT_MAX == |s.order| - |s.retired|;
  }

  /** No outstanding descriptor reports complete if and only if fewer than
      2^31 - 1 are outstanding. */
  lemma CompleteIffRetired(s: Lists, llMax: nat)
    requires Inv(s, llMax)
    ensures (forall i: nat :: |s.retired| < i <= |s.order| ==> !ReportsComplete(s, i))
       <==> |s.order| - |s.retired| < INT_MAX
  {
    hide Inv, ReportsComplete, CookieAt;
    Marks(s, llMax);
    if |s.order| - |s.retired| < INT_MAX {
      forall i: nat | |s.retired| < i <= |s.order| ensures !ReportsComplete(s, i) {
        OutstandingReads(s, llMax, i);
      }
    } else {
      CompleteTooEarly(s, llMax);
    }
  }

  /** With more outstanding, the descriptor with the cookie of the last retired
      one, 2^31 - 1 places behind it, reports complete although it waits. */
  lemma CompleteTooEarly(s: Lists, llMax: nat)
    requires Inv(s, llMax) && |s.order| - |s.retired| >= INT_MAX
    ensures var i := |s.retired| + INT_MAX; |s.retired| < i <= |s.order| && ReportsComplete(s, i)
  {
    hide Inv, CookieAt;
    Marks(s, llMax);
    Periodic(|s.retired|, 1);
  }

  /** Every cookie ever given out reports complete exactly if its descriptor has
      been retired, if and only if fewer than 2^31 - 1 are outstanding and either
      none is, or no cookie has been given out twice. */
  lemma AllStatusesRightIff(s: Lists, llMax: nat)
    requires Inv(s, llMax)
    ensures (forall i: nat :: 1 <= i <= |s.order| ==> (ReportsComplete(s, i) <==> i <= |s.retired|))
       <==> |s.order| - |s.retired| < INT_MAX && (|s.order| == |s.retired| || |s.order| <= INT_MAX)
  {
    hide Inv, ReportsComplete, CookieAt;
    Marks(s, llMax);
    CompleteIffRetired(s, llMax);
    var r, n := |s.retired|, |s.order|;
    if n - r < INT_MAX {
      if n > r && n > INT_MAX {
        WrappedReads(s, llMax);
      } else {
        forall i: nat | 1 <= i <= r ensures ReportsComplete(s, i) {
          FirstUse(s, llMax, i);
        }
      }
    }
  }

  /** The cookie of the newest descriptor has been given out before. */
  lemma WrappedReads(s: Lists, llMax: nat)
    requires Inv(s, llMax) && |s.order| - |s.retired| < INT_MAX && |s.retired| < |s.order| && INT_MAX < |s.order|
    ensures var i := |s.order| - INT_MAX; 1 <= i <= |s.retired| && !ReportsComplete(s, i)
  {
    hide Inv, ReportsComplete, CookieAt;
    var i := |s.order| - INT_MAX;
    Periodic(i, 1);
    RetiredReads(s, llMax, i);
  }

  lemma FirstUse(s: Lists, llMax: nat, i: nat)
    requires Inv(s, llMax) && 1 <= i <= |s.retired| && |s.order| - |s.retired| < INT_MAX
    requires |s.order| == |s.retired| || |s.order| <= INT_MAX
    ensures ReportsComplete(s, i)
  {
    hide Inv, ReportsComplete, CookieAt;
    RetiredReads(s, llMax, i);
    forall j | |s.retired| < j <= |s.order| ensures CookieAt(j) != CookieAt(i) {
      DistinctCookies(i, j);
    }
  }

  // ---------- so many outstanding descriptors can be reached ----------

  /** A descriptor with one burst of one byte */
  function OneByte(k: nat): Desc {
    Desc(k, Some(0), [Chunk(0, Some(0), [Burst(0, 0, 0, 1)], 1, 1)], 1, 1, 0, 0)
  }

  /** Configure the channel, and prepare and submit n descriptors. */
  function Flood(n: nat): seq<Step> {
    if n == 0 then [Config] else Flood(n - 1) + [Prep(OneByte(n - 1))] + [TxSubmit(0)]
  }

  lemma OneByteOk(k: nat, llMax: nat)
    requires llMax >= 1
    ensures DescOk(OneByte(k), llMax)
  {
    var d := OneByte(k);
    assert AllBursts(d.chunks) == d.chunks[0].bursts + AllBursts([]);
    assert BurstSum(d.chunks[0].bursts) == 1 + BurstSum([]);
  }

  lemma OneByteNew(k: nat)
    ensures var d := OneByte(k); d.obj == k && d.chunks != [] && d.xferSz == 0 && d.cookie == 0
  {
  }

  lemma RunNone(llMax: nat)
    ensures Run([], llMax) == Some(INITIAL)
  {
  }

  lemma RunMore(steps: seq<Step>, step: Step, llMax: nat)
    ensures var before := Run(steps, llMax);
            Run(steps + [step], llMax) ==
              if before.None? || !Enabled(before.value, step, llMax) then None
              else Some(Next(before.value, step, llMax))
  {
    assert (steps + [step])[..|steps|] == steps;
  }

  ghost predicate Flooded(c: Channel, n: nat) {
    && c.configured && c.lists.prepared == [] && c.lists.retired == [] && |c.lists.order| == n
    && forall obj :: obj in c.lists.made ==> obj < n
  }

  lemma {:induction false} FloodRuns(n: nat, llMax: nat)
    requires llMax >= 1
    ensures Run(Flood(n), llMax).Some? && Flooded(Run(Flood(n), llMax).value, n)
  {
    hide DescOk, DescObjects, OneByte, Run;
    RunNone(llMax);
    if n == 0 {
      assert [Config] == [] + [Config];
      RunMore([], Config, llMax);
    } else {
      FloodRuns(n - 1, llMax);
      OneByteOk(n - 1, llMax);
      OneByteNew(n - 1);
      var steps := Flood(n - 1);
      RunMore(steps, Prep(OneByte(n - 1)), llMax);
      RunMore(steps + [Prep(OneByte(n - 1))], TxSubmit(0), llMax);
    }
  }

  /** There is a run after which an outstanding descriptor reports complete. */
  lemma TooEarlyReached(llMax: nat)
    requires llMax >= 1
    ensures exists steps: seq<Step> :: Run(steps, llMax).Some? && SomeTooEarly(Run(steps, llMax).value.lists)
  {
    hide Run, Flood, Inv;
    FloodRuns(INT_MAX, llMax);
    var s := Run(Flood(INT_MAX), llMax).value.lists;
    RunKeeps(Flood(INT_MAX), llMax);
    CompleteTooEarly(s, llMax);
    assert SomeTooEarly(s);
  }

  ghost predicate SomeTooEarly(s: Lists) {
    exists i: nat :: |s.retired| < i <= |s.order| && ReportsComplete(s, i)
  }

  /** What tx_status answers for the i-th cookie ever given out: complete, exactly
      if none of the first outstanding modulo 2^31 - 1 descriptors behind the last
      retired one has this cookie; so exactly if the descriptor has been retired,
      under the condition of AllStatusesRightIff.  A complete cookie has no
      residue. */
  lemma TxStatusIs(c: Channel, llMax: nat, i: nat)
    requires Inv(c.lists, llMax) && 1 <= i <= |c.lists.order|
    ensures var r, n := |c.lists.retired|, |c.lists.order|;
            var (status, residue) := DeviceTxStatus(c, CookieAt(i));
            && (status == Complete <==>
                  !exists j :: r < j <= r + (n - r) % INT_MAX && CookieAt(j) == CookieAt(i))
            && (n - r < INT_MAX && (n == r || n <= INT_MAX) ==> (status == Complete <==> i <= r))
            && (status == Complete ==> residue == 0)
            && (status != Complete ==> status == if c.status == Paused then StatusPaused else InProgress)
  {
    hide Inv, CookieAt, FindDesc;
    StatusIs(c.lists, llMax, i);
    AllStatusesRightIff(c.lists, llMax);
    assert ReportsComplete(c.lists, i) <==> DeviceTxStatus(c, CookieAt(i)).0 == Complete;
  }

  /** A submitted descriptor that has not been issued has no residue either, as
      long as fewer than 2^31 - 1 are outstanding. */
  lemma SubmittedResidue(c: Channel, llMax: nat, i: nat)
    requires Inv(c.lists, llMax) && |c.lists.order| - |c.lists.retired| < INT_MAX
    requires |c.lists.retired| + |c.lists.issued| < i <= |c.lists.order|
    ensures DeviceTxStatus(c, CookieAt(i)) == (if c.status == Paused then StatusPaused else InProgress, 0)
  {
    hide Inv, IsComplete, CookieAt, AllOk, CallbacksInOrder, NothingLost, OnlyHeadStarted, TraceInOrder,
         FinishedWhole, OnOneList, FindDesc;
    var s := c.lists;
    InvParts(s, llMax);
    OrderLength(s);
    CompleteIffRetired(s, llMax);
    assert !ReportsComplete(s, i);
    forall j | 0 <= j < |s.issued| ensures s.issued[j].cookie != CookieAt(i) {
      DistinctCookies(|s.retired| + j + 1, i);
    }
    FindNone(s.issued, CookieAt(i));
  }

  lemma {:induction false} FindNone(issued: seq<Desc>, cookie: int)
    requires forall j :: 0 <= j < |issued| ==> issued[j].cookie != cookie
    ensures FindDesc(issued, cookie) == None
  {
    if issued != [] { FindNone(issued[1..], cookie); }
  }

  lemma {:induction false} FindAt(issued: seq<Desc>, k: nat)
    requires k < |issued| && forall j :: 0 <= j < k ==> issued[j].cookie != issued[k].cookie
    ensures FindDesc(issued, issued[k].cookie) == Some(issued[k])
  {
    if k > 0 { FindAt(issued[1..], k - 1); }
  }

  /** The residue of an issued descriptor is the size of the chunks that have
      not been started, as a 32-bit number. */
  lemma ResidueIsUnstarted(c: Channel, llMax: nat, k: nat)
    requires Inv(c.lists, llMax) && k < |c.lists.issued| && |c.lists.order| - |c.lists.retired| < INT_MAX
    ensures var d := c.lists.issued[k];
            DeviceTxStatus(c, d.cookie)
            == (if c.status == Paused then StatusPaused else InProgress, BurstSum(AllBursts(d.chunks)) % U32)
  {
    hide Inv, IsComplete, CookieAt, AllOk, DescOk, CallbacksInOrder, NothingLost, OnlyHeadStarted, TraceInOrder,
         FinishedWhole, OnOneList, AllBursts, BurstSum, FindDesc;
    var s := c.lists;
    InvParts(s, llMax);
    OrderLength(s);
    CompleteIffRetired(s, llMax);
    assert !ReportsComplete(s, |s.retired| + k + 1);
    forall j | 0 <= j < k ensures s.issued[j].cookie != s.issued[k].cookie {
      DistinctCookies(|s.retired| + j + 1, |s.retired| + k + 1);
    }
    FindAt(s.issued, k);
    IssuedResidue(s, llMax, k);
  }

  lemma IssuedResidue(s: Lists, llMax: nat, k: nat)
    requires AllOk(s, llMax) && k < |s.issued|
    ensures var d := s.issued[k]; (d.allocSz - d.xferSz) % U32 == BurstSum(AllBursts(d.chunks)) % U32
  {
    assert DescOk(s.issued[k], llMax);
  }

  // ---------- single steps ----------

  lemma HistoryGrows(c: Channel, step: Step, llMax: nat)
    requires Enabled(c, step, llMax)
    ensures Extends(c.lists, Next(c, step, llMax).lists)
  {
  }

  /** Whatever could be observed in the first state still can in the second. */
  ghost predicate Extends(s: Lists, t: Lists) {
    s.trace <= t.trace && s.retired <= t.retired && s.called <= t.called && s.order <= t.order
  }

  /** No run ever takes back a started chunk, a retirement, a cookie or a
      callback. */
  lemma {:induction false} RunExtends(steps: seq<Step>, n: nat, llMax: nat)
    requires n <= |steps| && Run(steps, llMax).Some?
    ensures Run(steps[..n], llMax).Some?
    ensures Extends(Run(steps[..n], llMax).value.lists, Run(steps, llMax).value.lists)
    decreases |steps|
  {
    if n == |steps| {
      assert steps[..n] == steps;
    } else {
      var front := steps[..|steps| - 1];
      assert front[..n] == steps[..n];
      RunExtends(front, n, llMax);
      HistoryGrows(Run(front, llMax).value, steps[|steps| - 1], llMax);
    }
  }
}

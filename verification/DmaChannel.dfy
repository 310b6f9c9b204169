/** The DMA channel of driver/mt-emu-mtdma-core.c with the virtual channel of
    driver/virt-dma.h, driver/virt-dma.c and the cookies of driver/dmaengine.h,
    as a state machine: every function that takes the channel lock is one
    step, and steps come in any order. */
module DmaChannel {
  import opened Common
  import opened DmaDescriptors

  const DMA_MIN_COOKIE: int := 1

  datatype Request = ReqNone | ReqStop | ReqPause
  datatype Status = Idle | Paused | Busy

  /** Which branch retired a descriptor. */
  datatype Cause = Finished | Stopped | Aborted

  /** A retired descriptor and how many of its chunks had been started. */
  datatype Retired = Retired(obj: nat, started: nat, cause: Cause)

  /** A chunk handed to the hardware. */
  datatype Start = Start(obj: nat, chunk: Chunk)

  /** The lists of the virtual channel and its cookies, and what can be
      observed from outside: the chunk lists as they were prepared, the
      descriptors in the order they were given cookies, the retired ones, the
      chunks started, the callbacks made and the objects allocated. */
  datatype Lists = Lists(
    prepared: seq<Desc>, submitted: seq<Desc>, issued: seq<Desc>, completed: seq<Desc>, finishing: seq<Desc>,
    cookie: int, completedCookie: int,
    made: map<nat, seq<Chunk>>, order: seq<nat>, retired: seq<Retired>, trace: seq<Start>, called: seq<nat>,
    live: multiset<nat>)

  datatype Channel = Channel(status: Status, request: Request, configured: bool, lists: Lists)

  // ---------- the operations on the lists ----------

  /** dma_cookie_assign: a 32-bit signed counter that skips what is below 1 */
  function NextCookie(cookie: int): int {
    if cookie + 1 > INT_MAX then DMA_MIN_COOKIE else cookie + 1
  }

  /** vchan_tx_prep of a new descriptor */
  function Prepare(s: Lists, d: Desc): Lists {
    s.(prepared := s.prepared + [d], made := s.made[d.obj := d.chunks], live := s.live + DescObjects(d))
  }

  function Without(ds: seq<Desc>, i: nat): seq<Desc>
    requires i < |ds|
  {
    ds[..i] + ds[i + 1..]
  }

  /** vchan_tx_submit of the i-th allocated descriptor */
  function Submit(s: Lists, i: nat): Lists
    requires i < |s.prepared|
  {
    var cookie := NextCookie(s.cookie);
    s.(prepared := Without(s.prepared, i), submitted := s.submitted + [s.prepared[i].(cookie := cookie)],
       cookie := cookie, order := s.order + [s.prepared[i].obj])
  }

  /** vchan_issue_pending */
  function Splice(s: Lists): Lists {
    s.(issued := s.issued + s.submitted, submitted := [])
  }

  /** The descriptor after its first chunk has been started and freed. */
  function AfterStart(d: Desc): Desc
    requires d.chunks != []
  {
    d.(chunks := d.chunks[1..], chunksAlloc := if d.chunksAlloc == 0 then U32 - 1 else d.chunksAlloc - 1,
       xferSz := (d.xferSz + d.chunks[0].sz) % U32)
  }

  /** mtdma_start_transfer */
  function StartTransfer(s: Lists): Lists {
    if s.issued == [] || s.issued[0].chunks == [] then s
    else
      var d := s.issued[0];
      s.(issued := [AfterStart(d)] + s.issued[1..], trace := s.trace + [Start(d.obj, d.chunks[0])],
         live := s.live - ChunkObjects(d.chunks[0]))
  }

  /** list_del and vchan_cookie_complete */
  function Retire(s: Lists, cause: Cause): Lists
    requires s.issued != []
  {
    var d := s.issued[0];
    var whole := if d.obj in s.made then |s.made[d.obj]| else 0;
    s.(issued := s.issued[1..], completed := s.completed + [d.(cookie := 0)], completedCookie := d.cookie,
       retired := s.retired + [Retired(d.obj, if whole >= |d.chunks| then whole - |d.chunks| else 0, cause)])
  }

  /** vchan_complete takes over the completed list, */
  function Take(s: Lists): Lists
    requires s.finishing == []
  {
    s.(finishing := s.completed, completed := [])
  }

  /** and then calls back and frees one descriptor after the other. */
  function Call(s: Lists): Lists
    requires s.finishing != []
  {
    s.(finishing := s.finishing[1..], called := s.called + [s.finishing[0].obj],
       live := s.live - DescObjects(s.finishing[0]))
  }

  // ---------- the driver's entry points ----------

  /** mtdma_device_issue_pending */
  function IssuePending(c: Channel): Channel {
    if c.configured && c.request == ReqNone && c.status == Idle then
      var lists := Splice(c.lists);
      if lists.issued == [] then c.(lists := lists)
      else c.(lists := StartTransfer(lists), status := Busy)
    else c
  }

  /** mtdma_done_interrupt */
  function DoneInterrupt(c: Channel): Channel {
    if c.lists.issued == [] then c
    else
      match c.request
      case ReqNone =>
        if c.lists.issued[0].chunksAlloc != 0 then c.(lists := StartTransfer(c.lists), status := Busy)
        else c.(lists := Retire(c.lists, Finished), status := Idle)
      case ReqStop => c.(lists := Retire(c.lists, Stopped), request := ReqNone, status := Idle)
      case ReqPause => c.(request := ReqNone, status := Paused)
  }

  /** mtdma_abort_interrupt, the part under the lock */
  function AbortInterrupt(c: Channel): Channel {
    if c.lists.issued == [] then c else c.(lists := Retire(c.lists, Aborted))
  }

  /** and the part after it */
  function AbortReset(c: Channel): Channel {
    c.(request := ReqNone, status := Idle)
  }

  /** mtdma_device_terminate_all; `idle` is what the hardware reports.  The
      second result is the error return. */
  function TerminateAll(c: Channel, idle: bool): (Channel, bool) {
    if !c.configured then (c, false)
    else if c.status == Paused then (c.(status := Idle, configured := false), false)
    else if c.status == Idle then (c.(configured := false), false)
    else if idle then (c.(status := Idle, configured := false), false)
    else if Code(c.request) > Code(ReqPause) then (c, true)
    else (c.(request := ReqStop), false)
  }

  /** enum mtdma_request */
  function Code(r: Request): nat {
    match r case ReqNone => 0 case ReqStop => 1 case ReqPause => 2
  }

  // ---------- status and residue ----------

  /** dma_async_is_complete of the DMA engine interface */
  predicate IsComplete(cookie: int, lastComplete: int, lastUsed: int) {
    if lastComplete <= lastUsed then cookie <= lastComplete || cookie > lastUsed
    else cookie <= lastComplete && cookie > lastUsed
  }

  datatype TxStatus = Complete | InProgress | StatusPaused

  /** vchan_find_desc: the first issued descriptor with the cookie */
  function FindDesc(issued: seq<Desc>, cookie: int): Option<Desc> {
    if issued == [] then None
    else if issued[0].cookie == cookie then Some(issued[0])
    else FindDesc(issued[1..], cookie)
  }

  /** mtdma_device_tx_status with a state to fill in: the status, and the
      residue */
  function DeviceTxStatus(c: Channel, cookie: int): (TxStatus, nat) {
    var s := c.lists;
    if IsComplete(cookie, s.completedCookie, s.cookie) then (Complete, 0)
    else
      var d := FindDesc(s.issued, cookie);
      (if c.status == Paused then StatusPaused else InProgress,
       if d.Some? then (d.value.allocSz - d.value.xferSz) % U32 else 0)
  }

  // ---------- runs ----------

  datatype Step =
    | Config
    | Prep(desc: Desc)
    | TxSubmit(i: nat)
    | Issue
    | Done
    | Abort
    | Reset
    | Terminate(idle: bool)
    | TaskletTake
    | TaskletCall

  const INITIAL: Channel :=
    Channel(Idle, ReqNone, false,
            Lists([], [], [], [], [], DMA_MIN_COOKIE, DMA_MIN_COOKIE, map[], [], [], [], [], multiset{}))

  /** A prepared descriptor is new and complete; the tasklet does not overlap
      itself; a client submits what it has prepared. */
  predicate Enabled(c: Channel, step: Step, llMax: nat) {
    match step
    case Prep(d) =>
      c.configured && d.obj !in c.lists.made && DescOk(d, llMax) && d.chunks != [] && d.xferSz == 0 && d.cookie == 0
    case TxSubmit(i) => i < |c.lists.prepared|
    case TaskletTake => c.lists.finishing == []
    case TaskletCall => c.lists.finishing != []
    case _ => true
  }

  function Next(c: Channel, step: Step, llMax: nat): Channel
    requires Enabled(c, step, llMax)
  {
    match step
    case Config => c.(configured := true)
    case Prep(d) => c.(lists := Prepare(c.lists, d))
    case TxSubmit(i) => c.(lists := Submit(c.lists, i))
    case Issue => IssuePending(c)
    case Done => DoneInterrupt(c)
    case Abort => AbortInterrupt(c)
    case Reset => AbortReset(c)
    case Terminate(idle) => TerminateAll(c, idle).0
    case TaskletTake => c.(lists := Take(c.lists))
    case TaskletCall => c.(lists := Call(c.lists))
  }

  /** The channel after the steps, or None if one of them was not enabled. */
  function Run(steps: seq<Step>, llMax: nat): Option<Channel> {
    if steps == [] then Some(INITIAL)
    else
      var before := Run(steps[..|steps| - 1], llMax);
      if before.None? || !Enabled(before.value, steps[|steps| - 1], llMax) then None
      else Some(Next(before.value, steps[|steps| - 1], llMax))
  }

  // ---------- what every step keeps ----------

  function Ids(ds: seq<Desc>): (r: seq<nat>)
    ensures |r| == |ds| && forall k :: 0 <= k < |ds| ==> r[k] == ds[k].obj
  {
    seq(|ds|, k requires 0 <= k < |ds| => ds[k].obj)
  }

  function RetiredIds(rs: seq<Retired>): (r: seq<nat>)
    ensures |r| == |rs| && forall k :: 0 <= k < |rs| ==> r[k] == rs[k].obj
  {
    seq(|rs|, k requires 0 <= k < |rs| => rs[k].obj)
  }

  /** Cookie order is the order of retirement, then of the issued list, then of
      the submitted list. */
  ghost predicate InOrder(s: Lists) {
    s.order == RetiredIds(s.retired) + Ids(s.issued) + Ids(s.submitted)
  }

  ghost predicate Distinct(ids: seq<nat>) {
    forall i, j :: 0 <= i < j < |ids| ==> ids[i] != ids[j]
  }

  /** No descriptor is on two lists. */
  ghost predicate OnOneList(s: Lists) {
    && Distinct(s.order + Ids(s.prepared))
    && forall k :: 0 <= k < |s.order + Ids(s.prepared)| ==> (s.order + Ids(s.prepared))[k] in s.made
  }

  /** Callbacks come in cookie order, once for each retired descriptor. */
  ghost predicate CallbacksInOrder(s: Lists) {
    s.called + Ids(s.finishing) + Ids(s.completed) == RetiredIds(s.retired)
  }

  /** The descriptor still has its whole chunk list. */
  predicate Whole(s: Lists, d: Desc) {
    d.obj in s.made && d.chunks == s.made[d.obj]
  }

  /** The first n chunks of its list have been started. */
  predicate StartedTo(s: Lists, d: Desc, n: nat) {
    d.obj in s.made && n <= |s.made[d.obj]| && d.chunks == s.made[d.obj][n..]
  }

  function Started(s: Lists, d: Desc): nat {
    if d.obj in s.made && |d.chunks| <= |s.made[d.obj]| then |s.made[d.obj]| - |d.chunks| else 0
  }

  /** Only the descriptor at the head of the issued list is under way. */
  ghost predicate OnlyHeadStarted(s: Lists) {
    && (forall k :: 0 <= k < |s.prepared| ==> Whole(s, s.prepared[k]))
    && (forall k :: 0 <= k < |s.submitted| ==> Whole(s, s.submitted[k]))
    && (forall k :: 1 <= k < |s.issued| ==> Whole(s, s.issued[k]))
    && (s.issued != [] ==> StartedTo(s, s.issued[0], Started(s, s.issued[0])))
  }

  function Tagged(obj: nat, chunks: seq<Chunk>): (r: seq<Start>)
    ensures |r| == |chunks| && forall k :: 0 <= k < |chunks| ==> r[k] == Start(obj, chunks[k])
  {
    seq(|chunks|, k requires 0 <= k < |chunks| => Start(obj, chunks[k]))
  }

  /** The first n chunks of a descriptor as prepared. */
  function Prefix(made: map<nat, seq<Chunk>>, obj: nat, n: nat): seq<Start> {
    if obj in made && n <= |made[obj]| then Tagged(obj, made[obj][..n]) else []
  }

  /** The chunks started for the retired descriptors, one after the other. */
  function Pieces(made: map<nat, seq<Chunk>>, rs: seq<Retired>): seq<Start> {
    if rs == [] then []
    else Pieces(made, rs[..|rs| - 1]) + Prefix(made, rs[|rs| - 1].obj, rs[|rs| - 1].started)
  }

  /** The hardware has been given a prefix of each descriptor's chunks, in
      cookie order and without interleaving. */
  ghost predicate TraceInOrder(s: Lists) {
    s.trace == Pieces(s.made, s.retired)
             + if s.issued == [] then [] else Prefix(s.made, s.issued[0].obj, Started(s, s.issued[0]))
  }

  /** A descriptor that was not stopped or aborted has been started completely. */
  ghost predicate FinishedWhole(s: Lists) {
    forall k :: 0 <= k < |s.retired| ==>
      && s.retired[k].obj in s.made && s.retired[k].started <= |s.made[s.retired[k].obj]|
      && (s.retired[k].cause == Finished ==> s.retired[k].started == |s.made[s.retired[k].obj]|)
  }

  /** The n-th cookie given out; before the first there is the initial one. */
  function CookieAt(n: nat): int { 1 + n % INT_MAX }

  ghost predicate CookiesInOrder(s: Lists) {
    && s.cookie == CookieAt(|s.order|)
    && s.completedCookie == CookieAt(|s.retired|)
    && (forall k :: 0 <= k < |s.issued| ==> s.issued[k].cookie == CookieAt(|s.retired| + k + 1))
    && (forall k :: 0 <= k < |s.submitted| ==> s.submitted[k].cookie == CookieAt(|s.retired| + |s.issued| + k + 1))
  }

  ghost predicate DescsOk(ds: seq<Desc>, llMax: nat) {
    forall k :: 0 <= k < |ds| ==> DescOk(ds[k], llMax)
  }

  ghost predicate AllOk(s: Lists, llMax: nat) {
    && DescsOk(s.prepared, llMax) && DescsOk(s.submitted, llMax) && DescsOk(s.issued, llMax)
    && DescsOk(s.completed, llMax) && DescsOk(s.finishing, llMax)
  }

  function Objects(ds: seq<Desc>): multiset<nat> {
    if ds == [] then multiset{} else DescObjects(ds[0]) + Objects(ds[1..])
  }

  /** The objects allocated and not freed are those of the descriptors on the
      lists. */
  ghost predicate NothingLost(s: Lists) {
    s.live == Objects(s.prepared) + Objects(s.submitted) + Objects(s.issued) + Objects(s.completed)
              + Objects(s.finishing)
  }

  ghost predicate Inv(s: Lists, llMax: nat) {
    && InOrder(s) && OnOneList(s) && CallbacksInOrder(s) && OnlyHeadStarted(s) && TraceInOrder(s)
    && FinishedWhole(s) && CookiesInOrder(s) && AllOk(s, llMax) && NothingLost(s)
  }
}

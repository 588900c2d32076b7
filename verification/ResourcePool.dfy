/**
 The resource pool as a step machine: any number of threads calling `Get`, `Put` and `CloseIdleResources`, and
 one resizer calling `SetCapacity`. A step is one channel operation, one atomic counter update, or one call into
 the resource or the factory, so every interleaving of those is a run.
 */
module ResourcePool {

  // ----- state -----

  /** A pooled resource; the empty setting means that none is applied. */
  datatype Resource = Resource(id: int, setting: string)

  /** `resourceWrapper`: a slot with or without a resource. */
  datatype Wrapper = Empty | Full(resource: Resource)

  /** A buffered channel. */
  datatype Chan = Chan(items: seq<Wrapper>, closed: bool)

  /** `maxCap`, and the normal form under which resources compare settings. */
  datatype Config = Config(maxCap: nat, fold: string -> string)

  /** Where a thread is. `want` is the setting asked for, empty for a plain `Get`. */
  datatype Thread =
    | Idle
    | First(want: string)                                          // the first select
    | Second(want: string)                                         // the second select
    | Third(want: string)                                          // the third select reads both channels in turn
    | ThirdHalf(want: string, first: nat)
    | Wait(want: string, first: nat, second: nat)                  // and blocks on what it read
    | Got(want: string, w: Wrapper)                                // a slot was received
    | ResetFailed(want: string)                                    // active.Add(-1) comes next
    | Unwrap(want: string, w: Wrapper)
    | Made(want: string, res: Resource)                            // active.Add(1) comes next
    | Apply(want: string, res: Resource)
    | GiveBack(w: Wrapper)                                         // an error path returns the slot
    | Take(want: string, res: Resource)                            // available.Add(-1) comes next
    | Count(want: string, res: Resource)                           // inUse.Add(1) comes next
    | Returned(want: string, res: Resource)                        // Get has returned
    | Using(res: Resource)                                         // the caller holds the resource
    | Putting(res: Resource)
    | Reopen                                                       // the factory replaces a closed resource
    | ReopenFailed                                                 // active.Add(-1) comes next
    | Sending(w: Wrapper, toSetting: bool)
    | Sent                                                         // inUse.Add(-1) comes next
    | Uncounted                                                    // available.Add(1) comes next
    | Scan(rounds: nat, budget: nat)                               // CloseIdleResources
    | ScanHave(rounds: nat, budget: nat, w: Wrapper, orig: bool)
    | ScanReopen(rounds: nat, budget: nat)
    | ScanReopenFailed(rounds: nat, budget: nat)
    | ScanReturn(rounds: nat, budget: nat, w: Wrapper, toRes: bool)

  /** Where the resizer is; `left` counts slots still to remove or add. */
  datatype Resizer =
    | RIdle
    | RStart(target: nat)
    | RMakeRes(target: nat)
    | RMakeSet(target: nat)
    | RSwap(target: nat)
    | RShrink(target: nat, left: nat)
    | RDrop(target: nat, left: nat, w: Wrapper)
    | RInactive(target: nat, left: nat)                            // active.Add(-1) comes next
    | RUnavailable(target: nat, left: nat)                         // available.Add(-1) comes next
    | RGrow(target: nat, left: nat)
    | RAvailable(target: nat, left: nat)                           // available.Add(1) comes next
    | RCloseRes
    | RCloseSet

  /**
   What the threads share. `live` counts resources made and not yet closed. `phantoms` counts receives by
   `CloseIdleResources` from a closed channel, which the source does not tell from real ones.
   */
  datatype Shared = Shared(
    available: int, active: int, inUse: int, capacity: int, live: int, phantoms: nat,
    chans: seq<Chan>, resources: nat, settings: nat, panicked: bool)

  datatype Pool = Pool(sh: Shared, threads: seq<Thread>, resizer: Resizer)

  ghost predicate InBounds(sh: Shared) {
    sh.resources < |sh.chans| && sh.settings < |sh.chans| && sh.resources != sh.settings
  }

  // ----- channel operations -----

  predicate CanReceive(sh: Shared, ch: nat) {
    ch < |sh.chans| && sh.chans[ch].items != []
  }

  predicate ClosedAndEmpty(sh: Shared, ch: nat) {
    ch < |sh.chans| && sh.chans[ch].items == [] && sh.chans[ch].closed
  }

  function Receive(sh: Shared, ch: nat): (r: (Wrapper, Shared))
    requires CanReceive(sh, ch)
  {
    (sh.chans[ch].items[0], sh.(chans := sh.chans[ch := sh.chans[ch].(items := sh.chans[ch].items[1..])]))
  }

  predicate CanSend(c: Config, sh: Shared, ch: nat) {
    ch < |sh.chans| && !sh.chans[ch].closed && |sh.chans[ch].items| < c.maxCap
  }

  function Send(sh: Shared, ch: nat, w: Wrapper): (r: Shared)
    requires ch < |sh.chans|
  {
    sh.(chans := sh.chans[ch := sh.chans[ch].(items := sh.chans[ch].items + [w])])
  }

  function Close(sh: Shared, ch: nat): (r: Shared)
    requires ch < |sh.chans|
  {
    sh.(chans := sh.chans[ch := sh.chans[ch].(closed := true)])
  }

  function Panic(sh: Shared): (r: Shared) {
    sh.(panicked := true)
  }

  // ----- Get -----

  predicate Same(c: Config, want: string, setting: string) {
    c.fold(want) == c.fold(setting)
  }

  predicate NeedsReset(c: Config, want: string, w: Wrapper) {
    w.Full? && w.resource.setting != "" && (want == "" || !Same(c, want, w.resource.setting))
  }

  /** After the slot holds a resource: a plain `Get` takes it, one with a setting applies that first. */
  function Ready(want: string, r: Resource): Thread {
    if want == "" then Take(want, r) else Apply(want, r)
  }

  /** A receive on channel `ch` that succeeds, or finds the channel closed. */
  ghost predicate GetReceives(sh: Shared, want: string, ch: nat, sh': Shared, p': Thread) {
    || (CanReceive(sh, ch) && var (w, after) := Receive(sh, ch); sh' == after && p' == Got(want, w))
    || (ClosedAndEmpty(sh, ch) && sh' == sh && p' == Idle)
  }

  /** The three selects of a `Get`. */
  ghost predicate FetchMove(sh: Shared, p: Thread, sh': Shared, p': Thread) {
    match p
    case First(want) =>
      var ch := if want == "" then sh.resources else sh.settings;
      || GetReceives(sh, want, ch, sh', p')
      || (!CanReceive(sh, ch) && !ClosedAndEmpty(sh, ch) && sh' == sh && p' == Second(want))
    case Second(want) =>
      var ch := if want == "" then sh.settings else sh.resources;
      || GetReceives(sh, want, ch, sh', p')
      || (!CanReceive(sh, ch) && !ClosedAndEmpty(sh, ch) && sh' == sh && p' == Third(want))
    case Third(want) =>
      sh' == sh && p' == ThirdHalf(want, if want == "" then sh.resources else sh.settings)
    case ThirdHalf(want, first) =>
      sh' == sh && p' == Wait(want, first, if want == "" then sh.settings else sh.resources)
    case Wait(want, first, second) =>
      GetReceives(sh, want, first, sh', p') || GetReceives(sh, want, second, sh', p') || (sh' == sh && p' == Idle)
    case _ => false
  }

  /** From a received slot to a resource ready to return, or to an error. */
  ghost predicate PrepareMove(c: Config, sh: Shared, p: Thread, sh': Shared, p': Thread) {
    match p
    case Got(want, w) =>
      if !NeedsReset(c, want, w) then sh' == sh && p' == Unwrap(want, w)
      else
        || (sh' == sh && p' == Unwrap(want, Full(w.resource.(setting := ""))))
        || (sh' == sh.(live := sh.live - 1) && p' == ResetFailed(want))
    case ResetFailed(want) =>
      sh' == sh.(active := sh.active - 1) && p' == Unwrap(want, Empty)
    case Unwrap(want, Full(r)) =>
      sh' == sh && p' == Ready(want, r)
    case Unwrap(want, Empty) =>
      || (sh' == sh.(live := sh.live + 1) && p'.Made? && p'.want == want && p'.res.setting == "")
      || (sh' == sh && p' == GiveBack(Empty))
    case Made(want, r) =>
      sh' == sh.(active := sh.active + 1) && p' == Ready(want, r)
    case Apply(want, r) =>
      if r.setting != "" then sh' == sh && p' == Take(want, r)
      else
        || (sh' == sh && p' == Take(want, r.(setting := want)))
        || (sh' == sh && p' == GiveBack(Full(r)))
    case Take(want, r) =>
      sh' == sh.(available := sh.available - 1) && p' == Count(want, r)
    case Count(want, r) =>
      sh' == sh.(inUse := sh.inUse + 1) && p' == Returned(want, r)
    case _ => false
  }

  /** What the factory makes: a resource without a setting. */
  predicate Fresh(w: Wrapper) {
    w.Full? && w.resource.setting == ""
  }

  /** A blocking send: it waits for room, and panics on a closed channel. */
  ghost predicate SendMove(c: Config, sh: Shared, ch: nat, w: Wrapper, sh': Shared) {
    && ch < |sh.chans|
    && (if sh.chans[ch].closed then sh' == Panic(sh) else CanSend(c, sh, ch) && sh' == Send(sh, ch, w))
  }

  // ----- Put -----

  ghost predicate PutMove(sh: Shared, p: Thread, sh': Shared, p': Thread) {
    match p
    case Putting(r) =>
      || (sh' == sh && p' == Sending(Full(r), r.setting != ""))
      || (sh' == sh.(live := sh.live - 1) && p' == Reopen)
    case Reopen =>
      || (sh' == sh.(live := sh.live + 1) && p'.Sending? && Fresh(p'.w) && !p'.toSetting)
      || (sh' == sh && p' == ReopenFailed)
    case ReopenFailed =>
      sh' == sh.(active := sh.active - 1) && p' == Sending(Empty, false)
    case Sent =>
      sh' == sh.(inUse := sh.inUse - 1) && p' == Uncounted
    case Uncounted =>
      sh' == sh.(available := sh.available + 1) && p' == Idle
    case _ => false
  }

  // ----- CloseIdleResources -----

  /** A receive that does not check whether the channel is closed. */
  ghost predicate ScanReceives(sh: Shared, rounds: nat, budget: nat, ch: nat, orig: bool, sh': Shared, p': Thread) {
    || (CanReceive(sh, ch)
        && var (w, after) := Receive(sh, ch); sh' == after && p' == ScanHave(rounds, budget, w, orig))
    || (ClosedAndEmpty(sh, ch)
        && sh' == sh.(phantoms := sh.phantoms + 1) && p' == ScanHave(rounds, budget, Empty, orig))
  }

  /** The select of one round. */
  ghost predicate ScanFetch(sh: Shared, p: Thread, sh': Shared, p': Thread) {
    && p.Scan?
    && if p.rounds == 0 || p.budget == 0 then sh' == sh && p' == Idle
       else
         || ScanReceives(sh, p.rounds, p.budget, sh.resources, true, sh', p')
         || ScanReceives(sh, p.rounds, p.budget, sh.settings, false, sh', p')
         || (!CanReceive(sh, sh.resources) && !ClosedAndEmpty(sh, sh.resources)
             && !CanReceive(sh, sh.settings) && !ClosedAndEmpty(sh, sh.settings)
             && sh' == sh && p' == Idle)
  }

  ghost predicate ScanMove(sh: Shared, p: Thread, sh': Shared, p': Thread) {
    match p
    case ScanHave(rounds, budget, w, orig) =>
      || (sh' == sh && p' == ScanReturn(rounds, budget, w, orig))
      || (w.Full? && sh' == sh.(live := sh.live - 1) && p' == ScanReopen(rounds, budget))
    case ScanReopen(rounds, budget) =>
      || (sh' == sh.(live := sh.live + 1)
          && p'.ScanReturn? && Fresh(p'.w)
          && p' == ScanReturn(rounds, if budget > 0 then budget - 1 else 0, p'.w, true))
      || (sh' == sh && p' == ScanReopenFailed(rounds, budget))
    case ScanReopenFailed(rounds, budget) =>
      sh' == sh.(active := sh.active - 1) && p' == ScanReturn(rounds, if budget > 0 then budget - 1 else 0, Empty, true)
    case _ => false
  }

  /** The sends that put a slot back: the error path of `Get`, `Put`, and the end of a round of the scan. */
  ghost predicate ReturnMove(c: Config, sh: Shared, p: Thread, sh': Shared, p': Thread) {
    match p
    case GiveBack(w) =>
      SendMove(c, sh, sh.resources, w, sh') && p' == Idle
    case Sending(w, toSetting) => // a full channel panics
      var ch := if toSetting then sh.settings else sh.resources;
      && ch < |sh.chans| && p' == Sent
      && sh' == if CanSend(c, sh, ch) then Send(sh, ch, w) else Panic(sh)
    case ScanReturn(rounds, budget, w, toRes) =>
      && SendMove(c, sh, if toRes then sh.resources else sh.settings, w, sh')
      && p' == Scan(if rounds > 0 then rounds - 1 else 0, budget)
    case _ => false
  }

  // ----- what a thread may do -----

  /** Calls and the caller's own use of a resource it holds. */
  ghost predicate CallMove(sh: Shared, p: Thread, sh': Shared, p': Thread) {
    match p
    case Idle =>
      || (sh' == sh && p'.First?)
      || (sh' == sh && p'.Scan? && p'.budget > 0 && p'.rounds == if sh.available > 0 then sh.available else 0)
    case Returned(_, r) =>
      sh' == sh && p' == Using(r)
    case Using(r) =>
      || (sh' == sh && p'.Using? && p'.res.id == r.id)
      || (sh' == sh && p' == Putting(r))
      || (sh' == sh.(live := sh.live - 1) && p' == Reopen) // closed by the caller, then Put(nil)
    case _ => false
  }

  ghost predicate Move(c: Config, sh: Shared, p: Thread, sh': Shared, p': Thread) {
    || FetchMove(sh, p, sh', p')
    || PrepareMove(c, sh, p, sh', p')
    || PutMove(sh, p, sh', p')
    || ScanFetch(sh, p, sh', p')
    || ScanMove(sh, p, sh', p')
    || ReturnMove(c, sh, p, sh', p')
    || CallMove(sh, p, sh', p')
  }

  // ----- SetCapacity -----

  ghost predicate ResizerReceives(sh: Shared, target: nat, left: nat, ch: nat, sh': Shared, p': Resizer)
    requires left > 0
  {
    || (CanReceive(sh, ch) && var (w, after) := Receive(sh, ch); sh' == after && p' == RDrop(target, left - 1, w))
    || (ClosedAndEmpty(sh, ch) && sh' == sh && p' == RDrop(target, left - 1, Empty))
  }

  ghost predicate ResizerMove(c: Config, sh: Shared, p: Resizer, sh': Shared, p': Resizer) {
    match p
    case RIdle =>
      sh' == sh && p'.RStart? && p'.target <= c.maxCap
    case RStart(target) =>
      if sh.capacity == 0 && target > 0 then sh' == sh && p' == RMakeRes(target)
      else if sh.capacity == target then sh' == sh && p' == RIdle
      else
        && sh' == sh.(capacity := target)
        && p' == (if target < sh.capacity then RShrink(target, sh.capacity - target)
                  else if target > sh.capacity then RGrow(target, target - sh.capacity) else RIdle)
    case RMakeRes(target) =>
      sh' == sh.(chans := sh.chans + [Chan([], false)], resources := |sh.chans|) && p' == RMakeSet(target)
    case RMakeSet(target) =>
      sh' == sh.(chans := sh.chans + [Chan([], false)], settings := |sh.chans|) && p' == RSwap(target)
    case RSwap(target) =>
      sh' == sh.(capacity := target) && p' == RGrow(target, target)
    case RShrink(target, left) =>
      if left == 0 then sh' == sh && (if target == 0 then p' == RCloseRes else p' == RIdle)
      else
        || ResizerReceives(sh, target, left, sh.resources, sh', p')
        || ResizerReceives(sh, target, left, sh.settings, sh', p')
    case RDrop(target, left, w) =>
      if w.Full? then sh' == sh.(live := sh.live - 1) && p' == RInactive(target, left)
      else sh' == sh && p' == RUnavailable(target, left)
    case RInactive(target, left) =>
      sh' == sh.(active := sh.active - 1) && p' == RUnavailable(target, left)
    case RUnavailable(target, left) =>
      sh' == sh.(available := sh.available - 1) && p' == RShrink(target, left)
    case RGrow(target, left) =>
      if left == 0 then sh' == sh && p' == RIdle
      else SendMove(c, sh, sh.resources, Empty, sh') && p' == RAvailable(target, left - 1)
    case RAvailable(target, left) =>
      sh' == sh.(available := sh.available + 1) && p' == RGrow(target, left)
    case RCloseRes =>
      && sh.resources < |sh.chans|
      && sh' == (if sh.chans[sh.resources].closed then Panic(sh) else Close(sh, sh.resources))
      && p' == RCloseSet
    case RCloseSet =>
      && sh.settings < |sh.chans|
      && sh' == (if sh.chans[sh.settings].closed then Panic(sh) else Close(sh, sh.settings))
      && p' == RIdle
  }

  // ----- runs -----

  /** `NewResourcePool` with any number of threads. */
  ghost predicate Init(c: Config, s: Pool) {
    && 0 < s.sh.capacity <= c.maxCap
    && s.sh == Shared(s.sh.capacity, 0, 0, s.sh.capacity, 0, 0,
                      [Chan(seq(s.sh.capacity, _ => Empty), false), Chan([], false)], 0, 1, false)
    && s.resizer == RIdle
    && forall i :: 0 <= i < |s.threads| ==> s.threads[i] == Idle
  }

  ghost predicate ThreadStep(c: Config, s: Pool, i: nat, s': Pool) {
    && !s.sh.panicked && i < |s.threads|
    && |s'.threads| == |s.threads| && s'.threads == s.threads[i := s'.threads[i]]
    && s'.resizer == s.resizer
    && Move(c, s.sh, s.threads[i], s'.sh, s'.threads[i])
  }

  ghost predicate ResizerStep(c: Config, s: Pool, s': Pool) {
    !s.sh.panicked && s'.threads == s.threads && ResizerMove(c, s.sh, s.resizer, s'.sh, s'.resizer)
  }

  ghost predicate Step(c: Config, s: Pool, s': Pool) {
    (exists i: nat :: ThreadStep(c, s, i, s')) || ResizerStep(c, s, s')
  }

  ghost predicate Run(c: Config, states: seq<Pool>) {
    && states != [] && Init(c, states[0])
    && forall k :: 0 <= k < |states| - 1 ==> Step(c, states[k], states[k + 1])
  }
}

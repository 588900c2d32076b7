/** What every run of the resource pool keeps. */
module ResourcePoolSafety {
  import opened ResourcePool

  // ----- sums -----

  function Total<T>(f: T -> int, s: seq<T>): int {
    if s == [] then 0 else Total(f, s[..|s| - 1]) + f(s[|s| - 1])
  }

  lemma {:induction false} TotalUpdate<T>(f: T -> int, s: seq<T>, i: int, x: T)
    requires 0 <= i < |s|
    ensures Total(f, s[i := x]) == Total(f, s) - f(s[i]) + f(x)
  {
    var front := s[..|s| - 1];
    if i == |s| - 1 {
      assert s[i := x][..|s| - 1] == front;
    } else {
      TotalUpdate(f, front, i, x);
      assert s[i := x][..|s| - 1] == front[i := x];
    }
  }

  lemma {:induction false} TotalHead<T>(f: T -> int, s: seq<T>)
    requires s != []
    ensures Total(f, s) == f(s[0]) + Total(f, s[1..])
  {
    if |s| == 1 {
    } else {
      TotalHead(f, s[..|s| - 1]);
      assert s[..|s| - 1][1..] == s[1..][..|s| - 2];
    }
  }

  lemma TotalAppend<T>(f: T -> int, s: seq<T>, x: T)
    ensures Total(f, s + [x]) == Total(f, s) + f(x)
  {
    assert (s + [x])[..|s|] == s;
  }

  lemma {:induction false} TotalBounds<T>(f: T -> int, s: seq<T>, i: int)
    requires forall k :: 0 <= k < |s| ==> 0 <= f(s[k])
    ensures 0 <= Total(f, s)
    ensures 0 <= i < |s| ==> f(s[i]) <= Total(f, s)
  {
    if s == [] {
    } else {
      TotalBounds(f, s[..|s| - 1], i);
    }
  }

  lemma {:induction false} TotalZero<T>(f: T -> int, s: seq<T>)
    requires forall k :: 0 <= k < |s| ==> f(s[k]) == 0
    ensures Total(f, s) == 0
  {
    if s == [] {
    } else {
      TotalZero(f, s[..|s| - 1]);
    }
  }

  // ----- accounts -----

  /**
   What a thread, the resizer or the shared state accounts for:
   `slots` slots held; `owed` slots that `available` counts beyond those queued; `used` resources that `inUse` counts;
   `owned` open resources held; `ahead` how far `active` is ahead of the open resources.
   */
  datatype Ledger = Ledger(slots: int, owed: int, used: int, owned: int, ahead: int)

  function IsFull(w: Wrapper): int {
    if w.Full? then 1 else 0
  }

  function Account(p: Thread): Ledger {
    match p
    case Idle | First(_) | Second(_) | Third(_) | ThirdHalf(_, _) | Wait(_, _, _) | Scan(_, _) => Ledger(0, 0, 0, 0, 0)
    case Got(_, w) => Ledger(1, 1, 0, IsFull(w), 0)
    case ResetFailed(_) => Ledger(1, 1, 0, 0, 1)
    case Unwrap(_, w) => Ledger(1, 1, 0, IsFull(w), 0)
    case Made(_, _) => Ledger(1, 1, 0, 1, -1)
    case Apply(_, _) => Ledger(1, 1, 0, 1, 0)
    case GiveBack(w) => Ledger(1, 1, 0, IsFull(w), 0)
    case Take(_, _) => Ledger(1, 1, 0, 1, 0)
    case Count(_, _) => Ledger(1, 0, 0, 1, 0)
    case Returned(_, _) | Using(_) | Putting(_) => Ledger(1, 0, 1, 1, 0)
    case Reopen | ReopenFailed => Ledger(1, 0, 1, 0, 1)
    case Sending(w, _) => Ledger(1, 0, 1, IsFull(w), 0)
    case Sent => Ledger(0, -1, 1, 0, 0)
    case Uncounted => Ledger(0, -1, 0, 0, 0)
    case ScanHave(_, _, w, _) => Ledger(1, 1, 0, IsFull(w), 0)
    case ScanReopen(_, _) | ScanReopenFailed(_, _) => Ledger(1, 1, 0, 0, 1)
    case ScanReturn(_, _, w, _) => Ledger(1, 1, 0, IsFull(w), 0)
  }

  function Slots(p: Thread): int { Account(p).slots }
  function Owed(p: Thread): int { Account(p).owed }
  function Used(p: Thread): int { Account(p).used }
  function Owned(p: Thread): int { Account(p).owned }
  function Ahead(p: Thread): int { Account(p).ahead }

  /** The resizer's account; its `slots` are the additions still to come less the removals still to come. */
  function ResizerAccount(p: Resizer): Ledger {
    match p
    case RShrink(_, left) => if left == 0 then Ledger(0, 0, 0, 0, 0) else Ledger(0 - left, 0, 0, 0, 0)
    case RDrop(_, left, w) => Ledger(0 - left, 1, 0, IsFull(w), 0)
    case RInactive(_, left) => Ledger(0 - left, 1, 0, 0, 1)
    case RUnavailable(_, left) => Ledger(0 - left, 1, 0, 0, 0)
    case RGrow(_, left) => Ledger(left, 0, 0, 0, 0)
    case RAvailable(_, left) => Ledger(left, -1, 0, 0, 0)
    case _ => Ledger(0, 0, 0, 0, 0)
  }

  // ----- channels -----

  function Items(ch: Chan): int {
    |ch.items|
  }

  function Fulls(ch: Chan): int {
    Total(IsFull, ch.items)
  }

  /** Slots in all channels ever made, those that a reopen has replaced included. */
  function Queued(sh: Shared): int {
    Total(Items, sh.chans)
  }

  /** Resources in all channels ever made. */
  function Stored(sh: Shared): int {
    Total(Fulls, sh.chans)
  }

  lemma ReceiveCounts(sh: Shared, ch: nat)
    requires CanReceive(sh, ch)
    ensures var (w, sh') := Receive(sh, ch);
            Queued(sh') == Queued(sh) - 1 && Stored(sh') == Stored(sh) - IsFull(w)
  {
    var after := sh.chans[ch].(items := sh.chans[ch].items[1..]);
    TotalUpdate(Items, sh.chans, ch, after);
    TotalUpdate(Fulls, sh.chans, ch, after);
    TotalHead(IsFull, sh.chans[ch].items);
  }

  lemma SendCounts(sh: Shared, ch: nat, w: Wrapper)
    requires ch < |sh.chans|
    ensures Queued(Send(sh, ch, w)) == Queued(sh) + 1 && Stored(Send(sh, ch, w)) == Stored(sh) + IsFull(w)
  {
    var after := sh.chans[ch].(items := sh.chans[ch].items + [w]);
    TotalUpdate(Items, sh.chans, ch, after);
    TotalUpdate(Fulls, sh.chans, ch, after);
    TotalAppend(IsFull, sh.chans[ch].items, w);
  }

  lemma CloseCounts(sh: Shared, ch: nat)
    requires ch < |sh.chans|
    ensures Queued(Close(sh, ch)) == Queued(sh) && Stored(Close(sh, ch)) == Stored(sh)
  {
    var after := sh.chans[ch].(closed := true);
    TotalUpdate(Items, sh.chans, ch, after);
    TotalUpdate(Fulls, sh.chans, ch, after);
  }

  lemma MakeCounts(sh: Shared)
    ensures Total(Items, sh.chans + [Chan([], false)]) == Queued(sh)
    ensures Total(Fulls, sh.chans + [Chan([], false)]) == Stored(sh)
  {
    TotalAppend(Items, sh.chans, Chan([], false));
    TotalAppend(Fulls, sh.chans, Chan([], false));
  }

  // ----- every step balances -----

  /** The shared side of the accounts. */
  function Books(sh: Shared): Ledger {
    Ledger(Queued(sh) - sh.phantoms, sh.available - Queued(sh) + sh.phantoms, sh.inUse,
           sh.live - Stored(sh), sh.active - sh.live)
  }

  /** A step moves between the books and one thread exactly what the thread gains or loses. */
  ghost predicate Balanced(b: Ledger, a: Ledger, b': Ledger, a': Ledger) {
    && b.slots + a.slots == b'.slots + a'.slots
    && b.owed - a.owed == b'.owed - a'.owed
    && b.used - a.used == b'.used - a'.used
    && b.owned - a.owned == b'.owned - a'.owned
    && b.ahead - a.ahead == b'.ahead - a'.ahead
  }

  /** Threads never open, close or replace a channel, nor change the capacity. */
  ghost predicate SameDoors(sh: Shared, sh': Shared) {
    && sh'.resources == sh.resources && sh'.settings == sh.settings && sh'.capacity == sh.capacity
    && |sh'.chans| == |sh.chans| && sh'.phantoms >= sh.phantoms && sh'.panicked == sh.panicked
    && forall ch :: 0 <= ch < |sh.chans| ==> sh'.chans[ch].closed == sh.chans[ch].closed
  }

  lemma ReceiveBalances(sh: Shared, want: string, ch: nat, p: Thread, sh': Shared, p': Thread)
    requires GetReceives(sh, want, ch, sh', p') && (p.First? || p.Second? || p.Wait?)
    ensures Balanced(Books(sh), Account(p), Books(sh'), Account(p')) && SameDoors(sh, sh')
  {
    hide Total;
    if CanReceive(sh, ch) {
      ReceiveCounts(sh, ch);
    }
  }

  lemma FetchBalances(sh: Shared, p: Thread, sh': Shared, p': Thread)
    requires FetchMove(sh, p, sh', p')
    ensures Balanced(Books(sh), Account(p), Books(sh'), Account(p')) && SameDoors(sh, sh')
  {
    hide Total;
    if p.Third? || p.ThirdHalf? {
    } else if GetReceives(sh, p.want, sh.resources, sh', p') {
      ReceiveBalances(sh, p.want, sh.resources, p, sh', p');
    } else if GetReceives(sh, p.want, sh.settings, sh', p') {
      ReceiveBalances(sh, p.want, sh.settings, p, sh', p');
    } else if p.Wait? && GetReceives(sh, p.want, p.first, sh', p') {
      ReceiveBalances(sh, p.want, p.first, p, sh', p');
    } else if p.Wait? && GetReceives(sh, p.want, p.second, sh', p') {
      ReceiveBalances(sh, p.want, p.second, p, sh', p');
    }
  }

  lemma ScanReceiveBalances(sh: Shared, ch: nat, orig: bool, p: Thread, sh': Shared, p': Thread)
    requires p.Scan? && ScanReceives(sh, p.rounds, p.budget, ch, orig, sh', p')
    ensures Balanced(Books(sh), Account(p), Books(sh'), Account(p')) && SameDoors(sh, sh')
  {
    hide Total;
    if CanReceive(sh, ch) {
      ReceiveCounts(sh, ch);
    }
  }

  lemma ScanFetchBalances(sh: Shared, p: Thread, sh': Shared, p': Thread)
    requires ScanFetch(sh, p, sh', p')
    ensures Balanced(Books(sh), Account(p), Books(sh'), Account(p')) && SameDoors(sh, sh')
  {
    hide Total;
    if ScanReceives(sh, p.rounds, p.budget, sh.resources, true, sh', p') {
      ScanReceiveBalances(sh, sh.resources, true, p, sh', p');
    } else if ScanReceives(sh, p.rounds, p.budget, sh.settings, false, sh', p') {
      ScanReceiveBalances(sh, sh.settings, false, p, sh', p');
    }
  }

  lemma PrepareBalances(c: Config, sh: Shared, p: Thread, sh': Shared, p': Thread)
    requires PrepareMove(c, sh, p, sh', p')
    ensures Balanced(Books(sh), Account(p), Books(sh'), Account(p')) && SameDoors(sh, sh')
  {
    hide Total;
  }

  lemma PutBalances(sh: Shared, p: Thread, sh': Shared, p': Thread)
    requires PutMove(sh, p, sh', p')
    ensures Balanced(Books(sh), Account(p), Books(sh'), Account(p')) && SameDoors(sh, sh')
  {
    hide Total;
  }

  lemma ScanBalances(sh: Shared, p: Thread, sh': Shared, p': Thread)
    requires ScanMove(sh, p, sh', p')
    ensures Balanced(Books(sh), Account(p), Books(sh'), Account(p')) && SameDoors(sh, sh')
  {
    hide Total;
  }

  lemma CallBalances(sh: Shared, p: Thread, sh': Shared, p': Thread)
    requires CallMove(sh, p, sh', p')
    ensures Balanced(Books(sh), Account(p), Books(sh'), Account(p')) && SameDoors(sh, sh')
  {
    hide Total;
  }

  lemma ReturnBalances(c: Config, sh: Shared, p: Thread, sh': Shared, p': Thread)
    requires ReturnMove(c, sh, p, sh', p') && !sh'.panicked && !sh.panicked
    ensures Balanced(Books(sh), Account(p), Books(sh'), Account(p')) && SameDoors(sh, sh')
  {
    hide Total;
    match p
    case GiveBack(w) => SendCounts(sh, sh.resources, w);
    case Sending(w, toSetting) => SendCounts(sh, if toSetting then sh.settings else sh.resources, w);
    case ScanReturn(_, _, w, toRes) => SendCounts(sh, if toRes then sh.resources else sh.settings, w);
    case _ =>
  }

  /** All steps but the sends. */
  lemma OtherBalances(c: Config, sh: Shared, p: Thread, sh': Shared, p': Thread)
    requires Move(c, sh, p, sh', p') && !ReturnMove(c, sh, p, sh', p')
    ensures Balanced(Books(sh), Account(p), Books(sh'), Account(p')) && SameDoors(sh, sh')
  {
    if FetchMove(sh, p, sh', p') {
      FetchBalances(sh, p, sh', p');
    } else if ScanFetch(sh, p, sh', p') {
      ScanFetchBalances(sh, p, sh', p');
    } else if PrepareMove(c, sh, p, sh', p') {
      PrepareBalances(c, sh, p, sh', p');
    } else if PutMove(sh, p, sh', p') {
      PutBalances(sh, p, sh', p');
    } else if ScanMove(sh, p, sh', p') {
      ScanBalances(sh, p, sh', p');
    } else {
      CallBalances(sh, p, sh', p');
    }
  }

  lemma MoveBalances(c: Config, sh: Shared, p: Thread, sh': Shared, p': Thread)
    requires Move(c, sh, p, sh', p') && !sh'.panicked && !sh.panicked
    ensures Balanced(Books(sh), Account(p), Books(sh'), Account(p')) && SameDoors(sh, sh')
  {
    if ReturnMove(c, sh, p, sh', p') {
      ReturnBalances(c, sh, p, sh', p');
    } else {
      OtherBalances(c, sh, p, sh', p');
    }
  }

  /** A thread panics only when it holds a slot and has no room to send it. */
  lemma PanicHasNoRoom(c: Config, sh: Shared, p: Thread, sh': Shared, p': Thread)
    requires Move(c, sh, p, sh', p') && !sh.panicked && sh'.panicked
    ensures Slots(p) == 1 && sh'.phantoms == sh.phantoms
    ensures !CanSend(c, sh, sh.resources) || !CanSend(c, sh, sh.settings)
  {
    if !ReturnMove(c, sh, p, sh', p') {
      OtherBalances(c, sh, p, sh', p');
    }
  }

  // ----- doors: which channels are open, and how far the resizer may go -----

  ghost predicate Doors(c: Config, sh: Shared, p: Resizer) {
    && InBounds(sh)
    && 0 <= sh.capacity <= c.maxCap
    && var resClosed, setClosed := sh.chans[sh.resources].closed, sh.chans[sh.settings].closed;
    match p
    case RIdle => resClosed == setClosed == (sh.capacity == 0)
    case RStart(t) => t <= c.maxCap && resClosed == setClosed == (sh.capacity == 0)
    case RMakeRes(t) => sh.capacity == 0 < t <= c.maxCap && resClosed && setClosed
    case RMakeSet(t) => sh.capacity == 0 < t <= c.maxCap && !resClosed && setClosed
    case RSwap(t) => sh.capacity == 0 < t <= c.maxCap && !resClosed && !setClosed
    case RCloseRes => sh.capacity == 0 && !resClosed && !setClosed
    case RCloseSet => sh.capacity == 0 && resClosed && !setClosed
    case RGrow(t, left) => sh.capacity == t > 0 && left <= t && !resClosed && !setClosed
    case RAvailable(t, left) => sh.capacity == t > 0 && left < t && !resClosed && !setClosed
    case _ => sh.capacity == p.target && p.target + p.left <= c.maxCap && !resClosed && !setClosed
  }

  lemma ResizerKeepsDoors(c: Config, sh: Shared, p: Resizer, sh': Shared, p': Resizer)
    requires Doors(c, sh, p) && ResizerMove(c, sh, p, sh', p') && !sh.panicked && !sh'.panicked
    ensures Doors(c, sh', p') && sh'.phantoms == sh.phantoms
  {
  }

  /** The resizer's steps balance against the capacity. */
  ghost predicate ResizerBalanced(sh: Shared, p: Resizer, sh': Shared, p': Resizer) {
    Settled(Books(sh), ResizerAccount(p), sh.capacity, Books(sh'), ResizerAccount(p'), sh'.capacity)
  }

  ghost predicate Settled(b: Ledger, r: Ledger, capacity: int, b': Ledger, r': Ledger, capacity': int) {
    && b.slots + r.slots - capacity == b'.slots + r'.slots - capacity'
    && b.owed - r.owed == b'.owed - r'.owed
    && b.used == b'.used
    && b.owned - r.owned == b'.owned - r'.owned
    && b.ahead - r.ahead == b'.ahead - r'.ahead
  }

  lemma ShrinkBalances(sh: Shared, p: Resizer, ch: nat, sh': Shared, p': Resizer)
    requires p.RShrink? && p.left > 0 && ResizerReceives(sh, p.target, p.left, ch, sh', p')
    requires ch < |sh.chans| && !sh.chans[ch].closed
    ensures ResizerBalanced(sh, p, sh', p')
  {
    hide Total;
    ReceiveCounts(sh, ch);
  }

  lemma ShrinkingBalances(c: Config, sh: Shared, p: Resizer, sh': Shared, p': Resizer)
    requires Doors(c, sh, p) && ResizerMove(c, sh, p, sh', p') && p.RShrink? && p.left > 0
    ensures ResizerBalanced(sh, p, sh', p')
  {
    hide ResizerBalanced;
    if ResizerReceives(sh, p.target, p.left, sh.resources, sh', p') {
      ShrinkBalances(sh, p, sh.resources, sh', p');
    } else {
      ShrinkBalances(sh, p, sh.settings, sh', p');
    }
  }

  /** Making and closing channels moves no slot. */
  lemma DoorStepBalances(c: Config, sh: Shared, p: Resizer, sh': Shared, p': Resizer)
    requires Doors(c, sh, p) && ResizerMove(c, sh, p, sh', p') && !sh.panicked && !sh'.panicked
    requires p.RMakeRes? || p.RMakeSet? || p.RCloseRes? || p.RCloseSet?
    ensures ResizerBalanced(sh, p, sh', p')
  {
    hide Total, ResizerReceives, SendMove;
    if p.RMakeRes? || p.RMakeSet? {
      MakeCounts(sh);
    } else {
      CloseCounts(sh, if p.RCloseRes? then sh.resources else sh.settings);
    }
  }

  lemma ResizerBalances(c: Config, sh: Shared, p: Resizer, sh': Shared, p': Resizer)
    requires Doors(c, sh, p) && ResizerMove(c, sh, p, sh', p') && !sh.panicked && !sh'.panicked
    ensures ResizerBalanced(sh, p, sh', p')
  {
    hide Total, ResizerReceives;
    if p.RMakeRes? || p.RMakeSet? || p.RCloseRes? || p.RCloseSet? {
      DoorStepBalances(c, sh, p, sh', p');
    } else if p.RShrink? && p.left > 0 {
      ShrinkingBalances(c, sh, p, sh', p');
    } else if p.RGrow? && p.left > 0 {
      SendCounts(sh, sh.resources, Empty);
    }
  }

  // ----- settings -----

  /** The setting of `r` is what was asked for. */
  ghost predicate Suits(c: Config, want: string, r: Resource) {
    if want == "" then r.setting == "" else r.setting != "" && Same(c, want, r.setting)
  }

  /** Not yet set, or already as asked. */
  ghost predicate Settable(c: Config, want: string, r: Resource) {
    r.setting == "" || (want != "" && Same(c, want, r.setting))
  }

  ghost predicate Fitting(c: Config, p: Thread) {
    match p
    case Unwrap(want, Full(r)) => Settable(c, want, r)
    case Made(want, r) => r.setting == ""
    case Apply(want, r) => want != "" && Settable(c, want, r)
    case Take(want, r) => Suits(c, want, r)
    case Count(want, r) => Suits(c, want, r)
    case Returned(want, r) => Suits(c, want, r)
    case _ => true
  }

  lemma PrepareKeepsFitting(c: Config, sh: Shared, p: Thread, sh': Shared, p': Thread)
    requires Fitting(c, p) && PrepareMove(c, sh, p, sh', p')
    ensures Fitting(c, p')
  {
  }

  /** Between the receive and the return, where the setting asked for matters. */
  predicate Preparing(p: Thread) {
    p.Unwrap? || p.Made? || p.Apply? || p.Take? || p.Count? || p.Returned?
  }

  lemma ReceiveDoesNotPrepare(sh: Shared, p: Thread, sh': Shared, p': Thread)
    requires FetchMove(sh, p, sh', p') || ScanFetch(sh, p, sh', p')
    ensures !Preparing(p')
  {
    hide CanReceive, ClosedAndEmpty, Receive;
  }

  lemma ReturnDoesNotPrepare(c: Config, sh: Shared, p: Thread, sh': Shared, p': Thread)
    requires PutMove(sh, p, sh', p') || ScanMove(sh, p, sh', p') || ReturnMove(c, sh, p, sh', p')
        || CallMove(sh, p, sh', p')
    ensures !Preparing(p')
  {
    hide CanSend, Send, SendMove, Panic, Fresh;
  }

  /** Only the steps between the receive and the return are bound by the setting asked for. */
  lemma MoveKeepsFitting(c: Config, sh: Shared, p: Thread, sh': Shared, p': Thread)
    requires Fitting(c, p) && Move(c, sh, p, sh', p')
    ensures Fitting(c, p')
  {
    hide FetchMove, ScanFetch, PrepareMove, PutMove, ScanMove, ReturnMove, CallMove, Settable, Suits;
    if PrepareMove(c, sh, p, sh', p') {
      PrepareKeepsFitting(c, sh, p, sh', p');
    } else if FetchMove(sh, p, sh', p') || ScanFetch(sh, p, sh', p') {
      ReceiveDoesNotPrepare(sh, p, sh', p');
    } else {
      ReturnDoesNotPrepare(c, sh, p, sh', p');
    }
  }

  // ----- the invariant -----

  /** All slots, counts and resources are accounted for. */
  ghost predicate Accounts(s: Pool) {
    var b, r := Books(s.sh), ResizerAccount(s.resizer);
    && b.slots + Total(Slots, s.threads) + r.slots == s.sh.capacity
    && b.owed == Total(Owed, s.threads) + r.owed
    && b.used == Total(Used, s.threads)
    && b.owned == Total(Owned, s.threads) + r.owned
    && b.ahead == Total(Ahead, s.threads) + r.ahead
  }

  ghost predicate Sound(c: Config, s: Pool) {
    && Doors(c, s.sh, s.resizer)
    && Accounts(s)
    && forall i :: 0 <= i < |s.threads| ==> Fitting(c, s.threads[i])
  }

  /** A pool panics only after a phantom receive; until then it is sound. */
  ghost predicate Inv(c: Config, s: Pool) {
    if s.sh.panicked then s.sh.phantoms > 0 else Sound(c, s)
  }

  lemma InitSound(c: Config, s: Pool)
    requires Init(c, s)
    ensures Inv(c, s)
  {
    TotalZero(Slots, s.threads);
    TotalZero(Owed, s.threads);
    TotalZero(Used, s.threads);
    TotalZero(Owned, s.threads);
    TotalZero(Ahead, s.threads);
    var plain, settings := s.sh.chans[0], s.sh.chans[1];
    TotalZero(IsFull, plain.items);
    TotalZero(IsFull, settings.items);
    assert s.sh.chans == [plain] + [settings];
    TotalAppend(Items, [plain], settings);
    TotalAppend(Fulls, [plain], settings);
    assert [plain][..0] == [];
  }

  /** While no phantom was received, whoever holds a slot finds room for it in an open channel. */
  lemma RoomToSend(c: Config, s: Pool, i: nat, ch: nat)
    requires Sound(c, s)
    requires i < |s.threads| && Slots(s.threads[i]) == 1 && (ch == s.sh.resources || ch == s.sh.settings)
    ensures s.sh.phantoms == 0 ==> CanSend(c, s.sh, ch)
  {
    TotalBounds(Slots, s.threads, i);
    TotalBounds(Items, s.sh.chans, ch);
    assert Items(s.sh.chans[ch]) == |s.sh.chans[ch].items|;
  }

  /** The resizer has room for the slots it adds. */
  lemma RoomToGrow(c: Config, s: Pool)
    requires Sound(c, s) && s.resizer.RGrow? && s.resizer.left > 0
    ensures s.sh.phantoms == 0 ==> CanSend(c, s.sh, s.sh.resources)
  {
    TotalBounds(Slots, s.threads, 0);
    TotalBounds(Items, s.sh.chans, s.sh.resources);
    assert Items(s.sh.chans[s.sh.resources]) == |s.sh.chans[s.sh.resources].items|;
  }

  lemma ThreadStepKeeps(c: Config, s: Pool, i: nat, s': Pool)
    requires Inv(c, s) && ThreadStep(c, s, i, s')
    ensures Inv(c, s')
  {
    var p, p' := s.threads[i], s'.threads[i];
    if s'.sh.panicked {
      PanicHasNoRoom(c, s.sh, p, s'.sh, p');
      RoomToSend(c, s, i, s.sh.resources);
      RoomToSend(c, s, i, s.sh.settings);
    } else {
      MoveBalances(c, s.sh, p, s'.sh, p');
      MoveKeepsFitting(c, s.sh, p, s'.sh, p');
      TotalUpdate(Slots, s.threads, i, p');
      TotalUpdate(Owed, s.threads, i, p');
      TotalUpdate(Used, s.threads, i, p');
      TotalUpdate(Owned, s.threads, i, p');
      TotalUpdate(Ahead, s.threads, i, p');
    }
  }

  lemma ResizerStepKeeps(c: Config, s: Pool, s': Pool)
    requires Inv(c, s) && ResizerStep(c, s, s')
    ensures Inv(c, s')
  {
    if s.resizer.RGrow? && s.resizer.left > 0 {
      RoomToGrow(c, s);
    }
    if !s'.sh.panicked {
      ResizerKeepsDoors(c, s.sh, s.resizer, s'.sh, s'.resizer);
      ResizerBalances(c, s.sh, s.resizer, s'.sh, s'.resizer);
    }
  }

  /** Every state of every run satisfies the invariant. */
  lemma {:induction false} RunKeeps(c: Config, states: seq<Pool>, k: nat)
    requires Run(c, states) && k < |states|
    ensures Inv(c, states[k])
  {
    if k == 0 {
      InitSound(c, states[0]);
    } else {
      RunKeeps(c, states, k - 1);
      var s, s' := states[k - 1], states[k - 1 + 1];
      assert Step(c, s, s');
      if ResizerStep(c, s, s') {
        ResizerStepKeeps(c, s, s');
      } else {
        var i: nat :| ThreadStep(c, s, i, s');
        ThreadStepKeeps(c, s, i, s');
      }
    }
  }

  // ----- what follows for every run -----

  /** Without phantom receives no run panics, and no holder of a slot ever waits to send it. */
  lemma NoPanic(c: Config, states: seq<Pool>, k: nat, i: nat)
    requires Run(c, states) && k < |states| && states[k].sh.phantoms == 0
    ensures !states[k].sh.panicked
    ensures i < |states[k].threads| && Slots(states[k].threads[i]) == 1 ==>
              CanSend(c, states[k].sh, states[k].sh.resources) && CanSend(c, states[k].sh, states[k].sh.settings)
  {
    RunKeeps(c, states, k);
    if i < |states[k].threads| && Slots(states[k].threads[i]) == 1 {
      RoomToSend(c, states[k], i, states[k].sh.resources);
      RoomToSend(c, states[k], i, states[k].sh.settings);
    }
  }

  /** No call is in progress: threads are idle or hold a resource. */
  ghost predicate AtRest(s: Pool) {
    && s.resizer == RIdle
    && forall i :: 0 <= i < |s.threads| ==> s.threads[i].Idle? || s.threads[i].Using?
  }

  function Holds(p: Thread): int {
    if p.Using? then 1 else 0
  }

  lemma {:induction false} RestTotals(threads: seq<Thread>)
    requires forall i :: 0 <= i < |threads| ==> threads[i].Idle? || threads[i].Using?
    ensures Total(Slots, threads) == Total(Used, threads) == Total(Owned, threads) == Total(Holds, threads)
    ensures Total(Owed, threads) == Total(Ahead, threads) == 0
  {
    if threads == [] {
    } else {
      RestTotals(threads[..|threads| - 1]);
    }
  }

  lemma {:induction false} OwnedWithinSlots(threads: seq<Thread>)
    ensures 0 <= Total(Owned, threads) <= Total(Slots, threads)
  {
    if threads == [] {
    } else {
      OwnedWithinSlots(threads[..|threads| - 1]);
    }
  }

  lemma {:induction false} FullWithin(items: seq<Wrapper>)
    ensures 0 <= Total(IsFull, items) <= |items|
  {
    if items == [] {
    } else {
      FullWithin(items[..|items| - 1]);
    }
  }

  lemma {:induction false} StoredWithinQueued(chans: seq<Chan>)
    ensures 0 <= Total(Fulls, chans) <= Total(Items, chans)
  {
    if chans == [] {
    } else {
      StoredWithinQueued(chans[..|chans| - 1]);
      FullWithin(chans[|chans| - 1].items);
    }
  }

  /** Every `Get` that returns a resource returns one with the setting asked for, and none otherwise. */
  lemma SettingsDelivered(c: Config, states: seq<Pool>, k: nat, i: nat)
    requires Run(c, states) && k < |states| && !states[k].sh.panicked
    requires i < |states[k].threads| && states[k].threads[i].Returned?
    ensures Suits(c, states[k].threads[i].want, states[k].threads[i].res)
  {
    RunKeeps(c, states, k);
  }

  // ----- phantom receives -----

  /** A thread of `CloseIdleResources` is about to receive. */
  predicate AboutToScan(p: Thread) {
    p.Scan? && p.rounds > 0 && p.budget > 0
  }

  /** A receive on one of the pool's two channels finds it closed. */
  predicate FindsClosed(sh: Shared) {
    ClosedAndEmpty(sh, sh.resources) || ClosedAndEmpty(sh, sh.settings)
  }

  ghost function WithThread(s: Pool, i: nat, p: Thread, sh: Shared): Pool
    requires i < |s.threads|
  {
    Pool(sh, s.threads[i := p], s.resizer)
  }

  /** What a scan takes from a closed channel: an item left in it, or a phantom. */
  function FromClosed(sh: Shared, ch: nat): (r: (Wrapper, Shared))
    requires ch < |sh.chans|
    ensures |r.1.chans| == |sh.chans| && forall k :: 0 <= k < |sh.chans| ==> r.1.chans[k].closed == sh.chans[k].closed
    ensures r.1.resources == sh.resources && r.1.settings == sh.settings && r.1.panicked == sh.panicked
  {
    if CanReceive(sh, ch) then Receive(sh, ch) else (Empty, sh.(phantoms := sh.phantoms + 1))
  }

  lemma ClosedStep(c: Config, s: Pool, i: nat, s1: Pool, orig: bool)
    requires InBounds(s.sh) && !s.sh.panicked && i < |s.threads| && AboutToScan(s.threads[i])
    requires s.sh.chans[if orig then s.sh.resources else s.sh.settings].closed
    requires var (w, sh) := FromClosed(s.sh, if orig then s.sh.resources else s.sh.settings);
             s1 == WithThread(s, i, ScanHave(s.threads[i].rounds, s.threads[i].budget, w, orig), sh)
    ensures ThreadStep(c, s, i, s1)
  {
    assert ScanFetch(s.sh, s.threads[i], s1.sh, s1.threads[i]);
    assert s1.threads == s.threads[i := s1.threads[i]];
  }

  /**
   A thread can take a phantom if and only if it is scanning and finds a channel closed, which needs capacity zero.
   */
  lemma PhantomNeedsClosed(c: Config, s: Pool, i: nat)
    requires Sound(c, s) && !s.sh.panicked && i < |s.threads|
    ensures (exists s' :: ThreadStep(c, s, i, s') && s'.sh.phantoms != s.sh.phantoms)
            <==> AboutToScan(s.threads[i]) && FindsClosed(s.sh)
    ensures FindsClosed(s.sh) ==> s.sh.capacity == 0
  {
    hide Accounts, Fitting, Total;
    var p := s.threads[i];
    if AboutToScan(p) && FindsClosed(s.sh) {
      var orig := ClosedAndEmpty(s.sh, s.sh.resources);
      var s' := WithThread(s, i, ScanHave(p.rounds, p.budget, Empty, orig), s.sh.(phantoms := s.sh.phantoms + 1));
      ClosedStep(c, s, i, s', orig);
    }
    forall s' | ThreadStep(c, s, i, s') && s'.sh.phantoms != s.sh.phantoms
      ensures AboutToScan(p) && FindsClosed(s.sh)
    {
      assert ScanFetch(s.sh, p, s'.sh, s'.threads[i]);
    }
  }

  /** One of the pool's two channels is closed. */
  predicate Exposed(sh: Shared)
    requires InBounds(sh)
  {
    sh.chans[sh.resources].closed || sh.chans[sh.settings].closed
  }

  /** While no phantom was received, nothing is queued once a channel is closed. */
  lemma ExposedIsEmpty(c: Config, s: Pool, ch: nat)
    requires Sound(c, s) && s.sh.phantoms == 0 && Exposed(s.sh) && ch < |s.sh.chans|
    ensures s.sh.chans[ch].items == []
  {
    TotalBounds(Slots, s.threads, 0);
    TotalBounds(Items, s.sh.chans, ch);
    assert Items(s.sh.chans[ch]) == |s.sh.chans[ch].items|;
  }

  /**
   The first phantom comes from a round of a scan that begins while a channel is closed, and from every such round.
   */
  lemma FirstPhantom(c: Config, s: Pool, i: nat, s': Pool)
    requires Sound(c, s) && s.sh.phantoms == 0 && ThreadStep(c, s, i, s')
    ensures s'.sh.phantoms != 0 <==> AboutToScan(s.threads[i]) && Exposed(s.sh)
  {
    hide Total, Accounts;
    var p, p' := s.threads[i], s'.threads[i];
    if Exposed(s.sh) {
      ExposedIsEmpty(c, s, s.sh.resources);
      ExposedIsEmpty(c, s, s.sh.settings);
    }
    if AboutToScan(p) {
      assert ScanFetch(s.sh, p, s'.sh, p');
    }
  }

  /** Step `j` is a round of a scan that begins while a channel is closed. */
  ghost predicate ScansClosed(c: Config, states: seq<Pool>, j: nat)
    requires j < |states| - 1
  {
    exists i: nat :: ThreadStep(c, states[j], i, states[j + 1]) && AboutToScan(states[j].threads[i])
                     && InBounds(states[j].sh) && Exposed(states[j].sh)
  }

  /** No scan has begun a round while a channel was closed, in the first `k` steps. */
  ghost predicate Quiet(c: Config, states: seq<Pool>, k: nat)
    requires k < |states|
  {
    forall j: nat :: j < k ==> !ScansClosed(c, states, j)
  }

  lemma PhantomsGrow(c: Config, s: Pool, s': Pool)
    requires Inv(c, s) && Step(c, s, s')
    ensures s.sh.phantoms <= s'.sh.phantoms
  {
    if !ResizerStep(c, s, s') {
      var i: nat :| ThreadStep(c, s, i, s');
      if !s'.sh.panicked {
        MoveBalances(c, s.sh, s.threads[i], s'.sh, s'.threads[i]);
      } else {
        PanicHasNoRoom(c, s.sh, s.threads[i], s'.sh, s'.threads[i]);
      }
    }
  }

  /** A run is free of phantoms if and only if no scan begins a round while a channel is closed. */
  lemma {:induction false} PhantomFree(c: Config, states: seq<Pool>, k: nat)
    requires Run(c, states) && k < |states|
    ensures states[k].sh.phantoms == 0 <==> Quiet(c, states, k)
  {
    if k == 0 {
    } else {
      PhantomFree(c, states, k - 1);
      RunKeeps(c, states, k - 1);
      var s, s' := states[k - 1], states[k - 1 + 1];
      assert Step(c, s, s');
      PhantomsGrow(c, s, s');
      if s.sh.phantoms == 0 {
        LastStep(c, states, k - 1);
      }
    }
  }

  lemma LastStep(c: Config, states: seq<Pool>, j: nat)
    requires j < |states| - 1 && Sound(c, states[j]) && Step(c, states[j], states[j + 1]) && states[j].sh.phantoms == 0
    ensures states[j + 1].sh.phantoms == 0 <==> !ScansClosed(c, states, j)
  {
    hide Accounts, Fitting, Move, ResizerMove;
    var s, s' := states[j], states[j + 1];
    if ScansClosed(c, states, j) {
      var i: nat :| ThreadStep(c, s, i, s') && AboutToScan(s.threads[i]) && InBounds(s.sh) && Exposed(s.sh);
      FirstPhantom(c, s, i, s');
    } else if i: nat :| ThreadStep(c, s, i, s') {
      FirstPhantom(c, s, i, s');
    } else {
      ResizerNoPhantom(c, s, s');
    }
  }

  lemma ResizerNoPhantom(c: Config, s: Pool, s': Pool)
    requires ResizerStep(c, s, s')
    ensures s'.sh.phantoms == s.sh.phantoms
  {
  }

  // ----- the pool's own channels -----

  /** Slots in the two channels the pool has. */
  function OwnSlots(sh: Shared): int
    requires InBounds(sh)
  {
    Items(sh.chans[sh.resources]) + Items(sh.chans[sh.settings])
  }

  /** Resources in the two channels the pool has. */
  function OwnResources(sh: Shared): int
    requires InBounds(sh)
  {
    Fulls(sh.chans[sh.resources]) + Fulls(sh.chans[sh.settings])
  }

  /** Channels that a reopen has replaced are empty. */
  ghost predicate NothingStranded(sh: Shared) {
    forall ch :: 0 <= ch < |sh.chans| && ch != sh.resources && ch != sh.settings ==> sh.chans[ch].items == []
  }

  /** A sum over channels that are all empty but two. */
  lemma TotalOfTwo(f: Chan -> int, chans: seq<Chan>, r: nat, s: nat)
    requires r < |chans| && s < |chans| && r != s && f(Chan([], false)) == 0
    requires forall ch :: 0 <= ch < |chans| && ch != r && ch != s ==> f(chans[ch]) == 0
    ensures Total(f, chans) == f(chans[r]) + f(chans[s])
  {
    var none := Chan([], false);
    TotalUpdate(f, chans, r, none);
    TotalUpdate(f, chans[r := none], s, none);
    TotalZero(f, chans[r := none][s := none]);
  }

  lemma OwnIsAll(sh: Shared)
    requires InBounds(sh) && NothingStranded(sh)
    ensures Queued(sh) == OwnSlots(sh) && Stored(sh) == OwnResources(sh)
  {
    TotalOfTwo(Items, sh.chans, sh.resources, sh.settings);
    TotalOfTwo(Fulls, sh.chans, sh.resources, sh.settings);
  }

  lemma ReceiveStrandsNothing(sh: Shared, ch: nat)
    requires NothingStranded(sh) && CanReceive(sh, ch)
    ensures NothingStranded(Receive(sh, ch).1)
  {
  }

  lemma GetStrandsNothing(sh: Shared, want: string, ch: nat, sh': Shared, p': Thread)
    requires NothingStranded(sh) && GetReceives(sh, want, ch, sh', p')
    ensures NothingStranded(sh')
  {
    hide NothingStranded, Receive;
    if CanReceive(sh, ch) {
      ReceiveStrandsNothing(sh, ch);
    }
  }

  lemma ScanStrandsNothing(sh: Shared, p: Thread, ch: nat, orig: bool, sh': Shared, p': Thread)
    requires NothingStranded(sh) && p.Scan? && ScanReceives(sh, p.rounds, p.budget, ch, orig, sh', p')
    ensures NothingStranded(sh')
  {
    if CanReceive(sh, ch) {
      ReceiveStrandsNothing(sh, ch);
    }
  }

  lemma FetchStrandsNothing(sh: Shared, p: Thread, sh': Shared, p': Thread)
    requires NothingStranded(sh) && (FetchMove(sh, p, sh', p') || ScanFetch(sh, p, sh', p'))
    ensures NothingStranded(sh')
  {
    hide NothingStranded, GetReceives, ScanReceives, CanReceive, ClosedAndEmpty;
    if sh' == sh {
    } else if p.Scan? {
      if ScanReceives(sh, p.rounds, p.budget, sh.resources, true, sh', p') {
        ScanStrandsNothing(sh, p, sh.resources, true, sh', p');
      } else {
        ScanStrandsNothing(sh, p, sh.settings, false, sh', p');
      }
    } else if GetReceives(sh, p.want, sh.resources, sh', p') {
      GetStrandsNothing(sh, p.want, sh.resources, sh', p');
    } else if GetReceives(sh, p.want, sh.settings, sh', p') {
      GetStrandsNothing(sh, p.want, sh.settings, sh', p');
    } else if GetReceives(sh, p.want, p.first, sh', p') {
      GetStrandsNothing(sh, p.want, p.first, sh', p');
    } else {
      GetStrandsNothing(sh, p.want, p.second, sh', p');
    }
  }

  lemma ReturnStrandsNothing(c: Config, sh: Shared, p: Thread, sh': Shared, p': Thread)
    requires NothingStranded(sh) && ReturnMove(c, sh, p, sh', p')
    ensures NothingStranded(sh')
  {
  }

  /** A thread only sends to the two channels the pool has. */
  lemma MoveStrandsNothing(c: Config, sh: Shared, p: Thread, sh': Shared, p': Thread)
    requires NothingStranded(sh) && Move(c, sh, p, sh', p')
    ensures NothingStranded(sh')
  {
    hide FetchMove, ScanFetch, PrepareMove, PutMove, ScanMove, ReturnMove, CallMove, NothingStranded;
    if FetchMove(sh, p, sh', p') || ScanFetch(sh, p, sh', p') {
      FetchStrandsNothing(sh, p, sh', p');
    } else if ReturnMove(c, sh, p, sh', p') {
      ReturnStrandsNothing(c, sh, p, sh', p');
    } else {
      OthersStrandNothing(c, sh, p, sh', p');
    }
  }

  /** The other steps leave the channels alone. */
  lemma OthersStrandNothing(c: Config, sh: Shared, p: Thread, sh': Shared, p': Thread)
    requires PrepareMove(c, sh, p, sh', p') || PutMove(sh, p, sh', p') || ScanMove(sh, p, sh', p')
        || CallMove(sh, p, sh', p')
    ensures NothingStranded(sh) ==> NothingStranded(sh')
  {
    hide NeedsReset, Ready, Fresh, NothingStranded;
    if PrepareMove(c, sh, p, sh', p') {
      assert sh'.chans == sh.chans && sh'.resources == sh.resources && sh'.settings == sh.settings;
    } else {
      hide PrepareMove;
      assert sh'.chans == sh.chans && sh'.resources == sh.resources && sh'.settings == sh.settings;
    }
    SameChannels(sh, sh');
  }

  lemma SameChannels(sh: Shared, sh': Shared)
    requires sh'.chans == sh.chans && sh'.resources == sh.resources && sh'.settings == sh.settings
    ensures NothingStranded(sh) ==> NothingStranded(sh')
  {
  }

  /** The resizer replaces a channel only once it is closed, and then it is empty. */
  lemma ResizerStrandsNothing(c: Config, s: Pool, s': Pool)
    requires Sound(c, s) && s.sh.phantoms == 0 && NothingStranded(s.sh) && ResizerStep(c, s, s') && !s'.sh.panicked
    ensures NothingStranded(s'.sh)
  {
    hide Accounts, Fitting, Total;
    if s.resizer.RMakeRes? {
      ExposedIsEmpty(c, s, s.sh.resources);
    } else if s.resizer.RMakeSet? {
      ExposedIsEmpty(c, s, s.sh.settings);
    }
  }

  /** In a run without phantoms nothing is ever left in a replaced channel. */
  lemma {:induction false} QuietStrandsNothing(c: Config, states: seq<Pool>, k: nat)
    requires Run(c, states) && k < |states| && Quiet(c, states, k)
    ensures Sound(c, states[k]) && states[k].sh.phantoms == 0 && NothingStranded(states[k].sh)
  {
    hide Sound, NothingStranded, ScansClosed, Move, ResizerMove;
    RunKeeps(c, states, k);
    PhantomFree(c, states, k);
    if k == 0 {
      InitStrandsNothing(c, states[0]);
    } else {
      QuietStrandsNothing(c, states, k - 1);
      var s, s' := states[k - 1], states[k - 1 + 1];
      assert Step(c, s, s');
      if ResizerStep(c, s, s') {
        ResizerStrandsNothing(c, s, s');
      } else {
        var i: nat :| ThreadStep(c, s, i, s');
        MoveStrandsNothing(c, s.sh, s.threads[i], s'.sh, s'.threads[i]);
      }
    }
  }

  lemma InitStrandsNothing(c: Config, s: Pool)
    requires Init(c, s)
    ensures NothingStranded(s.sh)
  {
  }

  /** The slots in the pool's two channels and in hand are the capacity plus pending removals less pending additions. */
  ghost predicate Conserved(s: Pool) {
    && !s.sh.panicked && InBounds(s.sh)
    && OwnSlots(s.sh) + Total(Slots, s.threads) == s.sh.capacity - ResizerAccount(s.resizer).slots
  }

  lemma QuietConserves(c: Config, states: seq<Pool>, k: nat)
    requires Run(c, states) && k < |states| && Quiet(c, states, k)
    ensures Conserved(states[k])
  {
    hide Total, Quiet, Run;
    QuietStrandsNothing(c, states, k);
    RunKeeps(c, states, k);
    OwnIsAll(states[k].sh);
  }

  /** The first phantom puts a slot in hand that no channel has lost. */
  lemma PhantomBreaks(c: Config, s: Pool, i: nat, s': Pool)
    requires Sound(c, s) && s.sh.phantoms == 0 && Conserved(s) && ThreadStep(c, s, i, s')
    requires AboutToScan(s.threads[i]) && Exposed(s.sh)
    ensures !Conserved(s')
  {
    hide Accounts, Fitting, Total;
    ExposedIsEmpty(c, s, s.sh.resources);
    ExposedIsEmpty(c, s, s.sh.settings);
    var p, p' := s.threads[i], s'.threads[i];
    assert ScanFetch(s.sh, p, s'.sh, p');
    TotalUpdate(Slots, s.threads, i, p');
  }

  lemma FirstScanClosed(c: Config, states: seq<Pool>, k: nat) returns (j: nat)
    requires k < |states| && !Quiet(c, states, k)
    ensures j < k && ScansClosed(c, states, j) && Quiet(c, states, j)
  {
    hide ScansClosed;
    j :| j < k && ScansClosed(c, states, j);
    while !Quiet(c, states, j)
      invariant j < k && ScansClosed(c, states, j)
      decreases j
    {
      var m: nat :| m < j && ScansClosed(c, states, m);
      j := m;
    }
  }

  /** Slots are conserved all through a run if and only if no scan begins a round while a channel is closed. */
  lemma SlotsConserved(c: Config, states: seq<Pool>, k: nat)
    requires Run(c, states) && k < |states|
    ensures (forall m: nat :: m <= k ==> Conserved(states[m])) <==> Quiet(c, states, k)
  {
    hide Conserved, Sound, ThreadStep, ScansClosed;
    if Quiet(c, states, k) {
      forall m: nat | m <= k
        ensures Conserved(states[m])
      {
        QuietConserves(c, states, m);
      }
    } else {
      var j := FirstScanClosed(c, states, k);
      QuietStrandsNothing(c, states, j);
      QuietConserves(c, states, j);
      ScanBreaks(c, states, j);
    }
  }

  lemma ScanBreaks(c: Config, states: seq<Pool>, j: nat)
    requires j < |states| - 1 && ScansClosed(c, states, j)
    requires Sound(c, states[j]) && states[j].sh.phantoms == 0 && Conserved(states[j])
    ensures !Conserved(states[j + 1])
  {
    hide Sound, Conserved, Move;
    var i: nat :| ThreadStep(c, states[j], i, states[j + 1]) && AboutToScan(states[j].threads[i])
                  && InBounds(states[j].sh) && Exposed(states[j].sh);
    PhantomBreaks(c, states[j], i, states[j + 1]);
  }

  /** At rest the statistics are exact; in a quiet run they are those of the pool's two channels. */
  lemma RestExact(c: Config, states: seq<Pool>, k: nat)
    requires Run(c, states) && k < |states| && !states[k].sh.panicked && AtRest(states[k])
    ensures var sh := states[k].sh;
            && sh.available + sh.inUse == sh.capacity
            && sh.inUse == Total(Holds, states[k].threads)
            && sh.active == sh.live == Stored(sh) + sh.inUse
            && Queued(sh) == sh.available + sh.phantoms
    ensures Quiet(c, states, k) ==>
              && InBounds(states[k].sh)
              && states[k].sh.available == OwnSlots(states[k].sh)
              && states[k].sh.active == OwnResources(states[k].sh) + states[k].sh.inUse
  {
    hide Quiet, Run;
    RunKeeps(c, states, k);
    RestTotals(states[k].threads);
    if Quiet(c, states, k) {
      QuietStrandsNothing(c, states, k);
      OwnIsAll(states[k].sh);
    }
  }

  /** Nothing is queued anywhere, and nobody holds a slot. */
  ghost predicate Drained(s: Pool) {
    Queued(s.sh) == 0 && forall i :: 0 <= i < |s.threads| ==> Slots(s.threads[i]) == 0
  }

  /** When the resizer closes the channels nothing is left if and only if no scan began a round on a closed channel. */
  lemma ClosesEmpty(c: Config, states: seq<Pool>, k: nat)
    requires Run(c, states) && k < |states| && !states[k].sh.panicked
    requires states[k].resizer.RCloseRes? || states[k].resizer.RCloseSet?
    ensures Drained(states[k]) <==> Quiet(c, states, k)
    ensures Drained(states[k]) ==> states[k].sh.live == 0
  {
    hide Run, ScansClosed;
    RunKeeps(c, states, k);
    PhantomFree(c, states, k);
    var s := states[k];
    StoredWithinQueued(s.sh.chans);
    OwnedWithinSlots(s.threads);
    if s.sh.phantoms == 0 {
      forall i | 0 <= i < |s.threads|
        ensures Slots(s.threads[i]) == 0
      {
        TotalBounds(Slots, s.threads, i);
      }
      TotalBounds(Slots, s.threads, 0);
      TotalBounds(Items, s.sh.chans, 0);
    }
    if Drained(s) {
      TotalZero(Slots, s.threads);
    }
  }

  /** And such a run does not panic. */
  lemma QuietCloseIsSafe(c: Config, states: seq<Pool>, k: nat)
    requires Run(c, states) && k < |states| && Quiet(c, states, k)
    ensures !states[k].sh.panicked
  {
    RunKeeps(c, states, k);
    PhantomFree(c, states, k);
  }

  // ----- the failing runs -----

  /** Consecutive states are steps. */
  ghost predicate Path(c: Config, states: seq<Pool>) {
    states != [] && forall k :: 0 <= k < |states| - 1 ==> Step(c, states[k], states[k + 1])
  }

  lemma PathJoin(c: Config, a: seq<Pool>, b: seq<Pool>)
    requires Path(c, a) && Path(c, b) && Step(c, a[|a| - 1], b[0])
    ensures Path(c, a + b)
  {
    forall k | 0 <= k < |a + b| - 1
      ensures Step(c, (a + b)[k], (a + b)[k + 1])
    {
      if k >= |a| {
        assert Step(c, b[k - |a|], b[k - |a| + 1]);
      } else if k < |a| - 1 {
        assert Step(c, a[k], a[k + 1]);
      }
    }
  }

  /** Wherever a scan is about to receive while a channel is closed, its next three steps can panic. */
  lemma ExposedScanPanics(c: Config, s: Pool, i: nat) returns (states: seq<Pool>)
    requires InBounds(s.sh) && !s.sh.panicked && Exposed(s.sh)
    requires i < |s.threads| && AboutToScan(s.threads[i])
    ensures |states| == 4 && states[0] == s && states[3].sh.panicked
    ensures forall k :: 0 <= k < 3 ==> ThreadStep(c, states[k], i, states[k + 1])
  {
    hide ThreadStep;
    var p := s.threads[i];
    var orig := s.sh.chans[s.sh.resources].closed;
    var ch := if orig then s.sh.resources else s.sh.settings;
    var (w, sh) := FromClosed(s.sh, ch);
    var s1 := WithThread(s, i, ScanHave(p.rounds, p.budget, w, orig), sh);
    var s2 := WithThread(s, i, ScanReturn(p.rounds, p.budget, w, orig), sh);
    var s3 := WithThread(s, i, Scan(p.rounds - 1, p.budget), Panic(sh));
    states := [s, s1, s2, s3];
    ClosedStep(c, s, i, s1, orig);
    KeepStep(c, s1, i, s2);
    PanicStep(c, s2, i, s3);
  }

  lemma KeepStep(c: Config, s: Pool, i: nat, s': Pool)
    requires !s.sh.panicked && i < |s.threads| && s.threads[i].ScanHave?
    requires var p := s.threads[i]; s' == WithThread(s, i, ScanReturn(p.rounds, p.budget, p.w, p.orig), s.sh)
    ensures ThreadStep(c, s, i, s')
  {
    assert ScanMove(s.sh, s.threads[i], s'.sh, s'.threads[i]);
    assert s'.threads == s.threads[i := s'.threads[i]];
  }

  lemma PanicStep(c: Config, s: Pool, i: nat, s': Pool)
    requires InBounds(s.sh) && !s.sh.panicked && i < |s.threads| && s.threads[i].ScanReturn? && s.threads[i].rounds > 0
    requires s.sh.chans[if s.threads[i].toRes then s.sh.resources else s.sh.settings].closed
    requires s' == WithThread(s, i, Scan(s.threads[i].rounds - 1, s.threads[i].budget), Panic(s.sh))
    ensures ThreadStep(c, s, i, s')
  {
    assert ReturnMove(c, s.sh, s.threads[i], s'.sh, s'.threads[i]);
    assert s'.threads == s.threads[i := s'.threads[i]];
  }

  /** So every run that comes to such a state goes on to a panic. */
  lemma ExposedRunPanics(c: Config, states: seq<Pool>, i: nat) returns (longer: seq<Pool>)
    requires Run(c, states)
    requires var s := states[|states| - 1];
             && !s.sh.panicked && InBounds(s.sh) && Exposed(s.sh)
             && i < |s.threads| && AboutToScan(s.threads[i])
    ensures Run(c, longer) && states <= longer && longer[|longer| - 1].sh.panicked
  {
    hide Sound, ThreadStep, ResizerStep, Init;
    var tail := ExposedScanPanics(c, states[|states| - 1], i);
    assert forall k :: 0 <= k < 3 ==> Step(c, tail[k], tail[k + 1]);
    PathTail(c, tail);
    PathJoin(c, states, tail[1..]);
    longer := states + tail[1..];
  }

  lemma PathTail(c: Config, states: seq<Pool>)
    requires Path(c, states) && |states| > 1
    ensures Path(c, states[1..])
  {
    forall k | 0 <= k < |states[1..]| - 1
      ensures Step(c, states[1..][k], states[1..][k + 1])
    {
      assert Step(c, states[k + 1], states[k + 2]);
    }
  }

  /** An unused pool whose `left` slots the resizer still has to remove before it closes. */
  ghost function Draining(threads: seq<Thread>, left: nat, queued: nat, resizer: Resizer): Pool {
    Pool(Shared(left, 0, 0, 0, 0, 0, [Chan(seq(queued, _ => Empty), false), Chan([], false)], 0, 1, false),
         threads, resizer)
  }

  /** Removing one slot. */
  lemma DrainOne(c: Config, threads: seq<Thread>, left: nat)
    requires left > 0
    ensures ResizerStep(c, Draining(threads, left, left, RShrink(0, left)),
                           Draining(threads, left, left - 1, RDrop(0, left - 1, Empty)))
    ensures ResizerStep(c, Draining(threads, left, left - 1, RDrop(0, left - 1, Empty)),
                           Draining(threads, left, left - 1, RUnavailable(0, left - 1)))
    ensures ResizerStep(c, Draining(threads, left, left - 1, RUnavailable(0, left - 1)),
                           Draining(threads, left - 1, left - 1, RShrink(0, left - 1)))
  {
    var full := seq(left, _ => Empty);
    var chans := [Chan(full, false), Chan([], false)];
    assert full[1..] == seq(left - 1, _ => Empty);
    assert chans[0 := Chan(full[1..], false)] == [Chan(full[1..], false), Chan([], false)];
  }

  lemma {:induction false} Drain(c: Config, threads: seq<Thread>, left: nat) returns (states: seq<Pool>)
    ensures Path(c, states) && states[0] == Draining(threads, left, left, RShrink(0, left))
    ensures states[|states| - 1] == Draining(threads, 0, 0, RShrink(0, 0))
  {
    hide Draining, ResizerStep, ThreadStep;
    if left == 0 {
      states := [Draining(threads, 0, 0, RShrink(0, 0))];
    } else {
      DrainOne(c, threads, left);
      var rest := Drain(c, threads, left - 1);
      var front := [
        Draining(threads, left, left, RShrink(0, left)),
        Draining(threads, left, left - 1, RDrop(0, left - 1, Empty)),
        Draining(threads, left, left - 1, RUnavailable(0, left - 1))];
      PathJoin(c, front, rest);
      states := front + rest;
    }
  }

  /** The pool after the close. */
  ghost function Shut(threads: seq<Thread>, resClosed: bool, setClosed: bool, resizer: Resizer): Pool {
    Pool(Shared(0, 0, 0, 0, 0, 0, [Chan([], resClosed), Chan([], setClosed)], 0, 1, false), threads, resizer)
  }

  lemma Shutting(c: Config, threads: seq<Thread>) returns (states: seq<Pool>)
    ensures Path(c, states) && states[0] == Shut(threads, false, false, RCloseRes)
    ensures states[|states| - 1] == Shut(threads, true, true, RIdle)
    ensures Step(c, Draining(threads, 0, 0, RShrink(0, 0)), states[0])
  {
    var none, shut := Chan([], false), Chan([], true);
    assert [none, none][0 := shut] == [shut, none] && [shut, none][1 := shut] == [shut, shut];
    assert seq(0, _ => Empty) == [];
    states := [Shut(threads, false, false, RCloseRes), Shut(threads, true, false, RCloseSet),
               Shut(threads, true, true, RIdle)];
    assert ResizerStep(c, Draining(threads, 0, 0, RShrink(0, 0)), states[0]);
    assert ResizerStep(c, states[0], states[1]) && ResizerStep(c, states[1], states[2]);
  }

  /** The scan begins, then the close. */
  lemma Opening(c: Config, s: Pool, i: nat) returns (states: seq<Pool>)
    requires Init(c, s) && i < |s.threads|
    ensures var scan := Scan(s.sh.capacity, 1);
            && Path(c, states) && states[0] == s
            && Step(c, states[|states| - 1],
                Draining(s.threads[i := scan], s.sh.capacity, s.sh.capacity, RShrink(0, s.sh.capacity)))
  {
    var threads := s.threads[i := Scan(s.sh.capacity, 1)];
    var s1, s2 := Pool(s.sh, threads, RIdle), Pool(s.sh, threads, RStart(0));
    states := [s, s1, s2];
    assert CallMove(s.sh, s.threads[i], s1.sh, s1.threads[i]);
    assert ThreadStep(c, s, i, s1);
    assert ResizerStep(c, s1, s2);
    assert ResizerStep(c, s2, Draining(threads, s.sh.capacity, s.sh.capacity, RShrink(0, s.sh.capacity)));
  }

  /**
   Every pool has a run that panics: a scan begins, the pool is closed, the scan receives a phantom and sends it back.
   */
  lemma ScanAcrossClosePanics(c: Config, s: Pool, i: nat) returns (states: seq<Pool>)
    requires Init(c, s) && i < |s.threads|
    ensures Run(c, states) && states[0] == s && states[|states| - 1].sh.panicked
  {
    hide Step, Draining;
    var n := s.sh.capacity;
    var threads := s.threads[i := Scan(n, 1)];
    var opening := Opening(c, s, i);
    var drain := Drain(c, threads, n);
    var shutting := Shutting(c, threads);
    PathJoin(c, opening, drain);
    PathJoin(c, opening + drain, shutting);
    states := ExposedRunPanics(c, opening + drain + shutting, i);
  }
}

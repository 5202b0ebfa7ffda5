/** Catch-up calls that overlap: the in-flight lock, the calls that wait for it, and what they leave behind
    (packages/ui/src/hooks/useIndexer.ts). A step is what runs between two awaits. */
module Overlap {
  import opened Text
  import opened Log
  import opened FirstWins
  import opened Workers
  import opened IndexerCache
  import opened UiIndexer

  const CATCHUP_THRESHOLD: nat := 10

  /** What does not change during a session; `fails(k)` are the blocks that the pass started as number `k`
      cannot fetch. */
  datatype World = World(chain: Chain, start: nat, cacheHit: bool, fails: nat -> set<nat>)

  datatype Pass = Pass(from: nat, target: nat, fails: set<nat>)

  /** A call of `catchUp` behind the lock, and one that goes on after its `await`: after waiting for somebody
      else's pass, or after its own. */
  datatype Waiter = Waiter(pass: nat, target: nat)
  datatype Continuation = AfterWait(target: nat) | AfterRun

  /** The refs, the passes under way, the calls behind the lock, the continuations that are due, how many
      passes were started, and the passes that ended, in that order. */
  datatype Session = Session(refs: Snapshot, head: Option<nat>, inFlight: Option<nat>, running: map<nat, Pass>,
                             waiting: seq<Waiter>, due: seq<Continuation>, started: nat, ended: seq<Pass>)

  function Mounted(refs: Snapshot): Session { Session(refs, None, None, map[], [], [], 0, []) }

  predicate InProposal(w: World, s: Session) { w.start - 1 <= s.refs.scannedThrough }

  // ----- The calls -----

  /** `catchUp` past its wait: whoever gets here starts a pass, whether another one runs or not. */
  function Begin(w: World, s: Session, target: nat): Session
    requires InProposal(w, s)
  {
    var from := RescanPoint(w.start, w.cacheHit, s.refs.scannedThrough);
    if from > target then s
    else s.(running := s.running[s.started := Pass(from, target, w.fails(s.started))],
            inFlight := Some(s.started), started := s.started + 1)
  }

  function CatchUp(w: World, s: Session, target: nat): Session
    requires InProposal(w, s)
  {
    if s.inFlight.Some? then s.(waiting := s.waiting + [Waiter(s.inFlight.value, target)])
    else Begin(w, s, target)
  }

  function SeeHead(s: Session, n: nat): (t: Session)
    ensures t.head.Some?
  {
    s.(head := Some(if s.head.Some? && s.head.value > n then s.head.value else n))
  }

  function OnHead(w: World, s: Session, n: nat): Session
    requires InProposal(w, s)
  {
    var t := SeeHead(s, n);
    if t.inFlight.None? && (!w.cacheHit || t.head.value - t.refs.scannedThrough >= CATCHUP_THRESHOLD) then
      CatchUp(w, t, t.head.value)
    else t
  }

  function ForceCatchUp(w: World, s: Session, upTo: Option<nat>): Session
    requires InProposal(w, s)
  {
    var t := if upTo.Some? then SeeHead(s, upTo.value) else s;
    if t.head.None? then t else CatchUp(w, t, t.head.value)
  }

  function WakesUp(pass: nat): Waiter -> Option<Continuation> {
    (x: Waiter) => if x.pass == pass then Some(AfterWait(x.target)) else None
  }

  function WaitsOn(pass: nat): Waiter -> Option<Waiter> {
    (x: Waiter) => if x.pass == pass then None else Some(x)
  }

  function Woken(waiting: seq<Waiter>, pass: nat): seq<Continuation> { Collect(waiting, WakesUp(pass)) }
  function StillWaiting(waiting: seq<Waiter>, pass: nat): seq<Waiter> { Collect(waiting, WaitsOn(pass)) }

  /** The calls that a pass wakes are those that wait for it, in the order in which they came, each with its own
      target; the others go on waiting. */
  lemma WokenInOrder(waiting: seq<Waiter>, pass: nat) returns (up: seq<nat>, still: seq<nat>)
    ensures |up| == |Woken(waiting, pass)| && |still| == |StillWaiting(waiting, pass)|
    ensures forall i, j :: 0 <= i < j < |up| ==> up[i] < up[j]
    ensures forall i, j :: 0 <= i < j < |still| ==> still[i] < still[j]
    ensures forall i :: 0 <= i < |up| ==>
              up[i] < |waiting| && Woken(waiting, pass)[i] == AfterWait(waiting[up[i]].target)
    ensures forall i :: 0 <= i < |still| ==> still[i] < |waiting| && StillWaiting(waiting, pass)[i] == waiting[still[i]]
    ensures forall k: nat :: k < |waiting| ==> if waiting[k].pass == pass then k in up else k in still
  {
    up := CollectPlaces(waiting, WakesUp(pass));
    still := CollectPlaces(waiting, WaitsOn(pass));
  }

  /** The end of a pass: merge, drop the lock, whoever holds it, and let the call itself and then those who
      waited for it go on. */
  function Finish(s: Session, pass: nat, collected: seq<Remark>, through: int): Session
    requires pass in s.running
  {
    var p := s.running[pass];
    Session(Snapshot(Greater(s.refs.scannedThrough, through), MergeFresh(s.refs.remarks, collected, p.from)),
            s.head, None, s.running - {pass}, StillWaiting(s.waiting, pass),
            s.due + [AfterRun] + Woken(s.waiting, pass), s.started, s.ended + [p])
  }

  /** The tail of `catchUp`: is another pass needed already? */
  predicate Behind(w: World, s: Session) {
    && s.head.Some?
    && if w.cacheHit then s.head.value - s.refs.scannedThrough >= CATCHUP_THRESHOLD
       else s.head.value > s.refs.scannedThrough
  }

  function GoOn(w: World, s: Session): Session
    requires InProposal(w, s) && s.due != []
  {
    var t := s.(due := s.due[1..]);
    match s.due[0]
    case AfterWait(target) => Begin(w, t, target)
    case AfterRun => if Behind(w, t) then CatchUp(w, t, t.head.value) else t
  }

  /** The higher of the head seen so far and a new block. */
  function HeadWith(s: Session, n: nat): nat { if s.head.Some? && s.head.value > n then s.head.value else n }

  /** Session `t` is `s` with one pass more under way, over `from..target`, and the lock is that pass's. */
  ghost predicate StartsPass(w: World, s: Session, t: Session, from: nat, target: nat) {
    && t.running == s.running[s.started := Pass(from, target, w.fails(s.started))] && t.inFlight == Some(s.started)
    && t.started == s.started + 1 && t.waiting == s.waiting && t.refs == s.refs && t.ended == s.ended
  }

  ghost predicate StartsNone(s: Session, t: Session) {
    && t.running == s.running && t.inFlight == s.inFlight && t.started == s.started
    && t.waiting == s.waiting && t.refs == s.refs && t.ended == s.ended
  }

  /** A head tick starts a pass exactly when no pass is in flight and something is left to scan; in a resumed
      session ten blocks at least. It never waits. */
  lemma HeadTickIff(w: World, s: Session, n: nat)
    requires InProposal(w, s)
    ensures var from, head := RescanPoint(w.start, w.cacheHit, s.refs.scannedThrough), HeadWith(s, n);
            var t := OnHead(w, s, n);
            && t.head == Some(head) && t.due == s.due
            && if s.inFlight == None && from <= head && (w.cacheHit ==> head - s.refs.scannedThrough >= 10)
               then StartsPass(w, s, t, from, head) else StartsNone(s, t)
  {}

  /** A forced call waits when a pass is in flight, and else starts one whatever the distance to the head. */
  lemma ForceIff(w: World, s: Session, upTo: nat)
    requires InProposal(w, s)
    ensures var from, head := RescanPoint(w.start, w.cacheHit, s.refs.scannedThrough), HeadWith(s, upTo);
            var t := ForceCatchUp(w, s, Some(upTo));
            && t.head == Some(head) && t.due == s.due
            && if s.inFlight.Some? then t == s.(head := Some(head), waiting := s.waiting + [Waiter(s.inFlight.value, head)])
               else if from <= head then StartsPass(w, s, t, from, head) else StartsNone(s, t)
  {}

  /** After its own pass a call starts another one exactly when the head is ahead: in a resumed session by ten
      blocks at least. After somebody else's it starts one whenever something is left, in flight or not. */
  lemma GoOnIff(w: World, s: Session)
    requires InProposal(w, s) && s.due != []
    ensures var from, t := RescanPoint(w.start, w.cacheHit, s.refs.scannedThrough), GoOn(w, s);
            && t.head == s.head && t.due == s.due[1..]
            && (s.due[0].AfterWait? ==>
                  if from <= s.due[0].target then StartsPass(w, s, t, from, s.due[0].target) else StartsNone(s, t))
            && (s.due[0].AfterRun? && s.inFlight == None ==>
                  if s.head.Some? && s.head.value - s.refs.scannedThrough >= (if w.cacheHit then 10 else 1)
                  then StartsPass(w, s, t, from, s.head.value) else StartsNone(s, t))
  {}

  // ----- Runs -----

  datatype Step =
    | HeadTick(block: nat)
    | Force(upTo: Option<nat>)
    | Progress(pass: nat, through: int)
    | End(pass: nat, collected: seq<Remark>, through: int)
    | Resume

  function Fetched(chain: Chain, p: Pass, b: nat): seq<Remark> {
    if p.from <= b <= p.target && b !in p.fails then chain(b) else []
  }

  /** What a pass can have collected: the blocks it could fetch, in any landing order. */
  ghost predicate Collects(chain: Chain, p: Pass, collected: seq<Remark>) {
    forall b: nat :: AtBlock(collected, b) == Fetched(chain, p, b)
  }

  /** A contiguous prefix of the window of `p`, none of it failing. */
  ghost predicate Reached(p: Pass, through: int) {
    p.from - 1 <= through <= p.target && BlockRange(p.from, through) !! p.fails
  }

  /** Head ticks come from the event loop, so only when no continuation is due. */
  ghost predicate Enabled(w: World, s: Session, step: Step) {
    match step
    case HeadTick(_) => s.due == []
    case Force(_) => true
    case Progress(pass, through) => pass in s.running && Reached(s.running[pass], through)
    case End(pass, collected, through) =>
      && pass in s.running
      && Collects(w.chain, s.running[pass], collected)
      && EndsAt(s.running[pass].from, s.running[pass].target, through,
                BlockRange(s.running[pass].from, s.running[pass].target) * s.running[pass].fails)
    case Resume => s.due != []
  }

  ghost function Next(w: World, s: Session, step: Step): (t: Session)
    requires InProposal(w, s) && Enabled(w, s, step)
    ensures InProposal(w, t) && s.refs.scannedThrough <= t.refs.scannedThrough
  {
    match step
    case HeadTick(n) => OnHead(w, s, n)
    case Force(upTo) => ForceCatchUp(w, s, upTo)
    case Progress(_, through) => s.(refs := s.refs.(scannedThrough := Greater(s.refs.scannedThrough, through)))
    case End(pass, collected, through) => Finish(s, pass, collected, through)
    case Resume => GoOn(w, s)
  }

  ghost predicate Takes(w: World, s: Session, step: Step, t: Session) {
    InProposal(w, s) && Enabled(w, s, step) && t == Next(w, s, step)
  }

  /** A run of a session mounted with `was`. */
  ghost predicate IsRun(w: World, was: Snapshot, steps: seq<Step>, states: seq<Session>) {
    && |states| == |steps| + 1 && states[0] == Mounted(was)
    && forall i: nat :: i < |steps| ==> Takes(w, states[i], steps[i], states[i + 1])
  }

  // ----- What the passes that ended leave in each block -----

  /** `i` is the last pass to end whose window starts at or below `b`. */
  ghost predicate LastOver(ps: seq<Pass>, i: nat, b: nat) {
    i < |ps| && ps[i].from <= b && forall k :: i < k < |ps| ==> b < ps[k].from
  }

  ghost predicate Uncovered(ps: seq<Pass>, b: nat) { forall k :: 0 <= k < |ps| ==> b < ps[k].from }

  /** In block `b`, what that pass fetched; what was there before, if there is no such pass. */
  ghost predicate LeftAt(chain: Chain, was: seq<Remark>, ps: seq<Pass>, now: seq<Remark>, b: nat) {
    && (Uncovered(ps, b) ==> AtBlock(now, b) == AtBlock(was, b))
    && forall i: nat :: LastOver(ps, i, b) ==> AtBlock(now, b) == Fetched(chain, ps[i], b)
  }

  lemma {:induction false} SomeLast(ps: seq<Pass>, b: nat) returns (i: nat)
    requires !Uncovered(ps, b)
    ensures LastOver(ps, i, b)
  {
    var n := |ps| - 1;
    if ps[n].from <= b {
      i := n;
    } else {
      i := SomeLast(ps[..n], b);
    }
  }

  /** One more pass ends. */
  lemma MergeLeaves(chain: Chain, was: seq<Remark>, ps: seq<Pass>, now: seq<Remark>, p: Pass, collected: seq<Remark>, b: nat)
    requires LeftAt(chain, was, ps, now, b) && Collects(chain, p, collected)
    ensures LeftAt(chain, was, ps + [p], MergeFresh(now, collected, p.from), b)
  {
    var all, merged := ps + [p], MergeFresh(now, collected, p.from);
    AtBlockAppend(Below(now, p.from), collected, b);
    BelowBlocks(now, p.from, b);
    assert AtBlock(collected, b) == Fetched(chain, p, b);
    if p.from <= b {
      assert all[|ps|] == p;
    } else {
      forall i: nat | LastOver(all, i, b) ensures LastOver(ps, i, b) {
        forall k | i < k < |ps| ensures b < ps[k].from { assert all[k] == ps[k]; }
      }
      if Uncovered(all, b) {
        forall k | 0 <= k < |ps| ensures b < ps[k].from { assert all[k] == ps[k]; }
      }
    }
  }

  // ----- Every reachable state -----

  /** Some pass, under way or ended, starts from `from`. */
  ghost predicate StartsFrom(s: Session, from: nat) {
    || (exists k :: k in s.running && s.running[k].from == from)
    || (exists i :: 0 <= i < |s.ended| && s.ended[i].from == from)
  }

  ghost predicate AllFrom(s: Session, from: nat) {
    && (forall k :: k in s.running ==> from <= s.running[k].from)
    && (forall i :: 0 <= i < |s.ended| ==> from <= s.ended[i].from)
  }

  ghost predicate Idle(was: Snapshot, s: Session) { s.refs == was && s.running == map[] && s.ended == [] }

  /** What every step keeps: each block holds what the last pass over it left there, no pass starts below the
      first one. */
  ghost predicate Kept(w: World, was: Snapshot, s: Session) {
    && InProposal(w, s) && w.start - 1 <= was.scannedThrough <= s.refs.scannedThrough
    && AllFrom(s, RescanPoint(w.start, w.cacheHit, was.scannedThrough))
    && (Idle(was, s) || StartsFrom(s, RescanPoint(w.start, w.cacheHit, was.scannedThrough)))
    && forall b: nat :: LeftAt(w.chain, was.remarks, s.ended, s.refs.remarks, b)
  }

  /** Passes are numbered in the order in which they started. */
  ghost predicate Numbered(s: Session) { forall k :: k in s.running ==> k < s.started }

  ghost predicate SameData(s: Session, t: Session) {
    t.refs == s.refs && t.running == s.running && t.ended == s.ended && t.started == s.started
  }

  lemma KeptBySameData(w: World, was: Snapshot, s: Session, t: Session)
    requires Kept(w, was, s) && Numbered(s) && SameData(s, t)
    ensures Kept(w, was, t) && Numbered(t)
  {
    assert StartsFrom(s, RescanPoint(w.start, w.cacheHit, was.scannedThrough)) ==>
             StartsFrom(t, RescanPoint(w.start, w.cacheHit, was.scannedThrough));
  }

  lemma KeptByBegin(w: World, was: Snapshot, s: Session, target: nat)
    requires Kept(w, was, s) && Numbered(s)
    ensures Kept(w, was, Begin(w, s, target)) && Numbered(Begin(w, s, target))
  {
    var t, first := Begin(w, s, target), RescanPoint(w.start, w.cacheHit, was.scannedThrough);
    if t != s && !Idle(was, s) {
      if k :| k in s.running && s.running[k].from == first {
        assert t.running[k] == s.running[k];
      }
    }
    if t != s && Idle(was, s) { assert t.running[s.started].from == first; }
  }

  lemma KeptByCatchUp(w: World, was: Snapshot, s: Session, target: nat)
    requires Kept(w, was, s) && Numbered(s)
    ensures Kept(w, was, CatchUp(w, s, target)) && Numbered(CatchUp(w, s, target))
  {
    if s.inFlight.Some? {
      KeptBySameData(w, was, s, CatchUp(w, s, target));
    } else {
      KeptByBegin(w, was, s, target);
    }
  }

  lemma KeptByFinish(w: World, was: Snapshot, s: Session, pass: nat, collected: seq<Remark>, through: int)
    requires Kept(w, was, s) && pass in s.running && Collects(w.chain, s.running[pass], collected)
    ensures Kept(w, was, Finish(s, pass, collected, through))
  {
    var t, first := Finish(s, pass, collected, through), RescanPoint(w.start, w.cacheHit, was.scannedThrough);
    var n := |s.ended|;
    assert t.ended[n] == s.running[pass];
    if k :| k in s.running && s.running[k].from == first {
      assert k != pass ==> k in t.running && t.running[k] == s.running[k];
    } else {
      var i :| 0 <= i < |s.ended| && s.ended[i].from == first;
      assert t.ended[i] == s.ended[i];
    }
    forall b: nat ensures LeftAt(w.chain, was.remarks, t.ended, t.refs.remarks, b) {
      MergeLeaves(w.chain, was.remarks, s.ended, s.refs.remarks, s.running[pass], collected, b);
    }
  }

  lemma KeptByOnHead(w: World, was: Snapshot, s: Session, n: nat)
    requires Kept(w, was, s) && Numbered(s)
    ensures Kept(w, was, OnHead(w, s, n)) && Numbered(OnHead(w, s, n))
  {
    var t := SeeHead(s, n);
    KeptBySameData(w, was, s, t);
    KeptByCatchUp(w, was, t, t.head.value);
  }

  lemma KeptByForce(w: World, was: Snapshot, s: Session, upTo: Option<nat>)
    requires Kept(w, was, s) && Numbered(s)
    ensures Kept(w, was, ForceCatchUp(w, s, upTo)) && Numbered(ForceCatchUp(w, s, upTo))
  {
    var t := if upTo.Some? then SeeHead(s, upTo.value) else s;
    KeptBySameData(w, was, s, t);
    if t.head.Some? { KeptByCatchUp(w, was, t, t.head.value); }
  }

  lemma KeptByGoOn(w: World, was: Snapshot, s: Session)
    requires Kept(w, was, s) && Numbered(s) && s.due != []
    ensures Kept(w, was, GoOn(w, s)) && Numbered(GoOn(w, s))
  {
    var t := s.(due := s.due[1..]);
    KeptBySameData(w, was, s, t);
    match s.due[0] {
      case AfterWait(target) => KeptByBegin(w, was, t, target);
      case AfterRun => if t.head.Some? { KeptByCatchUp(w, was, t, t.head.value); }
    }
  }

  lemma KeptByProgress(w: World, was: Snapshot, s: Session, pass: nat, through: int)
    requires Kept(w, was, s) && pass in s.running
    ensures Kept(w, was, s.(refs := s.refs.(scannedThrough := Greater(s.refs.scannedThrough, through))))
  {
    var t := s.(refs := s.refs.(scannedThrough := Greater(s.refs.scannedThrough, through)));
    assert StartsFrom(t, RescanPoint(w.start, w.cacheHit, was.scannedThrough));
  }

  lemma KeptByStep(w: World, was: Snapshot, s: Session, step: Step)
    requires Kept(w, was, s) && Numbered(s) && Enabled(w, s, step)
    ensures Kept(w, was, Next(w, s, step)) && Numbered(Next(w, s, step))
  {
    match step {
      case HeadTick(n) => KeptByOnHead(w, was, s, n);
      case Force(upTo) => KeptByForce(w, was, s, upTo);
      case Progress(pass, through) => KeptByProgress(w, was, s, pass, through);
      case End(pass, collected, through) => KeptByFinish(w, was, s, pass, collected, through);
      case Resume => KeptByGoOn(w, was, s);
    }
  }

  lemma {:induction false} KeptByRun(w: World, was: Snapshot, steps: seq<Step>, states: seq<Session>, k: nat)
    requires w.start - 1 <= was.scannedThrough && IsRun(w, was, steps, states) && k < |states|
    ensures Kept(w, was, states[k]) && Numbered(states[k])
  {
    if k > 0 {
      KeptByRun(w, was, steps, states, k - 1);
      assert Takes(w, states[k - 1], steps[k - 1], states[k]);
      KeptByStep(w, was, states[k - 1], steps[k - 1]);
    }
  }

  // ----- When overlapping does harm -----

  predicate Unfetched(p: Pass, b: nat) { p.target < b || b in p.fails }

  /** A block below the next rescan point that the last pass to end over it did not fetch, although it holds
      remarks. */
  ghost predicate Wiped(w: World, s: Session, b: nat, i: nat)
    requires InProposal(w, s)
  {
    && b < RescanPoint(w.start, w.cacheHit, s.refs.scannedThrough)
    && LastOver(s.ended, i, b) && Unfetched(s.ended[i], b) && w.chain(b) != []
  }

  /** Whatever calls are made, wait, and end in whatever order: in every reachable state in which no pass is
      under way, a session mounted with a sound snapshot is sound exactly when no block is wiped. */
  lemma OverlappingPassesSoundIff(w: World, was: Snapshot, steps: seq<Step>, states: seq<Session>, k: nat)
    requires Sound(w.chain, w.start, w.cacheHit, was) && IsRun(w, was, steps, states) && k < |states|
    requires states[k].running == map[]
    ensures InProposal(w, states[k])
    ensures Sound(w.chain, w.start, w.cacheHit, states[k].refs) <==> forall b: nat, i: nat :: !Wiped(w, states[k], b, i)
  {
    KeptByRun(w, was, steps, states, k);
    var s := states[k];
    if Sound(w.chain, w.start, w.cacheHit, s.refs) {
      forall b: nat, i: nat ensures !Wiped(w, s, b, i) {
        NotWiped(w, was, s, b, i);
      }
    }
    if forall b: nat, i: nat :: !Wiped(w, s, b, i) {
      forall b: nat | b < RescanPoint(w.start, w.cacheHit, s.refs.scannedThrough)
        ensures AtBlock(s.refs.remarks, b) == OnChain(w.chain, w.start, b)
      {
        RightBlock(w, was, s, b);
      }
    }
  }

  lemma NotWiped(w: World, was: Snapshot, s: Session, b: nat, i: nat)
    requires Kept(w, was, s) && Sound(w.chain, w.start, w.cacheHit, s.refs)
    ensures !Wiped(w, s, b, i)
  {
    assert LeftAt(w.chain, was.remarks, s.ended, s.refs.remarks, b);
    if b < RescanPoint(w.start, w.cacheHit, s.refs.scannedThrough) {
      assert AtBlock(s.refs.remarks, b) == OnChain(w.chain, w.start, b);
    }
  }

  lemma RightBlock(w: World, was: Snapshot, s: Session, b: nat)
    requires Kept(w, was, s) && Sound(w.chain, w.start, w.cacheHit, was) && s.running == map[]
    requires b < RescanPoint(w.start, w.cacheHit, s.refs.scannedThrough) && forall i: nat :: !Wiped(w, s, b, i)
    ensures AtBlock(s.refs.remarks, b) == OnChain(w.chain, w.start, b)
  {
    assert LeftAt(w.chain, was.remarks, s.ended, s.refs.remarks, b);
    if Uncovered(s.ended, b) {
      assert Idle(was, s) || b < RescanPoint(w.start, w.cacheHit, was.scannedThrough);
    } else {
      var i := SomeLast(s.ended, b);
      assert !Wiped(w, s, b, i);
    }
  }

  /** A step ends at most one pass and starts none below the rescan point. */
  ghost predicate OneStepOn(w: World, s: Session, t: Session)
    requires InProposal(w, s)
  {
    && (t.ended == s.ended || exists k :: k in s.running && t.ended == s.ended + [s.running[k]])
    && forall k :: k in t.running ==>
         || (k in s.running && t.running[k] == s.running[k])
         || t.running[k].from == RescanPoint(w.start, w.cacheHit, s.refs.scannedThrough)
  }

  lemma StepsOn(w: World, s: Session, step: Step)
    requires InProposal(w, s) && Enabled(w, s, step)
    ensures OneStepOn(w, s, Next(w, s, step))
  {}

  /** Since `past`, no pass that covers block `b` has started or ended. */
  ghost predicate BeyondReach(w: World, past: Session, s: Session, b: nat) {
    && InProposal(w, s) && b < RescanPoint(w.start, w.cacheHit, s.refs.scannedThrough)
    && (forall k :: k in s.running ==> b < s.running[k].from)
    && |past.ended| <= |s.ended| && s.ended[..|past.ended|] == past.ended
    && forall i :: |past.ended| <= i < |s.ended| ==> b < s.ended[i].from
  }

  lemma StaysBeyondReach(w: World, past: Session, s: Session, step: Step, b: nat)
    requires BeyondReach(w, past, s, b) && Enabled(w, s, step)
    ensures BeyondReach(w, past, Next(w, s, step), b)
  {
    StepsOn(w, s, step);
  }

  lemma {:induction false} RunsBeyondReach(w: World, was: Snapshot, steps: seq<Step>, states: seq<Session>, b: nat,
                                           k: nat, later: nat)
    requires IsRun(w, was, steps, states) && k <= later < |states|
    requires BeyondReach(w, states[k], states[k], b)
    ensures BeyondReach(w, states[k], states[later], b)
  {
    if k < later {
      RunsBeyondReach(w, was, steps, states, b, k, later - 1);
      assert Takes(w, states[later - 1], steps[later - 1], states[later]);
      StaysBeyondReach(w, states[k], states[later - 1], steps[later - 1], b);
    }
  }

  /** What is wiped when nothing is under way stays wiped for the rest of the session. */
  lemma WipedForGood(w: World, was: Snapshot, steps: seq<Step>, states: seq<Session>, b: nat, i: nat, k: nat, later: nat)
    requires IsRun(w, was, steps, states) && k <= later < |states| && states[k].running == map[]
    requires InProposal(w, states[k]) && Wiped(w, states[k], b, i)
    ensures InProposal(w, states[later]) && Wiped(w, states[later], b, i)
  {
    RunsBeyondReach(w, was, steps, states, b, k, later);
    var past, s := states[k].ended, states[later].ended;
    assert s[i] == s[..|past|][i];
    forall n | i < n < |s| ensures b < s[n].from {
      if n < |past| { assert s[n] == s[..|past|][n]; }
    }
  }

  // ----- When the lock does serialize -----

  /** Forced calls come only while no pass is in flight and no continuation is due. */
  ghost predicate Calm(steps: seq<Step>, states: seq<Session>) {
    && |states| == |steps| + 1
    && forall i: nat :: i < |steps| && steps[i].Force? ==> states[i].inFlight.None? && states[i].due == []
  }

  /** Nobody waits and at most the holder of the lock runs; what lies below its window is right, and what was
      counted as scanned since it started, it has fetched. */
  ghost predicate Serial(w: World, s: Session) {
    && InProposal(w, s) && s.waiting == [] && (s.due == [] || (s.due == [AfterRun] && s.inFlight.None?))
    && match s.inFlight
       case None => s.running == map[] && Sound(w.chain, w.start, w.cacheHit, s.refs)
       case Some(k) =>
         && s.running.Keys == {k} && w.start <= s.running[k].from
         && ExactBelow(w.chain, w.start, s.refs.remarks, s.running[k].from)
         && (RescanPoint(w.start, w.cacheHit, s.refs.scannedThrough) <= s.running[k].from ||
             Reached(s.running[k], s.refs.scannedThrough))
  }

  lemma ReachedNoFurther(p: Pass, through: int, end: int)
    requires Reached(p, through) && EndsAt(p.from, p.target, end, BlockRange(p.from, p.target) * p.fails)
    ensures through <= end
  {}

  lemma SerialFinish(w: World, s: Session, pass: nat, collected: seq<Remark>, through: int)
    requires Serial(w, s) && Enabled(w, s, End(pass, collected, through))
    ensures Serial(w, Finish(s, pass, collected, through))
  {
    var t, p := Finish(s, pass, collected, through), s.running[pass];
    assert s.inFlight == Some(pass) && s.running - {pass} == map[];
    forall b: nat | b < RescanPoint(w.start, w.cacheHit, t.refs.scannedThrough)
      ensures AtBlock(t.refs.remarks, b) == OnChain(w.chain, w.start, b)
    {
      AtBlockAppend(Below(s.refs.remarks, p.from), collected, b);
      BelowBlocks(s.refs.remarks, p.from, b);
      assert AtBlock(collected, b) == Fetched(w.chain, p, b);
      if p.from <= b {
        if Reached(p, s.refs.scannedThrough) { ReachedNoFurther(p, s.refs.scannedThrough, through); }
        PassedBlock(p.from, p.target, through, p.fails, b);
      }
    }
  }

  lemma SerialBegin(w: World, s: Session, target: nat)
    requires Serial(w, s) && s.inFlight.None? && s.due == []
    ensures Serial(w, Begin(w, s, target))
  {
    assert map[][s.started := Pass(0, 0, {})].Keys == {s.started};
  }

  lemma SerialStep(w: World, s: Session, step: Step)
    requires Serial(w, s) && Enabled(w, s, step) && (step.Force? ==> s.inFlight.None? && s.due == [])
    ensures Serial(w, Next(w, s, step))
  {
    match step {
      case HeadTick(n) =>
        var t := SeeHead(s, n);
        if t.inFlight.None? { SerialBegin(w, t, t.head.value); }
      case Force(upTo) =>
        var t := if upTo.Some? then SeeHead(s, upTo.value) else s;
        if t.head.Some? { SerialBegin(w, t, t.head.value); }
      case Progress(_, through) =>
      case End(pass, collected, through) => SerialFinish(w, s, pass, collected, through);
      case Resume =>
        var t := s.(due := s.due[1..]);
        if t.head.Some? { SerialBegin(w, t, t.head.value); }
    }
  }

  /** Head ticks alone, and forced calls that come while nothing is in flight, never overlap: at most one pass
      is under way, and whenever none is, the session is sound. */
  lemma {:induction false} CalmIsSerial(w: World, was: Snapshot, steps: seq<Step>, states: seq<Session>, k: nat)
    requires Sound(w.chain, w.start, w.cacheHit, was) && IsRun(w, was, steps, states) && Calm(steps, states)
    requires k < |states|
    ensures Serial(w, states[k])
  {
    if k > 0 {
      CalmIsSerial(w, was, steps, states, k - 1);
      assert Takes(w, states[k - 1], steps[k - 1], states[k]);
      SerialStep(w, states[k - 1], steps[k - 1]);
    }
  }

  // ----- A remark that is lost -----

  const LOST := Remark(2, "voter", "remark")

  /** A cold session, a chain with one remark in block 2, no failing blocks. */
  function SmallWorld(): World { World(n => if n == 2 then [LOST] else [], 0, false, k => {}) }

  /** Block 0 is being scanned when a forced call for block 1 comes, and waits; the head moves to 2. When the
      scan ends, its own tail starts a pass over 1..2, and the waiting call one over 1..1. */
  function LosingSteps(): seq<Step> {
    [HeadTick(0), Force(Some(1)), HeadTick(2), End(0, [], 0), Resume, Resume,
     End(1, [LOST], 2), Resume, End(2, [], 1), Resume]
  }

  const FIRST_PASS := Pass(0, 0, {})
  const LONG_PASS := Pass(1, 2, {})
  const SHORT_PASS := Pass(1, 1, {})

  /** The states in between: two calls come during the first pass; its tail and the waiting call start two
      passes; the longer one ends first, the shorter one last. */
  function LosingStates(): seq<Session> {
    [Mounted(Snapshot(-1, [])),
     Session(Snapshot(-1, []), Some(0), Some(0), map[0 := FIRST_PASS], [], [], 1, []),
     Session(Snapshot(-1, []), Some(1), Some(0), map[0 := FIRST_PASS], [Waiter(0, 1)], [], 1, []),
     Session(Snapshot(-1, []), Some(2), Some(0), map[0 := FIRST_PASS], [Waiter(0, 1)], [], 1, []),
     Session(Snapshot(0, []), Some(2), None, map[], [], [AfterRun, AfterWait(1)], 1, [FIRST_PASS]),
     Session(Snapshot(0, []), Some(2), Some(1), map[1 := LONG_PASS], [], [AfterWait(1)], 2, [FIRST_PASS]),
     Session(Snapshot(0, []), Some(2), Some(2), map[1 := LONG_PASS, 2 := SHORT_PASS], [], [], 3, [FIRST_PASS]),
     Session(Snapshot(2, [LOST]), Some(2), None, map[2 := SHORT_PASS], [], [AfterRun], 3, [FIRST_PASS, LONG_PASS]),
     Session(Snapshot(2, [LOST]), Some(2), None, map[2 := SHORT_PASS], [], [], 3, [FIRST_PASS, LONG_PASS]),
     Session(Snapshot(2, []), Some(2), None, map[], [], [AfterRun], 3, [FIRST_PASS, LONG_PASS, SHORT_PASS]),
     Session(Snapshot(2, []), Some(2), None, map[], [], [], 3, [FIRST_PASS, LONG_PASS, SHORT_PASS])]
  }

  ghost predicate LosingStep(k: nat)
    requires k < 10
  {
    Takes(SmallWorld(), LosingStates()[k], LosingSteps()[k], LosingStates()[k + 1])
  }

  lemma FirstPassEnds()
    ensures LosingStep(3)
  {
    assert BlockRange(0, 0) * FIRST_PASS.fails == {};
    assert map[0 := FIRST_PASS] - {0} == map[];
    assert Collects(SmallWorld().chain, FIRST_PASS, []);
  }

  lemma LongPassEnds()
    ensures LosingStep(6)
  {
    assert BlockRange(1, 2) * LONG_PASS.fails == {};
    assert map[1 := LONG_PASS, 2 := SHORT_PASS] - {1} == map[2 := SHORT_PASS];
    assert Collects(SmallWorld().chain, LONG_PASS, [LOST]);
  }

  lemma ShortPassEnds()
    ensures LosingStep(8)
  {
    assert BlockRange(1, 1) * SHORT_PASS.fails == {};
    assert map[2 := SHORT_PASS] - {2} == map[];
    assert Collects(SmallWorld().chain, SHORT_PASS, []);
    assert Below([LOST], 1) == [];
  }

  lemma CallsCome()
    ensures LosingStep(0) && LosingStep(1) && LosingStep(2)
  {}

  lemma CallsGoOn()
    ensures LosingStep(4) && LosingStep(5) && LosingStep(7) && LosingStep(9)
  {
    assert map[1 := LONG_PASS][2 := SHORT_PASS] == map[1 := LONG_PASS, 2 := SHORT_PASS];
  }

  lemma LosingStepTaken(k: nat)
    requires k < 10
    ensures LosingStep(k)
  {
    if k < 3 { CallsCome(); }
    else if k == 3 { FirstPassEnds(); }
    else if k == 6 { LongPassEnds(); }
    else if k == 8 { ShortPassEnds(); }
    else { CallsGoOn(); }
  }

  /** What the run ends in: the remark of block 2 is gone, and no pass, waiting call or tail is left to fetch it. */
  lemma LosingEnd(s: Session)
    requires s == LosingStates()[10]
    ensures s.running == map[] && s.waiting == [] && s.due == [] && !Behind(SmallWorld(), s)
    ensures !Sound(SmallWorld().chain, 0, false, s.refs) && Wiped(SmallWorld(), s, 2, 2)
  {
    assert AtBlock(s.refs.remarks, 2) == [] && OnChain(SmallWorld().chain, 0, 2) == [LOST];
  }

  /** The passes over 1..2 and 1..1 overlap; the shorter one ends last and wipes the remark in block 2. The
      session was sound when it was mounted, and is not at the end. */
  lemma OverlapLosesARemark() returns (last: Session)
    ensures Sound(SmallWorld().chain, 0, false, Snapshot(-1, []))
    ensures IsRun(SmallWorld(), Snapshot(-1, []), LosingSteps(), LosingStates()) && last == LosingStates()[10]
    ensures last.running == map[] && last.waiting == [] && last.due == [] && !Behind(SmallWorld(), last)
    ensures !Sound(SmallWorld().chain, 0, false, last.refs) && Wiped(SmallWorld(), last, 2, 2)
  {
    last := LosingStates()[10];
    LosingEnd(last);
    forall i: nat | i < |LosingSteps()|
      ensures Takes(SmallWorld(), LosingStates()[i], LosingSteps()[i], LosingStates()[i + 1])
    {
      LosingStepTaken(i);
    }
  }
}

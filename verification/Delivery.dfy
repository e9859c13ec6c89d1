/** A client that writes a whole input with one blocking write, against a client that keeps reading:
    under which schedules the transfer ends, how soon, and what it ends with. */
module Delivery {
  import opened Words
  import opened Counting
  import opened Protocol
  import opened Invariant
  import opened Safety
  import opened EndOfStream

  /** The two clients. With `closing`, the Writer closes after its write and the Reader reads until
      EOF; without, the Reader reads until it has as many bytes as were written. The Reader's buffers are
      of any size, and it may start reading before the write begins. With `timed`, waits may also end
      by timeout, spuriously or, on storages that cannot wait, after a poll sleep; without, a sleeping
      side is woken by its peer or not at all. No call is given up. */
  datatype Client = Client(input: seq<byte>, closing: bool, timed: bool)

  predicate Allowed(c: Client, w: World, a: Action) {
    && Enabled(w.m, a)
    && match a
       case WGo => true
       case RGo => true
       case WBegin(p, block) => p == c.input && block && w.h.calls == []
       case WClose => c.closing && !w.m.w.closed && w.h.calls != []
       case RBegin(len, block) => len > 0 && block && (if c.closing then !w.h.eof else |w.h.got| < |c.input|)
       case WReturn => c.timed
       case RReturn => c.timed
       case _ => false
  }

  /** A run in which the two clients do nothing else. */
  ghost predicate IsSchedule(c: Client, ws: seq<World>, acts: seq<Action>) {
    IsRun(ws, acts) && forall i :: 0 <= i < |acts| ==> MakesStep(c, ws, acts, i)
  }

  ghost predicate MakesStep(c: Client, ws: seq<World>, acts: seq<Action>, i: nat)
    requires i < |acts| && i < |ws|
  {
    Allowed(c, ws[i], acts[i])
  }

  ghost predicate Stuck(c: Client, w: World) {
    forall a :: !Allowed(c, w, a)
  }

  // ---- What these clients keep -------------------------------------------------------

  predicate InWrite(pc: WriterPc) {
    !pc.WIdle? && !InClose(pc)
  }

  /** The position belongs to the blocking write of the input. */
  predicate WritesInput(c: Client, pc: WriterPc) {
    match pc
    case WTop(p, _, block) => p == c.input && block
    case WLoad(p, _, block) => p == c.input && block
    case WCopy(p, _, block, _, _) => p == c.input && block
    case WStore(p, _, block, _) => p == c.input && block
    case WWake(p, _, block) => p == c.input && block
    case WWait(p, _) => p == c.input
    case WParked(p, _) => p == c.input
    case _ => false
  }

  /** The write of the input has not begun, is under way, or is over and took everything. */
  ghost predicate WriterPlan(c: Client, w: World) {
    && (InWrite(w.m.w.pc) ==> WritesInput(c, w.m.w.pc) && w.h.calls == [])
    && w.h.log == (if InWrite(w.m.w.pc) then InFlight(w.m.w.pc) else if w.h.calls == [] then [] else c.input)
    && (w.m.w.closed ==> c.closing && w.h.calls != [])
  }

  /** The call is a blocking one that has not taken any byte yet. */
  predicate Before(pc: ReaderPc) {
    match pc
    case RTop(len, block) => block && len > 0
    case RLoad(len, block) => block && len > 0
    case RLoadClosed(len, block) => block && len > 0
    case RWait(len) => len > 0
    case RParked(len) => len > 0
    case _ => false
  }

  ghost predicate ReaderPlan(c: Client, w: World) {
    && (Before(w.m.r.pc) || w.m.r.pc.RIdle? || w.m.r.pc.RCopy? || w.m.r.pc.RStore? || w.m.r.pc.RWake?)
    && (!c.closing && Before(w.m.r.pc) ==> w.h.head < |c.input|)
    && (w.h.eof ==> w.m.r.pc.RIdle?)
  }

  ghost predicate Plan(c: Client, w: World) {
    Inv(w) && WriterPlan(c, w) && ReaderPlan(c, w) && |w.h.log| <= |c.input|
  }

  lemma StartPlan(c: Client, w: World)
    requires Initial(w)
    ensures Plan(c, w) && Measure(c, w) == 82 * |c.input| + 22 && Turns(c, w) == 32 * |c.input| + 65
  {
    InitialKeeps(w);
  }

  lemma WriterPlanCopies(c: Client, w: World)
    requires Chain(w) && WriterPlan(c, w) && w.m.w.pc.WCopy? && w.m.w.pc.i < w.m.w.pc.n
    ensures WriterPlan(c, Step(w, WGo))
  {
    var p, k := w.m.w.pc.p, w.m.w.pc.done + w.m.w.pc.i;
    assert p[..k] + [p[k]] == p[..k + 1];
  }

  lemma WriterPlanGoesOn(c: Client, w: World)
    requires Chain(w) && ClosedAgrees(w) && WriterPlan(c, w) && Enabled(w.m, WGo)
    requires !(w.m.w.pc.WCopy? && w.m.w.pc.i < w.m.w.pc.n)
    ensures WriterPlan(c, Step(w, WGo))
  {
  }

  lemma WriterPlanStays(c: Client, w: World, a: Action)
    requires Chain(w) && ClosedAgrees(w) && WriterPlan(c, w) && Allowed(c, w, a)
    ensures WriterPlan(c, Step(w, a))
  {
    if a.WGo? {
      if w.m.w.pc.WCopy? && w.m.w.pc.i < w.m.w.pc.n {
        WriterPlanCopies(c, w);
      } else {
        WriterPlanGoesOn(c, w);
      }
    }
  }

  lemma ReaderPlanStays(c: Client, w: World, a: Action)
    requires Chain(w) && RingAgrees(w) && ClosedAgrees(w) && WriterPlan(c, w) && ReaderPlan(c, w) && Allowed(c, w, a)
    ensures ReaderPlan(c, Step(w, a))
  {
  }

  lemma PlanStays(c: Client, w: World, a: Action)
    requires Plan(c, w) && Allowed(c, w, a)
    ensures Plan(c, Step(w, a))
  {
    StepKeeps(w, a);
    WriterPlanStays(c, w, a);
    ReaderPlanStays(c, w, a);
  }

  lemma ScheduleKeepsPlan(c: Client, ws: seq<World>, acts: seq<Action>, i: nat)
    requires IsSchedule(c, ws, acts) && i < |ws|
    ensures Plan(c, ws[i])
  {
    var plan := (w: World) => Plan(c, w);
    StartPlan(c, ws[0]);
    forall k | 0 <= k < i
      ensures KeptAt(ws, k, plan)
    {
      assert TakesStep(ws, acts, k) && MakesStep(c, ws, acts, k);
      if Plan(c, ws[k]) {
        PlanStays(c, ws[k], acts[k]);
      }
    }
    Lasts(ws, 0, i, plan);
  }

  // ---- The measure -------------------------------------------------------------------

  /** Steps the Writer can take before it next stores its tail or sleeps, plus the steps it can hand
      the Reader by waking it. A compare that is bound to fail costs one more round. */
  function WriterRank(m: Machine, written: bool): nat {
    match m.w.pc
    case WIdle => if m.w.closed then 0 else if written then 11 else 15
    case WTop(_, _, _) => 14
    case WLoad(_, _, _) => 13
    case WCopy(_, _, _, _, _) => 12
    case WStore(_, _, _, _) => 11
    case WWake(_, _, _) => 21
    case WWait(_, _) => if m.sh.head == m.w.cachedHead then 1 else 15
    case WParked(_, _) => 0
    case WCloseFlag => 10
    case WCloseFlagWake => 9
    case WCloseTail => 8
    case WCloseWake => 7
  }

  function ReaderRank(m: Machine, eof: bool): nat {
    match m.r.pc
    case RIdle => if eof then 0 else 7
    case RTop(_, _) => 6
    case RLoad(_, _) => 5
    case RLoadClosed(_, _) => if m.sh.tail == m.r.cachedTail then 2 else 8
    case RCopy(_, _, _) => 4
    case RStore(_) => 3
    case RWake => 22
    case RWait(_) => if m.sh.tail == m.r.cachedTail then 1 else 7
    case RParked(_) => 0
  }

  ghost function Taken(w: World): nat {
    w.h.head + if w.m.r.pc.RCopy? then |w.m.r.pc.buf| else 0
  }

  /** Bytes still to be copied in, published, copied out and released, and the ranks of the two sides. */
  ghost function Measure(c: Client, w: World): int {
    var e := |c.input|;
    40 * (e - w.h.pubTail) + (e - |w.h.log|) + 40 * (e - w.h.pubHead) + (e - Taken(w))
    + WriterRank(w.m, w.h.calls != []) + ReaderRank(w.m, w.h.eof)
  }

  lemma MeasureIsNatural(c: Client, w: World)
    requires Plan(c, w)
    ensures Measure(c, w) >= 0 && Turns(c, w) >= 0
  {
  }

  /** Only a store of the tail or a wake can raise the Reader's rank, and by no more than six. */
  lemma WriterLiftsReader(c: Client, w: World)
    requires Chain(w) && WordsAgree(w) && Enabled(w.m, WGo)
    ensures var w' := Step(w, WGo);
            && ReaderRank(w'.m, w'.h.eof) <= ReaderRank(w.m, w.h.eof) + 6
            && (!w.m.w.pc.WStore? && !WakesReader(w.m) ==> ReaderRank(w'.m, w'.h.eof) == ReaderRank(w.m, w.h.eof))
            && w'.h.pubHead == w.h.pubHead && Taken(w') == Taken(w)
  {
  }

  lemma WriterRankFalls(c: Client, w: World)
    requires Chain(w) && TrueDistances(w) && ClosedAgrees(w) && WriterPlan(c, w) && Enabled(w.m, WGo)
    ensures var h, h', rank := w.h, Record(w.h, w.m, WGo), WriterRank(w.m, w.h.calls != []);
            var rank' := WriterRank(Next(w.m, WGo), h'.calls != []);
            && h.pubTail <= h'.pubTail && |h.log| <= |h'.log|
            && (w.m.w.pc.WStore? ==> h'.pubTail > h.pubTail && rank' == rank + 10)
            && (WakesReader(w.m) ==> rank' + 7 <= rank)
            && (!w.m.w.pc.WStore? && |h.log| == |h'.log| ==> rank' < rank)
            && rank' <= rank + 10 && (!w.m.w.pc.WStore? ==> rank' <= rank)
  {
  }

  lemma WriterStepDescends(c: Client, w: World)
    requires Plan(c, w) && Enabled(w.m, WGo)
    ensures Measure(c, Step(w, WGo)) < Measure(c, w)
  {
    DistancesAreTrue(w);
    WriterLiftsReader(c, w);
    WriterRankFalls(c, w);
  }

  /** Only a store of the head or a wake can raise the Writer's rank. */
  lemma ReaderLiftsWriter(c: Client, w: World)
    requires Chain(w) && TrueDistances(w) && Enabled(w.m, RGo)
    ensures var w' := Step(w, RGo);
            && WriterRank(w'.m, w'.h.calls != [])
               <= WriterRank(w.m, w.h.calls != []) + (if w.m.r.pc.RStore? || w.m.r.pc.RWake? then 14 else 0)
            && w'.h.pubTail == w.h.pubTail && w'.h.log == w.h.log
  {
  }

  lemma ReaderStepDescends(c: Client, w: World)
    requires Chain(w) && TrueDistances(w) && ClosedAgrees(w) && Enabled(w.m, RGo)
    requires WriterPlan(c, w) && ReaderPlan(c, w)
    ensures Measure(c, Step(w, RGo)) < Measure(c, w)
  {
    ReaderLiftsWriter(c, w);
  }

  predicate IsReturn(a: Action) {
    a.WReturn? || a.RReturn?
  }

  /** Every step but the return of a wait lowers the measure, and a return raises it by at most 14. */
  lemma StepDescends(c: Client, w: World, a: Action)
    requires Plan(c, w) && Allowed(c, w, a)
    ensures Measure(c, Step(w, a)) < Measure(c, w) + if IsReturn(a) then 15 else 0
  {
    DistancesAreTrue(w);
    if a.WGo? {
      WriterStepDescends(c, w);
    } else if a.RGo? {
      ReaderStepDescends(c, w);
    }
  }

  lemma DescendsAt(c: Client, ws: seq<World>, acts: seq<Action>, k: nat)
    requires IsSchedule(c, ws, acts) && k < |acts|
    ensures Measure(c, ws[k + 1]) < Measure(c, ws[k]) + if IsReturn(acts[k]) then 15 else 0
  {
    ScheduleKeepsPlan(c, ws, acts, k);
    assert TakesStep(ws, acts, k) && MakesStep(c, ws, acts, k);
    StepDescends(c, ws[k], acts[k]);
  }

  lemma {:induction false} ScheduleDescends(c: Client, ws: seq<World>, acts: seq<Action>, i: nat)
    requires IsSchedule(c, ws, acts) && i < |ws|
    ensures Measure(c, ws[i]) + i <= Measure(c, ws[0]) + 15 * Count(acts, 0, i, IsReturn)
  {
    if i > 0 {
      ScheduleDescends(c, ws, acts, i - 1);
      DescendsAt(c, ws, acts, i - 1);
    }
  }

  lemma {:induction false} NoReturnsNoCount(c: Client, ws: seq<World>, acts: seq<Action>, i: nat)
    requires IsSchedule(c, ws, acts) && !c.timed && i < |ws|
    ensures Count(acts, 0, i, IsReturn) == 0
  {
    if i > 0 {
      NoReturnsNoCount(c, ws, acts, i - 1);
      assert MakesStep(c, ws, acts, i - 1);
    }
  }

  /** The number of steps is linear in the input and the number of waits that returned of themselves;
      without such returns no schedule runs for ever. */
  lemma EveryScheduleEnds(c: Client, ws: seq<World>, acts: seq<Action>)
    requires IsSchedule(c, ws, acts)
    ensures |acts| <= 82 * |c.input| + 22 + 15 * Count(acts, 0, |acts|, IsReturn)
    ensures !c.timed ==> |acts| <= 82 * |c.input| + 22
  {
    StartPlan(c, ws[0]);
    ScheduleDescends(c, ws, acts, |acts|);
    ScheduleKeepsPlan(c, ws, acts, |acts|);
    MeasureIsNatural(c, ws[|acts|]);
    if !c.timed {
      NoReturnsNoCount(c, ws, acts, |acts|);
    }
  }

  // ---- Whose turn it is --------------------------------------------------------------

  function WriterStage(w: Writer, written: bool): nat {
    match w.pc
    case WIdle => if w.closed then 0 else if written then 5 else 7
    case WCloseFlag => 4
    case WCloseFlagWake => 3
    case WCloseTail => 2
    case WCloseWake => 1
    case _ => 6
  }

  /** What is left to do, polling aside: no step ever undoes any of it. */
  ghost function Left(c: Client, w: World): int {
    var e := |c.input|;
    (e - w.h.pubTail) + (e - |w.h.log|) + (e - w.h.pubHead) + (e - Taken(w))
    + WriterStage(w.m.w, w.h.calls != []) + if w.h.eof then 0 else 1
  }

  /** The Writer can get on without the Reader: it has not begun, or has room or nothing left to write,
      or has still to close. Otherwise it is for the Reader to get on. */
  ghost predicate WritersTurn(c: Client, w: World) {
    if InWrite(w.m.w.pc) then w.h.pubTail - w.h.pubHead < w.m.cap || w.h.pubTail == |c.input|
    else w.h.calls == [] || (c.closing && !(w.m.w.closed && w.m.w.pc.WIdle?))
  }

  /** How many actions the side whose turn it is takes, at most, before it gets on. */
  function WriterWay(pc: WriterPc): (n: nat)
    ensures 1 <= n <= 6
  {
    match pc
    case WTop(_, _, _) => 4
    case WLoad(_, _, _) => 3
    case WCopy(_, _, _, _, _) => 2
    case WWake(_, _, _) => 5
    case WWait(_, _) => 6
    case WParked(_, _) => 5
    case _ => 1
  }

  function ReaderWay(m: Machine): (n: nat)
    ensures 1 <= n <= 7
  {
    match m.r.pc
    case RIdle => 5
    case RTop(_, _) => 4
    case RLoad(_, _) => 3
    case RLoadClosed(_, _) => if m.sh.closed == 1 then 1 else 7
    case RCopy(_, _, _) => 2
    case RStore(_) => 1
    case RWake => 6
    case RWait(_) => 6
    case RParked(_) => 5
  }

  ghost function Turns(c: Client, w: World): int {
    8 * Left(c, w) + if WritersTurn(c, w) then WriterWay(w.m.w.pc) else ReaderWay(w.m)
  }

  /** An action of the side whose turn it is. */
  ghost predicate InTurn(c: Client, w: World, a: Action) {
    if WritersTurn(c, w) then WriterActs(a) else ReaderActs(a)
  }

  /** What a step does to all this: something gets done, or else whose turn it is stays the same and that
      side comes no further from getting on, and nearer if the step is its own. */
  ghost predicate GetsOn(c: Client, w: World, a: Action)
    requires Enabled(w.m, a)
  {
    var w' := Step(w, a);
    || Left(c, w') < Left(c, w)
    || (&& Left(c, w') == Left(c, w)
        && WritersTurn(c, w') == WritersTurn(c, w)
        && (if WritersTurn(c, w) then WriterWay(w'.m.w.pc) <= WriterWay(w.m.w.pc) - (if WriterActs(a) then 1 else 0)
            else ReaderWay(w'.m) <= ReaderWay(w.m) - (if ReaderActs(a) then 1 else 0)))
  }

  lemma WriterDecides(c: Client, w: World)
    requires Chain(w) && TrueDistances(w) && ClosedAgrees(w) && WriterPlan(c, w) && |w.h.log| == Copied(w)
    requires w.m.w.pc.WTop? || w.m.w.pc.WLoad?
    ensures GetsOn(c, w, WGo)
  {
  }

  lemma WriterTransfers(c: Client, w: World)
    requires Chain(w) && WriterPlan(c, w) && (w.m.w.pc.WCopy? || w.m.w.pc.WStore? || w.m.w.pc.WWake?)
    ensures GetsOn(c, w, WGo)
  {
  }

  lemma WriterGetsOn(c: Client, w: World)
    requires Chain(w) && ClosedAgrees(w) && WriterPlan(c, w)
    requires w.m.w.pc.WWait? || InClose(w.m.w.pc)
    ensures GetsOn(c, w, WGo)
  {
  }

  lemma ReaderDecides(c: Client, w: World)
    requires Chain(w) && TrueDistances(w) && ClosedAgrees(w) && WriterPlan(c, w) && |w.h.log| == Copied(w)
    requires ReaderPlan(c, w) && Enabled(w.m, RGo) && Before(w.m.r.pc)
    ensures GetsOn(c, w, RGo)
  {
  }

  lemma ReaderGetsOn(c: Client, w: World)
    requires Chain(w) && Enabled(w.m, RGo) && (w.m.r.pc.RCopy? || w.m.r.pc.RStore? || w.m.r.pc.RWake?)
    ensures GetsOn(c, w, RGo)
  {
  }

  lemma CallerGetsOn(c: Client, w: World, a: Action)
    requires Chain(w) && ClosedAgrees(w) && WriterPlan(c, w) && ReaderPlan(c, w) && |w.h.log| == Copied(w)
    requires Allowed(c, w, a) && !a.WGo? && !a.RGo?
    ensures GetsOn(c, w, a)
  {
  }

  lemma EveryStepGetsOn(c: Client, w: World, a: Action)
    requires Plan(c, w) && Allowed(c, w, a)
    ensures GetsOn(c, w, a)
  {
    DistancesAreTrue(w);
    if a.WGo? && (w.m.w.pc.WTop? || w.m.w.pc.WLoad?) {
      WriterDecides(c, w);
    } else if a.WGo? && (w.m.w.pc.WWait? || InClose(w.m.w.pc)) {
      WriterGetsOn(c, w);
    } else if a.WGo? {
      WriterTransfers(c, w);
    } else if a.RGo? && Before(w.m.r.pc) {
      ReaderDecides(c, w);
    } else if a.RGo? {
      ReaderGetsOn(c, w);
    } else {
      CallerGetsOn(c, w, a);
    }
  }

  lemma GettingOnFalls(c: Client, w: World, a: Action)
    requires Enabled(w.m, a) && GetsOn(c, w, a)
    ensures Turns(c, Step(w, a)) <= Turns(c, w) - if InTurn(c, w, a) then 1 else 0
    ensures Turns(c, Step(w, a)) == Turns(c, w) ==> WritersTurn(c, Step(w, a)) == WritersTurn(c, w)
  {
  }

  lemma TurnsFall(c: Client, w: World, a: Action)
    requires Plan(c, w) && Allowed(c, w, a)
    ensures Turns(c, Step(w, a)) <= Turns(c, w) - if InTurn(c, w, a) then 1 else 0
    ensures Turns(c, Step(w, a)) == Turns(c, w) ==> WritersTurn(c, Step(w, a)) == WritersTurn(c, w)
  {
    EveryStepGetsOn(c, w, a);
    GettingOnFalls(c, w, a);
  }

  /** Where waits return, the side whose turn it is can always act, until neither has anything to do. */
  lemma TurnCanAct(c: Client, w: World) returns (a: Action)
    requires Plan(c, w) && c.timed && !Stuck(c, w)
    ensures Allowed(c, w, a) && InTurn(c, w, a)
  {
    if WritersTurn(c, w) {
      a := if w.m.w.pc.WIdle? then (if w.h.calls == [] then WBegin(c.input, true) else WClose)
      else if w.m.w.pc.WParked? then WReturn else WGo;
    } else {
      a := if w.m.r.pc.RIdle? then RBegin(1, true) else if w.m.r.pc.RParked? then RReturn else RGo;
      var b :| Allowed(c, w, b);
    }
  }

  // ---- Fair schedules ----------------------------------------------------------------

  ghost predicate Can(c: Client, w: World, side: Action -> bool) {
    exists a :: side(a) && Allowed(c, w, a)
  }

  /** A side that could act at each of the `b` steps from `i` on acts at one of them. */
  ghost predicate GetsItsShare(c: Client, ws: seq<World>, acts: seq<Action>, i: nat, b: nat, side: Action -> bool)
    requires i + b <= |acts| && i + b <= |ws|
  {
    (forall k :: i <= k < i + b ==> Can(c, ws[k], side)) ==> exists k :: i <= k < i + b && side(acts[k])
  }

  /** No side is passed over for `b` steps on end. The waits may return as often as they like. */
  ghost predicate Fair(c: Client, ws: seq<World>, acts: seq<Action>, b: nat) {
    && b > 0 && |ws| == |acts| + 1
    && (forall i: nat :: i + b <= |acts| ==> GetsItsShare(c, ws, acts, i, b, WriterActs))
    && (forall i: nat :: i + b <= |acts| ==> GetsItsShare(c, ws, acts, i, b, ReaderActs))
  }

  lemma TurnsFallAt(c: Client, ws: seq<World>, acts: seq<Action>, k: nat)
    requires IsSchedule(c, ws, acts) && k < |acts|
    ensures Turns(c, ws[k + 1]) <= Turns(c, ws[k]) - if InTurn(c, ws[k], acts[k]) then 1 else 0
    ensures Turns(c, ws[k + 1]) == Turns(c, ws[k]) ==> WritersTurn(c, ws[k + 1]) == WritersTurn(c, ws[k])
  {
    ScheduleKeepsPlan(c, ws, acts, k);
    assert TakesStep(ws, acts, k) && MakesStep(c, ws, acts, k);
    TurnsFall(c, ws[k], acts[k]);
  }

  lemma TurnsAreNatural(c: Client, ws: seq<World>, acts: seq<Action>, i: nat)
    requires IsSchedule(c, ws, acts) && i < |ws|
    ensures Turns(c, ws[i]) >= 0
  {
    ScheduleKeepsPlan(c, ws, acts, i);
    MeasureIsNatural(c, ws[i]);
  }

  lemma {:induction false} TurnsFallInRun(c: Client, ws: seq<World>, acts: seq<Action>, i: nat, j: nat)
    requires IsSchedule(c, ws, acts) && i <= j < |ws|
    ensures Turns(c, ws[j]) <= Turns(c, ws[i])
    ensures Turns(c, ws[j]) == Turns(c, ws[i]) ==>
              WritersTurn(c, ws[j]) == WritersTurn(c, ws[i]) && forall k :: i <= k < j ==> !InTurn(c, ws[k], acts[k])
    decreases j
  {
    if i < j {
      TurnsFallInRun(c, ws, acts, i, j - 1);
      TurnsFallAt(c, ws, acts, j - 1);
    }
  }

  ghost function TurnHolder(c: Client, w: World): Action -> bool {
    if WritersTurn(c, w) then WriterActs else ReaderActs
  }

  lemma HolderCan(c: Client, ws: seq<World>, acts: seq<Action>, k: nat)
    requires IsSchedule(c, ws, acts) && c.timed && k < |acts|
    ensures Can(c, ws[k], TurnHolder(c, ws[k]))
  {
    ScheduleKeepsPlan(c, ws, acts, k);
    assert MakesStep(c, ws, acts, k);
    var a := TurnCanAct(c, ws[k]);
    assert TurnHolder(c, ws[k])(a);
  }

  /** While nothing falls, one side holds the turn, could act, and does not. */
  lemma HolderIsIdle(c: Client, ws: seq<World>, acts: seq<Action>, i: nat, k: nat, j: nat)
    requires IsSchedule(c, ws, acts) && c.timed && i <= k < j < |ws| && Turns(c, ws[j]) == Turns(c, ws[i])
    ensures Can(c, ws[k], TurnHolder(c, ws[i])) && !TurnHolder(c, ws[i])(acts[k])
  {
    TurnsFallInRun(c, ws, acts, i, k);
    TurnsFallInRun(c, ws, acts, k, j);
    HolderCan(c, ws, acts, k);
  }

  /** In every fair stretch the side whose turn it is takes an action. */
  lemma FairStretchFalls(c: Client, ws: seq<World>, acts: seq<Action>, i: nat, b: nat)
    requires IsSchedule(c, ws, acts) && c.timed && Fair(c, ws, acts, b) && i + b <= |acts|
    ensures Turns(c, ws[i + b]) < Turns(c, ws[i])
  {
    TurnsFallInRun(c, ws, acts, i, i + b);
    var side := TurnHolder(c, ws[i]);
    assert GetsItsShare(c, ws, acts, i, b, side);
    if Turns(c, ws[i + b]) == Turns(c, ws[i]) {
      forall k | i <= k < i + b
        ensures Can(c, ws[k], side) && !side(acts[k])
      {
        HolderIsIdle(c, ws, acts, i, k, i + b);
      }
      assert false;
    }
  }

  lemma MulGrows(b: nat, x: int, y: int)
    requires x <= y
    ensures b * x <= b * y
  {
  }

  lemma {:induction false} FairRest(c: Client, ws: seq<World>, acts: seq<Action>, i: nat, b: nat)
    requires IsSchedule(c, ws, acts) && c.timed && Fair(c, ws, acts, b) && i <= |acts|
    ensures |acts| - i < b * (Turns(c, ws[i]) + 1)
    decreases |acts| - i
  {
    TurnsAreNatural(c, ws, acts, i);
    if i + b <= |acts| {
      FairRest(c, ws, acts, i + b, b);
      FairStretchFalls(c, ws, acts, i, b);
      MulGrows(b, Turns(c, ws[i + b]) + 1, Turns(c, ws[i]));
      MulDistributes(b, Turns(c, ws[i]), 1);
    } else {
      MulGrows(b, 1, Turns(c, ws[i]) + 1);
    }
  }

  /** However the waits return, a schedule that passes neither side over for `b` steps on end is shorter
      than b(32n + 66): the transfer comes to its end also where both sides only poll. */
  lemma EveryFairScheduleEnds(c: Client, ws: seq<World>, acts: seq<Action>, b: nat)
    requires IsSchedule(c, ws, acts) && c.timed && Fair(c, ws, acts, b)
    ensures |acts| < b * (32 * |c.input| + 66)
  {
    StartPlan(c, ws[0]);
    FairRest(c, ws, acts, 0, b);
  }

  // ---- Finishing ---------------------------------------------------------------------

  lemma ScheduleExtends(c: Client, ws: seq<World>, acts: seq<Action>, a: Action)
    requires IsSchedule(c, ws, acts) && Allowed(c, ws[|acts|], a)
    ensures IsSchedule(c, ws + [Step(ws[|acts|], a)], acts + [a])
  {
    var ws', acts' := ws + [Step(ws[|acts|], a)], acts + [a];
    Extend(ws, acts, a, Step(ws[|acts|], a));
    forall i | 0 <= i < |acts'|
      ensures MakesStep(c, ws', acts', i)
    {
      if i < |acts| {
        assert MakesStep(c, ws, acts, i);
      }
    }
  }

  /** What a schedule is guided by to its end: any step will do where waits do not return. */
  ghost function Goal(c: Client, w: World): int {
    if c.timed then Turns(c, w) else Measure(c, w)
  }

  lemma GoodStep(c: Client, w: World) returns (a: Action)
    requires Plan(c, w) && !Stuck(c, w)
    ensures Allowed(c, w, a) && 0 <= Goal(c, Step(w, a)) < Goal(c, w)
  {
    if c.timed {
      a := TurnCanAct(c, w);
      TurnsFall(c, w, a);
    } else {
      a :| Allowed(c, w, a);
      StepDescends(c, w, a);
    }
    PlanStays(c, w, a);
    MeasureIsNatural(c, Step(w, a));
  }

  /** Every schedule can be carried on to one in which neither client has a step left. */
  lemma {:induction false} EveryScheduleCanBeFinished(c: Client, ws: seq<World>, acts: seq<Action>)
    returns (ws': seq<World>, acts': seq<Action>)
    requires IsSchedule(c, ws, acts)
    ensures IsSchedule(c, ws', acts') && ws <= ws' && acts <= acts' && Stuck(c, ws'[|acts'|])
    decreases Goal(c, ws[|acts|])
  {
    if Stuck(c, ws[|acts|]) {
      ws', acts' := ws, acts;
    } else {
      ScheduleKeepsPlan(c, ws, acts, |acts|);
      var a := GoodStep(c, ws[|acts|]);
      ScheduleExtends(c, ws, acts, a);
      ws', acts' := EveryScheduleCanBeFinished(c, ws + [Step(ws[|acts|], a)], acts + [a]);
    }
  }

  // ---- The outcome -------------------------------------------------------------------

  /** Nothing is left to do, but waits may still return. */
  ghost predicate Resting(c: Client, w: World) {
    forall a :: Allowed(c, w, a) ==> IsReturn(a)
  }

  lemma RestingMeans(c: Client, w: World)
    requires Plan(c, w) && Resting(c, w)
    ensures w.m.w.pc.WIdle? && w.h.log == c.input && w.h.pubTail == |c.input|
    ensures c.closing ==> w.m.w.closed && (w.m.r.pc.RParked? || w.h.eof)
    ensures !c.closing ==> w.m.r.pc.RIdle? && |w.h.got| == |c.input|
    ensures w.m.r.pc.RParked? ==> !w.h.eof && w.h.got == c.input && (c.timed ==> !Stuck(c, w))
  {
    assert !Allowed(c, w, WGo) && !Allowed(c, w, RGo);
    assert !Allowed(c, w, WBegin(c.input, true));
    assert !Allowed(c, w, WClose);
    assert !Allowed(c, w, RBegin(1, true));
    assert c.timed && w.m.r.pc.RParked? ==> Allowed(c, w, RReturn);
  }

  /** A Reader that reads until it has everything gets exactly the input, in every schedule that has
      nothing left to do, whether its waits are woken, timed or polled. */
  lemma ReadingInFullDeliversTheInput(c: Client, ws: seq<World>, acts: seq<Action>)
    requires IsSchedule(c, ws, acts) && !c.closing && Resting(c, ws[|acts|])
    ensures ws[|acts|].h.got == c.input && Stuck(c, ws[|acts|])
  {
    ScheduleKeepsPlan(c, ws, acts, |acts|);
    RestingMeans(c, ws[|acts|]);
  }

  lemma PlanIsPrefix(c: Client, w: World)
    requires WriterPlan(c, w) && Chain(w) && RingAgrees(w)
    ensures w.h.got <= w.h.log <= c.input
  {
  }

  /** At every moment of every schedule the bytes received are a prefix of the input. */
  lemma NothingButTheInput(c: Client, ws: seq<World>, acts: seq<Action>, i: nat)
    requires IsSchedule(c, ws, acts) && i < |ws|
    ensures ws[i].h.got <= c.input
  {
    ScheduleKeepsPlan(c, ws, acts, i);
    PlanIsPrefix(c, ws[i]);
  }

  // ---- Reading until EOF -------------------------------------------------------------

  /** Some read loaded the tail, a tail store followed, and only then did that read load the closed
      flag and return EOF. */
  ghost predicate WriteSlippedIn(ws: seq<World>, acts: seq<Action>) {
    exists i: nat, k: nat, j: nat :: EofCall(ws, acts, i, j) && i < k < j && StoresTail(ws[k], acts[k])
  }

  /** The Reader was one compare away from sleeping when Close gave its nudge. */
  ghost predicate NudgeMissed(ws: seq<World>, acts: seq<Action>) {
    exists n :: 0 <= n < |acts| && n < |ws| && NudgesPast(ws[n], acts[n])
  }

  ghost predicate NudgesPast(w: World, a: Action) {
    a.WGo? && w.m.w.pc.WCloseWake? && AboutToPark(w)
  }

  lemma EofStepReadsNothing(c: Client, w: World, a: Action)
    requires ReaderPlan(c, w) && c.closing && w.h.eof && Allowed(c, w, a)
    ensures Step(w, a).h.eof && Step(w, a).h.got == w.h.got
  {
  }

  lemma SchedulePlansReads(c: Client, ws: seq<World>, acts: seq<Action>, i: nat)
    requires IsSchedule(c, ws, acts) && i < |ws|
    ensures ReaderPlan(c, ws[i])
  {
    ScheduleKeepsPlan(c, ws, acts, i);
  }

  lemma NothingReadAfterEof(c: Client, ws: seq<World>, acts: seq<Action>, j: nat, l: nat)
    requires IsSchedule(c, ws, acts) && c.closing && j <= l < |ws| && ws[j].h.eof
    ensures ws[l].h.eof && ws[l].h.got == ws[j].h.got
  {
    var over := (w: World) => w.h.eof && w.h.got == ws[j].h.got;
    forall k | j <= k < l
      ensures KeptAt(ws, k, over)
    {
      SchedulePlansReads(c, ws, acts, k);
      assert TakesStep(ws, acts, k) && MakesStep(c, ws, acts, k);
      if ws[k].h.eof {
        EofStepReadsNothing(c, ws[k], acts[k]);
      }
    }
    Lasts(ws, j, l, over);
  }

  lemma SlippedWriteCutsDelivery(c: Client, ws: seq<World>, acts: seq<Action>)
    requires IsSchedule(c, ws, acts) && c.closing && WriteSlippedIn(ws, acts)
    ensures ws[|acts|].h.got != ws[|acts|].h.log
  {
    var i: nat, k: nat, j: nat :| EofCall(ws, acts, i, j) && i < k < j && StoresTail(ws[k], acts[k]);
    EofIsDrainedIff(ws, acts, i, j);
    EofGap(ws, acts, i, j);
    assert TakesStep(ws, acts, j);
    NothingReadAfterEof(c, ws, acts, j + 1, |acts|);
    CloseFreezesTheStream(ws, acts, j, |acts|);
  }

  /** The Reader missed the nudge, and that compare is the last thing it has done. */
  ghost predicate SleepsThroughClose(ws: seq<World>, acts: seq<Action>) {
    exists n :: 0 <= n < |acts| && n < |ws| && NudgesPast(ws[n], acts[n]) && OnlyCompared(acts, n)
  }

  ghost predicate OnlyCompared(acts: seq<Action>, n: nat)
    requires n < |acts|
  {
    Count(acts, n + 1, |acts|, ReaderActs) == 1 == Count(acts, n + 1, |acts|, ReaderGoes)
  }

  lemma SleepIsThroughClose(ws: seq<World>, acts: seq<Action>)
    requires IsRun(ws, acts) && ws[|acts|].m.w.closed && ws[|acts|].m.w.pc.WIdle?
    ensures ws[|acts|].m.r.pc.RParked? <==> SleepsThroughClose(ws, acts)
  {
    if ws[|acts|].m.r.pc.RParked? {
      var n := EveryCloseHasItsNudge(ws, acts, |acts|);
      SleepsAfterCloseIff(ws, acts, n, |acts|);
      assert NudgesPast(ws[n], acts[n]) && OnlyCompared(acts, n);
    }
    if SleepsThroughClose(ws, acts) {
      var n :| 0 <= n < |acts| && n < |ws| && NudgesPast(ws[n], acts[n]) && OnlyCompared(acts, n);
      SleepsAfterCloseIff(ws, acts, n, |acts|);
    }
  }

  lemma MissedNudgeIsSleep(c: Client, ws: seq<World>, acts: seq<Action>)
    requires IsSchedule(c, ws, acts) && c.closing && !c.timed && Resting(c, ws[|acts|])
    ensures NudgeMissed(ws, acts) ==> ws[|acts|].m.r.pc.RParked?
  {
    forall k | 0 <= k < |acts|
      ensures !acts[k].RReturn? && !acts[k].RCancel?
    {
      assert MakesStep(c, ws, acts, k);
    }
    assert !Allowed(c, ws[|acts|], RGo);
    if NudgeMissed(ws, acts) {
      var n :| 0 <= n < |acts| && n < |ws| && NudgesPast(ws[n], acts[n]);
      NudgeIsMissedForGood(ws, acts, n, |acts|);
    }
  }

  /** Write everything, Close, and read until EOF. When nothing is left to do but for waits to return,
      the whole input has been published and Close has finished. The Reader has the whole input if and
      only if no write slipped between the two loads of its last read. It has seen EOF if and only if it
      is not asleep through Close, and if it is asleep it holds the whole input. Where waits return and
      the last of them has, it has seen EOF; where none ever returns, it has if and only if it did not
      miss Close's nudge. */
  lemma ReadingToEofDeliversIff(c: Client, ws: seq<World>, acts: seq<Action>)
    requires IsSchedule(c, ws, acts) && c.closing && Resting(c, ws[|acts|])
    ensures var w := ws[|acts|];
            && w.h.log == c.input && w.m.w.closed && w.m.w.pc.WIdle? && w.h.got <= c.input
            && (w.h.got == c.input <==> !WriteSlippedIn(ws, acts))
            && (w.h.eof <==> !SleepsThroughClose(ws, acts))
            && (!w.h.eof ==> w.m.r.pc.RParked? && w.h.got == c.input)
            && (c.timed && Stuck(c, w) ==> w.h.eof)
            && (!c.timed ==> (w.h.eof <==> !NudgeMissed(ws, acts)))
  {
    var w := ws[|acts|];
    ScheduleKeepsPlan(c, ws, acts, |acts|);
    RestingMeans(c, w);
    PlanIsPrefix(c, w);
    SleepIsThroughClose(ws, acts);
    if !c.timed {
      MissedNudgeIsSleep(c, ws, acts);
    }
    if WriteSlippedIn(ws, acts) {
      SlippedWriteCutsDelivery(c, ws, acts);
    } else if w.h.got != c.input {
      var i, k, j := ShortEofMeansAWriteSlippedIn(ws, acts, |acts|);
      assert false;
    }
  }
}

/** One attempt to write or to read, alone or as a turn of a blocking call, under any interference: how
    much it moves, where it leaves the call, and how soon. */
module Attempts {
  import opened Words
  import opened Counting
  import opened Protocol
  import opened Invariant
  import opened Safety

  /** What fits between a tail and a head, for a request of `len` bytes. */
  function Fits(len: int, cap: nat, used: int): int {
    if len < cap - used then len else cap - used
  }

  // ---- Writing -----------------------------------------------------------------------

  /** The Writer is at the entry of TryWrite(p[done..]), or inside it. */
  predicate Trying(pc: WriterPc, p: seq<byte>, done: nat, block: bool) {
    pc == WTop(p, done, block) || pc.WLoad? || pc.WCopy? || pc.WStore? || pc.WWake?
  }

  /** From `i` to `j` the Writer is inside one TryWrite(p[done..]) that began at `i` on an open ring. */
  ghost predicate InTryWrite(
    ws: seq<World>, acts: seq<Action>, i: nat, j: nat, p: seq<byte>, done: nat, block: bool)
  {
    && IsRun(ws, acts) && i <= j < |ws|
    && ws[i].m.w.pc == WTop(p, done, block) && !ws[i].m.w.closed
    && forall k :: i <= k <= j ==> Trying(ws[k].m.w.pc, p, done, block)
  }

  /** The attempt's plan: once it has decided on `n` bytes, `n` is at least what was free at the start. */
  ghost predicate WritePlan(w: World, p: seq<byte>, done: nat, block: bool, start: World) {
    var least := Fits(|p| - done, w.m.cap, start.h.pubTail - start.h.pubHead);
    && !w.m.w.closed && start.h.pubHead <= w.h.pubHead && start.m.cap == w.m.cap
    && match w.m.w.pc
       case WTop(q, d, b) => q == p && d == done && b == block && w.h.tail == start.h.pubTail
       case WLoad(q, d, b) => q == p && d == done && b == block && w.h.tail == start.h.pubTail
       case WCopy(q, d, b, n, _) => q == p && d == done && b == block && n >= least && w.h.tail == start.h.pubTail
       case WStore(q, d, b, n) => q == p && d == done && b == block && n >= least && w.h.tail == start.h.pubTail + n
       case WWake(q, d, b) =>
         q == p && b == block && d > done && d - done >= least && w.h.tail == start.h.pubTail + d - done
       case _ => false
  }

  lemma DecisionKeepsPlan(w: World, p: seq<byte>, done: nat, block: bool, start: World)
    requires Chain(w) && TrueDistances(w) && WritePlan(w, p, done, block, start)
    requires w.m.w.pc.WTop? || w.m.w.pc.WLoad?
    ensures Trying(Step(w, WGo).m.w.pc, p, done, block) ==> WritePlan(Step(w, WGo), p, done, block, start)
  {
  }

  lemma TransferKeepsPlan(w: World, p: seq<byte>, done: nat, block: bool, start: World)
    requires Chain(w) && WritePlan(w, p, done, block, start)
    requires w.m.w.pc.WCopy? || w.m.w.pc.WStore?
    ensures WritePlan(Step(w, WGo), p, done, block, start)
  {
  }

  lemma OthersKeepPlan(w: World, a: Action, p: seq<byte>, done: nat, block: bool, start: World)
    requires Chain(w) && WritePlan(w, p, done, block, start) && Enabled(w.m, a) && !a.WGo?
    ensures WritePlan(Step(w, a), p, done, block, start) && Step(w, a).m.w.pc == w.m.w.pc
  {
  }

  lemma WritePlanStays(w: World, a: Action, p: seq<byte>, done: nat, block: bool, start: World)
    requires Inv(w) && WritePlan(w, p, done, block, start) && Enabled(w.m, a)
    requires Trying(Step(w, a).m.w.pc, p, done, block)
    ensures WritePlan(Step(w, a), p, done, block, start)
  {
    if !a.WGo? {
      OthersKeepPlan(w, a, p, done, block, start);
    } else if w.m.w.pc.WTop? || w.m.w.pc.WLoad? {
      DistancesAreTrue(w);
      DecisionKeepsPlan(w, p, done, block, start);
    } else if !w.m.w.pc.WWake? {
      TransferKeepsPlan(w, p, done, block, start);
    }
  }

  lemma WritePlanStarts(w: World, p: seq<byte>, done: nat, block: bool)
    requires Inv(w) && w.m.w.pc == WTop(p, done, block) && !w.m.w.closed
    ensures WritePlan(w, p, done, block, w) && w.h.pubTail - w.h.pubHead <= w.m.cap && done <= |p|
  {
  }

  lemma {:induction false} WritePlanHolds(
    ws: seq<World>, acts: seq<Action>, i: nat, j: nat, p: seq<byte>, done: nat, block: bool)
    requires InTryWrite(ws, acts, i, j, p, done, block)
    ensures WritePlan(ws[j], p, done, block, ws[i])
    ensures ws[i].h.pubTail - ws[i].h.pubHead <= ws[i].m.cap && done <= |p|
    decreases j
  {
    if i == j {
      RunKeeps(ws, acts, i);
      WritePlanStarts(ws[i], p, done, block);
    } else {
      WritePlanHolds(ws, acts, i, j - 1, p, done, block);
      RunKeeps(ws, acts, j - 1);
      assert TakesStep(ws, acts, j - 1);
      WritePlanStays(ws[j - 1], acts[j - 1], p, done, block, ws[i]);
    }
  }

  /** Where an attempt that has published `n` bytes leaves the call: TryWrite returns; a blocking write goes
      on to its next attempt, or to wait if nothing fitted. */
  ghost predicate WriteLeaves(w: World, a: Action, p: seq<byte>, done: nat, block: bool, n: int)
    requires Enabled(w.m, a)
  {
    var pc := Step(w, a).m.w.pc;
    if !block || done >= |p| then
      pc.WIdle? && n >= 0 && Finished(w.m, a) == [WriteCall(p, done + n, block, Returned)]
    else if n > 0 then pc == WTop(p, done + n, true) && Finished(w.m, a) == []
    else n == 0 && pc == WWait(p, done) && Finished(w.m, a) == []
  }

  /** The attempt ends with this step, within its bounds. */
  ghost predicate WriteStopsWell(w: World, p: seq<byte>, done: nat, block: bool, start: World)
    requires Enabled(w.m, WGo)
  {
    var n := Step(w, WGo).h.pubTail - start.h.pubTail;
    && Fits(|p| - done, start.m.cap, start.h.pubTail - start.h.pubHead) <= n
    && n <= Fits(|p| - done, start.m.cap, start.h.pubTail - w.h.pubHead)
    && WriteLeaves(w, WGo, p, done, block, n)
  }

  lemma DecisionStops(w: World, p: seq<byte>, done: nat, block: bool, start: World)
    requires Chain(w) && TrueDistances(w) && WritePlan(w, p, done, block, start)
    requires (w.m.w.pc.WTop? || w.m.w.pc.WLoad?) && !Trying(Step(w, WGo).m.w.pc, p, done, block)
    requires start.h.pubTail - start.h.pubHead <= start.m.cap && done <= |p|
    ensures WriteStopsWell(w, p, done, block, start)
  {
  }

  lemma WakeStops(w: World, p: seq<byte>, done: nat, block: bool, start: World)
    requires Chain(w) && WritePlan(w, p, done, block, start) && w.m.w.pc.WWake? && done <= |p|
    requires start.h.pubTail - start.h.pubHead <= start.m.cap
    ensures WriteStopsWell(w, p, done, block, start)
  {
  }

  lemma WriteStops(w: World, a: Action, p: seq<byte>, done: nat, block: bool, start: World)
    requires Inv(w) && WritePlan(w, p, done, block, start) && Enabled(w.m, a)
    requires !Trying(Step(w, a).m.w.pc, p, done, block)
    requires start.h.pubTail - start.h.pubHead <= start.m.cap && done <= |p|
    ensures a.WGo? && WriteStopsWell(w, p, done, block, start)
  {
    if !a.WGo? {
      OthersKeepPlan(w, a, p, done, block, start);
    } else if w.m.w.pc.WWake? {
      WakeStops(w, p, done, block, start);
    } else {
      DistancesAreTrue(w);
      DecisionStops(w, p, done, block, start);
    }
  }

  /** An attempt on an open ring takes no less than what was free when it began and no more than what is
      free when it ends, so with no read in between exactly min(len, free): the cached head never makes it
      refuse or overrun. It returns, goes on or waits accordingly, and never fails. */
  lemma TryWriteTakesWhatFits(
    ws: seq<World>, acts: seq<Action>, i: nat, j: nat, p: seq<byte>, done: nat, block: bool)
    requires InTryWrite(ws, acts, i, j, p, done, block)
    requires j < |acts| && !Trying(ws[j + 1].m.w.pc, p, done, block)
    ensures var n := ws[j + 1].h.pubTail - ws[i].h.pubTail;
            && Fits(|p| - done, ws[i].m.cap, ws[i].h.pubTail - ws[i].h.pubHead) <= n
            && n <= Fits(|p| - done, ws[i].m.cap, ws[i].h.pubTail - ws[j].h.pubHead)
            && (ws[i].h.pubHead == ws[j].h.pubHead ==>
                  n == Fits(|p| - done, ws[i].m.cap, ws[i].h.pubTail - ws[i].h.pubHead))
            && Enabled(ws[j].m, acts[j]) && WriteLeaves(ws[j], acts[j], p, done, block, n)
  {
    WritePlanHolds(ws, acts, i, j, p, done, block);
    RunKeeps(ws, acts, j);
    assert TakesStep(ws, acts, j);
    WriteStops(ws[j], acts[j], p, done, block, ws[i]);
  }

  // ---- Reading -----------------------------------------------------------------------

  /** The Reader is at the entry of TryRead into a slice of `len` bytes, or inside it. */
  predicate TryingToRead(pc: ReaderPc, len: nat, block: bool) {
    pc == RTop(len, block) || pc.RLoad? || pc.RLoadClosed? || pc.RCopy? || pc.RStore? || pc.RWake?
  }

  ghost predicate InTryRead(ws: seq<World>, acts: seq<Action>, i: nat, j: nat, len: nat, block: bool) {
    && IsRun(ws, acts) && i <= j < |ws|
    && ws[i].m.r.pc == RTop(len, block)
    && forall k :: i <= k <= j ==> TryingToRead(ws[k].m.r.pc, len, block)
  }

  ghost predicate ReadPlan(w: World, len: nat, block: bool, start: World) {
    var least := Min(len, start.h.pubTail - start.h.pubHead);
    && start.h.pubTail <= w.h.pubTail
    && match w.m.r.pc
       case RTop(n, b) => n == len && b == block && w.h.head == start.h.pubHead
       case RLoad(n, b) => n == len && b == block && w.h.head == start.h.pubHead
       case RLoadClosed(n, b) => n == len && b == block && w.h.head == start.h.pubHead && least == 0
       case RCopy(size, _, n) => size == len && least <= n <= len && w.h.head == start.h.pubHead
       case RStore(n) => least <= n <= len && w.h.head == start.h.pubHead + n
       case RWake => least <= w.h.head - start.h.pubHead <= len && w.h.head > start.h.pubHead
       case _ => false
  }

  lemma ReaderKeepsPlan(w: World, len: nat, block: bool, start: World)
    requires Chain(w) && TrueDistances(w) && ReadPlan(w, len, block, start) && start.h.pubHead <= start.h.pubTail
    requires Enabled(w.m, RGo) && TryingToRead(Step(w, RGo).m.r.pc, len, block)
    ensures ReadPlan(Step(w, RGo), len, block, start)
  {
  }

  lemma OthersKeepReadPlan(w: World, a: Action, len: nat, block: bool, start: World)
    requires Inv(w) && ReadPlan(w, len, block, start) && Enabled(w.m, a) && !a.RGo?
    ensures ReadPlan(Step(w, a), len, block, start) && Step(w, a).m.r.pc == w.m.r.pc
  {
    StepIsLater(w, a);
  }

  lemma ReadPlanNext(ws: seq<World>, acts: seq<Action>, k: nat, len: nat, block: bool, start: World)
    requires IsRun(ws, acts) && k < |acts| && ReadPlan(ws[k], len, block, start)
    requires TryingToRead(ws[k + 1].m.r.pc, len, block) && start.h.pubHead <= start.h.pubTail
    ensures ReadPlan(ws[k + 1], len, block, start)
  {
    RunKeeps(ws, acts, k);
    assert TakesStep(ws, acts, k);
    if acts[k].RGo? {
      DistancesAreTrue(ws[k]);
      ReaderKeepsPlan(ws[k], len, block, start);
    } else {
      OthersKeepReadPlan(ws[k], acts[k], len, block, start);
    }
  }

  lemma ReadPlanStarts(w: World, len: nat, block: bool)
    requires Inv(w) && w.m.r.pc == RTop(len, block)
    ensures ReadPlan(w, len, block, w) && w.h.pubHead <= w.h.pubTail
  {
  }

  lemma {:induction false} ReadPlanHolds(
    ws: seq<World>, acts: seq<Action>, i: nat, j: nat, len: nat, block: bool)
    requires InTryRead(ws, acts, i, j, len, block)
    ensures ReadPlan(ws[j], len, block, ws[i]) && ws[i].h.pubHead <= ws[i].h.pubTail
    decreases j
  {
    if i == j {
      RunKeeps(ws, acts, i);
      ReadPlanStarts(ws[i], len, block);
    } else {
      ReadPlanHolds(ws, acts, i, j - 1, len, block);
      ReadPlanNext(ws, acts, j - 1, len, block, ws[i]);
    }
  }

  /** Where an attempt that has delivered `n` bytes leaves the call: TryRead returns; so does a blocking read
      that has bytes, or EOF, or an empty buffer; and otherwise it goes on to wait. */
  ghost predicate ReadLeaves(w: World, len: nat, block: bool, n: int)
    requires Enabled(w.m, RGo)
  {
    var pc := Step(w, RGo).m.r.pc;
    if n > 0 || len == 0 then pc.RIdle? && !ReturnsEof(w.m)
    else w.m.r.pc.RLoadClosed? && pc == if block && w.m.sh.closed == 0 then RWait(len) else RIdle
  }

  lemma ReadStops(w: World, a: Action, len: nat, block: bool, start: World)
    requires Chain(w) && TrueDistances(w) && ReadPlan(w, len, block, start) && Enabled(w.m, a)
    requires !TryingToRead(Step(w, a).m.r.pc, len, block) && start.h.pubHead <= start.h.pubTail
    ensures var n := Step(w, a).h.head - start.h.pubHead;
            && Min(len, start.h.pubTail - start.h.pubHead) <= n <= Min(len, w.h.pubTail - start.h.pubHead)
            && a.RGo? && ReadLeaves(w, len, block, n)
  {
  }

  lemma GotIsHead(ws: seq<World>, acts: seq<Action>, i: nat)
    requires IsRun(ws, acts) && i < |ws|
    ensures |ws[i].h.got| == ws[i].h.head
    ensures !ws[i].m.r.pc.RStore? ==> ws[i].h.pubHead == ws[i].h.head
  {
    RunKeeps(ws, acts, i);
  }

  /** An attempt delivers no less than what was there when it began and no more than what is there when it
      ends; with no write in between, exactly min(len, available). It returns or waits accordingly. */
  lemma TryReadTakesWhatIsThere(ws: seq<World>, acts: seq<Action>, i: nat, j: nat, len: nat, block: bool)
    requires InTryRead(ws, acts, i, j, len, block)
    requires j < |acts| && !TryingToRead(ws[j + 1].m.r.pc, len, block)
    ensures ws[i].h.got <= ws[j + 1].h.got
    ensures var n := |ws[j + 1].h.got| - |ws[i].h.got|;
            && Min(len, ws[i].h.pubTail - ws[i].h.pubHead) <= n
            && n <= Min(len, ws[j].h.pubTail - ws[i].h.pubHead)
            && (ws[i].h.pubTail == ws[j].h.pubTail ==> n == Min(len, ws[i].h.pubTail - ws[i].h.pubHead))
            && acts[j].RGo? && Enabled(ws[j].m, RGo) && ReadLeaves(ws[j], len, block, n)
  {
    ReadPlanHolds(ws, acts, i, j, len, block);
    RunKeeps(ws, acts, j);
    assert TakesStep(ws, acts, j);
    DistancesAreTrue(ws[j]);
    ReadStops(ws[j], acts[j], len, block, ws[i]);
    GotIsHead(ws, acts, i);
    GotIsHead(ws, acts, j + 1);
    RunIsLater(ws, acts, i, j + 1);
  }

  /** At most how many of its own steps the attempt has left. */
  function ReadLeft(pc: ReaderPc): int {
    match pc
    case RTop(len, _) => len + 5
    case RLoad(len, _) => len + 4
    case RLoadClosed(_, _) => 1
    case RCopy(_, buf, n) => n - |buf| + 3
    case RStore(_) => 2
    case RWake => 1
    case _ => 0
  }

  lemma ReadGetsOn(w: World, a: Action, len: nat, block: bool)
    requires Chain(w) && TrueDistances(w) && Enabled(w.m, a) && TryingToRead(w.m.r.pc, len, block)
    ensures ReadLeft(w.m.r.pc) > 0
    ensures ReadLeft(Step(w, a).m.r.pc) <= ReadLeft(w.m.r.pc) - if a.RGo? then 1 else 0
    ensures !a.RGo? ==> Step(w, a).m.r.pc == w.m.r.pc
  {
  }

  lemma {:induction false} ReadAttemptSoFar(ws: seq<World>, acts: seq<Action>, i: nat, l: nat, len: nat, block: bool)
    returns (j: nat)
    requires IsRun(ws, acts) && i <= l < |ws| && TryingToRead(ws[i].m.r.pc, len, block)
    ensures i <= j <= l && forall k :: i <= k <= j ==> TryingToRead(ws[k].m.r.pc, len, block)
    ensures j < l ==> acts[j].RGo? && !TryingToRead(ws[j + 1].m.r.pc, len, block)
    ensures j == l ==> Count(acts, i, l, ReaderGoes) + ReadLeft(ws[l].m.r.pc) <= ReadLeft(ws[i].m.r.pc)
    decreases l
  {
    j := i;
    if i < l {
      j := ReadAttemptSoFar(ws, acts, i, l - 1, len, block);
      if j == l - 1 {
        RunKeeps(ws, acts, j);
        assert TakesStep(ws, acts, j);
        DistancesAreTrue(ws[j]);
        ReadGetsOn(ws[j], acts[j], len, block);
        j := if TryingToRead(ws[l].m.r.pc, len, block) then l else j;
      }
    }
  }

  /** An attempt to read ends within len + 5 steps of the Reader, whatever the Writer does meanwhile. */
  lemma ReadAttemptEnds(ws: seq<World>, acts: seq<Action>, i: nat, l: nat, len: nat, block: bool)
    returns (j: nat)
    requires IsRun(ws, acts) && i <= l < |ws| && ws[i].m.r.pc == RTop(len, block)
    requires Count(acts, i, l, ReaderGoes) >= len + 5
    ensures j < l && InTryRead(ws, acts, i, j, len, block) && !TryingToRead(ws[j + 1].m.r.pc, len, block)
  {
    j := ReadAttemptSoFar(ws, acts, i, l, len, block);
    if j == l {
      RunKeeps(ws, acts, l);
      DistancesAreTrue(ws[l]);
      ReadLeftIsPositive(ws[l], len, block);
    }
  }

  lemma ReadLeftIsPositive(w: World, len: nat, block: bool)
    requires Chain(w) && TryingToRead(w.m.r.pc, len, block)
    ensures ReadLeft(w.m.r.pc) > 0
  {
  }
}

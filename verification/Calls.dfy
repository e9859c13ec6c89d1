/** Whole calls in a run, from the action that begins one to the step that returns: how they end, what
    they report, and that they do end. */
module Calls {
  import opened Words
  import opened Counting
  import opened Protocol
  import opened Invariant
  import opened Safety
  import opened Attempts

  // ---- Reading: how a call ends ------------------------------------------------------

  /** Action `b` begins a read into `len` bytes, and at `i` the Reader is still in it. */
  ghost predicate ReadCall(ws: seq<World>, acts: seq<Action>, b: nat, i: nat, len: nat, block: bool) {
    && IsRun(ws, acts) && b < i < |ws| && acts[b] == RBegin(len, block)
    && forall k :: b < k <= i ==> !ws[k].m.r.pc.RIdle?
  }

  /** A position in such a read, which began when `was` had been delivered. */
  ghost predicate InRead(pc: ReaderPc, got: seq<byte>, was: seq<byte>, len: nat, block: bool) {
    match pc
    case RIdle => false
    case RTop(l, b) => l == len && b == block && got == was
    case RLoad(l, b) => l == len && b == block && got == was
    case RLoadClosed(l, b) => l == len && b == block && got == was
    case RCopy(l, _, n) => l == len && 0 < n <= len && got == was
    case RStore(n) => 0 < n <= len && was <= got && |got| == |was| + n
    case RWake => was <= got && 0 < |got| - |was| <= len
    case RWait(l) => l == len && block && got == was
    case RParked(l) => l == len && block && got == was
  }

  lemma ReadGoesOn(w: World, a: Action, was: seq<byte>, len: nat, block: bool)
    requires Chain(w) && TrueDistances(w) && Enabled(w.m, a) && InRead(w.m.r.pc, w.h.got, was, len, block)
    ensures var r := Step(w, a); r.m.r.pc.RIdle? || InRead(r.m.r.pc, r.h.got, was, len, block)
  {
  }

  lemma {:induction false} ReadSoFar(ws: seq<World>, acts: seq<Action>, b: nat, i: nat, len: nat, block: bool)
    requires ReadCall(ws, acts, b, i, len, block)
    ensures InRead(ws[i].m.r.pc, ws[i].h.got, ws[b].h.got, len, block)
    decreases i
  {
    assert TakesStep(ws, acts, i - 1);
    if b + 1 < i {
      ReadSoFar(ws, acts, b, i - 1, len, block);
      CountersStayOrdered(ws, acts, i - 1);
      RunKeeps(ws, acts, i - 1);
      ReadGoesOn(ws[i - 1], acts[i - 1], ws[b].h.got, len, block);
    }
  }

  /** The attempt that a read is in, before which it has delivered nothing. */
  lemma {:induction false} LastAttempt(ws: seq<World>, acts: seq<Action>, b: nat, i: nat, len: nat, block: bool)
    returns (t: nat)
    requires ReadCall(ws, acts, b, i, len, block) && TryingToRead(ws[i].m.r.pc, len, block)
    ensures b < t && InTryRead(ws, acts, t, i, len, block) && ws[t].h.got == ws[b].h.got
    decreases i
  {
    ReadSoFar(ws, acts, b, i, len, block);
    if ws[i].m.r.pc == RTop(len, block) {
      t := i;
    } else {
      assert TakesStep(ws, acts, i - 1);
      if b + 1 < i {
        ReadSoFar(ws, acts, b, i - 1, len, block);
        t := LastAttempt(ws, acts, b, i - 1, len, block);
      }
    }
  }

  /** What the last step of a read makes of it. */
  lemma ReadIsOver(w: World, a: Action, was: seq<byte>, len: nat, block: bool)
    requires Chain(w) && TrueDistances(w) && Enabled(w.m, a) && InRead(w.m.r.pc, w.h.got, was, len, block)
    requires Step(w, a).m.r.pc.RIdle?
    ensures Step(w, a).h.got == w.h.got
    ensures if a.RCancel? then w.h.got == was && block && len > 0 else a.RGo? && TryingToRead(w.m.r.pc, len, block)
  {
  }

  lemma LastAttemptTakes(ws: seq<World>, acts: seq<Action>, b: nat, i: nat, len: nat, block: bool)
    returns (t: nat)
    requires ReadCall(ws, acts, b, i, len, block) && i < |acts| && ws[i + 1].m.r.pc.RIdle?
    requires TryingToRead(ws[i].m.r.pc, len, block)
    ensures b < t && InTryRead(ws, acts, t, i, len, block)
    ensures var n := |ws[i + 1].h.got| - |ws[b].h.got|;
            && Min(len, ws[t].h.pubTail - ws[t].h.pubHead) <= n <= len
            && (n > 0 || len == 0 || ReturnsEof(ws[i].m) || (!block && ws[i].m.sh.closed == 0))
            && (ReturnsEof(ws[i].m) ==> n == 0 && len > 0)
  {
    t := LastAttempt(ws, acts, b, i, len, block);
    TryReadTakesWhatIsThere(ws, acts, t, i, len, block);
    assert TakesStep(ws, acts, i);
  }

  lemma ReadIsOverInRun(ws: seq<World>, acts: seq<Action>, b: nat, i: nat, len: nat, block: bool)
    requires ReadCall(ws, acts, b, i, len, block) && i < |acts| && ws[i + 1].m.r.pc.RIdle?
    ensures if acts[i].RCancel? then ws[i + 1].h.got == ws[b].h.got && block && len > 0
            else acts[i].RGo? && TryingToRead(ws[i].m.r.pc, len, block)
  {
    ReadSoFar(ws, acts, b, i, len, block);
    CountersStayOrdered(ws, acts, i);
    RunKeeps(ws, acts, i);
    assert TakesStep(ws, acts, i);
    ReadIsOver(ws[i], acts[i], ws[b].h.got, len, block);
  }

  /** A read returns in one of five ways. It has delivered between one and `len` bytes of the stream, at
      least what its last attempt found; or its buffer is empty; or it reports EOF; or, not blocking, it has
      found the ring empty and open; or, blocking, its context was done while it waited. */
  lemma ReadReturns(ws: seq<World>, acts: seq<Action>, b: nat, i: nat, len: nat, block: bool) returns (t: nat)
    requires ReadCall(ws, acts, b, i, len, block) && i < |acts| && ws[i + 1].m.r.pc.RIdle?
    ensures ws[b].h.got <= ws[i + 1].h.got <= Published(ws[i + 1])
    ensures var n := |ws[i + 1].h.got| - |ws[b].h.got|;
            if acts[i].RCancel? then n == 0 && block && len > 0
            else
              && acts[i].RGo? && b < t && InTryRead(ws, acts, t, i, len, block)
              && Min(len, ws[t].h.pubTail - ws[t].h.pubHead) <= n <= len
              && (n > 0 || len == 0 || ReturnsEof(ws[i].m) || (!block && ws[i].m.sh.closed == 0))
              && (ReturnsEof(ws[i].m) ==> n == 0 && len > 0)
  {
    t := b;
    ReadIsOverInRun(ws, acts, b, i, len, block);
    FifoInEveryRun(ws, acts, i + 1);
    RunIsLater(ws, acts, b, i + 1);
    if !acts[i].RCancel? {
      t := LastAttemptTakes(ws, acts, b, i, len, block);
    }
  }

  /** EOF ends the read that meets it, with nothing more delivered. */
  lemma EofReturns(ws: seq<World>, acts: seq<Action>, j: nat)
    requires IsRun(ws, acts) && j < |acts| && acts[j].RGo? && ReturnsEof(ws[j].m)
    ensures ws[j + 1].m.r.pc.RIdle? && ws[j + 1].h.got == ws[j].h.got && ws[j + 1].h.eof
  {
    assert TakesStep(ws, acts, j);
  }

  // ---- Reading: that a call ends -----------------------------------------------------

  /** The Reader is in a read and not asleep, and there is something to read, or it has read it. */
  ghost predicate Finds(w: World) {
    && !w.m.r.pc.RIdle? && !w.m.r.pc.RParked?
    && (w.m.r.pc.RStore? || w.m.r.pc.RWake? || w.h.head < w.h.pubTail)
  }

  /** At most how many actions such a read takes to return: no more than len + 7. */
  function ReadWay(pc: ReaderPc): int {
    match pc
    case RTop(len, _) => len + 5
    case RLoad(len, _) => len + 4
    case RLoadClosed(len, _) => len + 7
    case RCopy(_, buf, n) => n - |buf| + 3
    case RStore(_) => 2
    case RWake => 1
    case RWait(len) => len + 6
    case _ => 0
  }

  lemma FinderGetsOn(w: World, a: Action)
    requires Chain(w) && TrueDistances(w) && Enabled(w.m, a) && Finds(w) && !a.WGo?
    ensures !Step(w, a).m.r.pc.RIdle? ==> Finds(Step(w, a))
    ensures ReadWay(Step(w, a).m.r.pc) <= ReadWay(w.m.r.pc) - if ReaderActs(a) then 1 else 0
    ensures Step(w, a).m.r.pc.RIdle? ==> ReaderActs(a)
  {
  }

  lemma FinderStays(w: World)
    requires Inv(w) && Finds(w) && Enabled(w.m, WGo)
    ensures Finds(Step(w, WGo)) && Step(w, WGo).m.r.pc == w.m.r.pc
  {
    StepIsLater(w, WGo);
  }

  lemma FinderNext(ws: seq<World>, acts: seq<Action>, k: nat)
    requires IsRun(ws, acts) && k < |acts| && Finds(ws[k])
    ensures ReadWay(ws[k + 1].m.r.pc) <= ReadWay(ws[k].m.r.pc) - if ReaderActs(acts[k]) then 1 else 0
    ensures if ws[k + 1].m.r.pc.RIdle? then ReaderActs(acts[k]) else Finds(ws[k + 1])
  {
    RunKeeps(ws, acts, k);
    assert TakesStep(ws, acts, k);
    if acts[k].WGo? {
      FinderStays(ws[k]);
    } else {
      DistancesAreTrue(ws[k]);
      FinderGetsOn(ws[k], acts[k]);
    }
  }

  lemma {:induction false} FinderSoFar(ws: seq<World>, acts: seq<Action>, i: nat, l: nat) returns (j: nat)
    requires IsRun(ws, acts) && i <= l < |ws| && Finds(ws[i])
    ensures i <= j <= l && forall k :: i <= k <= j ==> Finds(ws[k])
    ensures j < l ==> ReaderActs(acts[j]) && ws[j + 1].m.r.pc.RIdle?
    ensures j == l ==> Count(acts, i, l, ReaderActs) + ReadWay(ws[l].m.r.pc) <= ReadWay(ws[i].m.r.pc)
    decreases l
  {
    j := i;
    if i < l {
      j := FinderSoFar(ws, acts, i, l - 1);
      if j == l - 1 {
        FinderNext(ws, acts, j);
        j := if ws[l].m.r.pc.RIdle? then j else l;
      }
    }
  }

  /** Whenever there is something to read, a read that is not asleep returns after so many actions of the
      Reader, and does not fall asleep before. */
  lemma WhatIsThereIsRead(ws: seq<World>, acts: seq<Action>, i: nat, l: nat) returns (j: nat)
    requires IsRun(ws, acts) && i <= l < |ws| && Finds(ws[i])
    requires Count(acts, i, l, ReaderActs) >= ReadWay(ws[i].m.r.pc)
    ensures i <= j < l && ReaderActs(acts[j]) && ws[j + 1].m.r.pc.RIdle?
    ensures forall k :: i <= k <= j ==> !ws[k].m.r.pc.RIdle? && !ws[k].m.r.pc.RParked?
  {
    j := FinderSoFar(ws, acts, i, l);
    if j == l {
      RunKeeps(ws, acts, l);
      FinderHasAWay(ws[l]);
    }
  }

  lemma FinderHasAWay(w: World)
    requires Chain(w) && Finds(w)
    ensures ReadWay(w.m.r.pc) > 0
  {
  }

  // ---- Writing: how a call ends ------------------------------------------------------

  /** Action `b` begins a write of `p`, and at `i` the Writer is still in it. */
  ghost predicate WriteSpan(ws: seq<World>, acts: seq<Action>, b: nat, i: nat, p: seq<byte>, block: bool) {
    && IsRun(ws, acts) && b < i < |ws| && acts[b] == WBegin(p, block)
    && forall k :: b < k <= i ==> !ws[k].m.w.pc.WIdle?
  }

  /** A position in such a write. */
  predicate InWrite(pc: WriterPc, closed: bool, p: seq<byte>, block: bool) {
    match pc
    case WTop(q, done, b) => q == p && b == block && done <= |p| && (closed || !block ==> done == 0)
    case WLoad(q, done, b) => q == p && b == block && done < |p| && !closed && (!block ==> done == 0)
    case WCopy(q, done, b, n, i) =>
      q == p && b == block && i <= n && 0 < n && done + n <= |p| && !closed && (!block ==> done == 0)
    case WStore(q, done, b, n) => q == p && b == block && 0 < n && done + n <= |p| && !closed && (!block ==> done == 0)
    case WWake(q, done, b) => q == p && b == block && 0 < done <= |p| && !closed
    case WWait(q, done) => q == p && block && done < |p| && !closed
    case WParked(q, done) => q == p && block && done < |p| && !closed
    case _ => false
  }

  lemma WriterGoesOn(w: World, p: seq<byte>, block: bool)
    requires Chain(w) && TrueDistances(w) && Enabled(w.m, WGo) && InWrite(w.m.w.pc, w.m.w.closed, p, block)
    ensures Step(w, WGo).m.w.closed == w.m.w.closed
    ensures !Step(w, WGo).m.w.pc.WIdle? ==>
              InWrite(Step(w, WGo).m.w.pc, w.m.w.closed, p, block) && Finished(w.m, WGo) == []
  {
  }

  lemma WriteGoesOn(w: World, a: Action, p: seq<byte>, block: bool)
    requires Chain(w) && TrueDistances(w) && Enabled(w.m, a) && InWrite(w.m.w.pc, w.m.w.closed, p, block)
    ensures Step(w, a).m.w.closed == w.m.w.closed
    ensures !Step(w, a).m.w.pc.WIdle? ==>
              InWrite(Step(w, a).m.w.pc, w.m.w.closed, p, block) && Finished(w.m, a) == []
  {
    if a.WGo? {
      WriterGoesOn(w, p, block);
    }
  }

  /** What the last step of a write reports. */
  ghost predicate WriteReport(c: WriteCall, a: Action, closed: bool, p: seq<byte>, block: bool) {
    && c.p == p && c.block == block && c.n <= |p|
    && (c.result.Canceled? <==> a.WCancel?) && (a.WCancel? ==> block && !closed && c.n < |p|)
    && (c.result.ErrClosed? <==> closed && !(block && p == [])) && (closed ==> c.n == 0)
    && (c.result.Returned? && block ==> c.n == |p|)
  }

  lemma WriteIsOver(w: World, a: Action, p: seq<byte>, block: bool) returns (c: WriteCall)
    requires Chain(w) && TrueDistances(w) && Enabled(w.m, a) && InWrite(w.m.w.pc, w.m.w.closed, p, block)
    requires Step(w, a).m.w.pc.WIdle?
    ensures Finished(w.m, a) == [c] && WriteReport(c, a, w.m.w.closed, p, block)
  {
    c := Finished(w.m, a)[0];
  }

  lemma WriteNext(ws: seq<World>, acts: seq<Action>, k: nat, p: seq<byte>, block: bool)
    requires IsRun(ws, acts) && k < |acts| && InWrite(ws[k].m.w.pc, ws[k].m.w.closed, p, block)
    ensures ws[k + 1].m.w.closed == ws[k].m.w.closed && ws[k + 1].h.calls == ws[k].h.calls + Finished(ws[k].m, acts[k])
    ensures !ws[k + 1].m.w.pc.WIdle? ==>
              InWrite(ws[k + 1].m.w.pc, ws[k].m.w.closed, p, block) && Finished(ws[k].m, acts[k]) == []
  {
    CountersStayOrdered(ws, acts, k);
    RunKeeps(ws, acts, k);
    assert TakesStep(ws, acts, k);
    WriteGoesOn(ws[k], acts[k], p, block);
  }

  lemma WriteStarts(ws: seq<World>, acts: seq<Action>, b: nat)
    requires IsRun(ws, acts) && b < |acts| && acts[b].WBegin?
    ensures InWrite(ws[b + 1].m.w.pc, ws[b].m.w.closed, acts[b].p, acts[b].block)
    ensures ws[b + 1].m.w.closed == ws[b].m.w.closed && ws[b + 1].h.calls == ws[b].h.calls
    ensures ws[b].h.log == Accepted(ws[b].h.calls)
  {
    RunKeeps(ws, acts, b);
    assert TakesStep(ws, acts, b);
  }

  lemma {:induction false} WriteSoFar(ws: seq<World>, acts: seq<Action>, b: nat, i: nat, p: seq<byte>, block: bool)
    requires WriteSpan(ws, acts, b, i, p, block)
    ensures InWrite(ws[i].m.w.pc, ws[b].m.w.closed, p, block)
    ensures ws[i].m.w.closed == ws[b].m.w.closed && ws[i].h.calls == ws[b].h.calls
    decreases i
  {
    if b + 1 == i {
      WriteStarts(ws, acts, b);
    } else {
      WriteSoFar(ws, acts, b, i - 1, p, block);
      WriteNext(ws, acts, i - 1, p, block);
    }
  }

  lemma WriteIsOverInRun(ws: seq<World>, acts: seq<Action>, i: nat, p: seq<byte>, block: bool) returns (c: WriteCall)
    requires IsRun(ws, acts) && i < |acts| && InWrite(ws[i].m.w.pc, ws[i].m.w.closed, p, block)
    requires ws[i + 1].m.w.pc.WIdle?
    ensures Finished(ws[i].m, acts[i]) == [c] && WriteReport(c, acts[i], ws[i].m.w.closed, p, block)
  {
    CountersStayOrdered(ws, acts, i);
    RunKeeps(ws, acts, i);
    assert TakesStep(ws, acts, i);
    c := WriteIsOver(ws[i], acts[i], p, block);
  }

  /** Every write that returns reports once, about its own bytes: it was refused exactly when the ring was
      closed as it began, was canceled exactly when its context was done, and otherwise, if it blocks, has
      written everything. What it reports is what it added to the stream, all of it published. */
  lemma WriteReturns(ws: seq<World>, acts: seq<Action>, b: nat, i: nat, p: seq<byte>, block: bool)
    returns (c: WriteCall)
    requires WriteSpan(ws, acts, b, i, p, block) && i < |acts| && ws[i + 1].m.w.pc.WIdle?
    ensures Finished(ws[i].m, acts[i]) == [c] && WriteReport(c, acts[i], ws[b].m.w.closed, p, block)
    ensures ws[i + 1].h.calls == ws[b].h.calls + [c]
    ensures ws[i + 1].h.log == ws[b].h.log + p[..c.n] && ws[i + 1].h.pubTail == |ws[i + 1].h.log|
  {
    WriteSoFar(ws, acts, b, i, p, block);
    c := WriteIsOverInRun(ws, acts, i, p, block);
    WriteNext(ws, acts, i, p, block);
    WritesReportTheirPrefix(ws, acts, i, c);
    WriteStarts(ws, acts, b);
  }

  // ---- Writing: that a call ends -----------------------------------------------------

  /** In a write, and neither about to wait nor asleep. */
  predicate Busy(pc: WriterPc) {
    pc.WTop? || pc.WLoad? || pc.WCopy? || pc.WStore? || pc.WWake?
  }

  /** At most how many of its own steps the Writer takes before the write returns or comes to wait: for a
      write of n bytes, 7n + 2. */
  function WriteWay(pc: WriterPc): int {
    match pc
    case WTop(p, done, _) => 7 * (|p| - done) + 2
    case WLoad(p, done, _) => 7 * (|p| - done) + 1
    case WCopy(p, done, _, n, i) => 7 * (|p| - done - n) + (n - i) + 5
    case WStore(p, done, _, n) => 7 * (|p| - done - n) + 4
    case WWake(p, done, _) => 7 * (|p| - done) + 3
    case _ => 0
  }

  lemma BusyGetsOn(w: World)
    requires Chain(w) && TrueDistances(w) && Busy(w.m.w.pc)
    ensures 0 < WriteWay(w.m.w.pc)
    ensures WriteWay(Step(w, WGo).m.w.pc) < WriteWay(w.m.w.pc)
    ensures Busy(Step(w, WGo).m.w.pc) || Step(w, WGo).m.w.pc.WIdle? || Step(w, WGo).m.w.pc.WWait?
  {
  }

  lemma OthersLeaveBusy(w: World, a: Action)
    requires Enabled(w.m, a) && !a.WGo? && Busy(w.m.w.pc)
    ensures Step(w, a).m.w.pc == w.m.w.pc
  {
  }

  lemma BusyNext(ws: seq<World>, acts: seq<Action>, k: nat)
    requires IsRun(ws, acts) && k < |acts| && Busy(ws[k].m.w.pc)
    ensures 0 <= WriteWay(ws[k + 1].m.w.pc) <= WriteWay(ws[k].m.w.pc) - if acts[k].WGo? then 1 else 0
    ensures !Busy(ws[k + 1].m.w.pc) ==> acts[k].WGo? && (ws[k + 1].m.w.pc.WIdle? || ws[k + 1].m.w.pc.WWait?)
  {
    CountersStayOrdered(ws, acts, k);
    CountersStayOrdered(ws, acts, k + 1);
    RunKeeps(ws, acts, k);
    RunKeeps(ws, acts, k + 1);
    assert TakesStep(ws, acts, k);
    BusyGetsOn(ws[k]);
    if Busy(ws[k + 1].m.w.pc) {
      BusyGetsOn(ws[k + 1]);
    }
    if !acts[k].WGo? {
      OthersLeaveBusy(ws[k], acts[k]);
    }
  }

  lemma {:induction false} BusySoFar(ws: seq<World>, acts: seq<Action>, i: nat, l: nat) returns (j: nat)
    requires IsRun(ws, acts) && i <= l < |ws| && Busy(ws[i].m.w.pc)
    ensures i <= j <= l && forall k :: i <= k <= j ==> Busy(ws[k].m.w.pc)
    ensures j < l ==> acts[j].WGo? && (ws[j + 1].m.w.pc.WIdle? || ws[j + 1].m.w.pc.WWait?)
    ensures j == l ==> Count(acts, i, l, WriterGoes) + WriteWay(ws[l].m.w.pc) <= WriteWay(ws[i].m.w.pc)
    decreases l
  {
    j := i;
    if i < l {
      j := BusySoFar(ws, acts, i, l - 1);
      if j == l - 1 {
        BusyNext(ws, acts, j);
        j := if Busy(ws[l].m.w.pc) then l else j;
      }
    }
  }

  /** Left to itself a write returns, or comes to wait for the Reader, within 7n + 2 of its own steps, whatever
      the Reader does meanwhile; a TryWrite never waits. */
  lemma WriteReturnsOrWaits(ws: seq<World>, acts: seq<Action>, b: nat, l: nat, p: seq<byte>, block: bool)
    returns (j: nat)
    requires IsRun(ws, acts) && b < l < |ws| && acts[b] == WBegin(p, block)
    requires Count(acts, b + 1, l, WriterGoes) >= 7 * |p| + 2
    ensures b < j < l && WriteSpan(ws, acts, b, j, p, block) && acts[j].WGo?
    ensures ws[j + 1].m.w.pc.WIdle? || (block && ws[j + 1].m.w.pc.WWait?)
  {
    assert TakesStep(ws, acts, b);
    j := BusySoFar(ws, acts, b + 1, l);
    if j == l {
      RunKeeps(ws, acts, l);
      CountersStayOrdered(ws, acts, l);
      BusyGetsOn(ws[l]);
    }
    WriteSoFar(ws, acts, b, j, p, block);
    WriteNext(ws, acts, j, p, block);
  }

  /** The Writer is in a write and not asleep, and there is room, with `tail` bytes published. */
  ghost predicate HasRoom(w: World, tail: nat) {
    && (Busy(w.m.w.pc) || w.m.w.pc.WWait?) && w.h.pubTail == tail < w.h.pubHead + w.m.cap
  }

  /** At most how many actions such a write takes to publish more or to return: no more than n + 6. */
  function RoomWay(pc: WriterPc): int {
    match pc
    case WTop(p, done, _) => |p| - done + 5
    case WLoad(p, done, _) => |p| - done + 4
    case WCopy(_, _, _, n, i) => n - i + 2
    case WStore(_, _, _, _) => 1
    case WWake(p, done, _) => |p| - done + 6
    case WWait(p, done) => |p| - done + 6
    case _ => 0
  }

  lemma RoomIsMade(w: World, tail: nat)
    requires Chain(w) && TrueDistances(w) && HasRoom(w, tail)
    ensures 0 < RoomWay(w.m.w.pc)
    ensures var w' := Step(w, WGo);
            || w'.m.w.pc.WIdle? || tail < w'.h.pubTail
            || (HasRoom(w', tail) && RoomWay(w'.m.w.pc) < RoomWay(w.m.w.pc))
  {
  }

  lemma RoomStays(w: World, a: Action, tail: nat)
    requires Chain(w) && HasRoom(w, tail) && Enabled(w.m, a) && !a.WGo?
    ensures Step(w, a).m.w.pc.WIdle? ==> WriterActs(a)
    ensures !Step(w, a).m.w.pc.WIdle? ==>
              && HasRoom(Step(w, a), tail)
              && RoomWay(Step(w, a).m.w.pc) <= RoomWay(w.m.w.pc) - if WriterActs(a) then 1 else 0
  {
  }

  lemma RoomNext(ws: seq<World>, acts: seq<Action>, k: nat, tail: nat)
    requires IsRun(ws, acts) && k < |acts| && HasRoom(ws[k], tail)
    ensures HasRoom(ws[k + 1], tail) ==>
              RoomWay(ws[k + 1].m.w.pc) <= RoomWay(ws[k].m.w.pc) - if WriterActs(acts[k]) then 1 else 0
    ensures !HasRoom(ws[k + 1], tail) ==>
              WriterActs(acts[k]) && (ws[k + 1].m.w.pc.WIdle? || tail < ws[k + 1].h.pubTail)
  {
    CountersStayOrdered(ws, acts, k);
    RunKeeps(ws, acts, k);
    assert TakesStep(ws, acts, k);
    RoomIsMade(ws[k], tail);
    if !acts[k].WGo? {
      RoomStays(ws[k], acts[k], tail);
    }
  }

  lemma {:induction false} RoomSoFar(ws: seq<World>, acts: seq<Action>, i: nat, l: nat, tail: nat) returns (j: nat)
    requires IsRun(ws, acts) && i <= l < |ws| && HasRoom(ws[i], tail)
    ensures i <= j <= l && forall k :: i <= k <= j ==> HasRoom(ws[k], tail)
    ensures j < l ==> WriterActs(acts[j]) && (ws[j + 1].m.w.pc.WIdle? || tail < ws[j + 1].h.pubTail)
    ensures j == l ==> Count(acts, i, l, WriterActs) + RoomWay(ws[l].m.w.pc) <= RoomWay(ws[i].m.w.pc)
    decreases l
  {
    j := i;
    if i < l {
      j := RoomSoFar(ws, acts, i, l - 1, tail);
      if j == l - 1 {
        RoomNext(ws, acts, j, tail);
        j := if HasRoom(ws[l], tail) then l else j;
      }
    }
  }

  /** Whenever there is room, a write that is not asleep publishes more, or returns, after so many actions of
      the Writer, and does not fall asleep before. */
  lemma RoomIsUsed(ws: seq<World>, acts: seq<Action>, i: nat, l: nat) returns (j: nat)
    requires IsRun(ws, acts) && i <= l < |ws| && HasRoom(ws[i], ws[i].h.pubTail)
    requires Count(acts, i, l, WriterActs) >= RoomWay(ws[i].m.w.pc)
    ensures i <= j < l && WriterActs(acts[j])
    ensures ws[j + 1].m.w.pc.WIdle? || ws[i].h.pubTail < ws[j + 1].h.pubTail
    ensures forall k :: i <= k <= j ==> !ws[k].m.w.pc.WIdle? && !ws[k].m.w.pc.WParked?
  {
    j := RoomSoFar(ws, acts, i, l, ws[i].h.pubTail);
    if j == l {
      RunKeeps(ws, acts, l);
      CountersStayOrdered(ws, acts, l);
      RoomIsMade(ws[l], ws[i].h.pubTail);
    }
  }

  // ---- Closing -----------------------------------------------------------------------

  /** Where a Close stands after `n` of its four steps. */
  predicate CloseStands(pc: WriterPc, n: nat) {
    match n
    case 0 => pc.WCloseFlag?
    case 1 => pc.WCloseFlagWake?
    case 2 => pc.WCloseTail?
    case 3 => pc.WCloseWake?
    case _ => false
  }

  lemma {:induction false} CloseSoFar(ws: seq<World>, acts: seq<Action>, b: nat, k: nat)
    requires IsRun(ws, acts) && b < k < |ws| && acts[b].WClose? && !ws[b].m.w.closed
    requires Count(acts, b + 1, k, WriterGoes) < 4
    ensures CloseStands(ws[k].m.w.pc, Count(acts, b + 1, k, WriterGoes))
    decreases k
  {
    assert TakesStep(ws, acts, k - 1);
    if b + 1 < k {
      CloseSoFar(ws, acts, b, k - 1);
    }
  }

  lemma CloseStepDoes(ws: seq<World>, acts: seq<Action>, k: nat, n: nat)
    requires IsRun(ws, acts) && k < |acts| && acts[k].WGo? && CloseStands(ws[k].m.w.pc, n)
    ensures n == 0 ==> EffectOf(ws[k].m, acts[k]) == StoreClosed(1) && ws[k + 1].m.sh.closed == 1
    ensures n == 2 ==> EffectOf(ws[k].m, acts[k]) == StoreTail(ws[k].m.sh.tail)
    ensures n == 3 ==> WakesReader(ws[k].m) && ws[k + 1].m.w.pc.WIdle?
  {
    RunKeeps(ws, acts, k);
    assert TakesStep(ws, acts, k);
  }

  /** The first Close raises the flag with its first step, and is over with its fourth, the nudge, which
      follows the store of the unchanged tail; the Reader cannot hold it up. */
  lemma CloseReturns(ws: seq<World>, acts: seq<Action>, b: nat, l: nat) returns (f: nat, t: nat, j: nat)
    requires IsRun(ws, acts) && b < l < |ws| && acts[b].WClose? && !ws[b].m.w.closed
    requires Count(acts, b + 1, l, WriterGoes) >= 4
    ensures b < f < t < j < l && Count(acts, b + 1, j, WriterGoes) == 3
    ensures EffectOf(ws[f].m, acts[f]) == StoreClosed(1) && ws[f + 1].m.sh.closed == 1
    ensures EffectOf(ws[t].m, acts[t]) == StoreTail(ws[t].m.sh.tail)
    ensures acts[j].WGo? && WakesReader(ws[j].m) && ws[j + 1].m.w.pc.WIdle?
  {
    f := CountReaches(acts, b + 1, l, 1, WriterGoes);
    t := CountReaches(acts, b + 1, l, 3, WriterGoes);
    j := CountReaches(acts, b + 1, l, 4, WriterGoes);
    CloseSoFar(ws, acts, b, f);
    CloseSoFar(ws, acts, b, t);
    CloseSoFar(ws, acts, b, j);
    CloseStepDoes(ws, acts, f, 0);
    CloseStepDoes(ws, acts, t, 2);
    CloseStepDoes(ws, acts, j, 3);
    CountOrder(acts, b + 1, f, t, WriterGoes);
    CountOrder(acts, b + 1, t, j, WriterGoes);
  }

  // ---- Canceling ---------------------------------------------------------------------

  /** A done context ends the call that notices it: a read with nothing delivered by the step, a write
      reporting what it had published. */
  lemma CancelReturns(ws: seq<World>, acts: seq<Action>, i: nat)
    requires IsRun(ws, acts) && i < |acts|
    ensures acts[i].RCancel? ==> ws[i + 1].m.r.pc.RIdle? && ws[i + 1].h.got == ws[i].h.got
    ensures acts[i].WCancel? ==>
              && ws[i + 1].m.w.pc.WIdle? && ws[i].m.w.pc.WWait?
              && Finished(ws[i].m, acts[i]) == [WriteCall(ws[i].m.w.pc.p, ws[i].m.w.pc.done, true, Canceled)]
  {
    assert TakesStep(ws, acts, i);
  }

  // ---- What may happen next ----------------------------------------------------------

  /** The callers and the waits are free: wherever a run has come, an idle side may begin any call, a side
      inside one and not asleep may take its next step, a call about to wait may be canceled, and a wait may
      end of itself. */
  lemma EveryMoveIsOpen(ws: seq<World>, acts: seq<Action>, a: Action)
    requires IsRun(ws, acts)
    requires var w, r := ws[|acts|].m.w.pc, ws[|acts|].m.r.pc;
             || (w.WIdle? && (a.WBegin? || a.WClose?))
             || (r.RIdle? && a.RBegin?)
             || (!w.WIdle? && !w.WParked? && a.WGo?)
             || (!r.RIdle? && !r.RParked? && a.RGo?)
             || (w.WWait? && (a.WCancel? || a.WReturn?)) || (w.WParked? && a.WReturn?)
             || (r.RWait? && (a.RCancel? || a.RReturn?)) || (r.RParked? && a.RReturn?)
    ensures Enabled(ws[|acts|].m, a) && IsRun(ws + [Step(ws[|acts|], a)], acts + [a])
  {
    Extend(ws, acts, a, Step(ws[|acts|], a));
  }
}

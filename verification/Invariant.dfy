/** The inductive invariant of the protocol: what every step of either side keeps. */
module Invariant {
  import opened Words
  import opened Protocol

  // ---- The invariant -----------------------------------------------------------------

  /** The order of the unwrapped counters. */
  ghost predicate Ordered(h: History, cap: Capacity) {
    h.seenHead <= h.pubHead <= h.head <= h.seenTail <= h.pubTail <= h.tail <= h.seenHead + cap
  }

  /** What each position in the Writer's code adds to it. */
  ghost predicate WriterAt(pc: WriterPc, h: History, cap: Capacity) {
    && (pc.WStore? || h.tail == h.pubTail)
    && match pc
       case WTop(p, done, _) => done <= |p|
       case WLoad(p, done, _) => done < |p|
       case WCopy(p, done, _, n, i) => i <= n && 0 < n && done + n <= |p| && h.tail + n <= h.seenHead + cap
       case WStore(p, done, _, n) => 0 < n && done + n <= |p| && h.tail == h.pubTail + n
       case WWake(p, done, _) => 0 < done <= |p|
       case WWait(p, done) => done < |p| && h.tail == h.seenHead + cap
       case WParked(p, done) => done < |p| && h.tail == h.seenHead + cap
       case _ => true
  }

  ghost predicate ReaderAt(pc: ReaderPc, h: History) {
    && (pc.RStore? || h.head == h.pubHead)
    && match pc
       case RLoad(len, _) => 0 < len
       case RLoadClosed(len, _) => 0 < len && h.seenTail == h.head
       case RCopy(len, buf, n) => |buf| <= n && 0 < n <= len && h.head + n <= h.seenTail
       case RStore(n) => 0 < n && h.head == h.pubHead + n
       case RWait(len) => 0 < len && h.seenTail == h.head
       case RParked(len) => 0 < len && h.seenTail == h.head
       case _ => true
  }

  ghost predicate Chain(w: World) {
    && Ordered(w.h, w.m.cap) && WriterAt(w.m.w.pc, w.h, w.m.cap) && ReaderAt(w.m.r.pc, w.h)
  }

  /** Every 32-bit word is the matching unwrapped counter modulo 2^32. */
  ghost predicate WordsAgree(w: World) {
    var h, m := w.h, w.m;
    && m.w.tail == h.tail % WORD && m.w.cachedHead == h.seenHead % WORD
    && m.r.head == h.head % WORD && m.r.cachedTail == h.seenTail % WORD
    && m.sh.tail == h.pubTail % WORD && m.sh.head == h.pubHead % WORD
  }

  predicate InClose(pc: WriterPc) {
    pc.WCloseFlag? || pc.WCloseFlagWake? || pc.WCloseTail? || pc.WCloseWake?
  }

  /** The closed flag is 0 until Close stores 1, and only then; a closed Writer is outside every write. */
  ghost predicate ClosedAgrees(w: World) {
    var m := w.m;
    && m.sh.closed == (if m.w.closed && !m.w.pc.WCloseFlag? then 1 else 0)
    && (InClose(m.w.pc) ==> m.w.closed)
    && (m.w.closed ==> m.w.pc.WIdle? || m.w.pc.WTop? || InClose(m.w.pc))
    && (w.h.eof ==> m.sh.closed == 1)
  }

  /** Bytes of `p` that the current call has copied into the ring so far. */
  ghost function InFlight(pc: WriterPc): seq<byte> {
    match pc
    case WTop(p, done, _) => Take(p, done)
    case WLoad(p, done, _) => Take(p, done)
    case WCopy(p, done, _, _, i) => Take(p, done + i)
    case WStore(p, done, _, n) => Take(p, done + n)
    case WWake(p, done, _) => Take(p, done)
    case WWait(p, done) => Take(p, done)
    case WParked(p, done) => Take(p, done)
    case _ => []
  }

  function Take(p: seq<byte>, n: nat): seq<byte> {
    if n <= |p| then p[..n] else p
  }

  /** The bytes that the finished calls reported written, in order. */
  ghost function Accepted(calls: seq<WriteCall>): seq<byte> {
    if calls == [] then []
    else Accepted(calls[..|calls| - 1]) + Take(calls[|calls| - 1].p, calls[|calls| - 1].n)
  }

  /** The log is what the callers handed over: the accepted prefix of every finished call in order,
      then what the current call has copied. A blocking write that returns no error took everything,
      and a write refused because the ring was closed took nothing. */
  ghost predicate CallsAgree(w: World) {
    LogAgrees(w.h.log, w.h.calls, w.m.w.pc) && (w.m.w.closed && w.m.w.pc.WTop? ==> w.m.w.pc.done == 0)
  }

  ghost predicate LogAgrees(log: seq<byte>, calls: seq<WriteCall>, pc: WriterPc) {
    log == Accepted(calls) + InFlight(pc) && forall c :: c in calls ==> GoodCall(c)
  }

  ghost predicate GoodCall(c: WriteCall) {
    && c.n <= |c.p|
    && (c.block && c.result.Returned? ==> c.n == |c.p|)
    && (c.result.ErrClosed? ==> c.n == 0)
  }

  ghost function Copied(w: World): nat {
    w.h.tail + if w.m.w.pc.WCopy? then w.m.w.pc.i else 0
  }

  ghost predicate RingAgrees(w: World) {
    && |w.h.log| == Copied(w)
    && w.h.head <= |w.h.log|
    && Stored(w.m.sh.data, w.h.log, w.h.seenHead, w.m.cap)
    && w.h.got == w.h.log[..w.h.head]
    && (w.m.r.pc.RCopy? ==>
          && w.h.head + |w.m.r.pc.buf| <= |w.h.log|
          && w.m.r.pc.buf == w.h.log[w.h.head..w.h.head + |w.m.r.pc.buf|])
    && !w.m.fault
  }

  /** A parked side has seen everything its peer has stored, unless the peer's wake is still to come. */
  ghost predicate SleepAgrees(w: World) {
    && (w.m.r.pc.RParked? ==> w.h.seenTail == w.h.pubTail || w.m.w.pc.WWake?)
    && (w.m.w.pc.WParked? ==> w.h.seenHead == w.h.pubHead || w.m.r.pc.RWake?)
  }

  ghost predicate Inv(w: World) {
    && Chain(w) && WordsAgree(w) && ClosedAgrees(w) && RingAgrees(w) && CallsAgree(w) && SleepAgrees(w)
  }

  // ---- It holds at the start ---------------------------------------------------------

  lemma InitialKeeps(w: World)
    requires Initial(w)
    ensures Inv(w)
  {
  }

  // ---- Counters and words ------------------------------------------------------------

  /** The distances and comparisons the code makes on wrapped words are the true ones. */
  ghost predicate TrueDistances(w: World) {
    var m, h := w.m, w.h;
    && WrapSub(m.w.tail, m.w.cachedHead) == h.tail - h.seenHead
    && WrapSub(m.w.tail, m.sh.head) == h.tail - h.pubHead
    && WrapSub(m.r.cachedTail, m.r.head) == h.seenTail - h.head
    && WrapSub(m.sh.tail, m.r.head) == h.pubTail - h.head
    && (m.sh.head == m.w.cachedHead <==> h.pubHead == h.seenHead)
    && (m.sh.tail == m.r.cachedTail <==> h.pubTail == h.seenTail)
  }

  lemma DistancesAreTrue(w: World)
    requires Chain(w) && WordsAgree(w)
    ensures TrueDistances(w)
  {
    var h := w.h;
    WrapSubIsDistance(h.tail, h.seenHead);
    WrapSubIsDistance(h.tail, h.pubHead);
    WrapSubIsDistance(h.seenTail, h.head);
    WrapSubIsDistance(h.pubTail, h.head);
    SameWordSameCounter(h.pubHead, h.seenHead);
    SameWordSameCounter(h.pubTail, h.seenTail);
  }

  ghost predicate WriterMoved(m: Machine, h: History)
    requires Enabled(m, WGo)
  {
    var h' := Record(h, m, WGo);
    && Ordered(h', m.cap) && WriterAt(WAfter(m).pc, h', m.cap)
    && h'.head == h.head && h'.pubHead == h.pubHead && h'.seenTail == h.seenTail
  }

  /** Deciding how much fits, with the cached head or with a freshly loaded one. */
  lemma DecisionMoves(m: Machine, h: History)
    requires Chain(World(m, h)) && TrueDistances(World(m, h)) && (m.w.pc.WTop? || m.w.pc.WLoad?)
    ensures WriterMoved(m, h)
  {
    assert Free(m.cap, m.w.tail, m.w.cachedHead) == m.cap - (h.tail - h.seenHead);
    assert Free(m.cap, m.w.tail, m.sh.head) == m.cap - (h.tail - h.pubHead);
  }

  lemma TransferMoves(m: Machine, h: History)
    requires Chain(World(m, h)) && TrueDistances(World(m, h))
    requires Enabled(m, WGo) && !m.w.pc.WTop? && !m.w.pc.WLoad?
    ensures WriterMoved(m, h)
  {
  }

  lemma WriterKeepsChain(w: World)
    requires Chain(w) && TrueDistances(w) && Enabled(w.m, WGo)
    ensures Chain(Step(w, WGo))
  {
    if w.m.w.pc.WTop? || w.m.w.pc.WLoad? {
      DecisionMoves(w.m, w.h);
    } else {
      TransferMoves(w.m, w.h);
    }
  }

  lemma WriterKeepsWords(w: World)
    requires WordsAgree(w) && Enabled(w.m, WGo)
    requires w.m.w.pc.WStore? || w.h.tail == w.h.pubTail
    ensures WordsAgree(Step(w, WGo))
  {
    if w.m.w.pc.WCopy? {
      WrapAddTracks(w.h.tail, w.m.w.pc.n);
    }
  }

  lemma WriterKeepsFlags(w: World)
    requires Chain(w) && TrueDistances(w) && ClosedAgrees(w) && SleepAgrees(w) && Enabled(w.m, WGo)
    ensures ClosedAgrees(Step(w, WGo)) && SleepAgrees(Step(w, WGo))
  {
  }

  ghost predicate ReaderMoved(m: Machine, h: History)
    requires Enabled(m, RGo)
  {
    var h' := Record(h, m, RGo);
    && Ordered(h', m.cap) && ReaderAt(RAfter(m).pc, h')
    && h'.tail == h.tail && h'.pubTail == h.pubTail && h'.seenHead == h.seenHead
  }

  /** Deciding how much there is, with the cached tail or with a freshly loaded one. */
  lemma ReadDecisionMoves(m: Machine, h: History)
    requires Chain(World(m, h)) && TrueDistances(World(m, h)) && (m.r.pc.RTop? || m.r.pc.RLoad?)
    ensures ReaderMoved(m, h)
  {
  }

  lemma ReadTransferMoves(m: Machine, h: History)
    requires Chain(World(m, h)) && Enabled(m, RGo) && !m.r.pc.RTop? && !m.r.pc.RLoad?
    ensures ReaderMoved(m, h)
  {
  }

  lemma ReaderKeepsChain(w: World)
    requires Chain(w) && TrueDistances(w) && Enabled(w.m, RGo)
    ensures Chain(Step(w, RGo))
  {
    if w.m.r.pc.RTop? || w.m.r.pc.RLoad? {
      ReadDecisionMoves(w.m, w.h);
    } else {
      ReadTransferMoves(w.m, w.h);
    }
  }

  lemma ReaderKeepsWords(w: World)
    requires WordsAgree(w) && Enabled(w.m, RGo)
    ensures WordsAgree(Step(w, RGo))
  {
    if w.m.r.pc.RCopy? {
      WrapAddTracks(w.h.head, w.m.r.pc.n);
    }
  }

  lemma ReaderKeepsFlags(w: World)
    requires Chain(w) && TrueDistances(w) && ClosedAgrees(w) && SleepAgrees(w) && Enabled(w.m, RGo)
    ensures ClosedAgrees(Step(w, RGo)) && SleepAgrees(Step(w, RGo))
  {
  }

  // ---- Ring contents -----------------------------------------------------------------

  /** The slots that copy steps touch are the slots of the bytes' positions in the stream. */
  lemma WriteIndexIsSlot(m: Machine, t: nat, i: nat)
    requires m.w.tail == t % WORD && i < m.cap
    ensures WriteIndex(m, i) == Slot(t + i, m.cap)
  {
    IndexIsSlot(t, i, m.cap);
  }

  lemma ReadIndexIsSlot(m: Machine, t: nat, i: nat)
    requires m.r.head == t % WORD && i < m.cap
    ensures ReadIndex(m, i) == Slot(t + i, m.cap)
  {
    IndexIsSlot(t, i, m.cap);
  }

  /** The step puts the next byte of the call into the slot of its place in the stream. */
  lemma CopyLands(w: World)
    requires Chain(w) && WordsAgree(w) && |w.h.log| == Copied(w) && |w.m.sh.data| == w.m.cap
    requires w.m.w.pc.WCopy? && w.m.w.pc.i < w.m.w.pc.n
    ensures var w', pc := Step(w, WGo), w.m.w.pc;
            && pc.done + pc.i < |pc.p| && |w.h.log| < w.h.seenHead + w.m.cap
            && w'.h == w.h.(log := w.h.log + [pc.p[pc.done + pc.i]], calls := w'.h.calls)
            && w'.m.sh.data == w.m.sh.data[Slot(|w.h.log|, w.m.cap) := pc.p[pc.done + pc.i]]
            && w'.m.r == w.m.r && w'.m.cap == w.m.cap && w'.m.fault == w.m.fault && Copied(w') == Copied(w) + 1
  {
    WriteIndexIsSlot(w.m, w.h.tail, w.m.w.pc.i);
  }

  lemma RingGrows(w: World, w': World, b: byte)
    requires RingAgrees(w) && w.h.seenHead <= w.h.head <= |w.h.log| < w.h.seenHead + w.m.cap
    requires w'.h.head == w.h.head && w'.h.seenHead == w.h.seenHead && w'.h.got == w.h.got
    requires w'.h.log == w.h.log + [b] && w'.m.r == w.m.r && w'.m.cap == w.m.cap && w'.m.fault == w.m.fault
    requires w'.m.sh.data == w.m.sh.data[Slot(|w.h.log|, w.m.cap) := b] && Copied(w') == Copied(w) + 1
    ensures RingAgrees(w')
  {
    PutKeepsStored(w.m.sh.data, w.h.log, w.h.seenHead, w.m.cap, b);
  }

  lemma CopyKeepsRing(w: World)
    requires Chain(w) && WordsAgree(w) && RingAgrees(w)
    requires w.m.w.pc.WCopy? && w.m.w.pc.i < w.m.w.pc.n
    ensures RingAgrees(Step(w, WGo))
  {
    CopyLands(w);
    RingGrows(w, Step(w, WGo), w.m.w.pc.p[w.m.w.pc.done + w.m.w.pc.i]);
  }

  lemma WriterKeepsRing(w: World)
    requires Chain(w) && WordsAgree(w) && RingAgrees(w) && Enabled(w.m, WGo)
    ensures RingAgrees(Step(w, WGo))
  {
    if w.m.w.pc.WCopy? && w.m.w.pc.i < w.m.w.pc.n {
      CopyKeepsRing(w);
    } else {
      var w' := Step(w, WGo);
      assert w'.m.sh.data == w.m.sh.data && w'.h.log == w.h.log;
      StoredFromLater(w.m.sh.data, w.h.log, w.h.seenHead, w'.h.seenHead, w.m.cap);
    }
  }

  lemma CopyOutKeepsRing(w: World)
    requires Chain(w) && WordsAgree(w) && RingAgrees(w) && w.m.r.pc.RCopy?
    ensures RingAgrees(Step(w, RGo))
  {
    var m, h, i := w.m, w.h, |w.m.r.pc.buf|;
    if i < m.r.pc.n {
      ReadIndexIsSlot(m, h.head, i);
      assert m.sh.data[Slot(h.head + i, m.cap)] == h.log[h.head + i];
      assert h.log[h.head..h.head + i] + [h.log[h.head + i]] == h.log[h.head..h.head + i + 1];
    } else {
      assert h.log[..h.head] + h.log[h.head..h.head + i] == h.log[..h.head + i];
    }
  }

  lemma ReaderKeepsRing(w: World)
    requires Chain(w) && WordsAgree(w) && RingAgrees(w) && Enabled(w.m, RGo)
    ensures RingAgrees(Step(w, RGo))
  {
    if w.m.r.pc.RCopy? {
      CopyOutKeepsRing(w);
    } else {
      var w' := Step(w, RGo);
      assert w'.m.sh.data == w.m.sh.data && w'.h.log == w.h.log && w'.h.got == w.h.got;
      assert Copied(w') == Copied(w);
    }
  }

  // ---- Finished calls ----------------------------------------------------------------

  lemma AcceptedAppends(calls: seq<WriteCall>, c: WriteCall)
    ensures Accepted(calls + [c]) == Accepted(calls) + Take(c.p, c.n)
  {
    assert (calls + [c])[..|calls|] == calls;
  }

  /** A byte copied in is the next byte of the call. */
  lemma LogGrows(log: seq<byte>, calls: seq<WriteCall>, pc: WriterPc)
    requires LogAgrees(log, calls, pc) && pc.WCopy? && pc.done + pc.i < |pc.p|
    ensures LogAgrees(log + [pc.p[pc.done + pc.i]], calls, pc.(i := pc.i + 1))
  {
    var p, k := pc.p, pc.done + pc.i;
    assert p[..k] + [p[k]] == p[..k + 1];
  }

  lemma ByteJoinsLog(w: World)
    requires Chain(w) && w.m.w.pc.WCopy? && w.m.w.pc.i < w.m.w.pc.n
    ensures var pc, w' := w.m.w.pc, Step(w, WGo);
            && pc.done + pc.i < |pc.p| && w'.h.log == w.h.log + [pc.p[pc.done + pc.i]]
            && w'.h.calls == w.h.calls && w'.m.w.pc == pc.(i := pc.i + 1)
  {
    assert w.h.calls + [] == w.h.calls;
  }

  /** A finished call leaves in the log the prefix it reports. */
  lemma LogTakesCall(log: seq<byte>, calls: seq<WriteCall>, pc: WriterPc, c: WriteCall, pc': WriterPc)
    requires LogAgrees(log, calls, pc) && GoodCall(c) && Take(c.p, c.n) == InFlight(pc) && InFlight(pc') == []
    ensures LogAgrees(log, calls + [c], pc')
  {
    AcceptedAppends(calls, c);
  }

  lemma CallFinishes(w: World, a: Action, c: WriteCall)
    requires Chain(w) && ClosedAgrees(w) && CallsAgree(w) && Enabled(w.m, a)
    requires Finished(w.m, a) == [c]
    ensures GoodCall(c) && Take(c.p, c.n) == InFlight(w.m.w.pc)
    ensures Step(w, a).m.w.pc.WIdle? && Step(w, a).h.log == w.h.log && Step(w, a).h.calls == w.h.calls + [c]
  {
  }

  lemma CallContinues(w: World, a: Action)
    requires Chain(w) && CallsAgree(w) && ClosedAgrees(w) && Enabled(w.m, a) && a.WGo?
    requires Finished(w.m, a) == [] && !(w.m.w.pc.WCopy? && w.m.w.pc.i < w.m.w.pc.n)
    ensures InFlight(Step(w, a).m.w.pc) == InFlight(w.m.w.pc)
    ensures Step(w, a).h.log == w.h.log && Step(w, a).h.calls == w.h.calls
    ensures Step(w, a).m.w.closed && Step(w, a).m.w.pc.WTop? ==> Step(w, a).m.w.pc.done == 0
  {
    assert w.h.calls + [] == w.h.calls;
  }

  lemma WriterKeepsCalls(w: World, a: Action)
    requires Chain(w) && ClosedAgrees(w) && CallsAgree(w) && Enabled(w.m, a) && (a.WGo? || a.WCancel?)
    ensures CallsAgree(Step(w, a))
  {
    var ended := Finished(w.m, a);
    if ended != [] {
      assert ended == [ended[0]];
      CallFinishes(w, a, ended[0]);
      LogTakesCall(w.h.log, w.h.calls, w.m.w.pc, ended[0], WIdle);
    } else if w.m.w.pc.WCopy? && w.m.w.pc.i < w.m.w.pc.n {
      ByteJoinsLog(w);
      LogGrows(w.h.log, w.h.calls, w.m.w.pc);
    } else {
      CallContinues(w, a);
    }
  }

  // ---- Every step --------------------------------------------------------------------

  lemma WriterKeeps(w: World)
    requires Inv(w) && Enabled(w.m, WGo)
    ensures Inv(Step(w, WGo))
  {
    DistancesAreTrue(w);
    WriterKeepsChain(w);
    WriterKeepsWords(w);
    WriterKeepsFlags(w);
    WriterKeepsRing(w);
    WriterKeepsCalls(w, WGo);
  }

  lemma ReaderKeepsCalls(w: World)
    requires ClosedAgrees(w) && CallsAgree(w) && Enabled(w.m, RGo)
    ensures CallsAgree(Step(w, RGo))
  {
    var w' := Step(w, RGo);
    assert w'.h.calls == w.h.calls + [] == w.h.calls;
    assert w'.h.log == w.h.log;
    assert w'.m.w == w.m.w || (w.m.w.pc.WParked? && w'.m.w == WakeWriter(w.m.w));
  }

  lemma ReaderKeeps(w: World)
    requires Inv(w) && Enabled(w.m, RGo)
    ensures Inv(Step(w, RGo))
  {
    DistancesAreTrue(w);
    ReaderKeepsChain(w);
    ReaderKeepsWords(w);
    ReaderKeepsFlags(w);
    ReaderKeepsRing(w);
    ReaderKeepsCalls(w);
  }

  lemma CallerKeepsCounters(w: World, a: Action)
    requires Chain(w) && WordsAgree(w) && Enabled(w.m, a) && !a.WGo? && !a.RGo?
    ensures Chain(Step(w, a)) && WordsAgree(Step(w, a))
  {
  }

  lemma CallerKeepsFlags(w: World, a: Action)
    requires ClosedAgrees(w) && SleepAgrees(w) && Enabled(w.m, a) && !a.WGo? && !a.RGo?
    ensures ClosedAgrees(Step(w, a)) && SleepAgrees(Step(w, a))
  {
  }

  lemma CallerKeepsRing(w: World, a: Action)
    requires RingAgrees(w) && Enabled(w.m, a) && !a.WGo? && !a.RGo?
    ensures RingAgrees(Step(w, a))
  {
  }

  lemma CallerKeepsCalls(w: World, a: Action)
    requires ClosedAgrees(w) && CallsAgree(w) && Enabled(w.m, a) && !a.WGo? && !a.RGo? && !a.WCancel?
    ensures CallsAgree(Step(w, a))
  {
    assert w.h.calls + [] == w.h.calls;
  }

  /** Calls starting, contexts ending and waits returning. */
  lemma CallerKeeps(w: World, a: Action)
    requires Inv(w) && Enabled(w.m, a) && !a.WGo? && !a.RGo?
    ensures Inv(Step(w, a))
  {
    CallerKeepsCounters(w, a);
    CallerKeepsFlags(w, a);
    CallerKeepsRing(w, a);
    if a.WCancel? {
      WriterKeepsCalls(w, a);
    } else {
      CallerKeepsCalls(w, a);
    }
  }

  lemma StepKeeps(w: World, a: Action)
    requires Inv(w) && Enabled(w.m, a)
    ensures Inv(Step(w, a))
  {
    if a.WGo? {
      WriterKeeps(w);
    } else if a.RGo? {
      ReaderKeeps(w);
    } else {
      CallerKeeps(w, a);
    }
  }

  /** Every state of every run satisfies the invariant. */
  lemma {:induction false} RunKeeps(ws: seq<World>, acts: seq<Action>, i: nat)
    requires IsRun(ws, acts) && i < |ws|
    ensures Inv(ws[i])
  {
    if i == 0 {
      InitialKeeps(ws[0]);
    } else {
      RunKeeps(ws, acts, i - 1);
      assert TakesStep(ws, acts, i - 1);
      StepKeeps(ws[i - 1], acts[i - 1]);
    }
  }
}

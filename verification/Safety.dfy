/** What holds in every state of every run, for every interleaving of the two sides. */
module Safety {
  import opened Words
  import opened Protocol
  import opened Invariant

  // ---- First in, first out -----------------------------------------------------------

  /** The bytes the Writer has made visible by storing its tail. */
  ghost function Published(w: World): seq<byte> {
    Take(w.h.log, w.h.pubTail)
  }

  /** The bytes between the stored head and the stored tail, found with 32-bit words alone. */
  ghost function Window(m: Machine): seq<byte> {
    seq(WrapSub(m.sh.tail, m.sh.head), (j: nat) =>
      var k := SplitIndex(BitAnd(m.sh.head, m.cap - 1), j, m.cap);
      if k < |m.sh.data| then m.sh.data[k] else 0)
  }

  lemma WindowOf(m: Machine, log: seq<byte>, from: nat, to: nat)
    requires m.sh.head == from % WORD && m.sh.tail == to % WORD
    requires from <= to <= from + m.cap && to <= |log| && Stored(m.sh.data, log, from, m.cap)
    ensures Window(m) == log[from..to]
  {
    WrapSubIsDistance(to, from);
    forall j: nat | j < to - from
      ensures Window(m)[j] == log[from + j]
    {
      IndexIsSlot(from, j, m.cap);
      assert m.sh.data[Slot(from + j, m.cap)] == log[from + j];
    }
  }

  lemma WindowIsLog(w: World)
    requires Inv(w)
    ensures Window(w.m) == w.h.log[w.h.pubHead..w.h.pubTail]
  {
    StoredFromLater(w.m.sh.data, w.h.log, w.h.seenHead, w.h.pubHead, w.m.cap);
    WindowOf(w.m, w.h.log, w.h.pubHead, w.h.pubTail);
  }

  lemma PrefixAndRest(log: seq<byte>, got: seq<byte>, a: nat, b: nat, c: nat)
    requires a <= b <= c <= |log| && got == log[..b]
    ensures got <= log[..c] && got[..a] + log[a..c] == log[..c]
  {
    assert got[..a] == log[..a];
    assert log[..a] + log[a..c] == log[..c];
  }

  lemma FifoFromInvariant(w: World)
    requires Inv(w)
    ensures w.h.got <= Published(w)
    ensures w.h.pubHead <= |w.h.got| && w.h.got[..w.h.pubHead] + Window(w.m) == Published(w)
    ensures !w.m.r.pc.RStore? ==> w.h.got + Window(w.m) == Published(w)
  {
    WindowIsLog(w);
    PrefixAndRest(w.h.log, w.h.got, w.h.pubHead, w.h.head, w.h.pubTail);
    assert w.h.head == w.h.pubHead ==> w.h.got[..w.h.pubHead] == w.h.got;
  }

  /** No byte is lost, duplicated, reordered or invented. What the Reader's caller has received is a
      prefix of what was published; the part whose head is stored, followed by the bytes the ring
      holds, is exactly what was published; and every byte came from the callers of write, in order. */
  lemma FifoInEveryRun(ws: seq<World>, acts: seq<Action>, i: nat)
    requires IsRun(ws, acts) && i < |ws|
    ensures ws[i].h.got <= Published(ws[i])
    ensures ws[i].h.pubHead <= |ws[i].h.got| && ws[i].h.got[..ws[i].h.pubHead] + Window(ws[i].m) == Published(ws[i])
    ensures !ws[i].m.r.pc.RStore? ==> ws[i].h.got + Window(ws[i].m) == Published(ws[i])
    ensures Published(ws[i]) <= ws[i].h.log == Accepted(ws[i].h.calls) + InFlight(ws[i].m.w.pc)
  {
    RunKeeps(ws, acts, i);
    FifoFromInvariant(ws[i]);
  }

  /** A call appends to the stream exactly the prefix it reports: nothing when the ring is closed,
      everything when a blocking write returns no error. */
  lemma WritesReportTheirPrefix(ws: seq<World>, acts: seq<Action>, i: nat, c: WriteCall)
    requires IsRun(ws, acts) && i < |acts| && Finished(ws[i].m, acts[i]) == [c]
    ensures c.n <= |c.p| && (c.result.ErrClosed? ==> c.n == 0)
    ensures c.block && c.result.Returned? ==> c.n == |c.p|
    ensures ws[i + 1].h.log == Accepted(ws[i].h.calls) + c.p[..c.n]
    ensures ws[i + 1].h.pubTail == |ws[i + 1].h.log|
  {
    RunKeeps(ws, acts, i);
    RunKeeps(ws, acts, i + 1);
    assert TakesStep(ws, acts, i);
    CallFinishes(ws[i], acts[i], c);
  }

  /** Every access in every run is in range, whatever the counters have wrapped to. */
  lemma NoAccessOutOfRange(ws: seq<World>, acts: seq<Action>, i: nat)
    requires IsRun(ws, acts) && i < |ws|
    ensures !ws[i].m.fault
  {
    RunKeeps(ws, acts, i);
  }

  // ---- Wrap-around -------------------------------------------------------------------

  /** The chain of counters, and the distances that the code computes on 32-bit words. */
  lemma CountersStayOrdered(ws: seq<World>, acts: seq<Action>, i: nat)
    requires IsRun(ws, acts) && i < |ws|
    ensures ws[i].h.seenHead <= ws[i].h.pubHead <= ws[i].h.head <= ws[i].h.seenTail
    ensures ws[i].h.seenTail <= ws[i].h.pubTail <= ws[i].h.tail <= ws[i].h.seenHead + ws[i].m.cap
    ensures TrueDistances(ws[i])
  {
    RunKeeps(ws, acts, i);
    DistancesAreTrue(ws[i]);
  }

  // ---- Payload races -----------------------------------------------------------------

  lemma IndicesDiffer(m: Machine, t: nat, h: nat, a: nat, b: nat)
    requires m.w.tail == t % WORD && m.r.head == h % WORD && a < m.cap && b < m.cap
    requires h + b < t + a < h + b + m.cap
    ensures WriteIndex(m, a) != ReadIndex(m, b)
  {
    WriteIndexIsSlot(m, t, a);
    ReadIndexIsSlot(m, h, b);
    SlotsDistinct(h + b, t + a, m.cap);
  }

  /** While both sides copy, no byte the Writer may still write is a byte the Reader may still read. */
  lemma CopiesNeverCollide(ws: seq<World>, acts: seq<Action>, i: nat, a: nat, b: nat)
    requires IsRun(ws, acts) && i < |ws|
    requires ws[i].m.w.pc.WCopy? && a < ws[i].m.w.pc.n
    requires ws[i].m.r.pc.RCopy? && b < ws[i].m.r.pc.n
    ensures WriteIndex(ws[i].m, a) != ReadIndex(ws[i].m, b)
  {
    RunKeeps(ws, acts, i);
    IndicesDiffer(ws[i].m, ws[i].h.tail, ws[i].h.head, a, b);
  }

  // ---- Sleeping ----------------------------------------------------------------------

  /** A parked Reader has an empty ring before it and a parked Writer a full one, unless the wake
      that ends the sleep is the peer's next step. */
  lemma SleepersHaveAReason(ws: seq<World>, acts: seq<Action>, i: nat)
    requires IsRun(ws, acts) && i < |ws|
    ensures ws[i].m.r.pc.RParked? ==>
              || ws[i].m.w.pc.WWake?
              || (ws[i].m.sh.tail == ws[i].m.r.cachedTail == ws[i].m.r.head && Window(ws[i].m) == [])
    ensures ws[i].m.w.pc.WParked? ==>
              || ws[i].m.r.pc.RWake?
              || (ws[i].m.sh.head == ws[i].m.w.cachedHead && |Window(ws[i].m)| == ws[i].m.cap)
  {
    RunKeeps(ws, acts, i);
    WindowIsLog(ws[i]);
  }

  /** The two sides are never asleep together. */
  lemma NeverBothAsleep(ws: seq<World>, acts: seq<Action>, i: nat)
    requires IsRun(ws, acts) && i < |ws|
    ensures !(ws[i].m.w.pc.WParked? && ws[i].m.r.pc.RParked?)
  {
    RunKeeps(ws, acts, i);
  }

  // ---- From one state to a later one -------------------------------------------------

  /** What no step undoes. */
  ghost predicate Later(a: World, b: World) {
    && a.m.cap == b.m.cap
    && a.h.pubHead <= b.h.pubHead && a.h.pubTail <= b.h.pubTail && a.h.tail <= b.h.tail
    && a.h.log <= b.h.log && a.h.got <= b.h.got
    && (a.h.eof ==> b.h.eof)
    && (a.m.sh.closed == 1 ==>
          && b.m.sh.closed == 1 && b.m.sh.tail == a.m.sh.tail
          && b.h.pubTail == a.h.pubTail && b.h.log == a.h.log)
  }

  lemma WriterStepIsLater(w: World)
    requires Chain(w) && WordsAgree(w) && ClosedAgrees(w) && Enabled(w.m, WGo)
    ensures Later(w, Step(w, WGo))
  {
  }

  lemma OtherStepIsLater(w: World, a: Action)
    requires Chain(w) && Enabled(w.m, a) && !a.WGo?
    ensures Later(w, Step(w, a))
  {
  }

  lemma StepIsLater(w: World, a: Action)
    requires Inv(w) && Enabled(w.m, a)
    ensures Later(w, Step(w, a))
  {
    if a.WGo? {
      WriterStepIsLater(w);
    } else {
      OtherStepIsLater(w, a);
    }
  }

  lemma LaterChains(a: World, b: World, c: World)
    requires Later(a, b) && Later(b, c)
    ensures Later(a, c)
  {
  }

  lemma RunStepIsLater(ws: seq<World>, acts: seq<Action>, i: nat)
    requires IsRun(ws, acts) && i < |acts|
    ensures Later(ws[i], ws[i + 1])
  {
    RunKeeps(ws, acts, i);
    assert TakesStep(ws, acts, i);
    StepIsLater(ws[i], acts[i]);
  }

  lemma {:induction false} RunIsLater(ws: seq<World>, acts: seq<Action>, i: nat, j: nat)
    requires IsRun(ws, acts) && i <= j < |ws|
    ensures Later(ws[i], ws[j])
    decreases j
  {
    if i < j {
      RunIsLater(ws, acts, i, j - 1);
      RunStepIsLater(ws, acts, j - 1);
      LaterChains(ws[i], ws[j - 1], ws[j]);
    }
  }

  /** Once the closed word is 1 it stays 1, and neither the tail word nor the stream changes again. */
  lemma CloseFreezesTheStream(ws: seq<World>, acts: seq<Action>, i: nat, j: nat)
    requires IsRun(ws, acts) && i <= j < |ws| && ws[i].m.sh.closed == 1
    ensures ws[j].m.sh.closed == 1 && ws[j].m.sh.tail == ws[i].m.sh.tail
    ensures Published(ws[j]) == Published(ws[i]) == ws[i].h.log == ws[j].h.log
  {
    RunKeeps(ws, acts, i);
    RunKeeps(ws, acts, j);
    RunIsLater(ws, acts, i, j);
  }

  // ---- The futex compare -------------------------------------------------------------

  predicate StoresHead(w: World, a: Action) {
    a.RGo? && w.m.r.pc.RStore?
  }

  predicate StoresTail(w: World, a: Action) {
    a.WGo? && w.m.w.pc.WStore?
  }

  lemma StoreMovesWord(w: World, a: Action)
    requires Inv(w) && Enabled(w.m, a)
    ensures if StoresHead(w, a) then Step(w, a).h.pubHead > w.h.pubHead else Step(w, a).h.pubHead == w.h.pubHead
    ensures if StoresTail(w, a) then Step(w, a).h.pubTail > w.h.pubTail else Step(w, a).h.pubTail == w.h.pubTail
  {
  }

  lemma {:induction false} HeadMovesOnlyByStores(ws: seq<World>, acts: seq<Action>, i: nat, j: nat)
    requires IsRun(ws, acts) && i <= j < |ws|
    ensures ws[i].h.pubHead <= ws[j].h.pubHead
    ensures ws[i].h.pubHead == ws[j].h.pubHead <==> forall k :: i <= k < j ==> !StoresHead(ws[k], acts[k])
    decreases j
  {
    if i < j {
      HeadMovesOnlyByStores(ws, acts, i, j - 1);
      RunKeeps(ws, acts, j - 1);
      assert TakesStep(ws, acts, j - 1);
      StoreMovesWord(ws[j - 1], acts[j - 1]);
    }
  }

  lemma {:induction false} TailMovesOnlyByStores(ws: seq<World>, acts: seq<Action>, i: nat, j: nat)
    requires IsRun(ws, acts) && i <= j < |ws|
    ensures ws[i].h.pubTail <= ws[j].h.pubTail
    ensures ws[i].h.pubTail == ws[j].h.pubTail <==> forall k :: i <= k < j ==> !StoresTail(ws[k], acts[k])
    decreases j
  {
    if i < j {
      TailMovesOnlyByStores(ws, acts, i, j - 1);
      RunKeeps(ws, acts, j - 1);
      assert TakesStep(ws, acts, j - 1);
      StoreMovesWord(ws[j - 1], acts[j - 1]);
    }
  }

  predicate LoadsHead(w: World, a: Action) {
    a.WGo? && w.m.w.pc.WLoad?
  }

  predicate LoadsTail(w: World, a: Action) {
    a.RGo? && w.m.r.pc.RLoad?
  }

  lemma {:induction false} SeenHeadIsLastLoad(ws: seq<World>, acts: seq<Action>, i: nat, j: nat)
    requires IsRun(ws, acts) && i < j < |ws| && LoadsHead(ws[i], acts[i])
    requires forall k :: i < k < j ==> !LoadsHead(ws[k], acts[k])
    ensures ws[j].h.seenHead == ws[i].h.pubHead
    decreases j
  {
    assert TakesStep(ws, acts, j - 1);
    if i < j - 1 {
      SeenHeadIsLastLoad(ws, acts, i, j - 1);
    }
  }

  lemma {:induction false} SeenTailIsLastLoad(ws: seq<World>, acts: seq<Action>, i: nat, j: nat)
    requires IsRun(ws, acts) && i < j < |ws| && LoadsTail(ws[i], acts[i])
    requires forall k :: i < k < j ==> !LoadsTail(ws[k], acts[k])
    ensures ws[j].h.seenTail == ws[i].h.pubTail
    decreases j
  {
    assert TakesStep(ws, acts, j - 1);
    if i < j - 1 {
      SeenTailIsLastLoad(ws, acts, i, j - 1);
    }
  }

  /** When the Writer comes to Wait, the head word equals the value it loaded if and only if the
      Reader has stored no progress since that load: the word cannot have wrapped back. */
  lemma WriterCompareIsExact(ws: seq<World>, acts: seq<Action>, i: nat, j: nat)
    requires IsRun(ws, acts) && i < j < |ws| && LoadsHead(ws[i], acts[i])
    requires forall k :: i < k < j ==> !LoadsHead(ws[k], acts[k])
    ensures ws[j].m.sh.head == ws[j].m.w.cachedHead <==> forall k :: i <= k < j ==> !StoresHead(ws[k], acts[k])
  {
    RunKeeps(ws, acts, j);
    DistancesAreTrue(ws[j]);
    SeenHeadIsLastLoad(ws, acts, i, j);
    HeadMovesOnlyByStores(ws, acts, i, j);
  }

  /** The same for the Reader and the tail word. */
  lemma ReaderCompareIsExact(ws: seq<World>, acts: seq<Action>, i: nat, j: nat)
    requires IsRun(ws, acts) && i < j < |ws| && LoadsTail(ws[i], acts[i])
    requires forall k :: i < k < j ==> !LoadsTail(ws[k], acts[k])
    ensures ws[j].m.sh.tail == ws[j].m.r.cachedTail <==> forall k :: i <= k < j ==> !StoresTail(ws[k], acts[k])
  {
    RunKeeps(ws, acts, j);
    DistancesAreTrue(ws[j]);
    SeenTailIsLastLoad(ws, acts, i, j);
    TailMovesOnlyByStores(ws, acts, i, j);
  }
}

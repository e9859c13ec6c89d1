/** What end-of-file means, and which Readers a Close wakes. */
module EndOfStream {
  import opened Words
  import opened Counting
  import opened Protocol
  import opened Invariant
  import opened Safety

  // ---- End of file -------------------------------------------------------------------

  /** Step `i` is a tail load and step `j` is the closed load of the same TryRead, which returns EOF. */
  ghost predicate EofCall(ws: seq<World>, acts: seq<Action>, i: nat, j: nat) {
    && IsRun(ws, acts) && i < j < |acts|
    && LoadsTail(ws[i], acts[i])
    && acts[j].RGo? && ReturnsEof(ws[j].m)
    && forall k :: i < k < j ==> !acts[k].RGo?
  }

  /** Every EOF is the end of such a call. */
  lemma {:induction false} EveryEofHasItsLoad(ws: seq<World>, acts: seq<Action>, j: nat) returns (i: nat)
    requires IsRun(ws, acts) && j < |ws| && ws[j].m.r.pc.RLoadClosed?
    ensures i < j && LoadsTail(ws[i], acts[i]) && forall k :: i < k < j ==> !acts[k].RGo?
  {
    assert j > 0;
    assert TakesStep(ws, acts, j - 1);
    if acts[j - 1].RGo? {
      i := j - 1;
    } else {
      i := EveryEofHasItsLoad(ws, acts, j - 1);
    }
  }

  lemma EofHasSeenItAll(w: World)
    requires Inv(w) && ReturnsEof(w.m)
    ensures w.m.sh.closed == 1 && w.h.seenTail <= w.h.pubTail == |w.h.log|
    ensures w.h.head == w.h.seenTail && w.h.got == w.h.log[..w.h.seenTail]
  {
  }

  lemma EofGap(ws: seq<World>, acts: seq<Action>, i: nat, j: nat)
    requires EofCall(ws, acts, i, j)
    ensures ws[i].h.pubTail <= ws[j].h.pubTail == |ws[j].h.log| && ws[j].m.sh.closed == 1
    ensures Published(ws[i]) == ws[j].h.got == ws[j].h.log[..ws[i].h.pubTail]
  {
    RunKeeps(ws, acts, i);
    assert ws[i].h.pubTail <= |ws[i].h.log|;
    RunKeeps(ws, acts, j);
    EofHasSeenItAll(ws[j]);
    SeenTailIsLastLoad(ws, acts, i, j);
    RunIsLater(ws, acts, i, j);
  }

  /** When a read returns EOF, what its caller has not received is exactly what was published between
      that call's tail load and its closed load, and the stream is over. */
  lemma EofLosesWhatSlippedBetween(ws: seq<World>, acts: seq<Action>, i: nat, j: nat, l: nat)
    requires EofCall(ws, acts, i, j) && j <= l < |ws|
    ensures ws[j].h.got == Published(ws[i]) <= Published(ws[j])
    ensures ws[j].h.got + Published(ws[j])[|Published(ws[i])|..] == Published(ws[l])
  {
    EofGap(ws, acts, i, j);
    CloseFreezesTheStream(ws, acts, j, l);
    var log, k := ws[j].h.log, ws[i].h.pubTail;
    assert log[..k] + log[k..] == log;
  }

  /** EOF means drained if and only if nothing is published between the two loads. */
  lemma EofIsDrainedIff(ws: seq<World>, acts: seq<Action>, i: nat, j: nat)
    requires EofCall(ws, acts, i, j)
    ensures ws[j].h.got == Published(ws[j]) <==> forall k :: i <= k < j ==> !StoresTail(ws[k], acts[k])
  {
    EofGap(ws, acts, i, j);
    TailMovesOnlyByStores(ws, acts, i, j);
    if ws[j].h.got == Published(ws[j]) {
      assert |ws[j].h.got| == ws[i].h.pubTail;
    }
  }

  /** In particular a read that starts after Close has stored the flag is never cut short. */
  lemma EofAfterCloseIsDrained(ws: seq<World>, acts: seq<Action>, i: nat, j: nat)
    requires EofCall(ws, acts, i, j) && ws[i].m.sh.closed == 1
    ensures ws[j].h.got == Published(ws[j])
  {
    EofGap(ws, acts, i, j);
    CloseFreezesTheStream(ws, acts, i, j);
  }

  /** The ring is closed and the Reader has taken everything. */
  ghost predicate Drained(w: World) {
    && Inv(w) && w.m.sh.closed == 1 && w.h.head == w.h.pubTail
    && !w.m.r.pc.RStore? && !w.m.r.pc.RCopy?
  }

  lemma DrainedStays(w: World, a: Action)
    requires Drained(w) && Enabled(w.m, a)
    ensures Drained(Step(w, a)) && Step(w, a).h.got == w.h.got
  {
    StepKeeps(w, a);
    StepIsLater(w, a);
    DistancesAreTrue(w);
  }

  /** A drained ring whose Reader has, moreover, finished releasing what it took. */
  ghost predicate Spent(w: World) {
    Drained(w) && !w.m.r.pc.RWake?
  }

  /** This step ends a non-empty read. */
  ghost predicate EndsRead(w: World, a: Action) {
    a.RGo? && Enabled(w.m, a) && Step(w, a).m.r.pc.RIdle? && !(w.m.r.pc.RTop? && w.m.r.pc.len == 0)
  }

  lemma SpentReadIsEof(w: World, a: Action)
    requires Spent(w) && Enabled(w.m, a)
    ensures !Step(w, a).m.r.pc.RWake? && (EndsRead(w, a) ==> ReturnsEof(w.m))
  {
    DistancesAreTrue(w);
  }

  lemma SpentNext(ws: seq<World>, acts: seq<Action>, k: nat)
    requires IsRun(ws, acts) && k < |acts| && Spent(ws[k])
    ensures Spent(ws[k + 1]) && ws[k + 1].h.got == ws[k].h.got
    ensures EndsRead(ws[k], acts[k]) ==> ReturnsEof(ws[k].m)
  {
    assert TakesStep(ws, acts, k);
    DrainedStays(ws[k], acts[k]);
    SpentReadIsEof(ws[k], acts[k]);
  }

  lemma SpentIsFinal(ws: seq<World>, acts: seq<Action>, j: nat, l: nat)
    requires IsRun(ws, acts) && j <= l < |ws| && Spent(ws[j])
    ensures Spent(ws[l]) && ws[l].h.got == ws[j].h.got
  {
    var spent := (w: World) => Spent(w) && w.h.got == ws[j].h.got;
    forall k | j <= k < l
      ensures KeptAt(ws, k, spent)
    {
      if Spent(ws[k]) {
        SpentNext(ws, acts, k);
      }
    }
    Lasts(ws, j, l, spent);
  }

  /** After an EOF with nothing slipped in, no read delivers another byte, and every non-empty read that
      ends of itself ends with EOF again. */
  lemma DrainedEofIsFinal(ws: seq<World>, acts: seq<Action>, i: nat, j: nat, l: nat)
    requires EofCall(ws, acts, i, j) && j < l < |ws|
    requires forall k :: i <= k < j ==> !StoresTail(ws[k], acts[k])
    ensures ws[l].h.got == ws[j].h.got == Published(ws[l])
    ensures l < |acts| && EndsRead(ws[l], acts[l]) ==> ReturnsEof(ws[l].m)
  {
    EofGap(ws, acts, i, j);
    TailMovesOnlyByStores(ws, acts, i, j);
    RunKeeps(ws, acts, j);
    EofHasSeenItAll(ws[j]);
    SpentIsFinal(ws, acts, j, l);
    CloseFreezesTheStream(ws, acts, j, l);
    if l < |acts| {
      SpentNext(ws, acts, l);
    }
  }

  lemma {:induction false} EofHappened(ws: seq<World>, acts: seq<Action>, l: nat) returns (j: nat)
    requires IsRun(ws, acts) && l < |ws| && ws[l].h.eof
    ensures j < l && acts[j].RGo? && ReturnsEof(ws[j].m)
  {
    assert l > 0;
    assert TakesStep(ws, acts, l - 1);
    if ws[l - 1].h.eof {
      j := EofHappened(ws, acts, l - 1);
    } else {
      j := l - 1;
    }
  }

  /** If some read has returned EOF and the published stream is not all delivered, then a tail store
      came between that read's two loads. */
  lemma ShortEofMeansAWriteSlippedIn(ws: seq<World>, acts: seq<Action>, l: nat)
    returns (i: nat, k: nat, j: nat)
    requires IsRun(ws, acts) && l < |ws| && ws[l].h.eof && ws[l].h.got != Published(ws[l])
    ensures EofCall(ws, acts, i, j) && i < k < j < l && StoresTail(ws[k], acts[k])
  {
    j := EofHappened(ws, acts, l);
    i := EveryEofHasItsLoad(ws, acts, j);
    if forall k :: i <= k < j ==> !StoresTail(ws[k], acts[k]) {
      DrainedEofIsFinal(ws, acts, i, j, l);
    }
    k :| i <= k < j && StoresTail(ws[k], acts[k]);
  }

  // ---- Waking on close ---------------------------------------------------------------

  /** Close is over: the flag is stored and the nudge on tail has been given. */
  ghost predicate CloseDone(w: World) {
    Inv(w) && w.m.sh.closed == 1 && !InClose(w.m.w.pc)
  }

  /** The Reader has loaded `closed` as 0, has nothing to read, and is one compare away from parking. */
  ghost predicate AboutToPark(w: World) {
    w.m.r.pc.RWait? && w.m.sh.tail == w.m.r.cachedTail
  }

  /** Every finished Close has given its nudge. */
  lemma {:induction false} EveryCloseHasItsNudge(ws: seq<World>, acts: seq<Action>, l: nat) returns (c: nat)
    requires IsRun(ws, acts) && l < |ws| && ws[l].m.w.closed && !InClose(ws[l].m.w.pc)
    ensures c < l && acts[c].WGo? && ws[c].m.w.pc.WCloseWake?
  {
    assert l > 0;
    assert TakesStep(ws, acts, l - 1);
    if acts[l - 1].WGo? && ws[l - 1].m.w.pc.WCloseWake? {
      c := l - 1;
    } else {
      c := EveryCloseHasItsNudge(ws, acts, l - 1);
    }
  }

  ghost predicate CannotPark(w: World) {
    CloseDone(w) && !w.m.r.pc.RParked? && !AboutToPark(w)
  }

  lemma CannotParkStays(w: World, a: Action)
    requires CannotPark(w) && Enabled(w.m, a)
    ensures CannotPark(Step(w, a))
  {
    StepKeeps(w, a);
    StepIsLater(w, a);
  }

  lemma CannotParkLater(ws: seq<World>, acts: seq<Action>, c: nat, l: nat)
    requires IsRun(ws, acts) && c <= l < |ws| && CannotPark(ws[c])
    ensures CannotPark(ws[l])
  {
    forall k | c <= k < l
      ensures KeptAt(ws, k, CannotPark)
    {
      assert TakesStep(ws, acts, k);
      if CannotPark(ws[k]) {
        CannotParkStays(ws[k], acts[k]);
      }
    }
    Lasts(ws, c, l, CannotPark);
  }

  lemma NudgeWakes(w: World)
    requires Inv(w) && w.m.w.pc.WCloseWake?
    ensures w.m.r.pc.RParked? ==> Step(w, WGo).m.r.pc == RTop(w.m.r.pc.len, true)
    ensures CloseDone(Step(w, WGo))
    ensures if AboutToPark(w) then AboutToPark(Step(w, WGo)) else CannotPark(Step(w, WGo))
  {
    StepKeeps(w, WGo);
  }

  /** Step `c` is the nudge at the end of Close. A Reader parked at that moment is woken by it. After
      it, the Reader is ever parked only if at that moment it was about to park. */
  lemma CloseWakesUnlessAboutToPark(ws: seq<World>, acts: seq<Action>, c: nat, l: nat)
    requires IsRun(ws, acts) && c < l < |ws|
    requires acts[c].WGo? && ws[c].m.w.pc.WCloseWake?
    ensures ws[c].m.r.pc.RParked? ==> ws[c + 1].m.r.pc == RTop(ws[c].m.r.pc.len, true)
    ensures ws[l].m.r.pc.RParked? ==> AboutToPark(ws[c])
  {
    RunKeeps(ws, acts, c);
    assert TakesStep(ws, acts, c);
    NudgeWakes(ws[c]);
    if !AboutToPark(ws[c]) {
      CannotParkLater(ws, acts, c + 1, l);
    }
  }

  /** The Reader sleeps, or its next step is to fall asleep, after the last wake it will be given. */
  ghost predicate Missed(w: World) {
    CloseDone(w) && (AboutToPark(w) || w.m.r.pc.RParked?)
  }

  ghost predicate AsleepForGood(w: World) {
    CloseDone(w) && w.m.r.pc.RParked?
  }

  /** What ends it: nothing but an action of the Reader, and when it sleeps, nothing but a return. */
  lemma MissedStays(w: World, a: Action)
    requires Missed(w) && Enabled(w.m, a)
    ensures if ReaderActs(a) && !a.RGo? then CannotPark(Step(w, a)) else Missed(Step(w, a))
    ensures !ReaderActs(a) ==> Step(w, a).m.r.pc == w.m.r.pc && (AboutToPark(Step(w, a)) <==> AboutToPark(w))
    ensures a.RGo? ==> AboutToPark(w) && AsleepForGood(Step(w, a))
    ensures AsleepForGood(w) && ReaderActs(a) ==> a.RReturn?
  {
    StepKeeps(w, a);
    StepIsLater(w, a);
  }

  lemma MissedNext(ws: seq<World>, acts: seq<Action>, k: nat)
    requires IsRun(ws, acts) && k < |acts| && !acts[k].RReturn? && !acts[k].RCancel?
    ensures KeptAt(ws, k, Missed)
  {
    assert TakesStep(ws, acts, k);
    if Missed(ws[k]) {
      MissedStays(ws[k], acts[k]);
    }
  }

  /** How a Reader that was about to park at the nudge stands after `acted` actions of its own, `went` of
      which were plain steps. */
  ghost predicate StandsAfter(w: World, acted: nat, went: nat) {
    if acted == 0 then Missed(w) && AboutToPark(w)
    else if acted == 1 && went == 1 then AsleepForGood(w)
    else CannotPark(w)
  }

  lemma StandsNext(w: World, a: Action, acted: nat, went: nat)
    requires StandsAfter(w, acted, went) && went <= acted && Enabled(w.m, a)
    ensures StandsAfter(Step(w, a), acted + (if ReaderActs(a) then 1 else 0), went + (if a.RGo? then 1 else 0))
  {
    if CannotPark(w) {
      CannotParkStays(w, a);
    } else {
      MissedStays(w, a);
    }
  }

  lemma {:induction false} StandsLater(ws: seq<World>, acts: seq<Action>, c: nat, l: nat)
    requires IsRun(ws, acts) && c < l < |ws|
    requires acts[c].WGo? && ws[c].m.w.pc.WCloseWake? && AboutToPark(ws[c])
    ensures Count(acts, c + 1, l, ReaderGoes) <= Count(acts, c + 1, l, ReaderActs)
    ensures StandsAfter(ws[l], Count(acts, c + 1, l, ReaderActs), Count(acts, c + 1, l, ReaderGoes))
    decreases l
  {
    assert TakesStep(ws, acts, l - 1);
    if c == l - 1 {
      RunKeeps(ws, acts, c);
      NudgeWakes(ws[c]);
    } else {
      StandsLater(ws, acts, c, l - 1);
      StandsNext(ws[l - 1], acts[l - 1], Count(acts, c + 1, l - 1, ReaderActs), Count(acts, c + 1, l - 1, ReaderGoes));
    }
  }

  /** Step `c` is the nudge. Later the Reader sleeps if and only if it was about to park at the nudge and
      has since done just one thing, that compare; and it is about to fall asleep if and only if it was
      so at the nudge and has done nothing since. */
  lemma SleepsAfterCloseIff(ws: seq<World>, acts: seq<Action>, c: nat, l: nat)
    requires IsRun(ws, acts) && c < l < |ws|
    requires acts[c].WGo? && ws[c].m.w.pc.WCloseWake?
    ensures ws[l].m.r.pc.RParked? <==>
              AboutToPark(ws[c]) && Count(acts, c + 1, l, ReaderActs) == 1 == Count(acts, c + 1, l, ReaderGoes)
    ensures AboutToPark(ws[l]) <==> AboutToPark(ws[c]) && Count(acts, c + 1, l, ReaderActs) == 0
  {
    RunKeeps(ws, acts, c);
    assert TakesStep(ws, acts, c);
    NudgeWakes(ws[c]);
    if AboutToPark(ws[c]) {
      StandsLater(ws, acts, c, l);
    } else {
      CannotParkLater(ws, acts, c + 1, l);
    }
  }

  /** So on a storage whose waits are ended by wakes alone, and without cancellation, a nudge missed is
      missed for good. */
  lemma NudgeIsMissedForGood(ws: seq<World>, acts: seq<Action>, c: nat, l: nat)
    requires IsRun(ws, acts) && c < l < |ws|
    requires acts[c].WGo? && ws[c].m.w.pc.WCloseWake?
    requires forall k :: c < k < l ==> !acts[k].RReturn? && !acts[k].RCancel?
    ensures AboutToPark(ws[c]) <==> Missed(ws[l])
  {
    RunKeeps(ws, acts, c);
    assert TakesStep(ws, acts, c);
    NudgeWakes(ws[c]);
    if AboutToPark(ws[c]) {
      forall k | c + 1 <= k < l
        ensures KeptAt(ws, k, Missed)
      {
        MissedNext(ws, acts, k);
      }
      Lasts(ws, c + 1, l, Missed);
    } else {
      CannotParkLater(ws, acts, c + 1, l);
    }
  }

  // ---- Coming to EOF -----------------------------------------------------------------

  /** After Close, at most how many actions the Reader still has to take before a read of it returns EOF,
      if it starts no empty read and gives none up. */
  ghost function ActionsToEof(w: World): int {
    var unread := w.h.pubTail - w.h.head;
    match w.m.r.pc
    case RIdle => 7 * unread + 4
    case RTop(len, _) => 7 * unread + if len > 0 then 3 else 5
    case RLoad(_, _) => 7 * unread + 2
    case RLoadClosed(_, _) => 1
    case RCopy(_, buf, n) => 7 * (unread - n) + (n - |buf|) + 7
    case RStore(_) => 7 * unread + 6
    case RWake => 7 * unread + 5
    case RWait(_) => 7 * unread + 5
    case RParked(_) => 7 * unread + 4
  }

  predicate KeepsReading(a: Action) {
    !a.RCancel? && (a.RBegin? ==> a.len > 0)
  }

  lemma EofIsSomeWayOff(w: World)
    requires Inv(w)
    ensures 0 < ActionsToEof(w) <= 7 * (w.h.pubTail - w.h.head) + 7
  {
  }

  lemma DecisionComesNearer(w: World)
    requires Chain(w) && TrueDistances(w) && (w.m.r.pc.RTop? || w.m.r.pc.RLoad?)
    ensures ActionsToEof(Step(w, RGo)) < ActionsToEof(w)
  {
  }

  lemma ReaderComesNearer(w: World)
    requires Chain(w) && w.m.sh.closed == 1 && Enabled(w.m, RGo) && !ReturnsEof(w.m)
    requires !w.m.r.pc.RTop? && !w.m.r.pc.RLoad?
    ensures ActionsToEof(Step(w, RGo)) < ActionsToEof(w)
  {
  }

  lemma EofComesNearer(w: World, a: Action)
    requires Inv(w) && w.m.sh.closed == 1 && Enabled(w.m, a) && KeepsReading(a) && !(a.RGo? && ReturnsEof(w.m))
    ensures ActionsToEof(Step(w, a)) <= ActionsToEof(w) - if ReaderActs(a) then 1 else 0
  {
    if a.RGo? && (w.m.r.pc.RTop? || w.m.r.pc.RLoad?) {
      DistancesAreTrue(w);
      DecisionComesNearer(w);
    } else if a.RGo? {
      ReaderComesNearer(w);
    }
  }

  lemma EofComesNearerInRun(ws: seq<World>, acts: seq<Action>, i: nat, k: nat)
    requires IsRun(ws, acts) && i <= k < |acts| && ws[i].m.sh.closed == 1 && KeepsReading(acts[k])
    requires !(acts[k].RGo? && ReturnsEof(ws[k].m))
    ensures ActionsToEof(ws[k + 1]) <= ActionsToEof(ws[k]) - if ReaderActs(acts[k]) then 1 else 0
  {
    RunKeeps(ws, acts, k);
    CloseFreezesTheStream(ws, acts, i, k);
    assert TakesStep(ws, acts, k);
    EofComesNearer(ws[k], acts[k]);
  }

  lemma {:induction false} EofComesWithin(ws: seq<World>, acts: seq<Action>, i: nat, l: nat) returns (j: nat)
    requires IsRun(ws, acts) && i <= l < |ws| && ws[i].m.sh.closed == 1
    requires forall k :: i <= k < l ==> KeepsReading(acts[k])
    ensures j <= l
    ensures j < l ==> i <= j && acts[j].RGo? && ReturnsEof(ws[j].m)
    ensures j == l ==> Count(acts, i, l, ReaderActs) + ActionsToEof(ws[l]) <= ActionsToEof(ws[i])
    decreases l
  {
    j := i;
    if i < l {
      j := EofComesWithin(ws, acts, i, l - 1);
      if j == l - 1 && !(acts[j].RGo? && ReturnsEof(ws[j].m)) {
        EofComesNearerInRun(ws, acts, i, l - 1);
        j := l;
      }
    }
  }

  /** From any position: once the ring is closed, a Reader that goes on reading, its waits timed, polled or
      woken, has returned EOF after so many actions of its own. */
  lemma EofComesFromAnyPosition(ws: seq<World>, acts: seq<Action>, i: nat, l: nat) returns (j: nat)
    requires IsRun(ws, acts) && i <= l < |ws| && ws[i].m.sh.closed == 1
    requires forall k :: i <= k < l ==> KeepsReading(acts[k])
    requires Count(acts, i, l, ReaderActs) >= 7 * (ws[i].h.pubTail - ws[i].h.head) + 7
    ensures i <= j < l && acts[j].RGo? && ReturnsEof(ws[j].m)
  {
    j := EofComesWithin(ws, acts, i, l);
    RunKeeps(ws, acts, i);
    EofIsSomeWayOff(ws[i]);
    RunKeeps(ws, acts, l);
    EofIsSomeWayOff(ws[l]);
  }

  /** How many of the Reader's own steps a read on a drained ring has left. */
  function StepsToEof(pc: ReaderPc): nat {
    match pc
    case RTop(_, _) => 3
    case RLoad(_, _) => 2
    case RLoadClosed(_, _) => 1
    case _ => 0
  }

  /** The Reader is inside a non-empty read on a drained, closed ring, `left` steps from its end. */
  ghost predicate OnItsWay(w: World, left: nat) {
    Drained(w) && 0 < left == StepsToEof(w.m.r.pc) && w.m.r.pc.len > 0
  }

  lemma OnItsWayStays(w: World, a: Action, left: nat)
    requires OnItsWay(w, left) && Enabled(w.m, a)
    ensures !a.RGo? ==> OnItsWay(Step(w, a), left)
    ensures a.RGo? && left > 1 ==> OnItsWay(Step(w, a), left - 1)
    ensures a.RGo? && left == 1 ==> ReturnsEof(w.m)
  {
    DrainedStays(w, a);
    DistancesAreTrue(w);
  }

  lemma {:induction false} StillOnItsWay(ws: seq<World>, acts: seq<Action>, i: nat, k: nat, left: nat)
    requires IsRun(ws, acts) && i <= k < |ws| && OnItsWay(ws[i], left)
    requires Count(acts, i, k, ReaderGoes) < left
    ensures OnItsWay(ws[k], left - Count(acts, i, k, ReaderGoes))
    decreases k
  {
    if i < k {
      StillOnItsWay(ws, acts, i, k - 1, left);
      assert TakesStep(ws, acts, k - 1);
      OnItsWayStays(ws[k - 1], acts[k - 1], left - Count(acts, i, k - 1, ReaderGoes));
    }
  }

  lemma OnItsWayMeans(w: World, left: nat)
    requires OnItsWay(w, left)
    ensures !w.m.r.pc.RIdle? && w.h.got == Published(w)
    ensures left == 1 ==> ReturnsEof(w.m)
  {
  }

  /** On a drained, closed ring the read that the Reader is in returns EOF with the Reader's third step at
      the latest, whatever the Writer does in between, and everything published has been delivered. */
  lemma DrainedReadComesToEof(ws: seq<World>, acts: seq<Action>, i: nat, l: nat, left: nat)
    returns (j: nat)
    requires IsRun(ws, acts) && i <= l < |ws| && OnItsWay(ws[i], left)
    requires Count(acts, i, l, ReaderGoes) >= left
    ensures i <= j < l && acts[j].RGo? && ReturnsEof(ws[j].m) && Count(acts, i, j, ReaderGoes) == left - 1
    ensures forall k :: i <= k <= j ==> !ws[k].m.r.pc.RIdle?
    ensures ws[j].h.got == Published(ws[j])
  {
    j := CountReaches(acts, i, l, left, ReaderGoes);
    forall k | i <= k <= j
      ensures !ws[k].m.r.pc.RIdle?
    {
      CountGrows(acts, i, k, j, ReaderGoes);
      StillOnItsWay(ws, acts, i, k, left);
      OnItsWayMeans(ws[k], left - Count(acts, i, k, ReaderGoes));
    }
    StillOnItsWay(ws, acts, i, j, left);
    OnItsWayMeans(ws[j], 1);
  }

  lemma ReturnSetsOut(ws: seq<World>, acts: seq<Action>, i: nat)
    requires IsRun(ws, acts) && i < |acts| && acts[i].RReturn? && Drained(ws[i])
    ensures OnItsWay(ws[i + 1], 3)
  {
    assert TakesStep(ws, acts, i);
    DrainedStays(ws[i], acts[i]);
  }

  /** A wait that ends on a drained, closed ring, by timeout, spuriously or after a poll sleep, is followed
      by EOF from that read within three more steps of the Reader. */
  lemma ReturnLeadsToEof(ws: seq<World>, acts: seq<Action>, i: nat, l: nat) returns (j: nat)
    requires IsRun(ws, acts) && i < l < |ws| && acts[i].RReturn? && Drained(ws[i])
    requires Count(acts, i + 1, l, ReaderGoes) >= 3
    ensures i < j < l && acts[j].RGo? && ReturnsEof(ws[j].m) && Count(acts, i + 1, j, ReaderGoes) == 2
    ensures forall k :: i < k <= j ==> !ws[k].m.r.pc.RIdle?
    ensures ws[j].h.got == Published(ws[j])
  {
    ReturnSetsOut(ws, acts, i);
    j := DrainedReadComesToEof(ws, acts, i + 1, l, 3);
  }

  lemma ParkedAtNudgeIsDrained(w: World)
    requires Inv(w) && w.m.w.pc.WCloseWake? && w.m.r.pc.RParked?
    ensures Drained(w) && OnItsWay(Step(w, WGo), 3)
  {
    DrainedStays(w, WGo);
  }

  lemma NudgeSetsOut(ws: seq<World>, acts: seq<Action>, c: nat)
    requires IsRun(ws, acts) && c < |acts|
    requires acts[c].WGo? && ws[c].m.w.pc.WCloseWake? && ws[c].m.r.pc.RParked?
    ensures OnItsWay(ws[c + 1], 3) && ws[c].m.sh.closed == 1 && ws[c].h.got == Published(ws[c])
  {
    RunKeeps(ws, acts, c);
    assert TakesStep(ws, acts, c);
    ParkedAtNudgeIsDrained(ws[c]);
  }

  /** A Reader asleep when Close gives its nudge has received everything, and its read returns EOF within
      three more steps of its own. */
  lemma SleeperAtCloseComesToEof(ws: seq<World>, acts: seq<Action>, c: nat, l: nat) returns (j: nat)
    requires IsRun(ws, acts) && c < l < |ws|
    requires acts[c].WGo? && ws[c].m.w.pc.WCloseWake? && ws[c].m.r.pc.RParked?
    requires Count(acts, c + 1, l, ReaderGoes) >= 3
    ensures c < j < l && acts[j].RGo? && ReturnsEof(ws[j].m) && Count(acts, c + 1, j, ReaderGoes) == 2
    ensures forall k :: c <= k <= j ==> !ws[k].m.r.pc.RIdle?
    ensures ws[c].h.got == ws[j].h.got == Published(ws[j])
  {
    NudgeSetsOut(ws, acts, c);
    j := DrainedReadComesToEof(ws, acts, c + 1, l, 3);
    CloseFreezesTheStream(ws, acts, c, j);
  }
}

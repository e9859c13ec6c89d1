/** The Writer and the Reader on the Rust crate's in-process storage: whatever the two threads, the mutex
    and the condition variable do, it is a run of the protocol. */
module OnCondvar {
  import opened Words
  import opened Counting
  import opened Header
  import opened Protocol
  import opened Invariant
  import opened Safety
  import C = Condvar

  const WRITER: C.Thread := 0
  const READER: C.Thread := 1

  // ---- The system --------------------------------------------------------------------

  /** The two programs and the data region, and the storage with the header words. While a side is inside
      store_u32_at or wait_u32_at, its program stands at the call. */
  datatype System = System(cap: Capacity, data: seq<byte>, w: Writer, r: Reader, fault: bool, s: C.Impl)

  function PcOf(s: C.Impl, t: C.Thread): C.Pc {
    if t in s.pcs then s.pcs[t] else C.Out
  }

  function SharedOf(y: System): Shared {
    Shared(C.ValueOf(y.s.words, OFF_HEAD), C.ValueOf(y.s.words, OFF_TAIL), C.ValueOf(y.s.words, OFF_CLOSED), y.data)
  }

  function Program(y: System): Machine {
    Machine(y.cap, SharedOf(y), y.w, y.r, y.fault)
  }

  /** Something the side does by itself: compute, start or give up a call, load a word or move a byte. */
  predicate IsLocal(y: System, a: Action) {
    match a
    case WGo => y.w.pc.WTop? || y.w.pc.WLoad? || y.w.pc.WCopy?
    case RGo => y.r.pc.RTop? || y.r.pc.RLoad? || y.r.pc.RLoadClosed? || y.r.pc.RCopy?
    case WReturn => false
    case RReturn => false
    case _ => Enabled(Program(y), a)
  }

  /** Loads and payload copies take the mutex for as long as they last. */
  predicate UsesStorage(y: System, a: Action) {
    || (a.WGo? && (y.w.pc.WLoad? || y.w.pc.WCopy?))
    || (a.RGo? && (y.r.pc.RLoad? || y.r.pc.RLoadClosed? || y.r.pc.RCopy?))
  }

  /** The call that a position stands for. */
  function WriterCall(w: Writer): seq<C.ImplStep> {
    match w.pc
    case WStore(_, _, _, _) => [C.CallStore(WRITER, OFF_TAIL, w.tail)]
    case WCloseFlag => [C.CallStore(WRITER, OFF_CLOSED, 1)]
    case WCloseTail => [C.CallStore(WRITER, OFF_TAIL, w.tail)]
    case WWait(_, _) => [C.CallWait(WRITER, OFF_HEAD, w.cachedHead)]
    case _ => []
  }

  function ReaderCall(r: Reader): seq<C.ImplStep> {
    match r.pc
    case RStore(_) => [C.CallStore(READER, OFF_HEAD, r.head)]
    case RWait(_) => [C.CallWait(READER, OFF_TAIL, r.cachedTail)]
    case _ => []
  }

  /** Where the programs go on when the call returns. */
  function WriterBack(w: Writer): Writer {
    match w.pc
    case WStore(p, done, block, n) => w.(pc := if block then WTop(p, done + n, block) else WIdle)
    case WCloseFlag => w.(pc := WCloseTail)
    case WCloseTail => w.(pc := WIdle)
    case WWait(p, done) => w.(pc := WTop(p, done, true))
    case _ => w
  }

  function ReaderBack(r: Reader): Reader {
    match r.pc
    case RStore(_) => r.(pc := RIdle)
    case RWait(len) => r.(pc := RTop(len, true))
    case _ => r
  }

  datatype SystemStep = Local(a: Action) | Storage(e: C.ImplStep)

  ghost predicate SystemDoes(y: System, e: SystemStep, y': System) {
    match e
    case Local(a) =>
      && IsLocal(y, a)
      && PcOf(y.s, if WriterActs(a) then WRITER else READER).Out?
      && (UsesStorage(y, a) ==> C.LockFree(y.s))
      && var m := Next(Program(y), a);
         y' == y.(data := m.sh.data, w := m.w, r := m.r, fault := m.fault)
    case Storage(e) =>
      && C.Does(y.s, e, y'.s)
      && (e.CallStore? || e.CallWait? ==> e in WriterCall(y.w) + ReaderCall(y.r))
      && y' == y.(s := y'.s,
                  w := if e == C.Go(WRITER) && PcOf(y'.s, WRITER).Out? then WriterBack(y.w) else y.w,
                  r := if e == C.Go(READER) && PcOf(y'.s, READER).Out? then ReaderBack(y.r) else y.r)
  }

  // ---- The protocol it runs ----------------------------------------------------------

  function WriterView(w: Writer, pc: C.Pc): Writer {
    match w.pc
    case WStore(p, done, block, n) => if C.Owes(pc) then w.(pc := WWake(p, done + n, block)) else w
    case WCloseFlag => if C.Owes(pc) then w.(pc := WCloseFlagWake) else w
    case WCloseTail => if C.Owes(pc) then w.(pc := WCloseWake) else w
    case WWait(p, done) =>
      if pc.Parked? then w.(pc := WParked(p, done)) else if Over(pc) then w.(pc := WTop(p, done, true)) else w
    case _ => w
  }

  function ReaderView(r: Reader, pc: C.Pc): Reader {
    match r.pc
    case RStore(_) => if C.Owes(pc) then r.(pc := RWake) else r
    case RWait(len) =>
      if pc.Parked? then r.(pc := RParked(len)) else if Over(pc) then r.(pc := RTop(len, true)) else r
    case _ => r
  }

  /** The wait is over, but for the lock. */
  predicate Over(pc: C.Pc) {
    pc.WaitDiffers? || pc.Woken? || pc.WokenHeld?
  }

  function View(y: System): Machine {
    Machine(y.cap, SharedOf(y), WriterView(y.w, PcOf(y.s, WRITER)), ReaderView(y.r, PcOf(y.s, READER)), y.fault)
  }

  /** A position in a call is one that this call can be at. */
  predicate InCall(call: C.ImplStep, pc: C.Pc) {
    match call
    case CallStore(_, word, value) =>
      || pc.Out? || pc == C.StoreLock(word, value) || pc == C.StoreHeld(word, value)
      || pc == C.StoreDone(word) || pc == C.StoreNotify(word)
    case CallWait(_, word, was) =>
      || pc.Out? || pc == C.WaitLock(word, was) || pc == C.WaitHeld(word, was) || pc == C.WaitEqual(word, was)
      || pc == C.Parked(word, was) || Over(pc)
    case _ => false
  }

  predicate Stands(call: seq<C.ImplStep>, pc: C.Pc) {
    if |call| == 1 then InCall(call[0], pc) else pc.Out?
  }

  ghost predicate Linked(y: System) {
    C.Sound(y.s) && y.s.pcs.Keys <= {WRITER, READER} && AtCalls(y)
  }

  /** Each side's place in the storage fits its program's place. */
  predicate AtCalls(y: System) {
    && !y.w.pc.WWake? && !y.w.pc.WCloseFlagWake? && !y.w.pc.WCloseWake? && !y.w.pc.WParked?
    && !y.r.pc.RWake? && !y.r.pc.RParked?
    && Stands(WriterCall(y.w), PcOf(y.s, WRITER)) && Stands(ReaderCall(y.r), PcOf(y.s, READER))
  }

  /** The protocol's actions that a step of the system amounts to. The notify after the store of the closed
      flag wakes a Reader that waits on another word: to the protocol that is a spurious return. */
  function Follow(y: System, e: SystemStep): seq<Action> {
    match e
    case Local(a) => [a]
    case Storage(e) =>
      if e.Unpark? then [if e.t == WRITER then WReturn else RReturn]
      else if !e.Go? then []
      else
        var go := if e.t == WRITER then WGo else RGo;
        match PcOf(y.s, e.t)
        case StoreHeld(_, _) => [go]
        case StoreNotify(_) =>
          if e.t == WRITER && y.w.pc.WCloseFlag? && PcOf(y.s, READER).Parked? then [RReturn, go] else [go]
        case WaitHeld(word, was) => if C.ValueOf(y.s.words, word) == was then [] else [go]
        case WaitEqual(_, _) => [go]
        case _ => []
  }

  ghost predicate Reaches(m: Machine, acts: seq<Action>, m': Machine)
    decreases |acts|
  {
    if acts == [] then m' == m else Enabled(m, acts[0]) && Reaches(Next(m, acts[0]), acts[1..], m')
  }

  // ---- Every step follows ------------------------------------------------------------

  /** What a side does depends on nothing of its peer but the shared memory. */
  lemma WriterIgnoresReader(m: Machine, r: Reader)
    ensures var m' := m.(r := r); WAfter(m') == WAfter(m) && WEffect(m') == WEffect(m) && WFaults(m') == WFaults(m)
  {
  }

  lemma ReaderIgnoresWriter(m: Machine, w: Writer)
    ensures var m' := m.(w := w); RAfter(m') == RAfter(m) && REffect(m') == REffect(m) && RFaults(m') == RFaults(m)
  {
    if m.r.pc.RCopy? {
      assert ReadIndex(m.(w := w), |m.r.pc.buf|) == ReadIndex(m, |m.r.pc.buf|);
    }
  }

  lemma WriterComputes(y: System, y': System)
    requires AtCalls(y) && SystemDoes(y, Local(WGo), y')
    ensures AtCalls(y') && Enabled(View(y), WGo) && Next(View(y), WGo) == View(y')
  {
    WriterIgnoresReader(Program(y), View(y).r);
    assert View(y) == Program(y).(r := View(y).r);
  }

  lemma ReaderComputes(y: System, y': System)
    requires AtCalls(y) && SystemDoes(y, Local(RGo), y')
    ensures AtCalls(y') && Enabled(View(y), RGo) && Next(View(y), RGo) == View(y')
  {
    ReaderIgnoresWriter(Program(y), View(y).w);
    assert View(y) == Program(y).(w := View(y).w);
  }

  lemma CallerFollows(y: System, a: Action, y': System)
    requires AtCalls(y) && SystemDoes(y, Local(a), y') && !a.WGo? && !a.RGo?
    ensures AtCalls(y') && Enabled(View(y), a) && Next(View(y), a) == View(y')
  {
  }

  lemma WriterStores(y: System, y': System)
    requires AtCalls(y) && SystemDoes(y, Storage(C.Go(WRITER)), y') && PcOf(y.s, WRITER).StoreHeld?
    ensures Enabled(View(y), WGo) && Next(View(y), WGo) == View(y')
  {
  }

  lemma ReaderStores(y: System, y': System)
    requires AtCalls(y) && SystemDoes(y, Storage(C.Go(READER)), y') && PcOf(y.s, READER).StoreHeld?
    ensures Enabled(View(y), RGo) && Next(View(y), RGo) == View(y')
  {
  }

  lemma TailNotifies(y: System, y': System)
    requires AtCalls(y) && SystemDoes(y, Storage(C.Go(WRITER)), y') && PcOf(y.s, WRITER).StoreNotify?
    requires !y.w.pc.WCloseFlag?
    ensures Enabled(View(y), WGo) && Next(View(y), WGo) == View(y')
  {
  }

  lemma FlagNotifies(y: System, y': System)
    requires AtCalls(y) && SystemDoes(y, Storage(C.Go(WRITER)), y') && PcOf(y.s, WRITER).StoreNotify?
    requires y.w.pc.WCloseFlag?
    ensures var m := if PcOf(y.s, READER).Parked? then Next(View(y), RReturn) else View(y);
            Enabled(m, WGo) && Next(m, WGo) == View(y')
  {
  }

  lemma ReaderNotifies(y: System, y': System)
    requires AtCalls(y) && SystemDoes(y, Storage(C.Go(READER)), y') && PcOf(y.s, READER).StoreNotify?
    ensures Enabled(View(y), RGo) && Next(View(y), RGo) == View(y')
  {
  }

  lemma WriterCompares(y: System, y': System)
    requires Linked(y) && SystemDoes(y, Storage(C.Go(WRITER)), y') && y.w.pc.WWait?
    ensures var pc := PcOf(y.s, WRITER);
            if pc.WaitEqual? || (pc.WaitHeld? && C.ValueOf(y.s.words, pc.word) != pc.was)
            then Enabled(View(y), WGo) && Next(View(y), WGo) == View(y')
            else View(y') == View(y)
  {
  }

  lemma ReaderCompares(y: System, y': System)
    requires Linked(y) && SystemDoes(y, Storage(C.Go(READER)), y') && y.r.pc.RWait?
    ensures var pc := PcOf(y.s, READER);
            if pc.WaitEqual? || (pc.WaitHeld? && C.ValueOf(y.s.words, pc.word) != pc.was)
            then Enabled(View(y), RGo) && Next(View(y), RGo) == View(y')
            else View(y') == View(y)
  {
  }

  lemma UnparkFollows(y: System, t: C.Thread, y': System)
    requires Linked(y) && SystemDoes(y, Storage(C.Unpark(t)), y')
    ensures t == WRITER || t == READER
    ensures var a := if t == WRITER then WReturn else RReturn;
            Enabled(View(y), a) && Next(View(y), a) == View(y')
  {
  }

  lemma CallsStutter(y: System, e: C.ImplStep, y': System)
    requires AtCalls(y) && SystemDoes(y, Storage(e), y') && (e.CallStore? || e.CallWait?)
    ensures View(y') == View(y)
  {
  }

  lemma LocksStutter(y: System, t: C.Thread, y': System)
    requires AtCalls(y) && SystemDoes(y, Storage(C.Go(t)), y')
    requires PcOf(y.s, t).StoreLock? || PcOf(y.s, t).StoreDone?
    ensures View(y') == View(y)
  {
  }

  lemma CallGoesOn(s: C.Impl, e: C.ImplStep, s': C.Impl, t: C.Thread, call: seq<C.ImplStep>)
    requires Stands(call, PcOf(s, t)) && C.Does(s, e, s')
    requires (e.CallStore? || e.CallWait?) && e.t == t ==> call == [e]
    ensures Stands(call, PcOf(s', t))
  {
  }

  lemma ThreadsStay(s: C.Impl, e: C.ImplStep, s': C.Impl)
    requires s.pcs.Keys <= {WRITER, READER} && C.Does(s, e, s')
    requires e.CallStore? || e.CallWait? ==> e.t == WRITER || e.t == READER
    ensures s'.pcs.Keys <= {WRITER, READER}
  {
  }

  lemma StorageKeepsLink(y: System, e: C.ImplStep, y': System)
    requires Linked(y) && SystemDoes(y, Storage(e), y')
    ensures Linked(y')
  {
    C.SoundStays(y.s, e, y'.s);
    ThreadsStay(y.s, e, y'.s);
    CallGoesOn(y.s, e, y'.s, WRITER, WriterCall(y.w));
    CallGoesOn(y.s, e, y'.s, READER, ReaderCall(y.r));
  }

  lemma WriterFollows(y: System, y': System)
    requires Linked(y) && SystemDoes(y, Storage(C.Go(WRITER)), y')
    ensures Reaches(View(y), Follow(y, Storage(C.Go(WRITER))), View(y'))
  {
    var pc := PcOf(y.s, WRITER);
    if pc.StoreLock? || pc.StoreDone? {
      LocksStutter(y, WRITER, y');
    } else if pc.StoreHeld? {
      WriterStores(y, y');
    } else if !pc.StoreNotify? {
      WriterCompares(y, y');
    } else if y.w.pc.WCloseFlag? {
      FlagNotifies(y, y');
    } else {
      TailNotifies(y, y');
    }
  }

  lemma ReaderFollows(y: System, y': System)
    requires Linked(y) && SystemDoes(y, Storage(C.Go(READER)), y')
    ensures Reaches(View(y), Follow(y, Storage(C.Go(READER))), View(y'))
  {
    var pc := PcOf(y.s, READER);
    if pc.StoreLock? || pc.StoreDone? {
      LocksStutter(y, READER, y');
    } else if pc.StoreHeld? {
      ReaderStores(y, y');
    } else if pc.StoreNotify? {
      ReaderNotifies(y, y');
    } else {
      ReaderCompares(y, y');
    }
  }

  /** Every step of the system is performed by the protocol's actions listed for it. */
  lemma SystemStepFollows(y: System, e: SystemStep, y': System)
    requires Linked(y) && SystemDoes(y, e, y')
    ensures Linked(y') && Reaches(View(y), Follow(y, e), View(y'))
  {
    match e
    case Local(a) =>
      if a.WGo? {
        WriterComputes(y, y');
      } else if a.RGo? {
        ReaderComputes(y, y');
      } else {
        CallerFollows(y, a, y');
      }
    case Storage(e) =>
      StorageKeepsLink(y, e, y');
      if e == C.Go(WRITER) {
        WriterFollows(y, y');
      } else if e.Go? {
        ReaderFollows(y, y');
      } else if e.Unpark? {
        UnparkFollows(y, e.t, y');
      } else {
        CallsStutter(y, e, y');
      }
  }

  // ---- Runs --------------------------------------------------------------------------

  /** NewWriter has zeroed the three words; nothing has been called yet. */
  ghost predicate Begun(y: System) {
    && SharedOf(y) == Shared(0, 0, 0, y.data) && |y.data| == y.cap && y.s.pcs == map[]
    && y.w == Writer(0, 0, false, WIdle) && y.r == Reader(0, 0, RIdle) && !y.fault
  }

  ghost predicate RunsStep(ys: seq<System>, es: seq<SystemStep>, i: nat)
    requires |ys| == |es| + 1 && i < |es|
  {
    SystemDoes(ys[i], es[i], ys[i + 1])
  }

  ghost predicate SystemRun(ys: seq<System>, es: seq<SystemStep>) {
    && |ys| == |es| + 1 && Begun(ys[0])
    && forall i :: 0 <= i < |es| ==> RunsStep(ys, es, i)
  }

  /** The byte that a step copies into the ring, and the bytes that it hands to the Reader's caller. */
  function BytesIn(y: System, e: SystemStep): seq<byte> {
    if e.Local? && e.a.WGo? && y.w.pc.WCopy? && y.w.pc.i < y.w.pc.n && y.w.pc.done + y.w.pc.i < |y.w.pc.p|
    then [y.w.pc.p[y.w.pc.done + y.w.pc.i]] else []
  }

  function BytesOut(y: System, e: SystemStep): seq<byte> {
    if e.Local? && e.a.RGo? && y.r.pc.RCopy? && |y.r.pc.buf| >= y.r.pc.n then y.r.pc.buf else []
  }

  function AllIn(ys: seq<System>, es: seq<SystemStep>, i: nat): seq<byte>
    requires i <= |es| <= |ys|
  {
    if i == 0 then [] else AllIn(ys, es, i - 1) + BytesIn(ys[i - 1], es[i - 1])
  }

  function AllOut(ys: seq<System>, es: seq<SystemStep>, i: nat): seq<byte>
    requires i <= |es| <= |ys|
  {
    if i == 0 then [] else AllOut(ys, es, i - 1) + BytesOut(ys[i - 1], es[i - 1])
  }

  /** No payload moves in any of these actions. */
  ghost predicate Silent(m: Machine, acts: seq<Action>)
    decreases |acts|
  {
    acts == [] ||
    (&& Enabled(m, acts[0]) && !(acts[0].WGo? && m.w.pc.WCopy?) && !(acts[0].RGo? && m.r.pc.RCopy?)
     && Silent(Next(m, acts[0]), acts[1..]))
  }

  lemma StorageIsSilent(y: System, e: C.ImplStep, y': System)
    requires Linked(y) && SystemDoes(y, Storage(e), y') && Reaches(View(y), Follow(y, Storage(e)), View(y'))
    ensures Silent(View(y), Follow(y, Storage(e)))
  {
  }

  lemma {:induction false} Perform(ws: seq<World>, acts: seq<Action>, more: seq<Action>, m: Machine)
    returns (ws': seq<World>)
    requires IsRun(ws, acts) && Reaches(ws[|acts|].m, more, m)
    ensures IsRun(ws', acts + more) && ws <= ws' && ws'[|acts + more|].m == m
    ensures Silent(ws[|acts|].m, more) ==>
              ws'[|acts + more|].h.log == ws[|acts|].h.log && ws'[|acts + more|].h.got == ws[|acts|].h.got
    decreases |more|
  {
    if more == [] {
      ws' := ws;
      assert acts + more == acts;
    } else {
      var w := Step(ws[|acts|], more[0]);
      Extend(ws, acts, more[0], w);
      ws' := Perform(ws + [w], acts + [more[0]], more[1..], m);
      assert acts + [more[0]] + more[1..] == acts + more;
    }
  }

  /** The protocol run that a run of the system amounts to: its state number `at[k]` is what the system
      shows after `k` steps, and its history records the bytes that went in and came out. */
  ghost predicate Mirrors(ys: seq<System>, es: seq<SystemStep>, n: nat, ws: seq<World>, at: seq<nat>)
    requires n <= |es| <= |ys|
  {
    && |at| == n + 1
    && forall k :: 0 <= k <= n ==> MirrorsAt(ys, es, k, ws, at[k])
  }

  ghost predicate MirrorsAt(ys: seq<System>, es: seq<SystemStep>, k: nat, ws: seq<World>, at: nat)
    requires k <= |es| <= |ys|
  {
    && k < |ys| && at < |ws| && ws[at].m == View(ys[k])
    && ws[at].h.log == AllIn(ys, es, k) && ws[at].h.got == AllOut(ys, es, k)
  }

  lemma LocalBytes(w: World, y: System, a: Action, y': System)
    requires AtCalls(y) && SystemDoes(y, Local(a), y') && w.m == View(y) && Enabled(w.m, a)
    ensures Step(w, a).h.log == w.h.log + BytesIn(y, Local(a))
    ensures Step(w, a).h.got == w.h.got + BytesOut(y, Local(a))
  {
  }

  /** One step of the system carries the protocol run on. */
  lemma CarryOn(ws: seq<World>, acts: seq<Action>, y: System, e: SystemStep, y': System)
    returns (ws': seq<World>, acts': seq<Action>)
    requires IsRun(ws, acts) && Linked(y) && SystemDoes(y, e, y') && ws[|acts|].m == View(y)
    ensures IsRun(ws', acts') && ws <= ws' && acts <= acts' && Linked(y') && ws'[|acts'|].m == View(y')
    ensures ws'[|acts'|].h.log == ws[|acts|].h.log + BytesIn(y, e)
    ensures ws'[|acts'|].h.got == ws[|acts|].h.got + BytesOut(y, e)
  {
    SystemStepFollows(y, e, y');
    ws' := Perform(ws, acts, Follow(y, e), View(y'));
    acts' := acts + Follow(y, e);
    if e.Local? {
      assert TakesStep(ws', acts', |acts|);
      LocalBytes(ws[|acts|], y, e.a, y');
    } else {
      StorageIsSilent(y, e.e, y');
    }
  }

  lemma MirrorGrows(
    ys: seq<System>, es: seq<SystemStep>, n: nat, ws: seq<World>, ws': seq<World>, at: seq<nat>, last: nat)
    requires 0 < n <= |es| <= |ys| && Mirrors(ys, es, n - 1, ws, at) && ws <= ws'
    requires MirrorsAt(ys, es, n, ws', last)
    ensures Mirrors(ys, es, n, ws', at + [last])
  {
    var at' := at + [last];
    forall k | 0 <= k <= n
      ensures MirrorsAt(ys, es, k, ws', at'[k])
    {
      if k < n {
        assert MirrorsAt(ys, es, k, ws, at[k]);
      }
    }
  }

  lemma StartsAlike(y: System) returns (w: World)
    requires Begun(y)
    ensures Initial(w) && w.m == View(y) && Linked(y) && w.h.log == [] && w.h.got == []
  {
    w := World(View(y), History(0, 0, 0, 0, 0, 0, [], [], [], false));
  }

  /** Every run of the two programs over the mutex and the condition variable is a run of the protocol, with
      the same memory, the same bytes in and the same bytes out after every step. */
  lemma {:induction false} SystemRunsAreProtocolRuns(ys: seq<System>, es: seq<SystemStep>, n: nat)
    returns (ws: seq<World>, acts: seq<Action>, at: seq<nat>)
    requires SystemRun(ys, es) && n < |ys|
    ensures IsRun(ws, acts) && Linked(ys[n]) && Mirrors(ys, es, n, ws, at) && at[n] == |acts|
    ensures forall k :: 0 < k <= n ==> at[k - 1] <= at[k] <= |acts|
  {
    if n == 0 {
      var w := StartsAlike(ys[0]);
      ws, acts, at := [w], [], [0];
    } else {
      var ws0, acts0, at0 := SystemRunsAreProtocolRuns(ys, es, n - 1);
      assert MirrorsAt(ys, es, n - 1, ws0, at0[n - 1]);
      assert RunsStep(ys, es, n - 1);
      ws, acts := CarryOn(ws0, acts0, ys[n - 1], es[n - 1], ys[n]);
      MirrorGrows(ys, es, n, ws0, ws, at0, |acts|);
      at := at0 + [|acts|];
    }
  }

  /** So the storage serves the ring: what comes out is a prefix of what went in, no access is out of range,
      the two threads never sleep together, and a side sleeps only while the ring is empty, or full, or its
      peer, having stored its counter, is still to notify. */
  lemma RingWorksOnCondvar(ys: seq<System>, es: seq<SystemStep>, n: nat)
    requires SystemRun(ys, es) && n < |ys|
    ensures AllOut(ys, es, n) <= AllIn(ys, es, n) && !ys[n].fault
    ensures !(PcOf(ys[n].s, WRITER).Parked? && PcOf(ys[n].s, READER).Parked?)
    ensures PcOf(ys[n].s, READER).Parked? ==>
              || (ys[n].w.pc.WStore? && C.Owes(PcOf(ys[n].s, WRITER)))
              || SharedOf(ys[n]).tail == ys[n].r.head
    ensures PcOf(ys[n].s, WRITER).Parked? ==>
              || (ys[n].r.pc.RStore? && C.Owes(PcOf(ys[n].s, READER)))
              || WrapSub(SharedOf(ys[n]).tail, SharedOf(ys[n]).head) == ys[n].cap
  {
    var ws, acts, at := SystemRunsAreProtocolRuns(ys, es, n);
    assert MirrorsAt(ys, es, n, ws, at[n]);
    FifoInEveryRun(ws, acts, at[n]);
    NoAccessOutOfRange(ws, acts, at[n]);
    NeverBothAsleep(ws, acts, at[n]);
    SleepersHaveAReason(ws, acts, at[n]);
    ParkedShows(ys[n]);
  }

  lemma ParkedShows(y: System)
    requires Linked(y)
    ensures PcOf(y.s, WRITER).Parked? ==> View(y).w.pc.WParked?
    ensures PcOf(y.s, READER).Parked? ==> View(y).r.pc.RParked? && View(y).r.head == y.r.head
    ensures View(y).w.pc.WWake? ==> y.w.pc.WStore? && C.Owes(PcOf(y.s, WRITER))
    ensures View(y).r.pc.RWake? ==> y.r.pc.RStore? && C.Owes(PcOf(y.s, READER))
  {
  }

  lemma LinkedInRun(ys: seq<System>, es: seq<SystemStep>, n: nat)
    requires SystemRun(ys, es) && n < |ys|
    ensures Linked(ys[n])
  {
    var ws, acts, at := SystemRunsAreProtocolRuns(ys, es, n);
  }

  // ---- Nothing stands still ----------------------------------------------------------

  function SideOf(e: SystemStep): C.Thread {
    match e
    case Local(a) => if WriterActs(a) then WRITER else READER
    case Storage(e) => e.t
  }

  function OfSide(t: C.Thread): SystemStep -> bool {
    (e: SystemStep) => SideOf(e) == t
  }

  /** Some step of this side is possible. */
  ghost predicate SideSteps(y: System, t: C.Thread) {
    exists e, y' :: SideOf(e) == t && SystemDoes(y, e, y')
  }

  lemma WriterSteps(y: System) returns (e: SystemStep, y': System)
    requires Linked(y) && !y.w.pc.WIdle? && !PcOf(y.s, WRITER).Parked? && !C.Holding(PcOf(y.s, READER))
    ensures SideOf(e) == WRITER && SystemDoes(y, e, y')
  {
    if !PcOf(y.s, WRITER).Out? {
      var s' := C.StepExists(y.s, WRITER);
      e, y' := Storage(C.Go(WRITER)), y.(s := s', w := if PcOf(s', WRITER).Out? then WriterBack(y.w) else y.w);
    } else if WriterCall(y.w) == [] {
      var m := Next(Program(y), WGo);
      e, y' := Local(WGo), y.(data := m.sh.data, w := m.w, r := m.r, fault := m.fault);
    } else {
      var call := WriterCall(y.w)[0];
      var pc := if call.CallStore? then C.StoreLock(call.word, call.value) else C.WaitLock(call.word, call.was);
      e, y' := Storage(call), y.(s := C.GoTo(y.s, WRITER, pc));
    }
  }

  lemma ReaderSteps(y: System) returns (e: SystemStep, y': System)
    requires Linked(y) && !y.r.pc.RIdle? && !PcOf(y.s, READER).Parked? && !C.Holding(PcOf(y.s, WRITER))
    ensures SideOf(e) == READER && SystemDoes(y, e, y')
  {
    if !PcOf(y.s, READER).Out? {
      var s' := C.StepExists(y.s, READER);
      e, y' := Storage(C.Go(READER)), y.(s := s', r := if PcOf(s', READER).Out? then ReaderBack(y.r) else y.r);
    } else if ReaderCall(y.r) == [] {
      var m := Next(Program(y), RGo);
      e, y' := Local(RGo), y.(data := m.sh.data, w := m.w, r := m.r, fault := m.fault);
    } else {
      var call := ReaderCall(y.r)[0];
      var pc := if call.CallStore? then C.StoreLock(call.word, call.value) else C.WaitLock(call.word, call.was);
      e, y' := Storage(call), y.(s := C.GoTo(y.s, READER, pc));
    }
  }

  lemma WriterNotStuck(y: System)
    requires Linked(y) && !y.w.pc.WIdle? && !PcOf(y.s, WRITER).Parked? && !C.Holding(PcOf(y.s, READER))
    ensures SideSteps(y, WRITER)
  {
    var e, y' := WriterSteps(y);
  }

  lemma ReaderNotStuck(y: System)
    requires Linked(y) && !y.r.pc.RIdle? && !PcOf(y.s, READER).Parked? && !C.Holding(PcOf(y.s, WRITER))
    ensures SideSteps(y, READER)
  {
    var e, y' := ReaderSteps(y);
  }

  /** In every run a side in the middle of a call and not asleep has a step, unless its peer holds the lock,
      and then the peer has one. */
  lemma NobodyStandsStill(ys: seq<System>, es: seq<SystemStep>, n: nat)
    requires SystemRun(ys, es) && n < |ys|
    ensures !ys[n].w.pc.WIdle? && !PcOf(ys[n].s, WRITER).Parked? ==>
              SideSteps(ys[n], WRITER) || (C.Holding(PcOf(ys[n].s, READER)) && SideSteps(ys[n], READER))
    ensures !ys[n].r.pc.RIdle? && !PcOf(ys[n].s, READER).Parked? ==>
              SideSteps(ys[n], READER) || (C.Holding(PcOf(ys[n].s, WRITER)) && SideSteps(ys[n], WRITER))
  {
    var ws, acts, at := SystemRunsAreProtocolRuns(ys, es, n);
    var y := ys[n];
    if C.Holding(PcOf(y.s, READER)) {
      ReaderNotStuck(y);
    } else if !y.w.pc.WIdle? && !PcOf(y.s, WRITER).Parked? {
      WriterNotStuck(y);
    }
    if C.Holding(PcOf(y.s, WRITER)) {
      WriterNotStuck(y);
    } else if !y.r.pc.RIdle? && !PcOf(y.s, READER).Parked? {
      ReaderNotStuck(y);
    }
  }

  /** The callers are as free as in the protocol: an idle side may begin any call, and a call about to wait may
      be canceled. */
  lemma CallersAreFree(y: System, a: Action)
    requires Linked(y)
    requires || (y.w.pc.WIdle? && (a.WBegin? || a.WClose?)) || (y.r.pc.RIdle? && a.RBegin?)
             || (a.WCancel? && y.w.pc.WWait? && PcOf(y.s, WRITER).Out?)
             || (a.RCancel? && y.r.pc.RWait? && PcOf(y.s, READER).Out?)
    ensures exists y' :: SystemDoes(y, Local(a), y')
  {
    var m := Next(Program(y), a);
    assert SystemDoes(y, Local(a), y.(data := m.sh.data, w := m.w, r := m.r, fault := m.fault));
  }

  /** At most how many steps a side can take before one of them is an action of the protocol. */
  function Stutters(call: seq<C.ImplStep>, pc: C.Pc): nat {
    match pc
    case Out => if |call| != 1 then 0 else if call[0].CallWait? then 3 else 2
    case StoreLock(_, _) => 1
    case StoreDone(_) => 1
    case WaitLock(_, _) => 2
    case WaitHeld(_, _) => 1
    case WaitDiffers => 1
    case Parked(_, _) => 2
    case Woken => 2
    case WokenHeld => 1
    case _ => 0
  }

  function StuttersOf(y: System, t: C.Thread): nat {
    if t == WRITER then Stutters(WriterCall(y.w), PcOf(y.s, WRITER)) else Stutters(ReaderCall(y.r), PcOf(y.s, READER))
  }

  /** To a side, its peer's steps do nothing but wake it. */
  predicate UntouchedOrWoken(pc: C.Pc, pc': C.Pc) {
    pc' == pc || (pc.Parked? && pc'.Woken?)
  }

  lemma StorageLeavesPeer(s: C.Impl, e: C.ImplStep, s': C.Impl, t: C.Thread)
    requires C.Does(s, e, s') && e.t != t
    ensures UntouchedOrWoken(PcOf(s, t), PcOf(s', t))
  {
  }

  lemma ReaderLeavesWriter(y: System, e: SystemStep, y': System)
    requires Linked(y) && SystemDoes(y, e, y') && SideOf(e) != WRITER
    ensures y'.w == y.w && UntouchedOrWoken(PcOf(y.s, WRITER), PcOf(y'.s, WRITER))
  {
    if e.Storage? {
      StorageLeavesPeer(y.s, e.e, y'.s, WRITER);
    }
  }

  lemma WriterLeavesReader(y: System, e: SystemStep, y': System)
    requires Linked(y) && SystemDoes(y, e, y') && SideOf(e) != READER
    ensures y'.r == y.r && UntouchedOrWoken(PcOf(y.s, READER), PcOf(y'.s, READER))
  {
    if e.Storage? {
      StorageLeavesPeer(y.s, e.e, y'.s, READER);
    }
  }

  lemma StutterGetsOn(y: System, e: SystemStep, y': System)
    requires Linked(y) && SystemDoes(y, e, y') && Follow(y, e) == []
    ensures StuttersOf(y', SideOf(e)) < StuttersOf(y, SideOf(e))
  {
  }

  lemma StutterGetsOnInRun(ys: seq<System>, es: seq<SystemStep>, k: nat)
    requires SystemRun(ys, es) && k < |es| && Follow(ys[k], es[k]) == []
    ensures StuttersOf(ys[k + 1], SideOf(es[k])) < StuttersOf(ys[k], SideOf(es[k]))
  {
    LinkedInRun(ys, es, k);
    assert RunsStep(ys, es, k);
    StutterGetsOn(ys[k], es[k], ys[k + 1]);
  }

  lemma PeerLeavesSide(ys: seq<System>, es: seq<SystemStep>, k: nat)
    requires SystemRun(ys, es) && k < |es|
    ensures SideOf(es[k]) != WRITER ==>
              ys[k + 1].w == ys[k].w && UntouchedOrWoken(PcOf(ys[k].s, WRITER), PcOf(ys[k + 1].s, WRITER))
    ensures SideOf(es[k]) != READER ==>
              ys[k + 1].r == ys[k].r && UntouchedOrWoken(PcOf(ys[k].s, READER), PcOf(ys[k + 1].s, READER))
  {
    LinkedInRun(ys, es, k);
    assert RunsStep(ys, es, k);
    if SideOf(es[k]) != WRITER {
      ReaderLeavesWriter(ys[k], es[k], ys[k + 1]);
    }
    if SideOf(es[k]) != READER {
      WriterLeavesReader(ys[k], es[k], ys[k + 1]);
    }
  }

  lemma StuttersNext(ys: seq<System>, es: seq<SystemStep>, k: nat, t: C.Thread)
    requires SystemRun(ys, es) && k < |es| && (t == WRITER || t == READER)
    requires SideOf(es[k]) == t ==> Follow(ys[k], es[k]) == []
    ensures StuttersOf(ys[k + 1], t) <= StuttersOf(ys[k], t) - if SideOf(es[k]) == t then 1 else 0
  {
    if SideOf(es[k]) == t {
      StutterGetsOnInRun(ys, es, k);
    } else {
      PeerLeavesSide(ys, es, k);
    }
  }

  lemma {:induction false} StuttersSoFar(ys: seq<System>, es: seq<SystemStep>, i: nat, l: nat, t: C.Thread)
    returns (k: nat)
    requires SystemRun(ys, es) && i <= l < |ys| && (t == WRITER || t == READER)
    ensures i <= k <= l
    ensures k < l ==> SideOf(es[k]) == t && Follow(ys[k], es[k]) != []
    ensures k == l ==> Count(es, i, l, OfSide(t)) + StuttersOf(ys[l], t) <= StuttersOf(ys[i], t)
    decreases l
  {
    k := i;
    if i < l {
      k := StuttersSoFar(ys, es, i, l - 1, t);
      if k == l - 1 && (SideOf(es[k]) != t || Follow(ys[k], es[k]) == []) {
        StuttersNext(ys, es, k, t);
        k := l;
      }
    }
  }

  /** Among any four steps that a side takes, one is an action of the protocol: locks and wakeups only delay
      it, so what the protocol does in so many steps of a side, the system does in four times as many. */
  lemma EveryFourthStepActs(ys: seq<System>, es: seq<SystemStep>, i: nat, l: nat, t: C.Thread) returns (k: nat)
    requires SystemRun(ys, es) && i <= l < |ys| && (t == WRITER || t == READER)
    requires Count(es, i, l, OfSide(t)) >= 4
    ensures i <= k < l && SideOf(es[k]) == t && Follow(ys[k], es[k]) != []
  {
    k := StuttersSoFar(ys, es, i, l, t);
  }

  // ---- Close -------------------------------------------------------------------------

  /** How many steps of the Writer a Close has left. */
  function CloseLeft(w: Writer, pc: C.Pc): nat {
    var store := if pc.Out? then 5 else C.StepsLeft(pc);
    if w.pc.WCloseFlag? then 5 + store else if w.pc.WCloseTail? then store else 0
  }

  ghost predicate Closing(y: System) {
    Linked(y) && y.w.closed && (y.w.pc.WCloseFlag? || y.w.pc.WCloseTail?)
  }

  lemma CloseGetsOn(y: System, e: SystemStep, y': System)
    requires Closing(y) && SystemDoes(y, e, y') && SideOf(e) == WRITER
    ensures var left := CloseLeft(y.w, PcOf(y.s, WRITER)) - 1;
            && CloseLeft(y'.w, PcOf(y'.s, WRITER)) == left
            && (left > 0 ==> y'.w.closed && (y'.w.pc.WCloseFlag? || y'.w.pc.WCloseTail?))
  {
  }

  lemma CloseStarts(ys: seq<System>, es: seq<SystemStep>, b: nat)
    requires SystemRun(ys, es) && b < |es| && es[b] == Local(WClose) && !ys[b].w.closed
    ensures Closing(ys[b + 1]) && CloseLeft(ys[b + 1].w, PcOf(ys[b + 1].s, WRITER)) == 10
  {
    LinkedInRun(ys, es, b + 1);
    assert RunsStep(ys, es, b);
  }

  lemma CloseGetsOnInRun(ys: seq<System>, es: seq<SystemStep>, k: nat)
    requires SystemRun(ys, es) && k < |es| && Closing(ys[k]) && SideOf(es[k]) == WRITER
    ensures var left := CloseLeft(ys[k].w, PcOf(ys[k].s, WRITER)) - 1;
            CloseLeft(ys[k + 1].w, PcOf(ys[k + 1].s, WRITER)) == left && (left > 0 ==> Closing(ys[k + 1]))
  {
    LinkedInRun(ys, es, k + 1);
    assert RunsStep(ys, es, k);
    CloseGetsOn(ys[k], es[k], ys[k + 1]);
  }

  lemma CloseNext(ys: seq<System>, es: seq<SystemStep>, k: nat)
    requires SystemRun(ys, es) && k < |es| && Closing(ys[k])
    ensures var left := CloseLeft(ys[k].w, PcOf(ys[k].s, WRITER)) - if SideOf(es[k]) == WRITER then 1 else 0;
            CloseLeft(ys[k + 1].w, PcOf(ys[k + 1].s, WRITER)) == left && (left > 0 ==> Closing(ys[k + 1]))
  {
    if SideOf(es[k]) == WRITER {
      CloseGetsOnInRun(ys, es, k);
    } else {
      LinkedInRun(ys, es, k + 1);
      PeerLeavesSide(ys, es, k);
    }
  }

  lemma {:induction false} CloseSoFar(ys: seq<System>, es: seq<SystemStep>, b: nat, k: nat)
    requires SystemRun(ys, es) && b < k < |ys| && es[b] == Local(WClose) && !ys[b].w.closed
    requires Count(es, b + 1, k, OfSide(WRITER)) < 10
    ensures Closing(ys[k]) && CloseLeft(ys[k].w, PcOf(ys[k].s, WRITER)) == 10 - Count(es, b + 1, k, OfSide(WRITER))
    decreases k
  {
    if b + 1 < k {
      CloseSoFar(ys, es, b, k - 1);
      CloseNext(ys, es, k - 1);
    } else {
      CloseStarts(ys, es, b);
    }
  }

  lemma CloseEnds(y: System, e: SystemStep, y': System)
    requires Closing(y) && SystemDoes(y, e, y') && SideOf(e) == WRITER && CloseLeft(y.w, PcOf(y.s, WRITER)) == 1
    ensures e == Storage(C.Go(WRITER)) && PcOf(y.s, WRITER) == C.StoreNotify(OFF_TAIL)
    ensures y'.w.pc.WIdle? && y'.w.closed && C.NobodySleeps(y'.s)
  {
  }

  lemma ClosedShows(ys: seq<System>, es: seq<SystemStep>, n: nat)
    requires SystemRun(ys, es) && n < |ys| && ys[n].w.closed && ys[n].w.pc.WIdle?
    ensures SharedOf(ys[n]).closed == 1 && SharedOf(ys[n]).tail == ys[n].w.tail
  {
    var ws, acts, at := SystemRunsAreProtocolRuns(ys, es, n);
    assert MirrorsAt(ys, es, n, ws, at[n]);
    RunKeeps(ws, acts, at[n]);
  }

  /** The first Close is over with the Writer's tenth step after the call, whatever the Reader does: each of
      its two stores takes five. Its last step is the notify for the tail, after which nobody sleeps; the
      flag is up, and the tail is what it was. */
  lemma CloseFinishes(ys: seq<System>, es: seq<SystemStep>, b: nat, l: nat) returns (j: nat)
    requires SystemRun(ys, es) && b < l < |ys| && es[b] == Local(WClose) && !ys[b].w.closed
    requires Count(es, b + 1, l, OfSide(WRITER)) >= 10
    ensures b < j < l && Count(es, b + 1, j, OfSide(WRITER)) == 9
    ensures es[j] == Storage(C.Go(WRITER)) && PcOf(ys[j].s, WRITER) == C.StoreNotify(OFF_TAIL)
    ensures ys[j + 1].w.pc.WIdle? && C.NobodySleeps(ys[j + 1].s)
    ensures SharedOf(ys[j + 1]).closed == 1 && SharedOf(ys[j + 1]).tail == ys[j + 1].w.tail
  {
    j := CountReaches(es, b + 1, l, 10, OfSide(WRITER));
    CloseSoFar(ys, es, b, j);
    assert RunsStep(ys, es, j);
    CloseEnds(ys[j], es[j], ys[j + 1]);
    ClosedShows(ys, es, j + 1);
  }
}

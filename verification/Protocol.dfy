/** One Writer and one Reader on one ring, as a machine whose steps each touch shared memory at
    most once: a word load, a word store, one byte of a payload copy, a compare-and-park, or a wake.
    Any interleaving of the two sides is a run of this machine.

    The machine itself holds only what the program holds: the shared words and bytes, each side's
    32-bit counters, and each side's position in its code. `History` is recorded beside it and is
    never read by a step. */
module Protocol {
  import opened Words

  // ---- Shared memory -----------------------------------------------------------------

  datatype Shared = Shared(head: nat, tail: nat, closed: nat, data: seq<byte>)

  /** What one step does to shared memory. */
  datatype Effect =
    | Quiet
    | StoreHead(v: nat)
    | StoreTail(v: nat)
    | StoreClosed(v: nat)
    | PutByte(k: nat, b: byte)

  function Apply(s: Shared, e: Effect): Shared {
    match e
    case Quiet => s
    case StoreHead(v) => s.(head := v)
    case StoreTail(v) => s.(tail := v)
    case StoreClosed(v) => s.(closed := v)
    case PutByte(k, b) => if k < |s.data| then s.(data := s.data[k := b]) else s
  }

  // ---- The two sides -----------------------------------------------------------------

  /** Positions in TryWrite (`block` false), WriteContext (`block` true) and Close.
      `done` counts the bytes of `p` already published by this call. */
  datatype WriterPc =
    | WIdle
    | WTop(p: seq<byte>, done: nat, block: bool)                   // loop head, then TryWrite's entry
    | WLoad(p: seq<byte>, done: nat, block: bool)                  // about to refresh cachedHead
    | WCopy(p: seq<byte>, done: nat, block: bool, n: nat, i: nat)  // i of n bytes copied
    | WStore(p: seq<byte>, done: nat, block: bool, n: nat)         // local tail advanced
    | WWake(p: seq<byte>, done: nat, block: bool)                  // tail stored
    | WWait(p: seq<byte>, done: nat)                               // about to Wait(offHead, cachedHead)
    | WParked(p: seq<byte>, done: nat)
    | WCloseFlag
    | WCloseFlagWake                                               // closed stored; nobody waits on that word
    | WCloseTail
    | WCloseWake

  datatype Writer = Writer(tail: nat, cachedHead: nat, closed: bool, pc: WriterPc)

  datatype ReaderPc =
    | RIdle
    | RTop(len: nat, block: bool)
    | RLoad(len: nat, block: bool)
    | RLoadClosed(len: nat, block: bool)
    | RCopy(len: nat, buf: seq<byte>, n: nat)                      // |buf| of n bytes copied, into a slice of len
    | RStore(n: nat)                                               // local head advanced
    | RWake
    | RWait(len: nat)
    | RParked(len: nat)

  datatype Reader = Reader(head: nat, cachedTail: nat, pc: ReaderPc)

  /** `fault` records that some access fell outside the storage or a slice. */
  datatype Machine = Machine(cap: Capacity, sh: Shared, w: Writer, r: Reader, fault: bool)

  datatype Action =
    | WBegin(p: seq<byte>, block: bool)
    | WClose
    | WGo
    | WCancel   // the context is done
    | WReturn   // a timed, spurious or polled wait ends
    | RBegin(len: nat, block: bool)
    | RGo
    | RCancel
    | RReturn

  predicate Enabled(m: Machine, a: Action) {
    match a
    case WBegin(_, _) => m.w.pc.WIdle?
    case WClose => m.w.pc.WIdle?
    case WGo => !m.w.pc.WIdle? && !m.w.pc.WParked?
    case WCancel => m.w.pc.WWait?
    case WReturn => m.w.pc.WWait? || m.w.pc.WParked?
    case RBegin(_, _) => m.r.pc.RIdle?
    case RGo => !m.r.pc.RIdle? && !m.r.pc.RParked?
    case RCancel => m.r.pc.RWait?
    case RReturn => m.r.pc.RWait? || m.r.pc.RParked?
  }

  // ---- One step of the Writer --------------------------------------------------------

  /** TryWrite's free space, from the Writer's own tail and a head it has loaded. */
  function Free(cap: Capacity, tail: nat, head: nat): int {
    cap - WrapSub(tail, head)
  }

  function WriteIndex(m: Machine, i: nat): nat {
    SplitIndex(BitAnd(m.w.tail, m.cap - 1), i, m.cap)
  }

  predicate WFaults(m: Machine) {
    m.w.pc.WCopy? && m.w.pc.i < m.w.pc.n &&
    (m.w.pc.done + m.w.pc.i >= |m.w.pc.p| || WriteIndex(m, m.w.pc.i) >= |m.sh.data|)
  }

  function WEffect(m: Machine): Effect {
    match m.w.pc
    case WCopy(p, done, _, n, i) =>
      if i < n && done + i < |p| then PutByte(WriteIndex(m, i), p[done + i]) else Quiet
    case WStore(_, _, _, _) => StoreTail(m.w.tail)
    case WCloseFlag => StoreClosed(1)
    case WCloseTail => StoreTail(m.w.tail)
    case _ => Quiet
  }

  predicate WakesReader(m: Machine) {
    m.w.pc.WWake? || m.w.pc.WCloseWake?
  }

  function WAfter(m: Machine): Writer {
    var w := m.w;
    match w.pc
    case WTop(p, done, block) =>
      if done >= |p| || w.closed then w.(pc := WIdle)
      else if Free(m.cap, w.tail, w.cachedHead) < |p| - done then w.(pc := WLoad(p, done, block))
      else w.(pc := WCopy(p, done, block, |p| - done, 0))
    case WLoad(p, done, block) =>
      var free := Free(m.cap, w.tail, m.sh.head);
      var w' := w.(cachedHead := m.sh.head);
      if free <= 0 then w'.(pc := if block then WWait(p, done) else WIdle)
      else if free < |p| - done then w'.(pc := WCopy(p, done, block, free, 0))
      else if done < |p| then w'.(pc := WCopy(p, done, block, |p| - done, 0))
      else w'.(pc := WIdle)
    case WCopy(p, done, block, n, i) =>
      if i < n then w.(pc := WCopy(p, done, block, n, i + 1))
      else w.(tail := WrapAdd(w.tail, n), pc := WStore(p, done, block, n))
    case WStore(p, done, block, n) => w.(pc := WWake(p, done + n, block))
    case WWake(p, done, block) => w.(pc := if block then WTop(p, done, block) else WIdle)
    case WWait(p, done) =>
      w.(pc := if m.sh.head == w.cachedHead then WParked(p, done) else WTop(p, done, true))
    case WCloseFlag => w.(pc := WCloseFlagWake)
    case WCloseFlagWake => w.(pc := WCloseTail)
    case WCloseTail => w.(pc := WCloseWake)
    case WCloseWake => w.(pc := WIdle)
    case _ => w
  }

  // ---- One step of the Reader --------------------------------------------------------

  function ReadIndex(m: Machine, i: nat): nat {
    SplitIndex(BitAnd(m.r.head, m.cap - 1), i, m.cap)
  }

  predicate RFaults(m: Machine) {
    m.r.pc.RCopy? && |m.r.pc.buf| < m.r.pc.n &&
    (|m.r.pc.buf| >= m.r.pc.len || ReadIndex(m, |m.r.pc.buf|) >= |m.sh.data|)
  }

  function REffect(m: Machine): Effect {
    if m.r.pc.RStore? then StoreHead(m.r.head) else Quiet
  }

  predicate WakesWriter(m: Machine) {
    m.r.pc.RWake?
  }

  predicate ReturnsEof(m: Machine) {
    m.r.pc.RLoadClosed? && m.sh.closed != 0
  }

  function RAfter(m: Machine): Reader {
    var r := m.r;
    match r.pc
    case RTop(len, block) =>
      if len == 0 then r.(pc := RIdle)
      else if WrapSub(r.cachedTail, r.head) < len then r.(pc := RLoad(len, block))
      else r.(pc := RCopy(len, [], len))
    case RLoad(len, block) =>
      var avail := WrapSub(m.sh.tail, r.head);
      r.(cachedTail := m.sh.tail,
         pc := if avail == 0 then RLoadClosed(len, block) else RCopy(len, [], Min(len, avail)))
    case RLoadClosed(len, block) =>
      r.(pc := if m.sh.closed == 0 && block then RWait(len) else RIdle)
    case RCopy(len, buf, n) =>
      if |buf| < n then
        var k := ReadIndex(m, |buf|);
        r.(pc := RCopy(len, buf + [if k < |m.sh.data| then m.sh.data[k] else 0], n))
      else r.(head := WrapAdd(r.head, n), pc := RStore(n))
    case RStore(_) => r.(pc := RWake)
    case RWake => r.(pc := RIdle)
    case RWait(len) =>
      r.(pc := if m.sh.tail == r.cachedTail then RParked(len) else RTop(len, true))
    case _ => r
  }

  // ---- One step of the machine -------------------------------------------------------

  function WakeReader(r: Reader): Reader {
    if r.pc.RParked? then r.(pc := RTop(r.pc.len, true)) else r
  }

  function WakeWriter(w: Writer): Writer {
    if w.pc.WParked? then w.(pc := WTop(w.pc.p, w.pc.done, true)) else w
  }

  function EffectOf(m: Machine, a: Action): Effect {
    if a.WGo? then WEffect(m) else if a.RGo? then REffect(m) else Quiet
  }

  function Next(m: Machine, a: Action): Machine
    requires Enabled(m, a)
  {
    match a
    case WBegin(p, block) => m.(w := m.w.(pc := WTop(p, 0, block)))
    case WClose => if m.w.closed then m else m.(w := m.w.(closed := true, pc := WCloseFlag))
    case WGo =>
      Machine(m.cap, Apply(m.sh, WEffect(m)), WAfter(m),
              if WakesReader(m) then WakeReader(m.r) else m.r, m.fault || WFaults(m))
    case WCancel => m.(w := m.w.(pc := WIdle))
    case WReturn => m.(w := m.w.(pc := WTop(m.w.pc.p, m.w.pc.done, true)))
    case RBegin(len, block) => m.(r := m.r.(pc := RTop(len, block)))
    case RGo =>
      Machine(m.cap, Apply(m.sh, REffect(m)),
              if WakesWriter(m) then WakeWriter(m.w) else m.w, RAfter(m), m.fault || RFaults(m))
    case RCancel => m.(r := m.r.(pc := RIdle))
    case RReturn => m.(r := m.r.(pc := RTop(m.r.pc.len, true)))
  }

  // ---- History -----------------------------------------------------------------------

  datatype WriteResult = Returned | ErrClosed | Canceled

  /** A finished call: the caller's bytes, how many were reported written, and how it ended. */
  datatype WriteCall = WriteCall(p: seq<byte>, n: nat, block: bool, result: WriteResult)

  /** Unwrapped counters (how far each side has got, what it has stored, what it last saw of the
      other), every byte copied into the ring, every byte handed to the Reader's caller, every
      finished write call, and whether some read has returned EOF. */
  datatype History = History(
    tail: nat, pubTail: nat, seenHead: nat,
    head: nat, pubHead: nat, seenTail: nat,
    log: seq<byte>, got: seq<byte>, calls: seq<WriteCall>, eof: bool)

  /** The call that this step finishes, if any. */
  function Finished(m: Machine, a: Action): seq<WriteCall> {
    if a.WCancel? && m.w.pc.WWait? then [WriteCall(m.w.pc.p, m.w.pc.done, true, Canceled)]
    else if !a.WGo? then []
    else match m.w.pc
      case WTop(p, done, block) =>
        if block && done >= |p| then [WriteCall(p, done, block, Returned)]
        else if m.w.closed then [WriteCall(p, done, block, ErrClosed)]
        else if done >= |p| then [WriteCall(p, done, block, Returned)]
        else []
      case WLoad(p, done, block) =>
        if WAfter(m).pc.WIdle? then [WriteCall(p, done, block, Returned)] else []
      case WWake(p, done, block) => if block then [] else [WriteCall(p, done, block, Returned)]
      case _ => []
  }

  function Record(h: History, m: Machine, a: Action): History {
    var h := h.(calls := h.calls + Finished(m, a));
    if a.WGo? then
      match m.w.pc
      case WLoad(_, _, _) => h.(seenHead := h.pubHead)
      case WCopy(p, done, _, n, i) =>
        if i >= n then h.(tail := h.tail + n)
        else if done + i < |p| then h.(log := h.log + [p[done + i]])
        else h
      case WStore(_, _, _, _) => h.(pubTail := h.tail)
      case WCloseTail => h.(pubTail := h.tail)
      case _ => h
    else if a.RGo? then
      match m.r.pc
      case RLoad(_, _) => h.(seenTail := h.pubTail)
      case RLoadClosed(_, _) => h.(eof := h.eof || ReturnsEof(m))
      case RCopy(_, buf, n) => if |buf| < n then h else h.(head := h.head + n, got := h.got + buf)
      case RStore(_) => h.(pubHead := h.head)
      case _ => h
    else h
  }

  datatype World = World(m: Machine, h: History)

  function Step(w: World, a: Action): World
    requires Enabled(w.m, a)
  {
    World(Next(w.m, a), Record(w.h, w.m, a))
  }

  /** A freshly constructed ring: NewWriter has zeroed the three words; the data bytes are arbitrary. */
  ghost predicate Initial(w: World) {
    && w.m.sh == Shared(0, 0, 0, w.m.sh.data) && |w.m.sh.data| == w.m.cap
    && w.m.w == Writer(0, 0, false, WIdle)
    && w.m.r == Reader(0, 0, RIdle)
    && !w.m.fault
    && w.h == History(0, 0, 0, 0, 0, 0, [], [], [], false)
  }

  // ---- Runs --------------------------------------------------------------------------

  /** Step `i` of a trace: the action is possible, and the next state is the one it leads to. */
  ghost predicate TakesStep(ws: seq<World>, acts: seq<Action>, i: nat)
    requires |ws| == |acts| + 1 && i < |acts|
  {
    Enabled(ws[i].m, acts[i]) && ws[i + 1] == Step(ws[i], acts[i])
  }

  /** `ws` is the trace of performing `acts` one after the other from `ws[0]`. */
  ghost predicate IsTrace(ws: seq<World>, acts: seq<Action>) {
    && |ws| == |acts| + 1
    && forall i :: 0 <= i < |acts| ==> TakesStep(ws, acts, i)
  }

  ghost predicate IsRun(ws: seq<World>, acts: seq<Action>) {
    IsTrace(ws, acts) && Initial(ws[0])
  }

  /** Step `k` of a trace keeps a property. */
  ghost predicate KeptAt(ws: seq<World>, k: nat, p: World -> bool)
    requires k + 1 < |ws|
  {
    p(ws[k]) ==> p(ws[k + 1])
  }

  /** What every step from `i` on keeps lasts from `i` on. */
  lemma {:induction false} Lasts(ws: seq<World>, i: nat, j: nat, p: World -> bool)
    requires i <= j < |ws| && p(ws[i])
    requires forall k :: i <= k < j ==> KeptAt(ws, k, p)
    ensures p(ws[j])
    decreases j
  {
    if i < j {
      Lasts(ws, i, j - 1, p);
      assert KeptAt(ws, j - 1, p);
    }
  }

  /** The actions that a side takes part in, as opposed to its peer. */
  predicate WriterActs(a: Action) {
    a.WBegin? || a.WClose? || a.WGo? || a.WCancel? || a.WReturn?
  }

  predicate ReaderActs(a: Action) {
    a.RBegin? || a.RGo? || a.RCancel? || a.RReturn?
  }

  predicate WriterGoes(a: Action) {
    a.WGo?
  }

  predicate ReaderGoes(a: Action) {
    a.RGo?
  }

  lemma Extend(ws: seq<World>, acts: seq<Action>, a: Action, w: World)
    requires IsRun(ws, acts) && Enabled(ws[|acts|].m, a) && Step(ws[|acts|], a) == w
    ensures IsRun(ws + [w], acts + [a])
  {
    var ws', acts' := ws + [w], acts + [a];
    forall i | 0 <= i < |acts'|
      ensures TakesStep(ws', acts', i)
    {
      if i < |acts| {
        assert TakesStep(ws, acts, i);
        assert ws'[i] == ws[i] && ws'[i + 1] == ws[i + 1] && acts'[i] == acts[i];
      }
    }
  }
}

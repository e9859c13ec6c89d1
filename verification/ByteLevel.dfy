/** Runs of the protocol on the real bytes of a storage. */
module ByteLevel {
  import opened Words
  import opened Header
  import opened Protocol
  import opened Invariant

  /** The shared words and data that a storage's bytes stand for. */
  function View(mem: seq<byte>, cap: nat): Shared
    requires HEADER_SIZE + cap <= |mem|
  {
    Shared(LoadWord(mem, OFF_HEAD), LoadWord(mem, OFF_TAIL), LoadWord(mem, OFF_CLOSED),
           mem[HEADER_SIZE..HEADER_SIZE + cap])
  }

  /** The words and the data, byte by byte: head, tail and closed are little-endian at 16, 24 and 32, and
      the data follows the 64-byte header. */
  lemma ViewByBytes(mem: seq<byte>, cap: nat)
    requires 64 + cap <= |mem|
    ensures View(mem, cap).head == Four(mem[16], mem[17], mem[18], mem[19])
    ensures View(mem, cap).tail == Four(mem[24], mem[25], mem[26], mem[27])
    ensures View(mem, cap).closed == Four(mem[32], mem[33], mem[34], mem[35])
    ensures View(mem, cap).data == mem[64..64 + cap]
  {
    WordByBytes(mem, 16);
    WordByBytes(mem, 24);
    WordByBytes(mem, 32);
  }

  predicate InRange(e: Effect, cap: nat) {
    match e
    case Quiet => true
    case StoreHead(v) => v < WORD
    case StoreTail(v) => v < WORD
    case StoreClosed(v) => v < WORD
    case PutByte(k, _) => k < cap
  }

  /** The same effect, as the storage performs it. */
  function ApplyBytes(mem: seq<byte>, cap: nat, e: Effect): (mem': seq<byte>)
    requires HEADER_SIZE + cap <= |mem| && InRange(e, cap)
    ensures |mem'| == |mem|
  {
    match e
    case Quiet => mem
    case StoreHead(v) => StoreWord(mem, OFF_HEAD, v)
    case StoreTail(v) => StoreWord(mem, OFF_TAIL, v)
    case StoreClosed(v) => StoreWord(mem, OFF_CLOSED, v)
    case PutByte(k, b) => mem[HEADER_SIZE + k := b]
  }

  /** Doing an effect on the bytes is doing it on the words and data, and leaves the identifying
      16 bytes and everything past the ring alone. */
  lemma EffectsCommute(mem: seq<byte>, cap: nat, e: Effect)
    requires HEADER_SIZE + cap <= |mem| && InRange(e, cap)
    ensures View(ApplyBytes(mem, cap, e), cap) == Apply(View(mem, cap), e)
    ensures ApplyBytes(mem, cap, e)[..16] == mem[..16]
    ensures ApplyBytes(mem, cap, e)[HEADER_SIZE + cap..] == mem[HEADER_SIZE + cap..]
  {
    match e
    case Quiet =>
    case StoreHead(v) => WordStoreFrames(mem, cap, OFF_HEAD, v);
    case StoreTail(v) => WordStoreFrames(mem, cap, OFF_TAIL, v);
    case StoreClosed(v) => WordStoreFrames(mem, cap, OFF_CLOSED, v);
    case PutByte(k, b) =>
      var mem' := mem[HEADER_SIZE + k := b];
      assert mem'[16..20] == mem[16..20] && mem'[24..28] == mem[24..28] && mem'[32..36] == mem[32..36];
      assert mem'[HEADER_SIZE..HEADER_SIZE + cap] == mem[HEADER_SIZE..HEADER_SIZE + cap][k := b];
  }

  lemma EffectsAreInRange(w: World, a: Action)
    requires Inv(w) && Enabled(w.m, a)
    ensures InRange(EffectOf(w.m, a), w.m.cap)
    ensures Next(w.m, a).sh == Apply(w.m.sh, EffectOf(w.m, a))
  {
    if a.WGo? && w.m.w.pc.WCopy? && w.m.w.pc.i < w.m.w.pc.n {
      WriteIndexIsSlot(w.m, w.h.tail, w.m.w.pc.i);
    }
  }

  /** The bytes of a storage along a run: each step performs its effect on them. */
  ghost predicate IsByteRun(ws: seq<World>, acts: seq<Action>, mems: seq<seq<byte>>) {
    && IsRun(ws, acts) && |mems| == |ws|
    && HEADER_SIZE + ws[0].m.cap <= |mems[0]|
    && View(mems[0], ws[0].m.cap) == ws[0].m.sh && HeaderMatches(mems[0], ws[0].m.cap)
    && forall i :: 0 <= i < |acts| ==> ByteStep(ws[i], acts[i], mems[i], mems[i + 1])
  }

  ghost predicate ByteStep(w: World, a: Action, mem: seq<byte>, mem': seq<byte>) {
    && HEADER_SIZE + w.m.cap <= |mem| && InRange(EffectOf(w.m, a), w.m.cap)
    ==> mem' == ApplyBytes(mem, w.m.cap, EffectOf(w.m, a))
  }

  lemma ByteStepFollows(w: World, a: Action, mem: seq<byte>, mem': seq<byte>)
    requires Inv(w) && Enabled(w.m, a) && ByteStep(w, a, mem, mem')
    requires HEADER_SIZE + w.m.cap <= |mem| && View(mem, w.m.cap) == w.m.sh && HeaderMatches(mem, w.m.cap)
    ensures |mem'| == |mem| && View(mem', w.m.cap) == Next(w.m, a).sh && HeaderMatches(mem', w.m.cap)
    ensures mem'[..16] == mem[..16] && mem'[HEADER_SIZE + w.m.cap..] == mem[HEADER_SIZE + w.m.cap..]
  {
    EffectsAreInRange(w, a);
    EffectsCommute(mem, w.m.cap, EffectOf(w.m, a));
    IdentityIsEnough(mem, mem', w.m.cap);
  }

  /** What a storage of this many bytes shows of the protocol's state, and what it has kept of its first
      bytes. */
  ghost predicate Shows(mem: seq<byte>, w: World, cap: Capacity, first: seq<byte>) {
    && w.m.cap == cap && HEADER_SIZE + cap <= |mem| == |first|
    && View(mem, cap) == w.m.sh && HeaderMatches(mem, cap)
    && mem[..16] == first[..16] && mem[HEADER_SIZE + cap..] == first[HEADER_SIZE + cap..]
  }

  lemma ShowsNext(ws: seq<World>, acts: seq<Action>, mems: seq<seq<byte>>, k: nat, first: seq<byte>)
    requires IsByteRun(ws, acts, mems) && k < |acts| && Shows(mems[k], ws[k], ws[0].m.cap, first)
    ensures Shows(mems[k + 1], ws[k + 1], ws[0].m.cap, first)
  {
    RunKeeps(ws, acts, k);
    assert TakesStep(ws, acts, k);
    assert ByteStep(ws[k], acts[k], mems[k], mems[k + 1]);
    ByteStepFollows(ws[k], acts[k], mems[k], mems[k + 1]);
  }

  /** In every run on real bytes the header still names the ring and its capacity, so a Reader may
      attach at any moment; the words and data are those of the protocol, and no byte outside the
      header's counters and the data region changes. */
  lemma {:induction false} BytesFollowTheProtocol(ws: seq<World>, acts: seq<Action>, mems: seq<seq<byte>>, i: nat)
    requires IsByteRun(ws, acts, mems) && i < |ws|
    ensures Shows(mems[i], ws[i], ws[0].m.cap, mems[0])
  {
    if i != 0 {
      BytesFollowTheProtocol(ws, acts, mems, i - 1);
      ShowsNext(ws, acts, mems, i - 1, mems[0]);
    }
  }
}

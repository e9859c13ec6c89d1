/** The two handles on a storage, as the calls of one thread see them. */
module Endpoints {
  import opened Words
  import opened Header
  import opened SplitCopy
  import opened Storage
  import opened Polling

  // ---- What the transfers do to the storage ------------------------------------------

  /** The payload of a write is in place, and the tail is not yet stored. */
  ghost predicate Filled(mem: seq<byte>, cap: nat, sent: seq<byte>, taken: nat, chunk: seq<byte>) {
    && ValidCapacity(cap) && HEADER_SIZE + cap <= |mem|
    && HeaderMatches(mem, cap)
    && taken <= |sent| && |sent| + |chunk| <= taken + cap
    && LoadWord(mem, OFF_HEAD) == taken % WORD
    && (LoadWord(mem, OFF_CLOSED) == 0 || LoadWord(mem, OFF_CLOSED) == 1)
    && Holds(mem, cap, sent + chunk, taken)
  }

  lemma CopyFillsRing(mem: seq<byte>, cap: nat, sent: seq<byte>, taken: nat, chunk: seq<byte>)
    requires CarriesRing(mem, cap, sent, taken) && |sent| + |chunk| <= taken + cap
    ensures var mem' := ModularWrite(mem, cap, |sent|, chunk);
            Filled(mem', cap, sent, taken, chunk) && LoadWord(mem', OFF_CLOSED) == LoadWord(mem, OFF_CLOSED)
  {
    WriteHolds(mem, cap, sent, taken, chunk);
    SameHeader(mem, ModularWrite(mem, cap, |sent|, chunk), cap);
  }

  /** Storing the tail turns the payload into part of the stream. */
  lemma TailStorePublishes(mem: seq<byte>, cap: nat, sent: seq<byte>, taken: nat, chunk: seq<byte>)
    requires Filled(mem, cap, sent, taken, chunk)
    ensures var mem' := StoreWord(mem, OFF_TAIL, (|sent| + |chunk|) % WORD);
            CarriesRing(mem', cap, sent + chunk, taken) && LoadWord(mem', OFF_CLOSED) == LoadWord(mem, OFF_CLOSED)
  {
    WordStoreFrames(mem, cap, OFF_TAIL, (|sent| + |chunk|) % WORD);
  }

  /** After the head store of a read of `n` bytes, the ring holds the rest of the stream. */
  lemma ReadShrinksRing(mem: seq<byte>, cap: nat, sent: seq<byte>, taken: nat, n: nat)
    requires CarriesRing(mem, cap, sent, taken) && taken + n <= |sent|
    ensures var mem' := StoreWord(mem, OFF_HEAD, (taken + n) % WORD);
            CarriesRing(mem', cap, sent, taken + n) && LoadWord(mem', OFF_CLOSED) == LoadWord(mem, OFF_CLOSED)
  {
    WordStoreFrames(mem, cap, OFF_HEAD, (taken + n) % WORD);
    StoredFromLater(mem[HEADER_SIZE..HEADER_SIZE + cap], sent, taken, taken + n, cap);
  }

  /** What one or two ReadAt calls leave in the front of the caller's buffer. */
  lemma OneSegment(p: seq<byte>, mem: seq<byte>, cap: nat, start: nat, n: nat)
    requires HEADER_SIZE + cap <= |mem| && start < cap && start + n <= cap && n <= |p|
    requires p[0..n] == mem[HEADER_SIZE + start..HEADER_SIZE + start + n]
    ensures p[..n] == SplitRead(mem, cap, start, n)
  {
  }

  lemma TwoSegments(p: seq<byte>, mid: seq<byte>, was: seq<byte>, mem: seq<byte>, cap: nat, start: nat, n: nat)
    requires HEADER_SIZE + cap <= |mem| && start < cap < start + n && n <= cap && n <= |p| == |mid| == |was|
    requires mid[..cap - start] == mem[HEADER_SIZE + start..HEADER_SIZE + cap]
    requires mid[cap - start..] == was[cap - start..]
    requires p[..cap - start] == mid[..cap - start] && p[n..] == mid[n..]
    requires p[cap - start..n] == mem[HEADER_SIZE..HEADER_SIZE + (start + n - cap)]
    ensures p[..n] == SplitRead(mem, cap, start, n) && p[n..] == was[n..]
  {
    var first := cap - start;
    assert p[..n] == p[..first] + p[first..n];
    assert mid[n..] == mid[first..][n - first..];
    assert was[n..] == was[first..][n - first..];
  }

  /** Close's two stores raise the closed word; the stream is what it was. */
  lemma CloseMarksRing(mem: seq<byte>, cap: nat, sent: seq<byte>, taken: nat)
    requires CarriesRing(mem, cap, sent, taken)
    ensures var mem' := StoreWord(StoreWord(mem, OFF_CLOSED, 1), OFF_TAIL, |sent| % WORD);
            CarriesRing(mem', cap, sent, taken) && LoadWord(mem', OFF_CLOSED) == 1
  {
    WordStoreFrames(mem, cap, OFF_CLOSED, 1);
    WordStoreFrames(StoreWord(mem, OFF_CLOSED, 1), cap, OFF_TAIL, |sent| % WORD);
  }

  lemma GrowStream(base: seq<byte>, p: seq<byte>, i: nat, n: nat)
    requires i + n <= |p|
    ensures (base + p[..i]) + p[i..][..n] == base + p[..i + n]
  {
  }

  // ---- Writer ------------------------------------------------------------------------

  /** How many of the latest sleeps, each listed with the progress made before it, share this progress. */
  function Idle(waits: seq<(nat, int)>, progress: nat): nat {
    if waits == [] || waits[|waits| - 1].0 != progress then 0 else 1 + Idle(waits[..|waits| - 1], progress)
  }

  /** Each polling sleep is the backoff for the number of sleeps since the last progress. */
  ghost predicate FollowsBackoff(waits: seq<(nat, int)>, opt: Bounds) {
    waits == [] ||
    var (front, last) := (waits[..|waits| - 1], waits[|waits| - 1]);
    FollowsBackoff(front, opt) && last.1 == Backoff(opt, Idle(front, last.0))
  }

  /** The sleeps so far follow the backoff, and so will one of length `wait` after `progress`. */
  ghost predicate OnPace(opt: Bounds, waits: seq<(nat, int)>, progress: nat, wait: int) {
    && FollowsBackoff(waits, opt) && wait == Backoff(opt, Idle(waits, progress))
    && (waits != [] ==> waits[|waits| - 1].0 <= progress)
  }

  lemma ProgressResets(opt: Bounds, waits: seq<(nat, int)>, progress: nat, wait: int, n: nat)
    requires OnPace(opt, waits, progress, wait) && n > 0
    ensures OnPace(opt, waits, progress + n, opt.minPoll)
  {
  }

  /** One more sleep is recorded and backed off from. */
  lemma SleepFollows(opt: Bounds, waits: seq<(nat, int)>, progress: nat, wait: int)
    requires OnPace(opt, waits, progress, wait)
    ensures OnPace(opt, waits + [(progress, wait)], progress, NextWait(wait, opt))
  {
    assert (waits + [(progress, wait)])[..|waits|] == waits;
  }

  /** The foot of the polling loops: sleep, and double the next wait. A storage that can wait skips it. */
  function Paced(opt: Bounds, canWait: bool, waits: seq<(nat, int)>, progress: nat, wait: int): (seq<(nat, int)>, int)
  {
    if canWait then (waits, wait) else (waits + [(progress, wait)], NextWait(wait, opt))
  }

  /** What happens when a blocking call has to wait: whether its context is done by then, what the peer
      does during the wait, and whether the context ends during it, which a polling sleep notices. */
  datatype Turn<A> = Turn(done: bool, peer: A, ends: bool)

  /** The peer of a read writes these bytes, as far as they fit, and may then close. */
  datatype Put = Put(bytes: seq<byte>, close: bool)

  predicate Quiet(put: Put) {
    put.bytes == [] && !put.close
  }

  /** Whether the call outlasts this turn. */
  predicate Outlasts<A>(t: Turn<A>, canWait: bool) {
    !t.done && (canWait || !t.ends)
  }

  /** Why a call that has not got what it waits for is left at turn `k`: it has not returned yet, or its
      context is done. */
  function Verdict<A>(turns: seq<Turn<A>>, k: nat): Option<Error> {
    Some(if k == |turns| then StillWaiting else ContextDone)
  }

  predicate Waits<A>(turns: seq<Turn<A>>, k: nat) {
    k < |turns| && !turns[k].done
  }

  /** The pace after turn `k`: if it waits, one more sleep is recorded and backed off from. */
  function After<A>(opt: Bounds, turns: seq<Turn<A>>, k: nat, canWait: bool,
                    waits: seq<(nat, int)>, progress: nat, wait: int): (seq<(nat, int)>, int)
  {
    if Waits(turns, k) then Paced(opt, canWait, waits, progress, wait) else (waits, wait)
  }

  lemma AfterStaysOnPace<A>(opt: Bounds, turns: seq<Turn<A>>, k: nat, canWait: bool,
                            waits: seq<(nat, int)>, progress: nat, wait: int)
    requires OnPace(opt, waits, progress, wait)
    ensures var next := After(opt, turns, k, canWait, waits, progress, wait);
            && OnPace(opt, next.0, progress, next.1)
            && |next.0| == |waits| + if Waits(turns, k) && !canWait then 1 else 0
  {
    if Waits(turns, k) && !canWait {
      SleepFollows(opt, waits, progress, wait);
    }
  }

  /** How many waits have been entered by the end of turn `k`: all, unless its context was done before it. */
  function Entered<A>(turns: seq<Turn<A>>, k: nat): (n: nat)
    requires k <= |turns|
    ensures k <= n <= |turns|
  {
    if Waits(turns, k) then k + 1 else k
  }

  /** What the peer of a write takes from a full ring in the first `k` waits. */
  function Taken(turns: seq<Turn<nat>>, k: nat, cap: nat): nat
    requires k <= |turns|
  {
    if k == 0 then 0 else Taken(turns, k - 1, cap) + Min(turns[k - 1].peer, cap)
  }

  /** At which turn, from `k` on, a write is left that lacks room for `lacks` more bytes than its peer takes:
      when they fit, or the turns or the context end. */
  function WriteUntil(turns: seq<Turn<nat>>, k: nat, canWait: bool, lacks: int, cap: nat): (used: nat)
    requires k <= |turns|
    ensures k <= used <= |turns|
    decreases |turns| - k
  {
    if lacks <= Taken(turns, k, cap) || k == |turns| || !Outlasts(turns[k], canWait) then k
    else WriteUntil(turns, k + 1, canWait, lacks, cap)
  }

  lemma {:induction false} WriteUntilMeans(turns: seq<Turn<nat>>, k: nat, canWait: bool, lacks: int, cap: nat)
    requires k <= |turns|
    ensures var used := WriteUntil(turns, k, canWait, lacks, cap);
            && (forall i :: k <= i < used ==> !turns[i].done && (canWait || !turns[i].ends))
            && (forall i :: k <= i < used ==> Taken(turns, i, cap) < lacks)
            && (|| lacks <= Taken(turns, used, cap) || used == |turns|
                || turns[used].done || (!canWait && turns[used].ends))
    decreases |turns| - k
  {
    if !(lacks <= Taken(turns, k, cap) || k == |turns| || !Outlasts(turns[k], canWait)) {
      WriteUntilMeans(turns, k + 1, canWait, lacks, cap);
    }
  }

  /** A write of `len` bytes, of which `free` fit at first, has come to turn `k` with `written` bytes written,
      `took` taken by its peer, and `slept` sleeps. */
  ghost predicate WriteGoesOn(turns: seq<Turn<nat>>, canWait: bool, len: nat, free: int, cap: nat,
                              written: nat, k: nat, took: int, slept: nat)
  {
    && k <= |turns| && written <= len && written <= free + took
    && took == Taken(turns, k, cap) && slept == (if canWait then 0 else k)
    && WriteUntil(turns, 0, canWait, len - free, cap) == WriteUntil(turns, k, canWait, len - free, cap)
  }

  /** How a blocking write ended: what it reports, the turn it ended at, how much its peer took meanwhile, and
      how often it slept. */
  datatype Outcome = Outcome(written: int, err: Option<Error>, used: nat, took: int, slept: nat)

  /** How it should end: all is written that fits by the turn at which it should be left. */
  ghost function WriteOutcome(turns: seq<Turn<nat>>, canWait: bool, len: nat, free: int, cap: nat): Outcome {
    var used := WriteUntil(turns, 0, canWait, len - free, cap);
    var written := Min(len, free + Taken(turns, used, cap));
    var err := if written == len then None else Verdict(turns, used);
    var entered := if err == Some(ContextDone) then Entered(turns, used) else used;
    Outcome(written, err, used, Taken(turns, entered, cap), if canWait then 0 else entered)
  }

  /** It outlasts every turn before that one, waits no longer than it must, and stops there for a reason; and
      what it has written is all that fits, or all there is. */
  lemma WriteOutcomeMeans(turns: seq<Turn<nat>>, canWait: bool, len: nat, free: int, cap: nat)
    ensures var o := WriteOutcome(turns, canWait, len, free, cap);
            && o.used <= |turns| && (forall i :: 0 <= i < o.used ==> !turns[i].done && (canWait || !turns[i].ends))
            && (o.err == None || o.err == Some(StillWaiting) || o.err == Some(ContextDone))
            && (o.err == Some(StillWaiting) ==> o.used == |turns|)
            && (o.err == Some(ContextDone) ==>
                  o.used < |turns| && (turns[o.used].done || (!canWait && turns[o.used].ends)))
            && (o.err == None <==> o.written == len)
            && (o.err != None ==> o.written == free + Taken(turns, o.used, cap))
            && (o.used > 0 ==> free + Taken(turns, o.used - 1, cap) < len)
  {
    WriteUntilMeans(turns, 0, canWait, len - free, cap);
  }

  lemma WriteIsDone(turns: seq<Turn<nat>>, canWait: bool, len: nat, free: int, cap: nat,
                    written: nat, k: nat, took: int, slept: nat)
    requires WriteGoesOn(turns, canWait, len, free, cap, written, k, took, slept) && written == len
    ensures Outcome(written, None, k, took, slept) == WriteOutcome(turns, canWait, len, free, cap)
  {
  }

  lemma WriteMoves(turns: seq<Turn<nat>>, canWait: bool, len: nat, free: int, cap: nat,
                   written: nat, k: nat, took: int, slept: nat, written': nat)
    requires WriteGoesOn(turns, canWait, len, free, cap, written, k, took, slept)
    requires written' <= len && written' <= free + took
    ensures WriteGoesOn(turns, canWait, len, free, cap, written', k, took, slept)
  {
  }

  /** A turn at which nothing fits. */
  lemma WriteTurns(turns: seq<Turn<nat>>, canWait: bool, len: nat, free: int, cap: nat,
                   written: nat, k: nat, took: int, slept: nat, took': int, slept': nat)
    requires WriteGoesOn(turns, canWait, len, free, cap, written, k, took, slept) && written == free + took < len
    requires took' == took + if Waits(turns, k) then Min(turns[k].peer, cap) else 0
    requires slept' == slept + if Waits(turns, k) && !canWait then 1 else 0
    ensures if k < |turns| && Outlasts(turns[k], canWait)
            then WriteGoesOn(turns, canWait, len, free, cap, written, k + 1, took', slept')
            else Outcome(written, Verdict(turns, k), k, took', slept') == WriteOutcome(turns, canWait, len, free, cap)
  {
  }

  /** What the peer of a read puts into an empty ring during wait `k`. */
  function Given(turns: seq<Turn<Put>>, k: nat, cap: nat): seq<byte>
    requires k < |turns|
  {
    turns[k].peer.bytes[..Min(|turns[k].peer.bytes|, cap)]
  }

  /** At which turn, from `k` on, a read from an empty, open ring is left: after the first that brings a
      byte or the end of the stream, or where the turns or the context end. */
  function ReadUntil(turns: seq<Turn<Put>>, k: nat, canWait: bool): (used: nat)
    requires k <= |turns|
    ensures k <= used <= |turns|
    decreases |turns| - k
  {
    if k == |turns| || !Outlasts(turns[k], canWait) then k
    else if !Quiet(turns[k].peer) then k + 1
    else ReadUntil(turns, k + 1, canWait)
  }

  lemma {:induction false} ReadUntilMeans(turns: seq<Turn<Put>>, k: nat, canWait: bool)
    requires k <= |turns|
    ensures var used := ReadUntil(turns, k, canWait);
            && (forall i :: k <= i < used ==> !turns[i].done && (canWait || !turns[i].ends))
            && (forall i :: k <= i < used - 1 ==> turns[i].peer.bytes == [] && !turns[i].peer.close)
            && (|| (used > k && (turns[used - 1].peer.bytes != [] || turns[used - 1].peer.close))
                || used == |turns| || turns[used].done || (!canWait && turns[used].ends))
    decreases |turns| - k
  {
    if k < |turns| && Outlasts(turns[k], canWait) && Quiet(turns[k].peer) {
      ReadUntilMeans(turns, k + 1, canWait);
    }
  }

  /** A read has come to turn `k`: `was` and `now` are the stream, and `closed` and `closed'` whether it was
      over, when the call began and now; `taken` bytes of it have been read before. */
  ghost predicate ReadGoesOn(turns: seq<Turn<Put>>, canWait: bool, cap: nat, k: nat, slept: nat, taken: nat,
                             was: seq<byte>, closed: bool, now: seq<byte>, closed': bool)
  {
    && k <= |turns| && slept == (if canWait then 0 else k)
    && if k == 0 then now == was && closed' == closed
       else
         && |was| <= taken && !closed
         && now == was + Given(turns, k - 1, cap) && closed' == turns[k - 1].peer.close
         && ReadUntil(turns, 0, canWait)
            == if Quiet(turns[k - 1].peer) then ReadUntil(turns, k, canWait) else k
  }

  /** It has ended at the turn where it should: the first that brings something to read. */
  ghost predicate ReadEnds(turns: seq<Turn<Put>>, canWait: bool, cap: nat, used: nat, slept: nat, taken: nat,
                           was: seq<byte>, closed: bool, now: seq<byte>, err: Option<Error>)
  {
    && used == (if taken < |was| || closed then 0 else ReadUntil(turns, 0, canWait))
    && used <= |turns|
    && (if taken < |was| || closed || (used > 0 && !Quiet(turns[used - 1].peer)) then err == None || err == Some(Eof)
        else err == Verdict(turns, used))
    && var entered := if err == Some(ContextDone) then Entered(turns, used) else used;
       slept == (if canWait then 0 else entered)
       && now == was + if entered == 0 then [] else Given(turns, entered - 1, cap)
  }

  /** The same for a read: every turn before the last outlasted leaves the ring empty and open. */
  lemma ReadEndsMeans(turns: seq<Turn<Put>>, canWait: bool, cap: nat, used: nat, slept: nat, taken: nat,
                      was: seq<byte>, closed: bool, now: seq<byte>, err: Option<Error>)
    requires ReadEnds(turns, canWait, cap, used, slept, taken, was, closed, now, err)
    ensures used <= |turns| && forall i :: 0 <= i < used ==> !turns[i].done && (canWait || !turns[i].ends)
    ensures err == Some(StillWaiting) ==> used == |turns|
    ensures err == Some(ContextDone) ==>
              used < |turns| && (turns[used].done || (!canWait && turns[used].ends))
    ensures forall i :: 0 <= i < used - 1 ==> turns[i].peer.bytes == [] && !turns[i].peer.close
    ensures used > 0 ==> |was| <= taken && !closed
    ensures err != None && err != Some(Eof) && used > 0 ==> Quiet(turns[used - 1].peer)
  {
    ReadUntilMeans(turns, 0, canWait);
  }

  lemma ReadIsDone(turns: seq<Turn<Put>>, canWait: bool, cap: nat, k: nat, slept: nat, taken: nat,
                   was: seq<byte>, closed: bool, now: seq<byte>, closed': bool, err: Option<Error>)
    requires ReadGoesOn(turns, canWait, cap, k, slept, taken, was, closed, now, closed') && (taken < |now| || closed')
    requires err == None || err == Some(Eof)
    ensures ReadEnds(turns, canWait, cap, k, slept, taken, was, closed, now, err)
  {
  }

  /** A turn at which there is nothing to read. */
  lemma ReadTurns(turns: seq<Turn<Put>>, canWait: bool, cap: nat, k: nat, slept: nat, taken: nat,
                  was: seq<byte>, closed: bool, now: seq<byte>, slept': nat, now': seq<byte>, closed': bool)
    requires ReadGoesOn(turns, canWait, cap, k, slept, taken, was, closed, now, false)
    requires |now| <= taken && taken <= |was| && 0 < cap
    requires now' == now + if Waits(turns, k) then Given(turns, k, cap) else []
    requires closed' == (Waits(turns, k) && turns[k].peer.close)
    requires slept' == slept + if Waits(turns, k) && !canWait then 1 else 0
    ensures if k < |turns| && Outlasts(turns[k], canWait)
            then ReadGoesOn(turns, canWait, cap, k + 1, slept', taken, was, closed, now', closed')
            else ReadEnds(turns, canWait, cap, k, slept', taken, was, closed, now', Verdict(turns, k))
  {
    assert now == was;
  }

  class Writer {
    const st: MemStorage
    const capacity: nat
    const mask: nat
    const opt: Bounds
    var tail: nat
    var cachedHead: nat
    var closed: bool
    ghost var seenHead: nat

    ghost predicate Valid()
      reads this, st, st.buf
    {
      && st.Ring(capacity) && mask == capacity - 1
      && tail == |st.sent| % WORD
      && seenHead <= st.taken && |st.sent| <= seenHead + capacity
      && cachedHead == seenHead % WORD
      && (closed <==> st.Closed())
    }

    constructor (st: MemStorage, capacity: nat, opt: Bounds)
      requires st.Ring(capacity) && st.sent == [] && st.taken == 0 && !st.Closed()
      ensures Valid() && !closed && this.st == st && this.capacity == capacity && this.opt == opt
    {
      this.st, this.capacity, this.mask, this.opt := st, capacity, capacity - 1, opt;
      tail, cachedHead, closed, seenHead := 0, 0, false, 0;
    }

    /** Writes as much as fits: exactly min(len(p), free), whatever the cached head says. */
    method TryWrite(p: seq<byte>) returns (n: nat, err: Option<Error>)
      requires Valid()
      modifies `tail, `cachedHead, `seenHead, st`sent, st.buf
      ensures Valid()
      ensures closed ==> n == 0 && err == Some(ErrClosed)
      ensures !closed ==> err == None && n == Min(|p|, capacity - |old(st.Contents())|)
      ensures n <= |p| && st.sent == old(st.sent) + p[..n]
    {
      if closed {
        return 0, Some(ErrClosed);
      }
      if |p| == 0 {
        return 0, None;
      }
      WrapSubIsDistance(|st.sent|, seenHead);
      WrapSubIsDistance(|st.sent|, st.taken);
      var free := capacity - WrapSub(tail, cachedHead);
      if free < |p| {
        var head, e := ReadUint32At(st, OFF_HEAD);
        assert e == None;
        cachedHead, seenHead := head, st.taken;
        free := capacity - WrapSub(tail, cachedHead);
      }
      if free <= 0 {
        return 0, None;
      }
      n := |p|;
      if n > free {
        n := free;
      }
      err := Publish(p[..n]);
    }

    /** The second half of TryWrite: copy the payload, then store the tail. */
    method Publish(chunk: seq<byte>) returns (err: Option<Error>)
      requires Valid() && 0 < |chunk| && |st.sent| + |chunk| <= seenHead + capacity
      modifies `tail, st`sent, st.buf
      ensures Valid() && err == None && st.sent == old(st.sent) + chunk
    {
      CopyFillsRing(st.buf[..], capacity, st.sent, st.taken, chunk);
      CopyIn(chunk, |st.sent|);
      err := StoreTail(|chunk|, chunk);
    }

    method StoreTail(n: nat, ghost chunk: seq<byte>) returns (err: Option<Error>)
      requires n == |chunk| && Filled(st.buf[..], capacity, st.sent, st.taken, chunk) && mask == capacity - 1
      requires tail == |st.sent| % WORD && cachedHead == seenHead % WORD
      requires seenHead <= st.taken && |st.sent| + n <= seenHead + capacity && (closed <==> st.Closed())
      modifies `tail, st`sent, st.buf
      ensures Valid() && err == None && st.sent == old(st.sent) + chunk
    {
      TailStorePublishes(st.buf[..], capacity, st.sent, st.taken, chunk);
      WrapAddTracks(|st.sent|, n);
      tail := WrapAdd(tail, n);
      err := WriteUint32At(st, OFF_TAIL, tail);
      st.sent := st.sent + chunk;
    }

    /** The one or two WriteAt calls of a payload: the modular write at the true tail `t`. */
    method CopyIn(chunk: seq<byte>, ghost t: nat)
      requires ValidCapacity(capacity) && mask == capacity - 1 && HEADER_SIZE + capacity <= st.buf.Length
      requires tail == t % WORD && 0 < |chunk| <= capacity
      modifies st.buf
      ensures st.buf[..] == ModularWrite(old(st.buf[..]), capacity, t, chunk)
    {
      SplitWriteIsModular(st.buf[..], capacity, t, chunk);
      var start := BitAnd(tail, mask);
      CopyInAt(chunk, start);
    }

    method CopyInAt(chunk: seq<byte>, start: nat)
      requires HEADER_SIZE + capacity <= st.buf.Length && start < capacity && |chunk| <= capacity
      modifies st.buf
      ensures st.buf[..] == SplitWrite(old(st.buf[..]), capacity, start, chunk)
    {
      ghost var mem := st.buf[..];
      if start + |chunk| <= capacity {
        var k, e := st.WriteAt(chunk, HEADER_SIZE + start);
        assert e == None;
      } else {
        var first := capacity - start;
        var k, e := st.WriteAt(chunk[..first], HEADER_SIZE + start);
        assert e == None;
        ghost var mem1 := st.buf[..];
        assert mem1 == Splice(mem, HEADER_SIZE + start, chunk[..first]);
        k, e := st.WriteAt(chunk[first..], HEADER_SIZE);
        assert e == None;
        assert st.buf[..] == Splice(mem1, HEADER_SIZE, chunk[first..]);
      }
    }

    /** Raises the closed flag and re-stores the unchanged tail. The stream is untouched, and a second Close
        touches nothing. */
    method Close() returns (err: Option<Error>)
      requires Valid()
      modifies `closed, st.buf
      ensures Valid() && closed && st.Closed() && err == None
      ensures st.buf[..] == (if old(closed) then old(st.buf[..])
                             else StoreWord(StoreWord(old(st.buf[..]), OFF_CLOSED, 1), OFF_TAIL, tail))
    {
      if closed {
        return None;
      }
      closed := true;
      CloseMarksRing(st.buf[..], capacity, st.sent, st.taken);
      err := WriteUint32At(st, OFF_CLOSED, 1);
      err := WriteUint32At(st, OFF_TAIL, tail);
    }

    /** One attempt of a blocking write, and one read by the peer, with both handles in view. */
    method Attempt(p: seq<byte>, written: nat, peer: Reader, ghost base: seq<byte>,
                   ghost waits: seq<(nat, int)>, wait: int)
      returns (written': nat, err: Option<Error>, wait': int)
      requires Valid() && peer.InStep() && peer.st == st
      requires written <= |p| && st.sent == base + p[..written] && OnPace(opt, waits, written, wait)
      modifies `tail, `cachedHead, `seenHead, st`sent, st.buf
      ensures Valid() && peer.InStep()
      ensures if closed then written' == written && err == Some(ErrClosed) else err == None
      ensures written <= written' <= |p| && st.sent == base + p[..written'] && OnPace(opt, waits, written', wait')
      ensures !closed && written' == written < |p| ==> |st.Contents()| == capacity
    {
      var n;
      n, err := TryWrite(p[written..]);
      GrowStream(base, p, written, n);
      written', wait' := written + n, wait;
      if n > 0 {
        ProgressResets(opt, waits, written, wait, n);
        wait' := opt.minPoll;
      }
    }

    /** The peer reads, while this call waits. */
    method LetRead(peer: Reader, k: nat)
      requires Valid() && peer.InStep() && peer.st == st && peer.capacity == capacity
      modifies peer`head, peer`cachedTail, peer`seenTail, st`taken, st.buf
      ensures Valid() && peer.InStep() && st.taken == old(st.taken) + Min(k, |old(st.Contents())|)
    {
      var scratch := new byte[k];
      var n, e := peer.TryRead(scratch);
    }

    /** The rest of a turn of the loop when nothing fitted: stop if the context is done, or else wait, while
        the peer may read. */
    method Rest(peer: Reader, turns: seq<Turn<nat>>, k: nat, canWait: bool,
                waits: seq<(nat, int)>, progress: nat, wait: int)
      returns (stop: Option<Error>, waits': seq<(nat, int)>, wait': int)
      requires Valid() && peer.InStep() && peer.st == st && peer.capacity == capacity
      requires k <= |turns| && |st.Contents()| == capacity
      modifies peer`head, peer`cachedTail, peer`seenTail, st`taken, st.buf
      ensures Valid() && peer.InStep()
      ensures stop == if k < |turns| && Outlasts(turns[k], canWait) then None else Verdict(turns, k)
      ensures (waits', wait') == After(opt, turns, k, canWait, waits, progress, wait)
      ensures st.taken == old(st.taken) + if Waits(turns, k) then Min(turns[k].peer, capacity) else 0
    {
      if k == |turns| || turns[k].done {
        return Verdict(turns, k), waits, wait;
      }
      LetRead(peer, turns[k].peer);
      if !canWait && turns[k].ends {
        stop := Verdict(turns, k);
      } else {
        stop := None;
      }
      var next := Paced(opt, canWait, waits, progress, wait);
      waits', wait' := next.0, next.1;
    }

    /** How many bytes fit. */
    ghost function Space(): int
      reads this, st
    {
      capacity - |st.Contents()|
    }

    /** The rest of a turn, in view of the whole call: of its `len` bytes `free` fitted, and `before` had been
        taken from the ring, when it began. */
    method Turned(peer: Reader, turns: seq<Turn<nat>>, k: nat, canWait: bool, waits: seq<(nat, int)>,
                  progress: nat, wait: int, ghost len: nat, ghost free: int, ghost before: nat)
      returns (stop: Option<Error>, waits': seq<(nat, int)>, wait': int, k': nat)
      requires Valid() && peer.InStep() && peer.st == st && peer.capacity == capacity && |st.Contents()| == capacity
      requires OnPace(opt, waits, progress, wait) && progress == free + st.taken - before < len
      requires WriteGoesOn(turns, canWait, len, free, capacity, progress, k, st.taken - before, |waits|)
      modifies peer`head, peer`cachedTail, peer`seenTail, st`taken, st.buf
      ensures Valid() && peer.InStep() && OnPace(opt, waits', progress, wait')
      ensures k' == if stop == None then k + 1 else k
      ensures if stop == None
              then WriteGoesOn(turns, canWait, len, free, capacity, progress, k', st.taken - before, |waits'|)
              else Outcome(progress, stop, k', st.taken - before, |waits'|)
                   == WriteOutcome(turns, canWait, len, free, capacity)
    {
      ghost var took := st.taken - before;
      stop, waits', wait' := Rest(peer, turns, k, canWait, waits, progress, wait);
      k' := if stop == None then k + 1 else k;
      AfterStaysOnPace(opt, turns, k, canWait, waits, progress, wait);
      WriteTurns(turns, canWait, len, free, capacity, progress, k, took, |waits|, st.taken - before, |waits'|);
    }

    /** One turn of the loop. `before` and `free` are what had been taken, and what fitted, when the call
        began. */
    method Round(p: seq<byte>, written: nat, peer: Reader, canWait: bool, turns: seq<Turn<nat>>, k: nat,
                 ghost base: seq<byte>, ghost before: nat, ghost free: int, waits: seq<(nat, int)>, wait: int)
      returns (written': nat, err: Option<Error>, waits': seq<(nat, int)>, wait': int, k': nat)
      requires Valid() && peer.InStep() && peer.st == st && peer.capacity == capacity
      requires written < |p| && st.sent == base + p[..written] && OnPace(opt, waits, written, wait)
      requires before + capacity == |base| + free
      requires WriteGoesOn(turns, canWait, |p|, free, capacity, written, k, st.taken - before, |waits|)
      modifies `tail, `cachedHead, `seenHead, peer`head, peer`cachedTail, peer`seenTail, st`sent, st`taken, st.buf
      ensures Valid() && peer.InStep()
      ensures written' <= |p| && st.sent == base + p[..written'] && OnPace(opt, waits', written', wait')
      ensures closed ==> err == Some(ErrClosed) && written' == written && k' == k && st.taken == old(st.taken)
      ensures closed ==> waits' == waits
      ensures err == None ==> k <= k' && written <= written' && written + k < written' + k'
      ensures err == None ==>
                WriteGoesOn(turns, canWait, |p|, free, capacity, written', k', st.taken - before, |waits'|)
      ensures !closed && err != None ==>
                Outcome(written', err, k', st.taken - before, |waits'|)
                == WriteOutcome(turns, canWait, |p|, free, capacity)
    {
      written', err, wait' := Attempt(p, written, peer, base, waits, wait);
      waits', k' := waits, k;
      assert |st.sent| == |base| + written';
      WriteMoves(turns, canWait, |p|, free, capacity, written, k, st.taken - before, |waits|, written');
      if err == None && written' == written {
        err, waits', wait', k' := Turned(peer, turns, k, canWait, waits, written, wait', |p|, free, before);
      }
    }

    /** Writes all of `p`, waiting while the ring is full. At the k-th wait the context and the peer do
        what `turns[k]` says; `StillWaiting` means that the turns ran out before the call returned. It is
        left at turn `used`. `waits` lists the polling sleeps, each with the bytes written before it.

        Exactly `p[..written]` is published, and that is all that fits; the call waits no longer than it
        takes for all of `p` to fit, nor past the end of its context; and each sleep is the backoff for
        the sleeps since the last progress. */
    method WriteContext(p: seq<byte>, peer: Reader, canWait: bool, turns: seq<Turn<nat>>)
      returns (written: nat, err: Option<Error>, waits: seq<(nat, int)>, used: nat)
      requires Valid() && peer.Valid() && peer.st == st && peer.capacity == capacity
      modifies `tail, `cachedHead, `seenHead, peer`head, peer`cachedTail, peer`seenTail, st`sent, st`taken, st.buf
      ensures Valid() && peer.Valid()
      ensures written <= |p| && st.sent == old(st.sent) + p[..written]
      ensures closed ==>
                && written == used == 0 && err == (if p == [] then None else Some(ErrClosed))
                && st.taken == old(st.taken) && waits == []
      ensures !closed ==>
                Outcome(written, err, used, st.taken - old(st.taken), |waits|)
                == WriteOutcome(turns, canWait, |p|, old(Space()), capacity)
      ensures FollowsBackoff(waits, opt)
    {
      written, waits, used := 0, [], 0;
      var wait := opt.minPoll;
      ghost var base, before, free := st.sent, st.taken, Space();
      assert base + p[..0] == base && before + capacity == |base| + free;
      while written < |p|
        invariant Valid() && peer.InStep() && OnPace(opt, waits, written, wait)
        invariant written <= |p| && st.sent == base + p[..written]
        invariant closed ==> written == used == 0 && st.taken == before && waits == []
        invariant WriteGoesOn(turns, canWait, |p|, free, capacity, written, used, st.taken - before, |waits|)
        decreases |p| - written + |turns| - used
      {
        written, err, waits, wait, used :=
          Round(p, written, peer, canWait, turns, used, base, before, free, waits, wait);
        if err != None {
          return;
        }
      }
      WriteIsDone(turns, canWait, |p|, free, capacity, written, used, st.taken - before, |waits|);
      err := None;
    }
  }

  /** NewWriter: checks the capacity and the size, writes a fresh header, and returns the producer. */
  method NewWriter(st: MemStorage, capacity: int, opts: seq<(int, int)>)
    returns (w: Option<Writer>, err: Option<Error>)
    modifies st, st.buf
    ensures err == (if !ValidCapacity(capacity) then Some(ErrInvalidCapacity)
                    else if st.buf.Length < HEADER_SIZE + capacity then Some(ErrStorageTooSmall)
                    else None)
    ensures err == None <==> w.Some?
    ensures err != None ==> st.buf[..] == old(st.buf[..])
    ensures err == None ==>
              fresh(w.value) && w.value.Valid() && !w.value.closed && w.value.st == st && w.value.capacity == capacity
              && w.value.opt == Configured(opts) && st.sent == [] && st.taken == 0
  {
    if !ValidCapacity(capacity) {
      return None, Some(ErrInvalidCapacity);
    }
    if st.buf.Length < HEADER_SIZE + capacity {
      return None, Some(ErrStorageTooSmall);
    }
    err := InitHeader(st, capacity);
    var o := Configure(opts);
    var writer := new Writer(st, capacity, o);
    w := Some(writer);
  }

  // ---- Reader ------------------------------------------------------------------------

  class Reader {
    const st: MemStorage
    const capacity: nat
    const mask: nat
    const opt: Bounds
    var head: nat
    var cachedTail: nat
    ghost var seenTail: nat

    /** The handle's own counters agree with the stream. */
    ghost predicate InStep()
      reads this, st
    {
      && mask == capacity - 1
      && head == st.taken % WORD
      && st.taken <= seenTail <= |st.sent|
      && cachedTail == seenTail % WORD
    }

    ghost predicate Valid()
      reads this, st, st.buf
    {
      st.Ring(capacity) && InStep()
    }

    /** A Reader starts at head 0, so it is in step if it attaches before anything has been consumed. */
    constructor (st: MemStorage, capacity: nat, opt: Bounds)
      requires capacity > 0
      ensures this.st == st && this.capacity == capacity && this.opt == opt && head == 0 && cachedTail == 0
      ensures st.Ring(capacity) && st.taken == 0 ==> Valid()
    {
      this.st, this.capacity, this.mask, this.opt := st, capacity, capacity - 1, opt;
      head, cachedTail, seenTail := 0, 0, 0;
    }

    /** Reads what is there: exactly min(len(p), available), the next bytes of the stream, into the
        front of `p`; EOF exactly when the ring is empty and closed. */
    method TryRead(p: array<byte>) returns (n: nat, err: Option<Error>)
      requires Valid() && p != st.buf
      modifies `head, `cachedTail, `seenTail, st`taken, st.buf, p
      ensures Valid() && st.taken == old(st.taken) + n
      ensures n == Min(p.Length, |old(st.Contents())|) <= p.Length
      ensures p[..n] == old(st.Contents())[..n] && p[n..] == old(p[n..])
      ensures err == (if p.Length > 0 && old(st.Contents()) == [] && old(st.Closed()) then Some(Eof) else None)
      ensures st.Closed() == old(st.Closed())
    {
      if p.Length == 0 {
        return 0, None;
      }
      WrapSubIsDistance(seenTail, st.taken);
      WrapSubIsDistance(|st.sent|, st.taken);
      var avail := WrapSub(cachedTail, head);
      if avail < p.Length {
        var tail, e := ReadUint32At(st, OFF_TAIL);
        assert e == None;
        cachedTail, seenTail := tail, |st.sent|;
        avail := WrapSub(cachedTail, head);
      }
      if avail <= 0 {
        var flag, e := ReadUint32At(st, OFF_CLOSED);
        assert e == None;
        return 0, if flag != 0 then Some(Eof) else None;
      }
      n := p.Length;
      if n > avail {
        n := avail;
      }
      err := Consume(p, n);
    }

    /** The second half of TryRead: copy the payload out, then store the head. */
    method Consume(p: array<byte>, n: nat) returns (err: Option<Error>)
      requires Valid() && p != st.buf && 0 < n <= p.Length && st.taken + n <= seenTail
      modifies `head, st`taken, st.buf, p
      ensures Valid() && err == None && st.taken == old(st.taken) + n
      ensures p[..n] == st.sent[old(st.taken)..st.taken] && p[n..] == old(p[n..])
      ensures st.Closed() == old(st.Closed())
    {
      ReadGives(st.buf[..], capacity, st.sent, st.taken, n);
      CopyOut(p, n, st.taken);
      err := Advance(n);
    }

    method Advance(n: nat) returns (err: Option<Error>)
      requires Valid() && 0 < n && st.taken + n <= seenTail
      modifies `head, st`taken, st.buf
      ensures Valid() && err == None && st.taken == old(st.taken) + n
      ensures st.Closed() == old(st.Closed())
    {
      WrapAddTracks(st.taken, n);
      ReadShrinksRing(st.buf[..], capacity, st.sent, st.taken, n);
      head := WrapAdd(head, n);
      err := WriteUint32At(st, OFF_HEAD, head);
      st.taken := st.taken + n;
    }

    /** The one or two ReadAt calls of a payload: the modular read at the true head `t`. */
    method CopyOut(p: array<byte>, n: nat, ghost t: nat)
      requires ValidCapacity(capacity) && mask == capacity - 1 && HEADER_SIZE + capacity <= st.buf.Length
      requires head == t % WORD && 0 < n <= capacity && n <= p.Length && p != st.buf
      modifies p
      ensures p[..n] == ModularRead(st.buf[..], capacity, t, n) && p[n..] == old(p[n..])
    {
      SplitReadIsModular(st.buf[..], capacity, t, n);
      var start := BitAnd(head, mask);
      CopyOutAt(p, n, start);
    }

    method CopyOutAt(p: array<byte>, n: nat, start: nat)
      requires HEADER_SIZE + capacity <= st.buf.Length && start < capacity && n <= capacity
      requires n <= p.Length && p != st.buf
      modifies p
      ensures p[..n] == SplitRead(st.buf[..], capacity, start, n) && p[n..] == old(p[n..])
    {
      if start + n <= capacity {
        var k, e := st.ReadAt(p, 0, n, HEADER_SIZE + start);
        assert e == None;
        OneSegment(p[..], st.buf[..], capacity, start, n);
      } else {
        CopyOutTwice(p, n, start);
      }
    }

    method CopyOutTwice(p: array<byte>, n: nat, start: nat)
      requires HEADER_SIZE + capacity <= st.buf.Length && start < capacity < start + n && n <= capacity
      requires n <= p.Length && p != st.buf
      modifies p
      ensures p[..n] == SplitRead(st.buf[..], capacity, start, n) && p[n..] == old(p[n..])
    {
      var first := capacity - start;
      var k, e := st.ReadAt(p, 0, first, HEADER_SIZE + start);
      assert e == None;
      ghost var mid := p[..];
      assert mid[..first] == p[0..first] && mid[first..] == p[first..];
      k, e := st.ReadAt(p, first, n, HEADER_SIZE);
      assert e == None;
      assert p[first..n] == p[first..first + (n - first)];
      TwoSegments(p[..], mid, old(p[..]), st.buf[..], capacity, start, n);
    }

    /** The peer writes, and perhaps closes, while this call waits. */
    method LetWrite(peer: Writer, put: Put)
      requires Valid() && peer.Valid() && peer.st == st && peer.capacity == capacity
      requires st.Contents() == [] && !st.Closed()
      modifies peer`tail, peer`cachedHead, peer`seenHead, peer`closed, st`sent, st.buf
      ensures Valid() && peer.Valid() && st.Closed() == put.close
      ensures st.sent == old(st.sent) + put.bytes[..Min(|put.bytes|, capacity)]
    {
      var n, e := peer.TryWrite(put.bytes);
      if put.close {
        e := peer.Close();
      }
    }

    /** The rest of a turn of the loop when there was nothing to read: stop if the context is done, or else
        wait, while the peer may write and close. */
    method Rest(peer: Writer, turns: seq<Turn<Put>>, k: nat, canWait: bool, waits: seq<(nat, int)>, wait: int)
      returns (stop: Option<Error>, waits': seq<(nat, int)>, wait': int)
      requires Valid() && peer.Valid() && peer.st == st && peer.capacity == capacity
      requires k <= |turns| && st.Contents() == [] && !st.Closed()
      modifies peer`tail, peer`cachedHead, peer`seenHead, peer`closed, st`sent, st.buf
      ensures Valid() && peer.Valid()
      ensures stop == if k < |turns| && Outlasts(turns[k], canWait) then None else Verdict(turns, k)
      ensures (waits', wait') == After(opt, turns, k, canWait, waits, 0, wait)
      ensures st.sent == old(st.sent) + if Waits(turns, k) then Given(turns, k, capacity) else []
      ensures st.Closed() == (Waits(turns, k) && turns[k].peer.close)
    {
      if k == |turns| || turns[k].done {
        return Verdict(turns, k), waits, wait;
      }
      LetWrite(peer, turns[k].peer);
      if !canWait && turns[k].ends {
        stop := Verdict(turns, k);
      } else {
        stop := None;
      }
      var next := Paced(opt, canWait, waits, 0, wait);
      waits', wait' := next.0, next.1;
    }

    /** One attempt of a blocking read. It reads the next bytes, all that are there and fit, or nothing. */
    method Attempt(p: array<byte>) returns (n: nat, err: Option<Error>)
      requires Valid() && p != st.buf && p.Length > 0
      modifies `head, `cachedTail, `seenTail, st`taken, st.buf, p
      ensures Valid() && st.Closed() == old(st.Closed())
      ensures n <= p.Length && st.taken == old(st.taken) + n && p[..n] == st.sent[old(st.taken)..st.taken]
      ensures p[n..] == old(p[n..]) && (n == 0 ==> p[..] == old(p[..]))
      ensures err == None && n > 0 ==> st.taken <= |st.sent| && (n == p.Length || st.Contents() == [])
      ensures err == None && n == 0 ==> st.Contents() == [] && !st.Closed()
      ensures err != None ==> err == Some(Eof) && n == 0 && st.Contents() == [] && st.Closed()
    {
      n, err := TryRead(p);
      assert old(st.Contents())[..n] == st.sent[old(st.taken)..st.taken];
      assert p[..] == p[..n] + p[n..];
    }

    /** The rest of a turn, in view of the whole call: `was` and `closed` are the stream and its end when
        the call began. */
    method Turned(peer: Writer, turns: seq<Turn<Put>>, k: nat, canWait: bool, waits: seq<(nat, int)>, wait: int,
                  ghost was: seq<byte>, ghost closed: bool)
      returns (stop: Option<Error>, waits': seq<(nat, int)>, wait': int, k': nat)
      requires Valid() && peer.Valid() && peer.st == st && peer.capacity == capacity && was <= st.sent
      requires st.Contents() == [] && !st.Closed() && st.taken <= |was| && OnPace(opt, waits, 0, wait)
      requires ReadGoesOn(turns, canWait, capacity, k, |waits|, st.taken, was, closed, st.sent, false)
      modifies peer`tail, peer`cachedHead, peer`seenHead, peer`closed, st`sent, st.buf
      ensures Valid() && peer.Valid() && was <= st.sent && OnPace(opt, waits', 0, wait')
      ensures k' == if stop == None then k + 1 else k
      ensures if stop == None
              then ReadGoesOn(turns, canWait, capacity, k', |waits'|, st.taken, was, closed, st.sent, st.Closed())
              else ReadEnds(turns, canWait, capacity, k', |waits'|, st.taken, was, closed, st.sent, stop)
      ensures stop != Some(Eof)
    {
      ghost var now := st.sent;
      stop, waits', wait' := Rest(peer, turns, k, canWait, waits, wait);
      k' := if stop == None then k + 1 else k;
      AfterStaysOnPace(opt, turns, k, canWait, waits, 0, wait);
      ReadTurns(turns, canWait, capacity, k, |waits|, st.taken, was, closed, now, |waits'|, st.sent, st.Closed());
    }

    /** Waits until something can be read, and reads all that is there and fits. An empty buffer returns at
        once. The turns and waits are as for a write; a read never has progress before a sleep. */
    method ReadContext(p: array<byte>, peer: Writer, canWait: bool, turns: seq<Turn<Put>>)
      returns (n: nat, err: Option<Error>, waits: seq<(nat, int)>, used: nat)
      requires Valid() && peer.Valid() && peer.st == st && peer.capacity == capacity && p != st.buf
      modifies `head, `cachedTail, `seenTail, st`sent, st`taken, st.buf, p
      modifies peer`tail, peer`cachedHead, peer`seenHead, peer`closed
      ensures Valid() && peer.Valid() && old(st.sent) <= st.sent
      ensures n <= p.Length && st.taken == old(st.taken) + n && p[..n] == st.sent[old(st.taken)..st.taken]
      ensures p[n..] == old(p[n..])
      ensures err == None ==> (n > 0 <==> p.Length > 0) && (n == p.Length || st.Contents() == [])
      ensures err != None ==> n == 0
      ensures err == Some(Eof) ==> st.Contents() == [] && st.Closed()
      ensures if p.Length == 0 then err == None && used == 0 && waits == [] && st.sent == old(st.sent)
              else ReadEnds(turns, canWait, capacity, used, |waits|, old(st.taken), old(st.sent), old(st.Closed()),
                            st.sent, err)
      ensures FollowsBackoff(waits, opt)
    {
      waits, used := [], 0;
      if p.Length == 0 {
        return 0, None, [], 0;
      }
      var wait := opt.minPoll;
      ghost var was, taken, closed := st.sent, st.taken, st.Closed();
      while true
        invariant Valid() && peer.Valid() && was <= st.sent && OnPace(opt, waits, 0, wait)
        invariant st.taken == taken && p[..] == old(p[..])
        invariant ReadGoesOn(turns, canWait, capacity, used, |waits|, taken, was, closed, st.sent, st.Closed())
        decreases |turns| - used
      {
        n, err := Attempt(p);
        if n > 0 || err != None {
          ReadIsDone(turns, canWait, capacity, used, |waits|, taken, was, closed, st.sent, st.Closed(), err);
          return;
        }
        err, waits, wait, used := Turned(peer, turns, used, canWait, waits, wait, was, closed);
        if err != None {
          return;
        }
      }
    }
  }

  /** NewReader: checks the capacity, the size and the header, and returns the consumer. */
  method NewReader(st: MemStorage, capacity: int, opts: seq<(int, int)>)
    returns (r: Option<Reader>, err: Option<Error>)
    ensures err == (if !ValidCapacity(capacity) then Some(ErrInvalidCapacity)
                    else if st.buf.Length < HEADER_SIZE + capacity then Some(ErrStorageTooSmall)
                    else if !HeaderMatches(st.buf[..], capacity) then Some(ErrHeaderMismatch)
                    else None)
    ensures err == None <==> r.Some?
    ensures err == None ==>
              fresh(r.value) && r.value.st == st && r.value.capacity == capacity && r.value.opt == Configured(opts)
              && r.value.head == 0 && r.value.cachedTail == 0
    ensures err == None && st.Ring(capacity) && st.taken == 0 ==> r.value.Valid()
  {
    if !ValidCapacity(capacity) {
      return None, Some(ErrInvalidCapacity);
    }
    if st.buf.Length < HEADER_SIZE + capacity {
      return None, Some(ErrStorageTooSmall);
    }
    err := VerifyHeader(st, capacity);
    if err != None {
      return None, err;
    }
    var o := Configure(opts);
    var reader := new Reader(st, capacity, o);
    r := Some(reader);
  }
}

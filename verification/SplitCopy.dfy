/** Payload copies on the bytes of a storage: one or two contiguous segments against modular indexing. */
module SplitCopy {
  import opened Words
  import opened Header

  // ---- The copies the code makes -----------------------------------------------------

  /** TryWrite's one or two WriteAt calls. */
  function SplitWrite(mem: seq<byte>, cap: nat, start: nat, chunk: seq<byte>): (mem': seq<byte>)
    requires HEADER_SIZE + cap <= |mem| && start < cap && |chunk| <= cap
    ensures |mem'| == |mem|
  {
    if start + |chunk| <= cap then Splice(mem, HEADER_SIZE + start, chunk)
    else Splice(Splice(mem, HEADER_SIZE + start, chunk[..cap - start]), HEADER_SIZE, chunk[cap - start..])
  }

  /** TryRead's one or two ReadAt calls. */
  function SplitRead(mem: seq<byte>, cap: nat, start: nat, n: nat): seq<byte>
    requires HEADER_SIZE + cap <= |mem| && start < cap && n <= cap
  {
    if start + n <= cap then mem[HEADER_SIZE + start..HEADER_SIZE + start + n]
    else mem[HEADER_SIZE + start..HEADER_SIZE + cap] + mem[HEADER_SIZE..HEADER_SIZE + (start + n - cap)]
  }

  // ---- The reference: one byte at a time, each in the slot of its stream position ------

  function ModularWrite(mem: seq<byte>, cap: nat, t: nat, chunk: seq<byte>): (mem': seq<byte>)
    requires 0 < cap && HEADER_SIZE + cap <= |mem|
    ensures |mem'| == |mem|
  {
    if chunk == [] then mem
    else
      var n := |chunk| - 1;
      ModularWrite(mem, cap, t, chunk[..n])[HEADER_SIZE + Slot(t + n, cap) := chunk[n]]
  }

  function ModularRead(mem: seq<byte>, cap: nat, t: nat, n: nat): seq<byte>
    requires 0 < cap && HEADER_SIZE + cap <= |mem|
  {
    if n == 0 then [] else ModularRead(mem, cap, t, n - 1) + [mem[HEADER_SIZE + Slot(t + n - 1, cap)]]
  }

  lemma SplitWriteGrows(mem: seq<byte>, cap: nat, start: nat, chunk: seq<byte>, k: nat)
    requires HEADER_SIZE + cap <= |mem| && start < cap && 0 < |chunk| <= cap
    requires k == SplitIndex(start, |chunk| - 1, cap)
    ensures k < cap
    ensures SplitWrite(mem, cap, start, chunk)
         == SplitWrite(mem, cap, start, chunk[..|chunk| - 1])[HEADER_SIZE + k := chunk[|chunk| - 1]]
  {
    var n := |chunk| - 1;
    var front := chunk[..n];
    if start + n < cap {
      assert chunk == front + [chunk[n]];
    } else {
      assert chunk[..cap - start] == front[..cap - start];
      assert chunk[cap - start..] == front[cap - start..] + [chunk[n]];
    }
  }

  lemma {:induction false} SplitWriteBySlots(mem: seq<byte>, cap: nat, t: nat, chunk: seq<byte>)
    requires 0 < cap && HEADER_SIZE + cap <= |mem| && |chunk| <= cap
    ensures SplitWrite(mem, cap, Slot(t, cap), chunk) == ModularWrite(mem, cap, t, chunk)
  {
    if chunk == [] {
      assert SplitWrite(mem, cap, Slot(t, cap), chunk) == mem;
    } else {
      SplitWriteBySlots(mem, cap, t, chunk[..|chunk| - 1]);
      SplitIsSlot(t, |chunk| - 1, cap);
      SplitWriteGrows(mem, cap, Slot(t, cap), chunk, Slot(t + |chunk| - 1, cap));
    }
  }

  /** For every 32-bit counter, wherever it has wrapped to, the split write is the modular write at
      the unwrapped counter; and so is the split read. */
  lemma SplitWriteIsModular(mem: seq<byte>, cap: Capacity, t: nat, chunk: seq<byte>)
    requires HEADER_SIZE + cap <= |mem| && |chunk| <= cap
    ensures BitAnd(t % WORD, cap - 1) < cap
    ensures SplitWrite(mem, cap, BitAnd(t % WORD, cap - 1), chunk) == ModularWrite(mem, cap, t, chunk)
  {
    MaskedWordIsSlot(t, cap);
    SplitWriteBySlots(mem, cap, t, chunk);
  }

  lemma SplitReadGrows(mem: seq<byte>, cap: nat, start: nat, n: nat)
    requires HEADER_SIZE + cap <= |mem| && start < cap && 0 < n <= cap
    ensures SplitIndex(start, n - 1, cap) < cap
    ensures SplitRead(mem, cap, start, n)
         == SplitRead(mem, cap, start, n - 1) + [mem[HEADER_SIZE + SplitIndex(start, n - 1, cap)]]
  {
  }

  lemma {:induction false} SplitReadBySlots(mem: seq<byte>, cap: nat, t: nat, n: nat)
    requires 0 < cap && HEADER_SIZE + cap <= |mem| && n <= cap
    ensures SplitRead(mem, cap, Slot(t, cap), n) == ModularRead(mem, cap, t, n)
  {
    if n != 0 {
      SplitReadBySlots(mem, cap, t, n - 1);
      SplitReadGrows(mem, cap, Slot(t, cap), n);
      SplitIsSlot(t, n - 1, cap);
    }
  }

  lemma SplitReadIsModular(mem: seq<byte>, cap: Capacity, t: nat, n: nat)
    requires HEADER_SIZE + cap <= |mem| && n <= cap
    ensures BitAnd(t % WORD, cap - 1) < cap
    ensures SplitRead(mem, cap, BitAnd(t % WORD, cap - 1), n) == ModularRead(mem, cap, t, n)
  {
    MaskedWordIsSlot(t, cap);
    SplitReadBySlots(mem, cap, t, n);
  }

  // ---- What the copies do to a stream held in the ring -------------------------------

  /** The data region holds the stream from byte `taken` on. */
  ghost predicate Holds(mem: seq<byte>, cap: Capacity, sent: seq<byte>, taken: nat) {
    HEADER_SIZE + cap <= |mem| && Stored(mem[HEADER_SIZE..HEADER_SIZE + cap], sent, taken, cap)
  }

  /** A write into free space keeps every unread byte and adds its own. */
  lemma {:induction false} WriteHolds(mem: seq<byte>, cap: Capacity, sent: seq<byte>, taken: nat, chunk: seq<byte>)
    requires Holds(mem, cap, sent, taken) && taken <= |sent| && |sent| + |chunk| <= taken + cap
    ensures Holds(ModularWrite(mem, cap, |sent|, chunk), cap, sent + chunk, taken)
    ensures ModularWrite(mem, cap, |sent|, chunk)[..HEADER_SIZE] == mem[..HEADER_SIZE]
  {
    if chunk == [] {
      assert sent + chunk == sent;
    } else {
      var n := |chunk| - 1;
      WriteHolds(mem, cap, sent, taken, chunk[..n]);
      var mem' := ModularWrite(mem, cap, |sent|, chunk[..n]);
      var data, k := mem'[HEADER_SIZE..HEADER_SIZE + cap], Slot(|sent| + n, cap);
      PutKeepsStored(data, sent + chunk[..n], taken, cap, chunk[n]);
      assert mem'[HEADER_SIZE + k := chunk[n]][HEADER_SIZE..HEADER_SIZE + cap] == data[k := chunk[n]];
      assert sent + chunk[..n] + [chunk[n]] == sent + chunk;
    }
  }

  /** A read of what is there returns the next bytes of the stream. */
  lemma {:induction false} ReadGives(mem: seq<byte>, cap: Capacity, sent: seq<byte>, taken: nat, n: nat)
    requires Holds(mem, cap, sent, taken) && taken + n <= |sent|
    ensures ModularRead(mem, cap, taken, n) == sent[taken..taken + n]
  {
    if n != 0 {
      ReadGives(mem, cap, sent, taken, n - 1);
      var data := mem[HEADER_SIZE..HEADER_SIZE + cap];
      assert data[Slot(taken + n - 1, cap)] == sent[taken + n - 1];
    }
  }
}

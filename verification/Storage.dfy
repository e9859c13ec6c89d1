/** The in-process storage and the header functions that work on it in place. */
module Storage {
  import opened Words
  import opened Header
  import opened SplitCopy

  datatype Error =
    | ErrClosed
    | ErrInvalidCapacity
    | ErrHeaderMismatch
    | ErrStorageTooSmall
    | Eof
    | UnexpectedEof
    | ShortWrite
    | ContextDone
    | StillWaiting  // the call has not returned yet

  datatype Option<+T> = None | Some(value: T)

  /** These bytes carry a ring of `cap` bytes that holds exactly the unconsumed part of the stream. */
  ghost predicate CarriesRing(mem: seq<byte>, cap: nat, sent: seq<byte>, taken: nat) {
    && ValidCapacity(cap) && HEADER_SIZE + cap <= |mem|
    && HeaderMatches(mem, cap)
    && taken <= |sent| <= taken + cap
    && LoadWord(mem, OFF_HEAD) == taken % WORD
    && LoadWord(mem, OFF_TAIL) == |sent| % WORD
    && (LoadWord(mem, OFF_CLOSED) == 0 || LoadWord(mem, OFF_CLOSED) == 1)
    && Holds(mem, cap, sent, taken)
  }

  /** A byte buffer of fixed size. `sent` and `taken` are the stream the ring on it carries: every
      byte published so far, and how many of them have been consumed. */
  class MemStorage {
    const buf: array<byte>
    ghost var sent: seq<byte>
    ghost var taken: nat

    constructor (size: int)
      requires size > 0
      ensures fresh(buf) && buf.Length == size
      ensures forall i :: 0 <= i < size ==> buf[i] == 0
    {
      buf := new byte[size](_ => 0);
      sent, taken := [], 0;
    }

    /** The bytes published and not yet consumed. */
    ghost function Contents(): seq<byte>
      reads this
    {
      if taken <= |sent| then sent[taken..] else []
    }

    ghost predicate Ring(cap: nat)
      reads this, buf
    {
      CarriesRing(buf[..], cap, sent, taken)
    }

    ghost predicate Closed()
      reads this, buf
    {
      OFF_CLOSED + 4 <= buf.Length && LoadWord(buf[..], OFF_CLOSED) == 1
    }

    method ReadAt(p: array<byte>, lo: nat, hi: nat, off: int) returns (n: nat, err: Option<Error>)
      requires lo <= hi <= p.Length && p != buf
      modifies p
      ensures off < 0 || off >= buf.Length ==> n == 0 && err == Some(Eof)
      ensures 0 <= off < buf.Length ==>
                n == Min(hi - lo, buf.Length - off) && err == (if n < hi - lo then Some(UnexpectedEof) else None)
      ensures lo + n <= p.Length && (0 <= off < buf.Length ==> p[lo..lo + n] == buf[off..off + n])
      ensures p[..lo] == old(p[..lo]) && p[lo + n..] == old(p[lo + n..])
    {
      if off < 0 || off >= buf.Length {
        return 0, Some(Eof);
      }
      n := Min(hi - lo, buf.Length - off);
      forall i | 0 <= i < n {
        p[lo + i] := buf[off + i];
      }
      err := if n < hi - lo then Some(UnexpectedEof) else None;
    }

    method WriteAt(p: seq<byte>, off: int) returns (n: nat, err: Option<Error>)
      modifies buf
      ensures off < 0 || off + |p| > buf.Length ==> n == 0 && err == Some(ShortWrite) && buf[..] == old(buf[..])
      ensures 0 <= off && off + |p| <= buf.Length ==>
                n == |p| && err == None && buf[..] == Splice(old(buf[..]), off, p)
    {
      if off < 0 || off + |p| > buf.Length {
        return 0, Some(ShortWrite);
      }
      forall i | 0 <= i < |p| {
        buf[off + i] := p[i];
      }
      n, err := |p|, None;
      assert buf[..] == Splice(old(buf[..]), off, p);
    }
  }

  /** Loads a header word through a four-byte scratch buffer. */
  method ReadUint32At(st: MemStorage, off: nat) returns (v: nat, err: Option<Error>)
    ensures err == (if off + 4 <= st.buf.Length then None
                    else Some(if off < st.buf.Length then UnexpectedEof else Eof))
    ensures err == None ==> v == LoadWord(st.buf[..], off)
  {
    var scratch := new byte[4];
    var n;
    n, err := st.ReadAt(scratch, 0, 4, off);
    if err != None {
      return 0, err;
    }
    assert scratch[..] == scratch[0..4] == st.buf[off..off + 4] == st.buf[..][off..off + 4];
    v := FromLittleEndian(scratch[..]);
  }

  method WriteUint32At(st: MemStorage, off: nat, v: nat) returns (err: Option<Error>)
    requires v < WORD
    modifies st.buf
    ensures err == if off + 4 <= st.buf.Length then None else Some(ShortWrite)
    ensures err == None ==> st.buf[..] == StoreWord(old(st.buf[..]), off, v)
    ensures err != None ==> st.buf[..] == old(st.buf[..])
  {
    var n;
    n, err := st.WriteAt(LittleEndian(v, 4), off);
  }

  lemma FreshHeader(mem: seq<byte>, c: nat)
    requires HEADER_SIZE <= |mem| && c < 0x1_0000_0000_0000_0000
    ensures var mem' := Splice(mem, 0, HeaderImage(c));
            && mem'[..HEADER_SIZE] == HeaderImage(c) && mem'[HEADER_SIZE..] == mem[HEADER_SIZE..]
            && HeaderMatches(mem', c) && LoadWord(mem', OFF_CLOSED) == 0
            && (ValidCapacity(c) && HEADER_SIZE + c <= |mem| ==> CarriesRing(mem', c, [], 0))
  {
    VerifyAfterInit(mem, c, c);
  }

  /** Writes a fresh header for any 64-bit capacity, and nothing but the header. With a valid capacity that
      fits, the storage then carries a new, empty, open ring. */
  method InitHeader(st: MemStorage, capacity: int) returns (err: Option<Error>)
    requires IsInt64(capacity)
    modifies st, st.buf
    ensures err == if HEADER_SIZE <= st.buf.Length then None else Some(ShortWrite)
    ensures err == None ==> HeaderMatches(st.buf[..], AsUint64(capacity))
    ensures ValidCapacity(capacity) && HEADER_SIZE + capacity <= st.buf.Length ==> st.Ring(capacity) && !st.Closed()
    ensures err == None ==> st.sent == [] && st.taken == 0
    ensures err == None ==> st.buf[..HEADER_SIZE] == HeaderImage(AsUint64(capacity))
    ensures err == None ==> st.buf[HEADER_SIZE..] == old(st.buf[HEADER_SIZE..])
    ensures err != None ==> st.buf[..] == old(st.buf[..])
  {
    var n;
    n, err := st.WriteAt(HeaderImage(AsUint64(capacity)), 0);
    if err == None {
      st.sent, st.taken := [], 0;
      FreshHeader(old(st.buf[..]), AsUint64(capacity));
      assert st.buf[..HEADER_SIZE] == st.buf[..][..HEADER_SIZE];
      assert st.buf[HEADER_SIZE..] == st.buf[..][HEADER_SIZE..];
      assert old(st.buf[HEADER_SIZE..]) == old(st.buf[..])[HEADER_SIZE..];
    }
  }

  /** Accepts exactly a storage that carries this format and this capacity. */
  method VerifyHeader(st: MemStorage, capacity: int) returns (err: Option<Error>)
    requires IsInt64(capacity)
    ensures err == None <==> HEADER_SIZE <= st.buf.Length && HeaderMatches(st.buf[..], AsUint64(capacity))
    ensures err == None <==>
              HEADER_SIZE <= st.buf.Length && st.buf[..][..16] == HeaderImage(AsUint64(capacity))[..16]
    ensures err != None ==>
              err == Some(if HEADER_SIZE <= st.buf.Length then ErrHeaderMismatch
                          else if st.buf.Length > 0 then UnexpectedEof else Eof)
  {
    var scratch := new byte[HEADER_SIZE];
    var n;
    n, err := st.ReadAt(scratch, 0, HEADER_SIZE, 0);
    if err != None {
      return;
    }
    assert scratch[..] == scratch[0..HEADER_SIZE] == st.buf[0..HEADER_SIZE];
    AcceptedIffAsWritten(st.buf[..], AsUint64(capacity));
    IdentityIsEnough(scratch[..], st.buf[..], AsUint64(capacity));
    if LoadWord(scratch[..], OFF_MAGIC) != MAGIC {
      return Some(ErrHeaderMismatch);
    }
    if LoadWord(scratch[..], OFF_VERSION) != FORMAT_VERSION {
      return Some(ErrHeaderMismatch);
    }
    if FromLittleEndian(scratch[OFF_CAPACITY..OFF_CAPACITY + 8]) != AsUint64(capacity) {
      return Some(ErrHeaderMismatch);
    }
    return None;
  }

  // ---- What payload copies keep ------------------------------------------------------

  /** Two storages with the same header agree on everything the header says. */
  lemma SameHeader(mem: seq<byte>, mem': seq<byte>, cap: nat)
    requires HEADER_SIZE <= |mem| == |mem'| && mem[..HEADER_SIZE] == mem'[..HEADER_SIZE]
    ensures HeaderMatches(mem, cap) == HeaderMatches(mem', cap)
    ensures forall o :: o in {OFF_HEAD, OFF_TAIL, OFF_CLOSED} ==> LoadWord(mem', o) == LoadWord(mem, o)
  {
    assert mem[..16] == mem[..HEADER_SIZE][..16] && mem'[..16] == mem'[..HEADER_SIZE][..16];
    IdentityIsEnough(mem, mem', cap);
    WordOfHeader(mem, mem', OFF_HEAD);
    WordOfHeader(mem, mem', OFF_TAIL);
    WordOfHeader(mem, mem', OFF_CLOSED);
  }

  lemma WordOfHeader(mem: seq<byte>, mem': seq<byte>, o: nat)
    requires o + 4 <= HEADER_SIZE <= |mem| == |mem'| && mem[..HEADER_SIZE] == mem'[..HEADER_SIZE]
    ensures LoadWord(mem', o) == LoadWord(mem, o)
  {
    assert mem[o..o + 4] == mem[..HEADER_SIZE][o..o + 4];
    assert mem'[o..o + 4] == mem'[..HEADER_SIZE][o..o + 4];
  }
}

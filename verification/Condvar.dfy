/** The mutex-and-condition-variable storage of the Rust crate, for any number of threads and words,
    against the wait/wake contract that the ring relies on. */
module Condvar {
  import opened Counting

  type Thread = nat
  type Word = nat  // the offset of a header word

  // ---- The contract ------------------------------------------------------------------

  /** Word values; which threads are parked, on which word and for which value; and which threads have
      stored a word whose wake they have not yet given. */
  datatype Contract = Contract(words: map<Word, nat>, parked: map<Thread, (Word, nat)>, owed: map<Thread, Word>)

  /** The steps that the contract allows. */
  datatype ContractStep =
    | StoreStep(t: Thread, word: Word, value: nat)
    | WakeStep(t: Thread)
    | ParkStep(t: Thread, word: Word, was: nat)
    | ReturnStep(t: Thread)  // timeout or spurious wakeup
    | IdleStep

  function ValueOf(words: map<Word, nat>, word: Word): nat {
    if word in words then words[word] else 0
  }

  /** A store takes effect at once and owes a wake; a wake unparks every thread parked on its word, and
      may unpark others; a thread parks only while its word still holds the value it compared. */
  ghost predicate Permits(s: Contract, e: ContractStep, s': Contract) {
    match e
    case StoreStep(t, word, value) =>
      && t !in s.owed && t !in s.parked
      && s' == s.(words := s.words[word := value], owed := s.owed[t := word])
    case WakeStep(t) =>
      && t in s.owed && s'.words == s.words && s'.owed == s.owed - {t}
      && s'.parked.Keys <= s.parked.Keys
      && (forall u :: u in s'.parked ==> s'.parked[u] == s.parked[u] && s'.parked[u].0 != s.owed[t])
    case ParkStep(t, word, was) =>
      && t !in s.parked && t !in s.owed && ValueOf(s.words, word) == was
      && s' == s.(parked := s.parked[t := (word, was)])
    case ReturnStep(t) => t in s.parked && s' == s.(parked := s.parked - {t})
    case IdleStep => s' == s
  }

  /** No wakeup for a changed word is lost: a thread is parked on a word that has moved on only while
      some thread still owes that word's wake. */
  ghost predicate NoLostWake(s: Contract) {
    forall t :: t in s.parked ==>
      ValueOf(s.words, s.parked[t].0) == s.parked[t].1 || exists u :: u in s.owed && s.owed[u] == s.parked[t].0
  }

  lemma ContractKeepsWakes(s: Contract, e: ContractStep, s': Contract)
    requires NoLostWake(s) && Permits(s, e, s')
    ensures NoLostWake(s')
  {
    forall t | t in s'.parked
      ensures
        || ValueOf(s'.words, s'.parked[t].0) == s'.parked[t].1
        || exists u :: u in s'.owed && s'.owed[u] == s'.parked[t].0
    {
      var (word, was) := s'.parked[t];
      if e.StoreStep? && e.word == word {
        assert e.t in s'.owed && s'.owed[e.t] == word;
      } else if !e.ParkStep? || e.t != t {
        assert t in s.parked && s.parked[t] == (word, was);
        if ValueOf(s.words, word) != was {
          var u :| u in s.owed && s.owed[u] == word;
          assert u in s'.owed && s'.owed[u] == word;
        }
      }
    }
  }

  // ---- The implementation ------------------------------------------------------------

  /** Where a thread stands in store_u32_at or wait_u32_at. */
  datatype Pc =
    | Out
    | StoreLock(word: Word, value: nat)  // about to lock
    | StoreHeld(word: Word, value: nat)  // holds the lock, about to write
    | StoreDone(word: Word)              // has written, about to unlock
    | StoreNotify(word: Word)            // unlocked, about to notify_all
    | WaitLock(word: Word, was: nat)
    | WaitHeld(word: Word, was: nat)     // holds the lock, about to compare
    | WaitEqual(word: Word, was: nat)    // compared equal, about to hand the lock to the condvar
    | WaitDiffers                        // compared different, about to unlock
    | Parked(word: Word, was: nat)
    | Woken                              // must take the lock again before it can return
    | WokenHeld

  predicate Holding(pc: Pc) {
    pc.StoreHeld? || pc.StoreDone? || pc.WaitHeld? || pc.WaitEqual? || pc.WaitDiffers? || pc.WokenHeld?
  }

  datatype Impl = Impl(words: map<Word, nat>, pcs: map<Thread, Pc>)

  datatype ImplStep =
    | CallStore(t: Thread, word: Word, value: nat)
    | CallWait(t: Thread, word: Word, was: nat)
    | Go(t: Thread)
    | Unpark(t: Thread)  // timeout or spurious wakeup

  /** Locking is possible only while no thread holds the mutex. */
  ghost predicate LockFree(s: Impl) {
    forall t :: t in s.pcs ==> !Holding(s.pcs[t])
  }

  /** Everyone waiting on the condvar, whatever word it waits for, is to run again. */
  function NotifyAll(pcs: map<Thread, Pc>): map<Thread, Pc> {
    map t | t in pcs :: if pcs[t].Parked? then Woken else pcs[t]
  }

  function GoTo(s: Impl, t: Thread, pc: Pc): Impl {
    s.(pcs := s.pcs[t := pc])
  }

  ghost predicate Does(s: Impl, e: ImplStep, s': Impl) {
    match e
    case CallStore(t, word, value) => (t in s.pcs ==> s.pcs[t].Out?) && s' == GoTo(s, t, StoreLock(word, value))
    case CallWait(t, word, was) => (t in s.pcs ==> s.pcs[t].Out?) && s' == GoTo(s, t, WaitLock(word, was))
    case Unpark(t) => t in s.pcs && s.pcs[t].Parked? && s' == GoTo(s, t, Woken)
    case Go(t) =>
      t in s.pcs &&
      match s.pcs[t]
      case Out => false
      case StoreLock(word, value) => LockFree(s) && s' == GoTo(s, t, StoreHeld(word, value))
      case StoreHeld(word, value) => s' == GoTo(s.(words := s.words[word := value]), t, StoreDone(word))
      case StoreDone(word) => s' == GoTo(s, t, StoreNotify(word))
      case StoreNotify(word) => s' == Impl(s.words, NotifyAll(s.pcs)[t := Out])
      case WaitLock(word, was) => LockFree(s) && s' == GoTo(s, t, WaitHeld(word, was))
      case WaitHeld(word, was) =>
        s' == GoTo(s, t, if ValueOf(s.words, word) == was then WaitEqual(word, was) else WaitDiffers)
      case WaitEqual(word, was) => s' == GoTo(s, t, Parked(word, was))
      case WaitDiffers => s' == GoTo(s, t, Out)
      case Parked(_, _) => false
      case Woken => LockFree(s) && s' == GoTo(s, t, WokenHeld)
      case WokenHeld => s' == GoTo(s, t, Out)
  }

  /** One holder at a time, and the word a waiter compared equal has not changed since. */
  ghost predicate Sound(s: Impl) {
    && (forall t, u :: t in s.pcs && u in s.pcs && Holding(s.pcs[t]) && Holding(s.pcs[u]) ==> t == u)
    && (forall t :: t in s.pcs && s.pcs[t].WaitEqual? ==> ValueOf(s.words, s.pcs[t].word) == s.pcs[t].was)
  }

  lemma SoundStays(s: Impl, e: ImplStep, s': Impl)
    requires Sound(s) && Does(s, e, s')
    ensures Sound(s')
  {
  }

  // ---- The refinement ----------------------------------------------------------------

  predicate Owes(pc: Pc) {
    pc.StoreDone? || pc.StoreNotify?
  }

  ghost function Abstract(s: Impl): Contract {
    Contract(s.words,
             map t | t in s.pcs && s.pcs[t].Parked? :: (s.pcs[t].word, s.pcs[t].was),
             map t | t in s.pcs && Owes(s.pcs[t]) :: s.pcs[t].word)
  }

  /** The step of the contract that a step of the implementation amounts to: the write under the lock
      is the store, notify_all is the wake, and handing the lock to the condvar is the compare-and-park. */
  function AbstractStep(s: Impl, e: ImplStep): ContractStep {
    if e.Unpark? then ReturnStep(e.t)
    else if e.Go? && e.t in s.pcs then
      match s.pcs[e.t]
      case StoreHeld(word, value) => StoreStep(e.t, word, value)
      case StoreNotify(word) => WakeStep(e.t)
      case WaitEqual(word, was) => ParkStep(e.t, word, was)
      case _ => IdleStep
    else IdleStep
  }

  lemma GoToParked(s: Impl, t: Thread, pc: Pc)
    requires t in s.pcs ==> !s.pcs[t].Parked?
    ensures Abstract(GoTo(s, t, pc)).parked
         == if pc.Parked? then Abstract(s).parked[t := (pc.word, pc.was)] else Abstract(s).parked
  {
  }

  lemma GoToOwed(s: Impl, t: Thread, pc: Pc)
    requires Owes(pc) || t !in s.pcs || !Owes(s.pcs[t])
    ensures Abstract(GoTo(s, t, pc)).owed == if Owes(pc) then Abstract(s).owed[t := pc.word] else Abstract(s).owed
  {
  }

  lemma NotifyRefines(s: Impl, t: Thread, s': Impl)
    requires t in s.pcs && s.pcs[t].StoreNotify? && Does(s, Go(t), s')
    ensures Permits(Abstract(s), WakeStep(t), Abstract(s'))
  {
    assert Abstract(s').parked == map[];
    assert Abstract(s').owed == Abstract(s).owed - {t};
  }

  lemma UnparkRefines(s: Impl, t: Thread, s': Impl)
    requires Does(s, Unpark(t), s')
    ensures Permits(Abstract(s), ReturnStep(t), Abstract(s'))
  {
    assert Abstract(s').parked == Abstract(s).parked - {t};
    assert Abstract(s').owed == Abstract(s).owed;
  }

  lemma StoreRefines(s: Impl, t: Thread, s': Impl)
    requires t in s.pcs && s.pcs[t].StoreHeld? && Does(s, Go(t), s')
    ensures Permits(Abstract(s), StoreStep(t, s.pcs[t].word, s.pcs[t].value), Abstract(s'))
  {
    var stored := s.(words := s'.words);
    assert Abstract(stored).parked == Abstract(s).parked && Abstract(stored).owed == Abstract(s).owed;
    GoToParked(stored, t, StoreDone(s.pcs[t].word));
    GoToOwed(stored, t, StoreDone(s.pcs[t].word));
  }

  lemma ParkRefines(s: Impl, t: Thread, s': Impl)
    requires Sound(s) && t in s.pcs && s.pcs[t].WaitEqual? && Does(s, Go(t), s')
    ensures Permits(Abstract(s), ParkStep(t, s.pcs[t].word, s.pcs[t].was), Abstract(s'))
  {
    GoToParked(s, t, s'.pcs[t]);
    GoToOwed(s, t, s'.pcs[t]);
  }

  /** Taking and releasing the lock, comparing, calling and returning are invisible to the contract. */
  lemma OthersStutter(s: Impl, t: Thread, pc: Pc)
    requires !pc.Parked? && (t in s.pcs ==> !s.pcs[t].Parked?)
    requires t in s.pcs && Owes(s.pcs[t]) <==> Owes(pc)
    requires Owes(pc) ==> pc.word == s.pcs[t].word
    ensures Abstract(GoTo(s, t, pc)) == Abstract(s)
  {
    GoToParked(s, t, pc);
    GoToOwed(s, t, pc);
    if Owes(pc) {
      assert Abstract(s).owed[t := pc.word] == Abstract(s).owed;
    }
  }

  /** Every step of the implementation is a step of the contract. */
  lemma ImplementationRefines(s: Impl, e: ImplStep, s': Impl)
    requires Sound(s) && Does(s, e, s')
    ensures Permits(Abstract(s), AbstractStep(s, e), Abstract(s'))
  {
    if e.Unpark? {
      UnparkRefines(s, e.t, s');
    } else if e.Go? && s.pcs[e.t].StoreNotify? {
      NotifyRefines(s, e.t, s');
    } else if e.Go? && s.pcs[e.t].StoreHeld? {
      StoreRefines(s, e.t, s');
    } else if e.Go? && s.pcs[e.t].WaitEqual? {
      ParkRefines(s, e.t, s');
    } else {
      OthersStutter(s, e.t, s'.pcs[e.t]);
    }
  }

  // ---- Runs --------------------------------------------------------------------------

  ghost predicate TakesStep(ss: seq<Impl>, es: seq<ImplStep>, i: nat)
    requires |ss| == |es| + 1 && i < |es|
  {
    Does(ss[i], es[i], ss[i + 1])
  }

  ghost predicate ImplRun(ss: seq<Impl>, es: seq<ImplStep>) {
    && |ss| == |es| + 1 && ss[0].pcs == map[]
    && forall i :: 0 <= i < |es| ==> TakesStep(ss, es, i)
  }

  /** In every run, a thread is parked on a word that no longer holds its value only while the notify
      for a store to that word is still to come. */
  lemma {:induction false} RunsLoseNoWake(ss: seq<Impl>, es: seq<ImplStep>, i: nat)
    requires ImplRun(ss, es) && i < |ss|
    ensures Sound(ss[i]) && NoLostWake(Abstract(ss[i]))
  {
    if i != 0 {
      RunsLoseNoWake(ss, es, i - 1);
      assert TakesStep(ss, es, i - 1);
      SoundStays(ss[i - 1], es[i - 1], ss[i]);
      ImplementationRefines(ss[i - 1], es[i - 1], ss[i]);
      ContractKeepsWakes(Abstract(ss[i - 1]), AbstractStep(ss[i - 1], es[i - 1]), Abstract(ss[i]));
    }
  }

  // ---- Whole calls -------------------------------------------------------------------

  /** Thread `t` writes the word, under the lock, inside its store. */
  predicate Writes(s: Impl, e: ImplStep, t: Thread, word: Word, value: nat) {
    e == Go(t) && t in s.pcs && s.pcs[t] == StoreHeld(word, value)
  }

  predicate Notifies(s: Impl, e: ImplStep, t: Thread) {
    e == Go(t) && t in s.pcs && s.pcs[t].StoreNotify?
  }

  predicate Sleeps(s: Impl, u: Thread) {
    u in s.pcs && s.pcs[u].Parked?
  }

  ghost predicate NobodySleeps(s: Impl) {
    forall u :: u in s.pcs ==> !s.pcs[u].Parked?
  }

  /** How far a store call that began at `i` has come at `j`: `w` is its write and `n` its notify, or `j`
      where that is still to come. */
  lemma {:induction false} StoreCallSoFar(
    ss: seq<Impl>, es: seq<ImplStep>, i: nat, j: nat, t: Thread, word: Word, value: nat)
    returns (w: nat, n: nat)
    requires ImplRun(ss, es) && i < j < |ss| && es[i] == CallStore(t, word, value)
    ensures i < w <= n <= j && t in ss[j].pcs
    ensures w == j ==> ss[j].pcs[t] == StoreLock(word, value) || ss[j].pcs[t] == StoreHeld(word, value)
    ensures w < j ==> Writes(ss[w], es[w], t, word, value)
    ensures w < j && n == j ==> Owes(ss[j].pcs[t])
    ensures n < j ==> w < n && Notifies(ss[n], es[n], t)
    decreases j
  {
    assert TakesStep(ss, es, j - 1);
    if j == i + 1 {
      w, n := j, j;
    } else {
      w, n := StoreCallSoFar(ss, es, i, j - 1, t, word, value);
      if n == j - 1 && !Notifies(ss[n], es[n], t) {
        n := j;
      }
      if w == j - 1 && !Writes(ss[w], es[w], t, word, value) {
        w := j;
      }
    }
  }

  /** A call of store_u32_at that has returned has written its value, and at some moment between that
      write and its return no thread slept: every waiter that was parked when the call began, or when it
      wrote, has been woken, also when the value was the one already there. */
  lemma ReturnedStoreWokeEveryone(
    ss: seq<Impl>, es: seq<ImplStep>, i: nat, j: nat, t: Thread, word: Word, value: nat)
    returns (w: nat, n: nat)
    requires ImplRun(ss, es) && i < j < |ss| && es[i] == CallStore(t, word, value)
    requires t in ss[j].pcs && ss[j].pcs[t].Out?
    ensures i < w < n < j && Writes(ss[w], es[w], t, word, value) && Notifies(ss[n], es[n], t)
    ensures ValueOf(ss[w + 1].words, word) == value
    ensures NobodySleeps(ss[n + 1])
  {
    w, n := StoreCallSoFar(ss, es, i, j, t, word, value);
    assert TakesStep(ss, es, w);
    assert TakesStep(ss, es, n);
  }

  /** A thread that is parked now and was not then parked in between, on a compare that succeeded. */
  lemma {:induction false} ParkedSince(ss: seq<Impl>, es: seq<ImplStep>, n: nat, j: nat, u: Thread) returns (p: nat)
    requires ImplRun(ss, es) && n <= j < |ss| && !Sleeps(ss[n], u) && Sleeps(ss[j], u)
    ensures n <= p < j && es[p] == Go(u) && u in ss[p].pcs
    ensures ss[p].pcs[u] == WaitEqual(ss[j].pcs[u].word, ss[j].pcs[u].was)
    decreases j
  {
    assert n < j;
    assert TakesStep(ss, es, j - 1);
    if Sleeps(ss[j - 1], u) {
      p := ParkedSince(ss, es, n, j - 1, u);
    } else {
      p := j - 1;
    }
  }

  predicate WritesWord(s: Impl, e: ImplStep, word: Word) {
    e.Go? && e.t in s.pcs && s.pcs[e.t].StoreHeld? && s.pcs[e.t].word == word
  }

  lemma {:induction false} WordStays(ss: seq<Impl>, es: seq<ImplStep>, i: nat, j: nat, word: Word)
    requires ImplRun(ss, es) && i <= j < |ss| && forall k :: i <= k < j ==> !WritesWord(ss[k], es[k], word)
    ensures ValueOf(ss[j].words, word) == ValueOf(ss[i].words, word)
    decreases j
  {
    if i < j {
      WordStays(ss, es, i, j - 1, word);
      assert TakesStep(ss, es, j - 1);
      assert !WritesWord(ss[j - 1], es[j - 1], word);
    }
  }

  /** Whoever sleeps on the word when a store to it has returned fell asleep after that store's notify, on
      finding in the word the very value it was told to wait for; and if nobody has written the word
      again, that is the value stored. A waiter for any other value saw the store on entry or was woken
      by it. */
  lemma SleeperSawTheStore(
    ss: seq<Impl>, es: seq<ImplStep>, i: nat, j: nat, t: Thread, word: Word, value: nat, u: Thread)
    returns (w: nat, n: nat, p: nat)
    requires ImplRun(ss, es) && i < j < |ss| && es[i] == CallStore(t, word, value)
    requires t in ss[j].pcs && ss[j].pcs[t].Out?
    requires Sleeps(ss[j], u) && ss[j].pcs[u].word == word
    ensures i < w < n < p < j && Writes(ss[w], es[w], t, word, value) && Notifies(ss[n], es[n], t)
    ensures es[p] == Go(u) && ValueOf(ss[p].words, word) == ss[j].pcs[u].was
    ensures (forall k :: w < k < p ==> !WritesWord(ss[k], es[k], word)) ==> ss[j].pcs[u].was == value
  {
    w, n := ReturnedStoreWokeEveryone(ss, es, i, j, t, word, value);
    p := ParkedSince(ss, es, n + 1, j, u);
    RunsLoseNoWake(ss, es, p);
    if forall k :: w < k < p ==> !WritesWord(ss[k], es[k], word) {
      WordStays(ss, es, w + 1, p, word);
    }
  }

  // ---- Calls return ------------------------------------------------------------------

  /** How many of its own steps a thread has left before its call returns, or it parks. */
  function StepsLeft(pc: Pc): nat {
    match pc
    case Out => 0
    case StoreLock(_, _) => 4
    case StoreHeld(_, _) => 3
    case StoreDone(_) => 2
    case StoreNotify(_) => 1
    case WaitLock(_, _) => 3
    case WaitHeld(_, _) => 2
    case WaitEqual(_, _) => 1
    case WaitDiffers => 1
    case Parked(_, _) => 0
    case Woken => 2
    case WokenHeld => 1
  }

  /** In a wait that may still park. */
  predicate MayPark(pc: Pc) {
    pc.WaitLock? || pc.WaitHeld? || pc.WaitEqual?
  }

  function Goes(t: Thread): ImplStep -> bool {
    (e: ImplStep) => e == Go(t)
  }

  /** Each step of its own brings a thread one nearer, and nobody else's takes it further off. */
  lemma ThreadGetsOn(s: Impl, e: ImplStep, s': Impl, t: Thread)
    requires Does(s, e, s') && t in s.pcs && StepsLeft(s.pcs[t]) > 0
    ensures t in s'.pcs && StepsLeft(s'.pcs[t]) <= StepsLeft(s.pcs[t]) - if e == Go(t) then 1 else 0
    ensures if e == Go(t) then s'.pcs[t] != s.pcs[t] else s'.pcs[t] == s.pcs[t]
    ensures StepsLeft(s'.pcs[t]) == 0 ==> s'.pcs[t].Out? || (s'.pcs[t].Parked? && MayPark(s.pcs[t]))
    ensures MayPark(s'.pcs[t]) ==> MayPark(s.pcs[t])
  {
  }

  lemma {:induction false} CallSoFar(ss: seq<Impl>, es: seq<ImplStep>, i: nat, l: nat, t: Thread) returns (j: nat)
    requires ImplRun(ss, es) && i <= l < |ss| && t in ss[i].pcs && StepsLeft(ss[i].pcs[t]) > 0
    ensures i <= j <= l && forall k :: i <= k <= j ==> t in ss[k].pcs && StepsLeft(ss[k].pcs[t]) > 0
    ensures forall k :: i <= k <= j ==> (MayPark(ss[k].pcs[t]) ==> MayPark(ss[i].pcs[t]))
    ensures j < l ==> es[j] == Go(t) && t in ss[j + 1].pcs && StepsLeft(ss[j + 1].pcs[t]) == 0
    ensures j == l ==> Count(es, i, l, Goes(t)) + StepsLeft(ss[l].pcs[t]) <= StepsLeft(ss[i].pcs[t])
    decreases l
  {
    j := i;
    if i < l {
      j := CallSoFar(ss, es, i, l - 1, t);
      if j == l - 1 {
        assert TakesStep(ss, es, j);
        ThreadGetsOn(ss[j], es[j], ss[l], t);
        j := if StepsLeft(ss[l].pcs[t]) > 0 then l else j;
      }
    }
  }

  /** In every run, a thread inside a store, or inside a wait that has been woken or turned away, is out after
      so many of its own steps: four for a store from its start, two for a wait from its wakeup. One that
      has just begun to wait is out or parked after three. */
  lemma CallReturns(ss: seq<Impl>, es: seq<ImplStep>, i: nat, l: nat, t: Thread) returns (j: nat)
    requires ImplRun(ss, es) && i <= l < |ss| && t in ss[i].pcs && 0 < StepsLeft(ss[i].pcs[t])
    requires StepsLeft(ss[i].pcs[t]) <= Count(es, i, l, Goes(t))
    ensures i <= j < l && es[j] == Go(t) && t in ss[j + 1].pcs
    ensures forall k :: i <= k <= j ==> t in ss[k].pcs && !ss[k].pcs[t].Out? && !ss[k].pcs[t].Parked?
    ensures ss[j + 1].pcs[t].Out? || (ss[j + 1].pcs[t].Parked? && MayPark(ss[i].pcs[t]))
  {
    j := CallSoFar(ss, es, i, l, t);
    assert TakesStep(ss, es, j);
    ThreadGetsOn(ss[j], es[j], ss[j + 1], t);
  }

  /** How far a wait that began at `i` has come at `j`: it is on its way to park or asleep, or something has
      ended it. */
  ghost predicate WaitEnded(ss: seq<Impl>, es: seq<ImplStep>, h: nat, t: Thread, word: Word, was: nat)
    requires h < |es| && h < |ss|
  {
    && t in ss[h].pcs
    && if es[h] == Go(t) then ss[h].pcs[t] == WaitHeld(word, was) && ValueOf(ss[h].words, word) != was
       else
         && ss[h].pcs[t] == Parked(word, was)
         && (es[h] == Unpark(t) || (es[h].Go? && es[h].t in ss[h].pcs && ss[h].pcs[es[h].t].StoreNotify?))
  }

  lemma {:induction false} WaitSoFar(
    ss: seq<Impl>, es: seq<ImplStep>, i: nat, j: nat, t: Thread, word: Word, was: nat)
    returns (h: nat)
    requires ImplRun(ss, es) && i < j < |ss| && es[i] == CallWait(t, word, was)
    requires forall k :: i < k < j ==> t in ss[k].pcs && !ss[k].pcs[t].Out?
    ensures i < h <= j && t in ss[j].pcs
    ensures h < j ==> WaitEnded(ss, es, h, t, word, was)
    ensures h < j ==> ss[j].pcs[t] in {WaitDiffers, Woken, WokenHeld, Out}
    ensures h == j ==>
              ss[j].pcs[t] in {WaitLock(word, was), WaitHeld(word, was), WaitEqual(word, was), Parked(word, was)}
    decreases j
  {
    assert TakesStep(ss, es, j - 1);
    if j == i + 1 {
      h := j;
    } else {
      h := WaitSoFar(ss, es, i, j - 1, t, word, was);
      if h == j - 1 && ss[j].pcs[t] != WaitDiffers && ss[j].pcs[t] != Woken {
        h := j;
      }
    }
  }

  /** A wait returns only for a reason: it found another value in the word, or was parked and then timed out
      or woke spuriously or was notified. */
  lemma WaitReturns(ss: seq<Impl>, es: seq<ImplStep>, i: nat, j: nat, t: Thread, word: Word, was: nat)
    returns (h: nat)
    requires ImplRun(ss, es) && i < j < |ss| && es[i] == CallWait(t, word, was)
    requires forall k :: i < k < j ==> t in ss[k].pcs && !ss[k].pcs[t].Out?
    requires t in ss[j].pcs && ss[j].pcs[t].Out?
    ensures i < h < j && WaitEnded(ss, es, h, t, word, was)
  {
    h := WaitSoFar(ss, es, i, j, t, word, was);
  }

  // ---- No deadlock -------------------------------------------------------------------

  /** Some step of thread `t` is possible. */
  ghost predicate CanStep(s: Impl, t: Thread) {
    exists s' :: Does(s, Go(t), s')
  }

  predicate NeedsLock(pc: Pc) {
    pc.StoreLock? || pc.WaitLock? || pc.Woken?
  }

  lemma StepExists(s: Impl, t: Thread) returns (s': Impl)
    requires t in s.pcs && !s.pcs[t].Out? && !s.pcs[t].Parked? && (!NeedsLock(s.pcs[t]) || LockFree(s))
    ensures Does(s, Go(t), s')
  {
    match s.pcs[t]
    case StoreLock(word, value) => s' := GoTo(s, t, StoreHeld(word, value));
    case StoreHeld(word, value) => s' := GoTo(s.(words := s.words[word := value]), t, StoreDone(word));
    case StoreDone(word) => s' := GoTo(s, t, StoreNotify(word));
    case StoreNotify(word) => s' := Impl(s.words, NotifyAll(s.pcs)[t := Out]);
    case WaitLock(word, was) => s' := GoTo(s, t, WaitHeld(word, was));
    case WaitHeld(word, was) =>
      s' := GoTo(s, t, if ValueOf(s.words, word) == was then WaitEqual(word, was) else WaitDiffers);
    case WaitEqual(word, was) => s' := GoTo(s, t, Parked(word, was));
    case WaitDiffers => s' := GoTo(s, t, Out);
    case Woken => s' := GoTo(s, t, WokenHeld);
    case WokenHeld => s' := GoTo(s, t, Out);
  }

  /** A thread inside a call and not parked can step, unless it needs the lock and another thread holds it,
      which then can step. A parked thread may wake, and one outside may call. */
  lemma NoDeadlock(s: Impl, t: Thread)
    requires t in s.pcs
    ensures !s.pcs[t].Out? && !s.pcs[t].Parked? ==>
              CanStep(s, t) || (NeedsLock(s.pcs[t]) && exists u :: u in s.pcs && Holding(s.pcs[u]) && CanStep(s, u))
    ensures s.pcs[t].Parked? ==> Does(s, Unpark(t), GoTo(s, t, Woken))
    ensures s.pcs[t].Out? ==> forall word, value ::
              && Does(s, CallStore(t, word, value), GoTo(s, t, StoreLock(word, value)))
              && Does(s, CallWait(t, word, value), GoTo(s, t, WaitLock(word, value)))
  {
    if !s.pcs[t].Out? && !s.pcs[t].Parked? && (!NeedsLock(s.pcs[t]) || LockFree(s)) {
      var s' := StepExists(s, t);
    } else if NeedsLock(s.pcs[t]) {
      var u :| u in s.pcs && Holding(s.pcs[u]);
      var s' := StepExists(s, u);
    }
  }

  /** How many of its own steps the holder of the lock has left before it gives the lock up. */
  function HoldsFor(pc: Pc): nat {
    match pc
    case StoreHeld(_, _) => 2
    case WaitHeld(_, _) => 2
    case StoreDone(_) => 1
    case WaitEqual(_, _) => 1
    case WaitDiffers => 1
    case WokenHeld => 1
    case _ => 0
  }

  /** Nobody holds the lock for more than two of its own steps. */
  lemma LockIsGivenUp(s: Impl, t: Thread, s': Impl)
    requires Does(s, Go(t), s') && Holding(s.pcs[t])
    ensures HoldsFor(s'.pcs[t]) == HoldsFor(s.pcs[t]) - 1 && (Holding(s'.pcs[t]) <==> HoldsFor(s'.pcs[t]) > 0)
  {
  }
}

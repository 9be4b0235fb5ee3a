/**
  mbtowc_with_lock as any number of threads run it: the one-time initialisation of lib/mbtowc-lock.c:65-91 with the
  guard of lib/windows-initguard.h, then the critical section of lib/mbtowc-lock.h:21-59. Each step is one access to
  shared memory, or one call into the system.
*/
module MbtowcLock {
  import opened Wrappers

  type Thread = nat

  // mbtowc: its hidden state when reset, and what a call does to that state and returns
  datatype Library<!H, R> = Library(reset: H, convert: (H, seq<bv8>) -> (H, R))

  // Where a thread is: what it will do next
  datatype Place =
    | Outside       // no call is running
    | CheckDone     // looks whether the lock is initialised
    | Increment     // counts itself in
    | Initialize    // has won, and initialises the lock
    | SetDone       // says that the lock is initialised
    | Decrement     // has not won, and takes its count back
    | Spin          // waits until the lock is initialised
    | Enter         // takes the lock
    | Reset         // resets the hidden state of mbtowc
    | Convert       // converts its bytes
    | Leave         // gives the lock back

  datatype Conversion<R> = Conversion(thread: Thread, bytes: seq<bv8>, result: R)

  datatype State<H, R> = State(
    place: map<Thread, Place>,
    bytes: map<Thread, seq<bv8>>,
    started: int,
    done: bool,
    initialized: nat,              // how often InitializeCriticalSection has run
    owner: Option<Thread>,
    hidden: H,
    winner: Option<Thread>,        // the last thread to have counted up to zero
    log: seq<Conversion<R>>)

  predicate Initial<H, R>(s: State<H, R>) {
    && s.place == map[] && s.bytes == map[]
    && s.started == -1 && !s.done && s.initialized == 0
    && s.owner == None && s.winner == None && s.log == []
  }

  function At<H, R>(s: State<H, R>, t: Thread): Place {
    if t in s.place then s.place[t] else Outside
  }

  function Go<H, R>(s: State<H, R>, t: Thread, place: Place): State<H, R> {
    s.(place := s.place[t := place])
  }

  // Thread t, new or back from a call, calls mbtowc_with_lock.
  predicate Called<H, R>(s: State<H, R>, t: Thread) {
    At(s, t) == Outside
  }

  function Call<H, R>(s: State<H, R>, t: Thread, bytes: seq<bv8>): State<H, R> {
    Go(s, t, CheckDone).(bytes := s.bytes[t := bytes])
  }

  // Thread t can go on; a thread that finds the lock taken cannot.
  predicate Enabled<H, R>(s: State<H, R>, t: Thread) {
    && At(s, t) != Outside
    && t in s.bytes
    && (At(s, t) == Enter ==> s.owner == None)
  }

  // The next step of a call that thread t is running
  function Step<H, R>(lib: Library<H, R>, s: State<H, R>, t: Thread): State<H, R>
    requires Enabled(s, t)
  {
    match At(s, t)
    case CheckDone => Go(s, t, if s.done then Enter else Increment)
    case Increment =>
      if s.started + 1 == 0 then Go(s, t, Initialize).(started := s.started + 1, winner := Some(t))
      else Go(s, t, Decrement).(started := s.started + 1)
    case Initialize => Go(s, t, SetDone).(initialized := s.initialized + 1, owner := None)
    case SetDone => Go(s, t, Enter).(done := true)
    case Decrement => Go(s, t, Spin).(started := s.started - 1)
    case Spin => if s.done then Go(s, t, Enter) else s
    case Enter => Go(s, t, Reset).(owner := Some(t))
    case Reset => Go(s, t, Convert).(hidden := lib.reset)
    case Convert =>
      var (hidden, result) := lib.convert(s.hidden, s.bytes[t]);
      Go(s, t, Leave).(hidden := hidden, log := s.log + [Conversion(t, s.bytes[t], result)])
    case Leave => Go(s, t, Outside).(owner := None)
    case Outside => s
  }

  ghost predicate Next<H, R>(lib: Library<H, R>, s: State<H, R>, s': State<H, R>) {
    || (exists t: Thread, bytes: seq<bv8> :: Called(s, t) && s' == Call(s, t, bytes))
    || (exists t: Thread :: Enabled(s, t) && s' == Step(lib, s, t))
  }

  ghost predicate IsRun<H, R>(lib: Library<H, R>, run: seq<State<H, R>>) {
    && run != [] && Initial(run[0])
    && forall i :: 0 < i < |run| ==> Next(lib, run[i - 1], run[i])
  }

  // ----- what every step keeps -----

  // The threads between their increment and their decrement
  function Counting<H, R>(s: State<H, R>): set<Thread> {
    set t | t in s.place && s.place[t] == Decrement
  }

  predicate Inside(place: Place) {
    place == Reset || place == Convert || place == Leave
  }

  // started is its initial value, one more for the thread that initialises the lock, and one more for each thread
  // between its increment and its decrement.
  predicate GuardCounts<H, R>(s: State<H, R>) {
    s.started == -1 + (if s.winner.Some? then 1 else 0) + |Counting(s)|
  }

  // The thread that won initialises the lock until done is set, and does not come back to count.
  predicate WinnerInitializes<H, R>(s: State<H, R>) {
    match s.winner
    case None => s.initialized == 0 && !s.done && |Counting(s)| == 0
    case Some(w) =>
      && w in s.place
      && s.initialized == (if At(s, w) == Initialize then 0 else 1)
      && At(s, w) !in {Increment, Decrement, Spin}
      && (s.done <==> At(s, w) !in {Initialize, SetDone})
  }

  predicate ThreadHolds<H, R>(s: State<H, R>, t: Thread) {
    && (At(s, t) in {Initialize, SetDone} ==> s.winner == Some(t))
    && (At(s, t) in {Decrement, Spin} ==> s.winner.Some?)
    && (At(s, t) == Enter || Inside(At(s, t)) ==> s.done)
  }

  predicate OwnerIsInside<H, R>(s: State<H, R>, t: Thread) {
    Inside(At(s, t)) <==> s.owner == Some(t)
  }

  ghost predicate GuardHolds<H, R>(s: State<H, R>) {
    && GuardCounts(s) && WinnerInitializes(s)
    && s.place.Keys == s.bytes.Keys
    && forall t :: ThreadHolds(s, t) && OwnerIsInside(s, t)
  }

  ghost predicate ConversionsHold<H, R>(lib: Library<H, R>, s: State<H, R>) {
    && (forall t :: At(s, t) == Convert ==> s.hidden == lib.reset)
    && (forall i :: 0 <= i < |s.log| ==> s.log[i].result == lib.convert(lib.reset, s.log[i].bytes).1)
  }

  lemma CountingAfterGo<H, R>(s: State<H, R>, t: Thread, place: Place)
    ensures |Counting(Go(s, t, place))| == |Counting(s)| - (if At(s, t) == Decrement then 1 else 0)
                                           + (if place == Decrement then 1 else 0)
  {
    var after := Counting(Go(s, t, place));
    if place == Decrement {
      assert after == Counting(s) + {t};
    } else {
      assert after == Counting(s) - {t};
    }
  }

  // Where thread t is after its step
  function Onward<H, R>(s: State<H, R>, t: Thread): Place {
    match At(s, t)
    case CheckDone => if s.done then Enter else Increment
    case Increment => if s.started + 1 == 0 then Initialize else Decrement
    case Initialize => SetDone
    case SetDone => Enter
    case Decrement => Spin
    case Spin => if s.done then Enter else Spin
    case Enter => Reset
    case Reset => Convert
    case Convert => Leave
    case Leave => Outside
    case Outside => Outside
  }

  lemma StepGoesOnward<H, R>(lib: Library<H, R>, s: State<H, R>, t: Thread)
    requires Enabled(s, t)
    ensures Step(lib, s, t).place == s.place[t := Onward(s, t)] && Step(lib, s, t).bytes == s.bytes
  {
  }

  lemma StepMovesOneThread<H, R>(lib: Library<H, R>, s: State<H, R>, t: Thread)
    requires Enabled(s, t)
    ensures var s' := Step(lib, s, t);
            && s'.place.Keys == s.place.Keys && s'.bytes == s.bytes && At(s', t) == Onward(s, t)
            && (forall u :: u != t ==> At(s', u) == At(s, u))
            && |Counting(s')| == |Counting(s)| - (if At(s, t) == Decrement then 1 else 0)
                                               + (if Onward(s, t) == Decrement then 1 else 0)
  {
    var s' := Step(lib, s, t);
    StepGoesOnward(lib, s, t);
    CountingAfterGo(s, t, Onward(s, t));
    assert Counting(s') == Counting(Go(s, t, Onward(s, t)));
  }

  lemma StepKeepsCount<H, R>(lib: Library<H, R>, s: State<H, R>, t: Thread)
    requires Enabled(s, t) && GuardCounts(s)
    ensures GuardCounts(Step(lib, s, t))
  {
    StepMovesOneThread(lib, s, t);
  }

  lemma StepKeepsWinner<H, R>(lib: Library<H, R>, s: State<H, R>, t: Thread)
    requires Enabled(s, t) && GuardCounts(s) && WinnerInitializes(s) && ThreadHolds(s, t)
    ensures WinnerInitializes(Step(lib, s, t))
  {
    var s' := Step(lib, s, t);
    StepMovesOneThread(lib, s, t);
    if s.winner.Some? && s.winner.value != t {
      assert At(s', s.winner.value) == At(s, s.winner.value);
    }
  }

  lemma StepKeepsThread<H, R>(lib: Library<H, R>, s: State<H, R>, t: Thread, u: Thread)
    requires Enabled(s, t) && GuardCounts(s) && WinnerInitializes(s) && ThreadHolds(s, t) && ThreadHolds(s, u)
    ensures ThreadHolds(Step(lib, s, t), u)
  {
    StepMovesOneThread(lib, s, t);
  }

  lemma StepKeepsOwner<H, R>(lib: Library<H, R>, s: State<H, R>, t: Thread, u: Thread)
    requires Enabled(s, t) && WinnerInitializes(s) && ThreadHolds(s, t) && ThreadHolds(s, u)
    requires OwnerIsInside(s, t) && OwnerIsInside(s, u)
    ensures OwnerIsInside(Step(lib, s, t), u)
  {
    StepMovesOneThread(lib, s, t);
    if At(s, t) == Initialize {
      assert !s.done;
    }
  }

  lemma StepKeepsGuard<H, R>(lib: Library<H, R>, s: State<H, R>, t: Thread)
    requires Enabled(s, t) && GuardHolds(s)
    ensures GuardHolds(Step(lib, s, t))
  {
    var s' := Step(lib, s, t);
    assert ThreadHolds(s, t) && OwnerIsInside(s, t);
    StepMovesOneThread(lib, s, t);
    StepKeepsCount(lib, s, t);
    StepKeepsWinner(lib, s, t);
    forall u ensures ThreadHolds(s', u) && OwnerIsInside(s', u) {
      assert ThreadHolds(s, u) && OwnerIsInside(s, u);
      StepKeepsThread(lib, s, t, u);
      StepKeepsOwner(lib, s, t, u);
    }
  }

  lemma CallKeepsGuard<H, R>(s: State<H, R>, t: Thread, bytes: seq<bv8>)
    requires Called(s, t) && GuardHolds(s)
    ensures GuardHolds(Call(s, t, bytes))
  {
    var s' := Call(s, t, bytes);
    CountingAfterGo(s, t, CheckDone);
    assert Counting(s') == Counting(Go(s, t, CheckDone));
    forall u ensures ThreadHolds(s', u) && OwnerIsInside(s', u) {
      assert ThreadHolds(s, u) && OwnerIsInside(s, u);
    }
  }

  lemma StepKeepsConversions<H, R>(lib: Library<H, R>, s: State<H, R>, t: Thread)
    requires Enabled(s, t) && GuardHolds(s) && ConversionsHold(lib, s)
    ensures ConversionsHold(lib, Step(lib, s, t))
  {
    var s' := Step(lib, s, t);
    StepMovesOneThread(lib, s, t);
    forall u | At(s', u) == Convert ensures s'.hidden == lib.reset {
      assert OwnerIsInside(s, t) && OwnerIsInside(s, u);
    }
  }

  lemma CallKeepsConversions<H, R>(lib: Library<H, R>, s: State<H, R>, t: Thread, bytes: seq<bv8>)
    requires Called(s, t) && ConversionsHold(lib, s)
    ensures ConversionsHold(lib, Call(s, t, bytes))
  {
    var s' := Call(s, t, bytes);
    forall u | At(s', u) == Convert ensures s'.hidden == lib.reset {
      assert At(s, u) == Convert;
    }
  }

  ghost predicate Invariant<H, R>(lib: Library<H, R>, s: State<H, R>) {
    GuardHolds(s) && ConversionsHold(lib, s)
  }

  lemma NextKeepsInvariant<H, R>(lib: Library<H, R>, s: State<H, R>, s': State<H, R>)
    requires Invariant(lib, s) && Next(lib, s, s')
    ensures Invariant(lib, s')
  {
    if t, bytes :| Called(s, t) && s' == Call(s, t, bytes) {
      CallKeepsGuard(s, t, bytes);
      CallKeepsConversions(lib, s, t, bytes);
    } else {
      var t :| Enabled(s, t) && s' == Step(lib, s, t);
      StepKeepsGuard(lib, s, t);
      StepKeepsConversions(lib, s, t);
    }
  }

  lemma {:induction false} RunKeepsInvariant<H, R>(lib: Library<H, R>, run: seq<State<H, R>>, i: nat)
    requires IsRun(lib, run) && i < |run|
    ensures Invariant(lib, run[i])
  {
    if i == 0 {
      assert Counting(run[0]) == {};
    } else {
      RunKeepsInvariant(lib, run, i - 1);
      NextKeepsInvariant(lib, run[i - 1], run[i]);
    }
  }

  // ----- what holds in every interleaving -----

  // The counter is its initial value, plus one if some thread won, plus one for each thread between its increment and
  // its decrement; it stays below the number of threads.
  lemma StartedCounts<H, R>(lib: Library<H, R>, run: seq<State<H, R>>, i: nat)
    requires IsRun(lib, run) && i < |run|
    ensures run[i].started == -1 + (if run[i].winner.Some? then 1 else 0) + |Counting(run[i])|
    ensures -1 <= run[i].started && (run[i].place != map[] ==> run[i].started < |run[i].place|)
  {
    var s := run[i];
    RunKeepsInvariant(lib, run, i);
    if s.winner.Some? {
      var w := s.winner.value;
      assert ThreadHolds(s, w);
      var counted := Counting(s) + {w};
      assert |counted| == |Counting(s)| + 1;
      SubsetIsSmaller(counted, s.place.Keys);
    }
  }

  lemma {:induction false} SubsetIsSmaller<T>(a: set<T>, b: set<T>)
    requires a <= b
    ensures |a| <= |b|
  {
    if a != {} {
      var x :| x in a;
      SubsetIsSmaller(a - {x}, b - {x});
    }
  }

  // The lock is initialised at most once, and has been when gl_get_mbtowc_lock returns.
  lemma InitializedOnce<H, R>(lib: Library<H, R>, run: seq<State<H, R>>, i: nat, t: Thread)
    requires IsRun(lib, run) && i < |run|
    ensures run[i].initialized <= 1
    ensures At(run[i], t) == Enter || Inside(At(run[i], t)) ==> run[i].initialized == 1 && run[i].done
  {
    RunKeepsInvariant(lib, run, i);
    assert ThreadHolds(run[i], t);
  }

  // No two threads are between the lock and the unlock.
  lemma MutualExclusion<H, R>(lib: Library<H, R>, run: seq<State<H, R>>, i: nat, t: Thread, u: Thread)
    requires IsRun(lib, run) && i < |run| && Inside(At(run[i], t)) && Inside(At(run[i], u))
    ensures t == u
  {
    RunKeepsInvariant(lib, run, i);
    assert OwnerIsInside(run[i], t) && OwnerIsInside(run[i], u);
  }

  // Two conversions of the same bytes have the same result, whatever threads, runs and earlier calls they come from.
  lemma ConversionsAreIndependent<H, R>(lib: Library<H, R>, run: seq<State<H, R>>, run': seq<State<H, R>>,
                                        i: nat, i': nat, k: nat, k': nat)
    requires IsRun(lib, run) && i < |run| && k < |run[i].log|
    requires IsRun(lib, run') && i' < |run'| && k' < |run'[i'].log|
    requires run[i].log[k].bytes == run'[i'].log[k'].bytes
    ensures run[i].log[k].result == run'[i'].log[k'].result == lib.convert(lib.reset, run[i].log[k].bytes).1
  {
    RunKeepsInvariant(lib, run, i);
    RunKeepsInvariant(lib, run', i');
  }

  // ----- what becomes of a call -----

  // The first conversion of thread t in the log from k on, or the end of the log
  function FirstOf<R>(log: seq<Conversion<R>>, k: nat, t: Thread): (f: nat)
    requires k <= |log|
    ensures k <= f <= |log| && (f < |log| ==> log[f].thread == t) && forall m :: k <= m < f ==> log[m].thread != t
    decreases |log| - k
  {
    if k == |log| || log[k].thread == t then k else FirstOf(log, k + 1, t)
  }

  lemma {:induction false} FirstOfLonger<R>(log: seq<Conversion<R>>, entry: Conversion<R>, k: nat, t: Thread)
    requires k <= |log|
    ensures FirstOf(log + [entry], k, t)
            == if FirstOf(log, k, t) < |log| || entry.thread == t then FirstOf(log, k, t) else |log| + 1
    decreases |log| - k
  {
    if k < |log| && log[k].thread != t {
      FirstOfLonger(log, entry, k + 1, t);
    }
  }

  predicate BeforeConversion(place: Place) {
    place != Outside && place != Leave
  }

  // In s, some time after the log was of length k and t was called with bytes: t has converted them, or will.
  ghost predicate Converts<H, R>(lib: Library<H, R>, s: State<H, R>, k: nat, t: Thread, bytes: seq<bv8>) {
    && k <= |s.log|
    && var first := FirstOf(s.log, k, t);
       if first < |s.log| then s.log[first] == Conversion(t, bytes, lib.convert(lib.reset, bytes).1)
       else BeforeConversion(At(s, t)) && t in s.bytes && s.bytes[t] == bytes
  }

  lemma StepConverts<H, R>(lib: Library<H, R>, s: State<H, R>, u: Thread, k: nat, t: Thread, bytes: seq<bv8>)
    requires Enabled(s, u) && ConversionsHold(lib, s) && Converts(lib, s, k, t, bytes)
    ensures Converts(lib, Step(lib, s, u), k, t, bytes)
  {
    StepMovesOneThread(lib, s, u);
    if At(s, u) == Convert {
      FirstOfLonger(s.log, Step(lib, s, u).log[|s.log|], k, t);
    }
  }

  lemma NextConverts<H, R>(lib: Library<H, R>, s: State<H, R>, s': State<H, R>, k: nat, t: Thread, bytes: seq<bv8>)
    requires Next(lib, s, s') && ConversionsHold(lib, s) && Converts(lib, s, k, t, bytes)
    ensures Converts(lib, s', k, t, bytes)
  {
    if u, more :| Called(s, u) && s' == Call(s, u, more) {
    } else {
      var u :| Enabled(s, u) && s' == Step(lib, s, u);
      StepConverts(lib, s, u, k, t, bytes);
    }
  }

  lemma {:induction false} CallConverts<H, R>(lib: Library<H, R>, run: seq<State<H, R>>, i: nat, j: nat, t: Thread,
        bytes: seq<bv8>)
    requires IsRun(lib, run) && i < j < |run| && Called(run[i], t) && run[i + 1] == Call(run[i], t, bytes)
    ensures Converts(lib, run[j], |run[i].log|, t, bytes)
    decreases j
  {
    if j > i + 1 {
      CallConverts(lib, run, i, j - 1, t, bytes);
      RunKeepsInvariant(lib, run, j - 1);
      NextConverts(lib, run[j - 1], run[j], |run[i].log|, t, bytes);
    }
  }

  // In every run: the first conversion that t makes after it was called with some bytes is that of these bytes, from
  // the reset state; and the call does not return without it.
  lemma CallersBytesAreConverted<H, R>(lib: Library<H, R>, run: seq<State<H, R>>, i: nat, j: nat, t: Thread,
        bytes: seq<bv8>)
    returns (k: nat)
    requires IsRun(lib, run) && i < j < |run| && Called(run[i], t) && run[i + 1] == Call(run[i], t, bytes)
    ensures |run[i].log| <= k <= |run[j].log|
    ensures forall m :: |run[i].log| <= m < k ==> run[j].log[m].thread != t
    ensures k < |run[j].log| ==> run[j].log[k] == Conversion(t, bytes, lib.convert(lib.reset, bytes).1)
    ensures At(run[j], t) == Outside ==> k < |run[j].log|
  {
    CallConverts(lib, run, i, j, t, bytes);
    k := FirstOf(run[j].log, |run[i].log|, t);
  }

  // ----- every call can finish -----

  // A bound on the steps a call still takes, not counting turns of the spin loop that find done clear
  function StepsLeft(place: Place): nat {
    match place
    case CheckDone => 10
    case Increment => 9
    case Initialize => 7
    case SetDone => 6
    case Decrement => 7
    case Spin => 6
    case Enter => 5
    case Reset => 4
    case Convert => 3
    case Leave => 2
    case Outside => 0
  }

  // While some call runs, some thread can take a step that brings its call closer to its end: a thread that spins waits
  // for one that is initialising the lock, and a thread that waits for the lock waits for one that is inside.
  lemma SomeThreadAdvances<H, R>(lib: Library<H, R>, s: State<H, R>, t: Thread) returns (u: Thread)
    requires GuardHolds(s) && At(s, t) != Outside
    ensures Enabled(s, u) && StepsLeft(At(Step(lib, s, u), u)) < StepsLeft(At(s, u))
  {
    assert ThreadHolds(s, t) && OwnerIsInside(s, t);
    if At(s, t) == Spin && !s.done {
      u := s.winner.value;
    } else if At(s, t) == Enter && s.owner.Some? {
      u := s.owner.value;
      assert OwnerIsInside(s, u);
    } else {
      u := t;
    }
    StepMovesOneThread(lib, s, u);
  }

  ghost function TotalLeft(places: map<Thread, Place>): nat {
    if places == map[] then 0
    else
      var t :| t in places;
      StepsLeft(places[t]) + TotalLeft(places - {t})
  }

  lemma {:induction false} TotalWithout(places: map<Thread, Place>, t: Thread)
    requires t in places
    ensures TotalLeft(places) == StepsLeft(places[t]) + TotalLeft(places - {t})
    decreases |places|
  {
    var first: Thread :| first in places && TotalLeft(places) == StepsLeft(places[first]) + TotalLeft(places - {first});
    if first != t {
      TotalWithout(places - {first}, t);
      assert places - {first} - {t} == places - {t} - {first};
      TotalWithout(places - {t}, first);
    }
  }

  lemma TotalAfterUpdate(places: map<Thread, Place>, t: Thread, place: Place)
    requires t in places
    ensures TotalLeft(places[t := place]) == TotalLeft(places) - StepsLeft(places[t]) + StepsLeft(place)
  {
    TotalWithout(places, t);
    TotalWithout(places[t := place], t);
    assert places[t := place] - {t} == places - {t};
  }

  lemma SomeStepBringsCloser<H, R>(lib: Library<H, R>, s: State<H, R>, t: Thread) returns (s': State<H, R>)
    requires GuardHolds(s) && At(s, t) != Outside
    ensures Next(lib, s, s') && TotalLeft(s'.place) < TotalLeft(s.place)
  {
    var u := SomeThreadAdvances(lib, s, t);
    s' := Step(lib, s, u);
    StepGoesOnward(lib, s, u);
    TotalAfterUpdate(s.place, u, Onward(s, u));
  }

  lemma RunGoesOn<H, R>(lib: Library<H, R>, run: seq<State<H, R>>, s': State<H, R>)
    requires IsRun(lib, run) && Next(lib, run[|run| - 1], s')
    ensures IsRun(lib, run + [s'])
  {
  }

  predicate AllReturned<H, R>(s: State<H, R>) {
    forall t :: t in s.place ==> s.place[t] == Outside
  }

  // From every state of every run, the calls that are under way can all return.
  lemma {:induction false} CallsCanReturn<H, R>(lib: Library<H, R>, run: seq<State<H,
        R>>) returns (longer: seq<State<H, R>>)
    requires IsRun(lib, run)
    ensures IsRun(lib, longer) && run <= longer
    ensures AllReturned(longer[|longer| - 1])
    decreases TotalLeft(run[|run| - 1].place)
  {
    var s := run[|run| - 1];
    if t :| t in s.place && s.place[t] != Outside {
      RunKeepsInvariant(lib, run, |run| - 1);
      var s' := SomeStepBringsCloser(lib, s, t);
      RunGoesOn(lib, run, s');
      longer := CallsCanReturn(lib, run + [s']);
    } else {
      longer := run;
    }
  }
}

/** ethercat/nuttx/linux/wait.h: wait queues on a counting semaphore, as the
    interleaved steps of any number of waiters and of callers of wake_up_all.
    A negative semaphore value counts the blocked waiters. */
module WaitQueue {

  /** A caller of wait_event: about to test the condition, between a failed
      test and nxsem_wait, blocked inside nxsem_wait, or returned. */
  datatype Waiter = Testing | Entering | Blocked | Done

  /** A caller of wake_up_all: about to read the value, about to post, or returned. */
  datatype Waker = Reading | Posting | Idle

  /** The waiters in interruptible call wait_event_interruptible, the others wait_event. */
  datatype State = State(cond: bool, value: int, waiters: seq<Waiter>, wakers: seq<Waker>, posts: nat,
                         interruptible: set<nat>)

  datatype Step =
    | Test(i: nat)            // while (!(c))
    | Enter(i: nat)           // nxsem_wait: take a unit, or block
    | Interrupt(i: nat)       // a signal: nxsem_wait returns early, giving its unit back
    | Retry(i: nat)           // a signal: nxsem_wait_uninterruptible waits again, without a test
    | Read(j: nat)            // nxsem_get_value, and the loop test
    | Post(j: nat, i: nat)    // nxsem_post, releasing waiter i if any is blocked
    | WakeOne(i: nat)         // wake_up_interruptible, by anybody
    | SetCond(b: bool)        // the condition changes

  predicate Releases(s: State, i: nat) {
    s.value < 0 ==> i < |s.waiters| && s.waiters[i] == Blocked
  }

  predicate Enabled(s: State, t: Step) {
    match t
    case Test(i) => i < |s.waiters| && s.waiters[i] == Testing
    case Enter(i) => i < |s.waiters| && s.waiters[i] == Entering
    case Interrupt(i) => i < |s.waiters| && s.waiters[i] == Blocked && i in s.interruptible
    case Retry(i) => i < |s.waiters| && s.waiters[i] == Blocked && i !in s.interruptible
    case Read(j) => j < |s.wakers| && s.wakers[j] == Reading
    case Post(j, i) => j < |s.wakers| && s.wakers[j] == Posting && Releases(s, i)
    case WakeOne(i) => Releases(s, i)
    case SetCond(_) => true
  }

  /** One nxsem_post. */
  function Posted(s: State, i: nat): State
    requires Releases(s, i)
  {
    s.(value := s.value + 1, waiters := if s.value < 0 then s.waiters[i := Testing] else s.waiters)
  }

  function Do(s: State, t: Step): State
    requires Enabled(s, t)
  {
    match t
    case Test(i) => s.(waiters := s.waiters[i := if s.cond then Done else Entering])
    case Enter(i) => s.(value := s.value - 1, waiters := s.waiters[i := if s.value > 0 then Testing else Blocked])
    case Interrupt(i) => s.(value := s.value + 1, waiters := s.waiters[i := Testing])
    case Retry(i) => s.(value := s.value + 1, waiters := s.waiters[i := Entering])
    case Read(j) => s.(wakers := s.wakers[j := if s.value <= 0 then Posting else Idle])
    case Post(j, i) => Posted(s, i).(wakers := s.wakers[j := Reading], posts := s.posts + 1)
    case WakeOne(i) => Posted(s, i)
    case SetCond(b) => s.(cond := b)
  }

  predicate IsRun(s: State, ts: seq<Step>)
    decreases ts
  {
    ts == [] || (Enabled(s, ts[0]) && IsRun(Do(s, ts[0]), ts[1..]))
  }

  function After(s: State, ts: seq<Step>): State
    requires IsRun(s, ts)
    decreases ts
  {
    if ts == [] then s else After(Do(s, ts[0]), ts[1..])
  }

  // ----- counting threads -----

  function Count<T(==)>(ws: seq<T>, w: T): nat {
    if ws == [] then 0 else Count(ws[..|ws| - 1], w) + if ws[|ws| - 1] == w then 1 else 0
  }

  lemma {:induction false} CountUpdate<T>(ws: seq<T>, i: nat, x: T, w: T)
    requires i < |ws|
    ensures Count(ws[i := x], w) + (if ws[i] == w then 1 else 0) == Count(ws, w) + (if x == w then 1 else 0)
  {
    var n := |ws| - 1;
    if i == n {
      assert ws[i := x][..n] == ws[..n];
    } else {
      CountUpdate(ws[..n], i, x, w);
      assert ws[i := x][..n] == ws[..n][i := x];
    }
  }

  lemma {:induction false} CountIn<T>(ws: seq<T>, w: T)
    ensures Count(ws, w) > 0 <==> w in ws
    ensures Count(ws, w) <= |ws|
  {
    if ws != [] {
      CountIn(ws[..|ws| - 1], w);
      assert ws == ws[..|ws| - 1] + [ws[|ws| - 1]];
    }
  }

  // ----- the semaphore invariant -----

  /** The value is negative exactly by the number of blocked waiters. */
  predicate Inv(s: State) {
    Count(s.waiters, Blocked) == if s.value < 0 then -s.value else 0
  }

  function Initial(waiters: nat, wakers: nat, cond: bool, interruptible: set<nat>): State {
    State(cond, 0, seq(waiters, _ => Testing), seq(wakers, _ => Reading), 0, interruptible)
  }

  lemma InitInv(waiters: nat, wakers: nat, cond: bool, interruptible: set<nat>)
    ensures Inv(Initial(waiters, wakers, cond, interruptible))
  {
    CountIn(Initial(waiters, wakers, cond, interruptible).waiters, Blocked);
  }

  lemma StepInv(s: State, t: Step)
    requires Inv(s) && Enabled(s, t)
    ensures Inv(Do(s, t))
  {
    Counts(s, t, Blocked);
    CountIn(s.waiters, Blocked);
  }

  /** How a step changes the number of waiters in one place. */
  lemma Counts(s: State, t: Step, w: Waiter)
    requires Enabled(s, t)
    ensures var s' := Do(s, t);
      if t.Test? then
        Count(s'.waiters, w) + (if w == Testing then 1 else 0)
          == Count(s.waiters, w) + (if w == (if s.cond then Done else Entering) then 1 else 0)
      else if t.Enter? then
        Count(s'.waiters, w) + (if w == Entering then 1 else 0)
          == Count(s.waiters, w) + (if w == (if s.value > 0 then Testing else Blocked) then 1 else 0)
      else if t.Interrupt? || ((t.Post? || t.WakeOne?) && s.value < 0) then
        Count(s'.waiters, w) + (if w == Blocked then 1 else 0)
          == Count(s.waiters, w) + (if w == Testing then 1 else 0)
      else if t.Retry? then
        Count(s'.waiters, w) + (if w == Blocked then 1 else 0)
          == Count(s.waiters, w) + (if w == Entering then 1 else 0)
      else s'.waiters == s.waiters
  {
    match t
    case Test(i) => CountUpdate(s.waiters, i, if s.cond then Done else Entering, w);
    case Enter(i) => CountUpdate(s.waiters, i, if s.value > 0 then Testing else Blocked, w);
    case Interrupt(i) => CountUpdate(s.waiters, i, Testing, w);
    case Retry(i) => CountUpdate(s.waiters, i, Entering, w);
    case Post(j, i) => if s.value < 0 { CountUpdate(s.waiters, i, Testing, w); }
    case WakeOne(i) => if s.value < 0 { CountUpdate(s.waiters, i, Testing, w); }
    case Read(j) =>
    case SetCond(_) =>
  }

  /** Over every run, whatever the condition does: nobody is blocked while units are free. */
  lemma {:induction false} RunInv(s: State, ts: seq<Step>)
    requires Inv(s) && IsRun(s, ts)
    ensures Inv(After(s, ts))
    decreases ts
  {
    if ts != [] {
      StepInv(s, ts[0]);
      RunInv(Do(s, ts[0]), ts[1..]);
    }
  }

  // ----- units over whole runs -----

  /** What a run adds to the value: a unit for every post and wake-up made and every wait
      cut short or started again by a signal, less one for every wait entered. */
  function Balance(ts: seq<Step>): int {
    if ts == [] then 0
    else Balance(ts[1..]) + match ts[0]
      case Post(_, _) => 1
      case WakeOne(_) => 1
      case Interrupt(_) => 1
      case Retry(_) => 1
      case Enter(_) => -1
      case _ => 0
  }

  /** Over every run no unit is lost and none appears, whoever is blocked or not; so the
      value at the end, and with it the number of blocked waiters, is known. */
  lemma {:induction false} UnitsAreConserved(s: State, ts: seq<Step>)
    requires Inv(s) && IsRun(s, ts)
    ensures After(s, ts).value == s.value + Balance(ts)
    ensures Count(After(s, ts).waiters, Blocked) == if s.value + Balance(ts) < 0 then -(s.value + Balance(ts)) else 0
    decreases ts
  {
    if ts != [] {
      StepInv(s, ts[0]);
      UnitsAreConserved(Do(s, ts[0]), ts[1..]);
    }
  }

  /** A waiter returns only from a test that finds the condition true. */
  lemma {:induction false} ReturnsOnTrueCondition(s: State, ts: seq<Step>, i: nat) returns (k: nat)
    requires IsRun(s, ts) && i < |s.waiters| == |After(s, ts).waiters|
    requires s.waiters[i] != Done && After(s, ts).waiters[i] == Done
    ensures k < |ts| && ts[k] == Test(i) && IsRun(s, ts[..k]) && After(s, ts[..k]).cond
    decreases ts
  {
    var next := Do(s, ts[0]);
    if next.waiters[i] == Done {
      k := 0;
      assert ts[..0] == [];
    } else {
      var j := ReturnsOnTrueCondition(next, ts[1..], i);
      k := j + 1;
      assert ts[..k][1..] == ts[1..][..j];
    }
  }

  // ----- once the condition is permanently true -----

  /** No more changes of the condition, and no wake-ups but those of wake_up_all. */
  predicate Quiet(t: Step) {
    !t.SetCond? && !t.WakeOne?
  }

  predicate QuietRun(s: State, ts: seq<Step>) {
    s.cond && IsRun(s, ts) && forall k :: 0 <= k < |ts| ==> Quiet(ts[k])
  }

  function Posters(s: State): nat {
    Count(s.wakers, Posting)
  }

  function Active(s: State): nat {
    Count(s.wakers, Posting) + Count(s.wakers, Reading)
  }

  /** c bounds the value even after every decided post has been made. */
  predicate Bounded(s: State, c: int) {
    |s.wakers| <= c && s.value + Posters(s) <= c
  }

  /** The decisions to post that can still be taken. */
  function Budget(s: State, c: int): int {
    c - s.value - Posters(s) + Count(s.waiters, Entering)
  }

  /** Strictly decreasing over quiet steps, except that a retry adds one. */
  function Remaining(s: State, c: int): int {
    2 * Budget(s, c) + Posters(s) + Active(s)
      + 3 * Count(s.waiters, Entering) + 2 * Count(s.waiters, Blocked) + Count(s.waiters, Testing)
  }

  lemma WakerCounts(s: State, t: Step, w: Waker)
    requires Enabled(s, t)
    ensures var s' := Do(s, t);
      if t.Read? then
        Count(s'.wakers, w) + (if w == Reading then 1 else 0)
          == Count(s.wakers, w) + (if w == (if s.value <= 0 then Posting else Idle) then 1 else 0)
      else if t.Post? then
        Count(s'.wakers, w) + (if w == Posting then 1 else 0) == Count(s.wakers, w) + (if w == Reading then 1 else 0)
      else s'.wakers == s.wakers
    ensures |Do(s, t).wakers| == |s.wakers|
  {
    match t
    case Read(j) => CountUpdate(s.wakers, j, if s.value <= 0 then Posting else Idle, w);
    case Post(j, i) => CountUpdate(s.wakers, j, Reading, w);
    case _ =>
  }

  lemma PostersAndReaders(ws: seq<Waker>)
    ensures Count(ws, Posting) + Count(ws, Reading) <= |ws|
  {
  }

  lemma QuietStep(s: State, t: Step, c: int)
    requires Inv(s) && s.cond && Enabled(s, t) && Quiet(t) && Bounded(s, c)
    ensures var s' := Do(s, t);
      && Inv(s') && s'.cond && Bounded(s', c)
      && s'.posts + Posters(s') + Budget(s', c) <= s.posts + Posters(s) + Budget(s, c)
      && Remaining(s', c) <= Remaining(s, c) + if t.Retry? then 1 else -1
  {
    hide Count;
    StepInv(s, t);
    WakerCounts(s, t, Posting);
    WakerCounts(s, t, Reading);
    Counts(s, t, Entering);
    Counts(s, t, Blocked);
    Counts(s, t, Testing);
    PostersAndReaders(Do(s, t).wakers);
    PostersAndReaders(s.wakers);
    CountIn(s.wakers, Posting);
    CountIn(s.waiters, Blocked);
    if t.Read? { CountIn(s.wakers, Reading); }
  }

  lemma RemainingNonNegative(s: State, c: int)
    requires Bounded(s, c)
    ensures Budget(s, c) >= 0 && Remaining(s, c) >= 0
  {
  }

  /** How often a signal made a waiter wait again. */
  function Retries(ts: seq<Step>): nat {
    if ts == [] then 0 else (if ts[0].Retry? then 1 else 0) + Retries(ts[1..])
  }

  lemma {:induction false} QuietRunShrinks(s: State, ts: seq<Step>, c: int)
    requires Inv(s) && Bounded(s, c) && QuietRun(s, ts)
    ensures var s' := After(s, ts);
      && Inv(s') && s'.cond && Bounded(s', c)
      && s'.posts + Posters(s') + Budget(s', c) <= s.posts + Posters(s) + Budget(s, c)
      && Remaining(s', c) + |ts| <= Remaining(s, c) + 2 * Retries(ts)
    decreases ts
  {
    if ts != [] {
      QuietRest(s, ts);
      QuietStep(s, ts[0], c);
      QuietRunShrinks(Do(s, ts[0]), ts[1..], c);
    }
  }

  // ----- how many posts wake_up_all makes -----

  /** What the value will be once every waiter between test and wait has entered. */
  function Expected(s: State): int {
    s.value - Count(s.waiters, Entering)
  }

  /** The most posts that can still be made: enough for every active wake_up_all to
      have posted beyond an expected value of 0, or else those already decided on. */
  function MostPosts(s: State): (n: int)
    ensures n >= 0
  {
    if Active(s) > 0 && Expected(s) <= 0 then Active(s) - Expected(s) else Posters(s)
  }

  lemma MostPostsStep(s: State, t: Step)
    requires Inv(s) && s.cond && Enabled(s, t) && Quiet(t)
    ensures Inv(Do(s, t)) && Do(s, t).posts + MostPosts(Do(s, t)) <= s.posts + MostPosts(s)
  {
    hide Count;
    StepInv(s, t);
    WakerCounts(s, t, Posting);
    WakerCounts(s, t, Reading);
    Counts(s, t, Entering);
    CountIn(s.wakers, Posting);
    CountIn(s.wakers, Reading);
  }

  lemma {:induction false} NoMorePostsThan(s: State, ts: seq<Step>)
    requires Inv(s) && QuietRun(s, ts)
    ensures After(s, ts).posts + MostPosts(After(s, ts)) <= s.posts + MostPosts(s)
    decreases ts
  {
    hide MostPosts;
    if ts != [] {
      QuietRest(s, ts);
      MostPostsStep(s, ts[0]);
      NoMorePostsThan(Do(s, ts[0]), ts[1..]);
    }
  }

  lemma QuietRest(s: State, ts: seq<Step>)
    requires QuietRun(s, ts) && ts != []
    ensures Quiet(ts[0]) && Do(s, ts[0]).cond && QuietRun(Do(s, ts[0]), ts[1..])
  {
    forall k | 0 <= k < |ts[1..]| ensures Quiet(ts[1..][k]) { assert ts[1..][k] == ts[k + 1]; }
  }

  /** Once the condition is permanently true, the concurrent wake_up_all calls make
      together at most (calls - value + waiters between test and wait) posts, and
      none if that is negative; for a single call, 1 - value + waiters between. */
  lemma PostsAreBounded(s: State, ts: seq<Step>)
    requires Inv(s) && QuietRun(s, ts)
    ensures After(s, ts).posts - s.posts <= MostPosts(s)
    ensures var bound := |s.wakers| - s.value + Count(s.waiters, Entering);
      Posters(s) == 0 ==> After(s, ts).posts - s.posts <= if bound > 0 then bound else 0
  {
    NoMorePostsThan(s, ts);
    PostersAndReaders(s.wakers);
  }

  /** The bound is the best possible: some run makes exactly so many posts. */
  lemma {:induction false} MostPostsAreMade(s: State) returns (ts: seq<Step>)
    requires Inv(s) && s.cond
    ensures QuietRun(s, ts) && After(s, ts).posts == s.posts + MostPosts(s)
    decreases MostPosts(s), Count(s.waiters, Entering), Count(s.wakers, Reading)
  {
    CountIn(s.waiters, Entering);
    CountIn(s.wakers, Reading);
    CountIn(s.wakers, Posting);
    if MostPosts(s) == 0 {
      ts := [];
    } else if Count(s.waiters, Entering) > 0 {
      var i :| 0 <= i < |s.waiters| && s.waiters[i] == Entering;
      ts := MostPostsFrom(s, Enter(i));
    } else if s.value <= 0 && Count(s.wakers, Reading) > 0 {
      var j :| 0 <= j < |s.wakers| && s.wakers[j] == Reading;
      ts := MostPostsFrom(s, Read(j));
    } else {
      var j :| 0 <= j < |s.wakers| && s.wakers[j] == Posting;
      var i := SomeoneToRelease(s);
      ts := MostPostsFrom(s, Post(j, i));
    }
  }

  lemma {:induction false} MostPostsFrom(s: State, t: Step) returns (ts: seq<Step>)
    requires Inv(s) && s.cond && Enabled(s, t) && MostPosts(s) > 0
    requires t.Enter?
      || (Count(s.waiters, Entering) == 0 && t.Read? && s.value <= 0)
      || (Count(s.waiters, Entering) == 0 && t.Post? && (s.value > 0 || Count(s.wakers, Reading) == 0))
    ensures QuietRun(s, ts) && After(s, ts).posts == s.posts + MostPosts(s)
    decreases MostPosts(s), Count(s.waiters, Entering), Count(s.wakers, Reading), 0
  {
    MostPostsKept(s, t);
    var rest := MostPostsAreMade(Do(s, t));
    ts := [t] + rest;
    assert ts[1..] == rest;
  }

  lemma MostPostsKept(s: State, t: Step)
    requires Inv(s) && s.cond && Enabled(s, t) && MostPosts(s) > 0
    requires t.Enter?
      || (Count(s.waiters, Entering) == 0 && t.Read? && s.value <= 0)
      || (Count(s.waiters, Entering) == 0 && t.Post? && (s.value > 0 || Count(s.wakers, Reading) == 0))
    ensures var s' := Do(s, t);
      && Inv(s') && s'.cond && s'.posts + MostPosts(s') == s.posts + MostPosts(s)
      && (t.Post? ==> s'.posts == s.posts + 1)
      && (!t.Post? ==> s'.posts == s.posts)
      && (t.Enter? ==> Count(s'.waiters, Entering) < Count(s.waiters, Entering))
      && (t.Read? ==> Count(s'.waiters, Entering) == 0 && Count(s'.wakers, Reading) < Count(s.wakers, Reading))
  {
    hide Count;
    StepInv(s, t);
    WakerCounts(s, t, Posting);
    WakerCounts(s, t, Reading);
    Counts(s, t, Entering);
    CountIn(s.wakers, Posting);
    CountIn(s.wakers, Reading);
  }

  // ----- termination -----

  /** The least bound at the start of a run. */
  function StartBound(s: State): int {
    if s.value + Posters(s) > |s.wakers| then s.value + Posters(s) else |s.wakers|
  }

  /** Every quiet run is finite but for retries: its length is bounded by a number known
      at its start and twice the signals that reached waiters in wait_event. */
  lemma QuietRunsTerminate(s: State, ts: seq<Step>)
    requires Inv(s) && QuietRun(s, ts)
    ensures |ts| <= Remaining(s, StartBound(s)) + 2 * Retries(ts)
  {
    PostersAndReaders(s.wakers);
    QuietRunShrinks(s, ts, StartBound(s));
    RemainingNonNegative(After(s, ts), StartBound(s));
  }

  /** The signals have to be counted: repeated for a blocked waiter in wait_event, they
      keep it busy for as long as they come, though its condition holds. */
  lemma {:induction false} RetriesCanGoOn(s: State, i: nat, n: nat) returns (ts: seq<Step>)
    requires Inv(s) && s.cond && Enabled(s, Retry(i))
    ensures QuietRun(s, ts) && |ts| == 2 * n && Retries(ts) == n && After(s, ts) == s
  {
    ts := [];
    if n > 0 {
      CountIn(s.waiters, Blocked);
      var m := Do(s, Retry(i));
      assert Do(m, Enter(i)) == s;
      var rest := RetriesCanGoOn(s, i, n - 1);
      ts := FirstStep(m, Enter(i), rest);
      ts := FirstStep(s, Retry(i), ts);
    }
  }

  lemma FirstStep(s: State, t: Step, rest: seq<Step>) returns (ts: seq<Step>)
    requires s.cond && Enabled(s, t) && Quiet(t) && QuietRun(Do(s, t), rest)
    ensures QuietRun(s, ts) && After(s, ts) == After(Do(s, t), rest) && |ts| == |rest| + 1
    ensures Retries(ts) == Retries(rest) + if t.Retry? then 1 else 0
  {
    ts := [t] + rest;
    assert ts[1..] == rest;
  }

  /** Nothing but a signal can make anything happen any more. */
  ghost predicate Settled(s: State) {
    forall t :: Enabled(s, t) && Quiet(t) ==> t.Interrupt? || t.Retry?
  }

  /** A settled system has returned from every wake_up_all, and every waiter has returned or is blocked. */
  lemma SettledMeansDoneOrBlocked(s: State)
    requires Inv(s) && Settled(s)
    ensures forall j :: 0 <= j < |s.wakers| ==> s.wakers[j] == Idle
    ensures forall i :: 0 <= i < |s.waiters| ==> s.waiters[i] == Done || s.waiters[i] == Blocked
  {
    forall j | 0 <= j < |s.wakers| ensures s.wakers[j] == Idle {
      assert !Enabled(s, Read(j));
      if s.wakers[j] == Posting {
        var i := SomeoneToRelease(s);
        assert Enabled(s, Post(j, i));
      }
    }
    forall i | 0 <= i < |s.waiters| ensures s.waiters[i] == Done || s.waiters[i] == Blocked {
      assert !Enabled(s, Test(i)) && !Enabled(s, Enter(i));
    }
  }

  lemma SomeoneToRelease(s: State) returns (i: nat)
    requires Inv(s)
    ensures Releases(s, i)
  {
    i := 0;
    if s.value < 0 {
      CountIn(s.waiters, Blocked);
      i :| 0 <= i < |s.waiters| && s.waiters[i] == Blocked;
    }
  }

  // ----- when nobody is left behind -----

  /** There is a unit for every waiter between its test and its wait. */
  predicate Provided(s: State) {
    s.cond && s.value >= Count(s.waiters, Entering)
  }

  lemma {:induction false} ProvidedStays(s: State, ts: seq<Step>)
    requires Inv(s) && Provided(s) && QuietRun(s, ts)
    ensures Provided(After(s, ts)) && Count(After(s, ts).waiters, Blocked) == 0
    decreases ts
  {
    if ts != [] {
      var t := ts[0];
      QuietRest(s, ts);
      StepInv(s, t);
      Counts(s, t, Entering);
      CountIn(s.waiters, Blocked);
      CountIn(s.waiters, Entering);
      ProvidedStays(Do(s, t), ts[1..]);
    }
  }

  /** The moment wake_up_all returns: it has just read a positive value. */
  lemma WakeUpAllReturns(s: State, j: nat)
    requires Inv(s) && s.cond && Enabled(s, Read(j)) && Do(s, Read(j)).wakers[j] == Idle
    requires Count(s.waiters, Entering) <= 1
    ensures Provided(Do(s, Read(j)))
  {
  }

  /** If wake_up_all returns with at most one waiter between test and wait, then
      from there on nobody is ever blocked, and once the system settles every
      waiter has returned. */
  lemma NobodyLeftBlocked(s: State, j: nat, ts: seq<Step>)
    requires Inv(s) && s.cond && Enabled(s, Read(j)) && Do(s, Read(j)).wakers[j] == Idle
    requires Count(s.waiters, Entering) <= 1 && QuietRun(Do(s, Read(j)), ts)
    ensures var end := After(Do(s, Read(j)), ts);
      && Blocked !in end.waiters
      && (Settled(end) ==> forall i :: 0 <= i < |end.waiters| ==> end.waiters[i] == Done)
  {
    var s' := Do(s, Read(j));
    StepInv(s, Read(j));
    WakeUpAllReturns(s, j);
    ProvidedStays(s', ts);
    var end := After(s', ts);
    CountIn(end.waiters, Blocked);
    RunInv(s', ts);
    if Settled(end) {
      SettledMeansDoneOrBlocked(end);
    }
  }

  /** With more entering waiters than units, letting them all enter blocks one. */
  lemma {:induction false} EnterUntilBlocked(s: State) returns (ts: seq<Step>)
    requires Inv(s) && s.cond && s.value < Count(s.waiters, Entering)
    ensures QuietRun(s, ts) && Retries(ts) == 0
    ensures Blocked in After(s, ts).waiters && After(s, ts).wakers == s.wakers
    decreases if s.value < 0 then 0 else s.value + 1
  {
    CountIn(s.waiters, Blocked);
    CountIn(s.waiters, Entering);
    if s.value < 0 {
      ts := [];
    } else {
      var i :| 0 <= i < |s.waiters| && s.waiters[i] == Entering;
      var t := Enter(i);
      StepInv(s, t);
      Counts(s, t, Entering);
      var rest := EnterUntilBlocked(Do(s, t));
      ts := FirstStep(s, t, rest);
    }
  }

  /** Once every wake_up_all has returned, some continuation leaves a waiter
      blocked exactly when there are more entering waiters than units. */
  lemma LeftBehindIff(s: State)
    requires Inv(s) && s.cond && forall j :: 0 <= j < |s.wakers| ==> s.wakers[j] == Idle
    ensures (exists ts :: QuietRun(s, ts) && Blocked in After(s, ts).waiters)
       <==> s.value < Count(s.waiters, Entering)
  {
    if s.value < Count(s.waiters, Entering) {
      var ts := EnterUntilBlocked(s);
    } else {
      forall ts | QuietRun(s, ts) ensures Blocked !in After(s, ts).waiters {
        ProvidedStays(s, ts);
        CountIn(After(s, ts).waiters, Blocked);
      }
    }
  }

  // ----- wake_up_interruptible -----

  /** A wake_up_interruptible is never lost on the only waiter between its test and the
      end of its wait: from there on nobody is blocked. */
  lemma WakeUpReachesTheOnlyWaiter(s: State, i: nat, ts: seq<Step>)
    requires Inv(s) && s.cond && Enabled(s, WakeOne(i)) && QuietRun(Do(s, WakeOne(i)), ts)
    requires Count(s.waiters, Entering) + Count(s.waiters, Blocked) <= 1
    ensures Blocked !in After(Do(s, WakeOne(i)), ts).waiters
  {
    hide Count;
    var t := WakeOne(i);
    StepInv(s, t);
    Counts(s, t, Entering);
    CountIn(s.waiters, Blocked);
    CountIn(s.waiters, Entering);
    ProvidedStays(Do(s, t), ts);
    CountIn(After(Do(s, t), ts).waiters, Blocked);
  }

  /** Exactly when one is not enough, with no wake_up_all under way. */
  lemma WakeUpLeavesBehindIff(s: State, i: nat)
    requires Inv(s) && s.cond && forall j :: 0 <= j < |s.wakers| ==> s.wakers[j] == Idle
    requires Enabled(s, WakeOne(i))
    ensures (exists ts :: QuietRun(Do(s, WakeOne(i)), ts) && Blocked in After(Do(s, WakeOne(i)), ts).waiters)
       <==> s.value + 1 < Count(s.waiters, Entering)
  {
    hide Count;
    var t := WakeOne(i);
    StepInv(s, t);
    Counts(s, t, Entering);
    LeftBehindIff(Do(s, t));
  }

  // ----- the same at the call -----

  function AtLeastOne(n: int): int {
    if n > 1 then n else 1
  }

  /** What the value will be when the wake_up_all calls have returned, if they run alone. */
  function Units(s: State): int {
    AtLeastOne(s.value + Posters(s))
  }

  /** The waiters blocked in wait_event. */
  function Stubborn(ws: seq<Waiter>, interruptible: set<nat>): nat {
    if ws == [] then 0
    else
      var n := |ws| - 1;
      Stubborn(ws[..n], interruptible) + if ws[n] == Blocked && n !in interruptible then 1 else 0
  }

  lemma {:induction false} StubbornUpdate(ws: seq<Waiter>, ok: set<nat>, i: nat, x: Waiter)
    requires i < |ws|
    ensures Stubborn(ws[i := x], ok) + (if ws[i] == Blocked && i !in ok then 1 else 0)
         == Stubborn(ws, ok) + (if x == Blocked && i !in ok then 1 else 0)
  {
    var n := |ws| - 1;
    if i == n {
      assert ws[i := x][..n] == ws[..n];
    } else {
      StubbornUpdate(ws[..n], ok, i, x);
      assert ws[i := x][..n] == ws[..n][i := x];
    }
  }

  lemma {:induction false} StubbornIn(ws: seq<Waiter>, ok: set<nat>)
    ensures Stubborn(ws, ok) <= Count(ws, Blocked)
    ensures Stubborn(ws, ok) > 0 ==> exists i :: 0 <= i < |ws| && ws[i] == Blocked && i !in ok
  {
    if ws != [] {
      var n := |ws| - 1;
      StubbornIn(ws[..n], ok);
      if Stubborn(ws[..n], ok) > 0 {
        var i :| 0 <= i < n && ws[..n][i] == Blocked && i !in ok;
        assert ws[i] == Blocked;
      }
    }
  }

  /** Too few waiters between test and wait, or blocked where a signal would send them
      there, for one to be left behind. */
  predicate Safe(s: State) {
    var u := Stubborn(s.waiters, s.interruptible);
    Count(s.waiters, Entering) + u <=
      if Active(s) > 0 then AtLeastOne(s.value + u + Posters(s)) else s.value
  }

  /** The same where there are no signals. */
  predicate SafeUnsignalled(s: State) {
    Count(s.waiters, Entering) <= if Active(s) > 0 then Units(s) else s.value
  }

  lemma SafeStep(s: State, t: Step)
    requires Inv(s) && s.cond && Enabled(s, t) && Quiet(t) && Safe(s)
    ensures Safe(Do(s, t))
  {
    hide Count, Stubborn;
    WakerCounts(s, t, Posting);
    WakerCounts(s, t, Reading);
    Counts(s, t, Entering);
    CountIn(s.wakers, Posting);
    CountIn(s.wakers, Reading);
    CountIn(s.waiters, Blocked);
    StubbornIn(s.waiters, s.interruptible);
    StubbornStep(s, t);
  }

  lemma SafeUnsignalledStep(s: State, t: Step)
    requires Inv(s) && s.cond && Enabled(s, t) && Quiet(t) && SafeUnsignalled(s) && !t.Retry?
    ensures SafeUnsignalled(Do(s, t))
  {
    hide Count, Stubborn;
    WakerCounts(s, t, Posting);
    WakerCounts(s, t, Reading);
    Counts(s, t, Entering);
    CountIn(s.wakers, Posting);
    CountIn(s.wakers, Reading);
    CountIn(s.waiters, Blocked);
  }

  lemma StubbornStep(s: State, t: Step)
    requires Enabled(s, t)
    ensures var s', u := Do(s, t), Stubborn(s.waiters, s.interruptible);
      var u' := Stubborn(s'.waiters, s'.interruptible);
      if t.Enter? && s.value <= 0 then u <= u' <= u + 1
      else if t.Retry? then u' == u - 1
      else if (t.Post? || t.WakeOne?) && s.value < 0 then u - 1 <= u' <= u
      else u' == u
  {
    match t
    case Test(i) => StubbornUpdate(s.waiters, s.interruptible, i, if s.cond then Done else Entering);
    case Enter(i) => StubbornUpdate(s.waiters, s.interruptible, i, if s.value > 0 then Testing else Blocked);
    case Interrupt(i) => StubbornUpdate(s.waiters, s.interruptible, i, Testing);
    case Retry(i) => StubbornUpdate(s.waiters, s.interruptible, i, Entering);
    case Post(j, i) => if s.value < 0 { StubbornUpdate(s.waiters, s.interruptible, i, Testing); }
    case WakeOne(i) => if s.value < 0 { StubbornUpdate(s.waiters, s.interruptible, i, Testing); }
    case Read(j) =>
    case SetCond(_) =>
  }

  lemma {:induction false} SafeRun(s: State, ts: seq<Step>)
    requires Inv(s) && QuietRun(s, ts)
    ensures Safe(s) ==> Safe(After(s, ts))
    ensures SafeUnsignalled(s) && Retries(ts) == 0 ==> SafeUnsignalled(After(s, ts))
    decreases ts
  {
    hide Safe, SafeUnsignalled;
    if ts != [] {
      QuietRest(s, ts);
      StepInv(s, ts[0]);
      if Safe(s) { SafeStep(s, ts[0]); }
      if SafeUnsignalled(s) && !ts[0].Retry? { SafeUnsignalledStep(s, ts[0]); }
      SafeRun(Do(s, ts[0]), ts[1..]);
    }
  }

  /** Once every wake_up_all has returned, nobody is blocked in a safe state. */
  lemma SafeMeansUnblocked(s: State)
    requires Inv(s) && Active(s) == 0 && (Safe(s) || SafeUnsignalled(s))
    ensures Blocked !in s.waiters
  {
    CountIn(s.waiters, Blocked);
  }

  /** Let the wake_up_all calls return first, then the waiters enter. */
  lemma {:induction false} LeaveBehind(s: State) returns (ts: seq<Step>)
    requires Inv(s) && s.cond && !SafeUnsignalled(s)
    ensures QuietRun(s, ts) && Retries(ts) == 0 && Active(After(s, ts)) == 0 && Blocked in After(s, ts).waiters
    decreases Active(s), if s.value + Posters(s) < 1 then 1 - s.value - Posters(s) else 0, Posters(s)
  {
    CountIn(s.wakers, Posting);
    CountIn(s.wakers, Reading);
    if Active(s) == 0 {
      ts := EnterUntilBlocked(s);
    } else {
      var t := WakerStep(s);
      StepInv(s, t);
      var rest := LeaveBehind(Do(s, t));
      ts := FirstStep(s, t, rest);
    }
  }

  /** The next step of the wakers alone, those about to post first. */
  lemma WakerStep(s: State) returns (t: Step)
    requires Inv(s) && s.cond && Active(s) > 0
    ensures Enabled(s, t) && Quiet(t) && !t.Retry? && (SafeUnsignalled(Do(s, t)) ==> SafeUnsignalled(s))
    ensures Active(Do(s, t)) < Active(s)
      || (Active(Do(s, t)) == Active(s) &&
          var a, b := s.value + Posters(s), Do(s, t).value + Posters(Do(s, t));
          (a < 1 && a < b) || (a == b && Posters(Do(s, t)) < Posters(s)))
  {
    hide Count;
    CountIn(s.wakers, Posting);
    CountIn(s.wakers, Reading);
    if Posters(s) > 0 {
      var j :| 0 <= j < |s.wakers| && s.wakers[j] == Posting;
      var i := SomeoneToRelease(s);
      t := Post(j, i);
    } else {
      var j :| 0 <= j < |s.wakers| && s.wakers[j] == Reading;
      t := Read(j);
    }
    WakerCounts(s, t, Posting);
    WakerCounts(s, t, Reading);
    Counts(s, t, Entering);
  }

  /** When wake_up_all is called, or at any moment while such calls are under way: some
      run without signals can end with all of them returned and a waiter blocked if and
      only if there are more waiters between test and wait than 1, and than the value
      counting the posts already decided on. */
  lemma LeftBehindAtCallIff(s: State)
    requires Inv(s) && s.cond && Active(s) > 0
    ensures (exists ts :: QuietRun(s, ts) && Retries(ts) == 0 &&
                          Active(After(s, ts)) == 0 && Blocked in After(s, ts).waiters)
       <==> Count(s.waiters, Entering) > if s.value + Posters(s) > 1 then s.value + Posters(s) else 1
  {
    if !SafeUnsignalled(s) {
      var ts := LeaveBehind(s);
    } else {
      forall ts | QuietRun(s, ts) && Retries(ts) == 0 && Active(After(s, ts)) == 0
        ensures Blocked !in After(s, ts).waiters
      {
        SafeRun(s, ts);
        RunInv(s, ts);
        SafeMeansUnblocked(After(s, ts));
      }
    }
  }

  /** First every waiter blocked in wait_event gets a signal. */
  lemma {:induction false} LeaveBehindBySignals(s: State) returns (ts: seq<Step>)
    requires Inv(s) && s.cond && Active(s) > 0 && !Safe(s)
    ensures QuietRun(s, ts) && Active(After(s, ts)) == 0 && Blocked in After(s, ts).waiters
    decreases Stubborn(s.waiters, s.interruptible)
  {
    StubbornIn(s.waiters, s.interruptible);
    if Stubborn(s.waiters, s.interruptible) == 0 {
      ts := LeaveBehind(s);
    } else {
      var i :| 0 <= i < |s.waiters| && s.waiters[i] == Blocked && i !in s.interruptible;
      var t := Retry(i);
      StepInv(s, t);
      Counts(s, t, Entering);
      StubbornStep(s, t);
      var rest := LeaveBehindBySignals(Do(s, t));
      ts := FirstStep(s, t, rest);
    }
  }

  /** With signals: a waiter blocked in wait_event may be sent back to waiting by one, so
      it counts as between test and wait, and its share of the value as free. */
  lemma LeftBehindBySignalsIff(s: State)
    requires Inv(s) && s.cond && Active(s) > 0
    ensures var u := Stubborn(s.waiters, s.interruptible);
      (exists ts :: QuietRun(s, ts) && Active(After(s, ts)) == 0 && Blocked in After(s, ts).waiters)
      <==> Count(s.waiters, Entering) + u > if s.value + u + Posters(s) > 1 then s.value + u + Posters(s) else 1
  {
    if !Safe(s) {
      var ts := LeaveBehindBySignals(s);
    } else {
      forall ts | QuietRun(s, ts) && Active(After(s, ts)) == 0 ensures Blocked !in After(s, ts).waiters {
        SafeRun(s, ts);
        RunInv(s, ts);
        SafeMeansUnblocked(After(s, ts));
      }
    }
  }

  /** Two waiters between test and wait are one too many: from the start, with
      one wake_up_all, a run that sets the condition and lets wake_up_all return
      can end with a waiter blocked and nobody left to post. */
  lemma TwoEnteringWaitersCanLoseOne(ok: set<nat>) returns (ts: seq<Step>)
    ensures IsRun(Initial(2, 1, false, ok), ts)
    ensures var s := After(Initial(2, 1, false, ok), ts);
      s.cond && Blocked in s.waiters && s.wakers == [Idle] && Settled(s)
  {
    var s := Initial(2, 1, false, ok);
    var s1 := Do(s, Test(0));
    var s2 := Do(s1, Test(1));
    var s3 := Do(s2, SetCond(true));
    var s4 := Do(s3, Read(0));
    var s5 := Do(s4, Post(0, 0));
    var s6 := Do(s5, Read(0));
    var s7 := Do(s6, Enter(0));
    var s8 := Do(s7, Enter(1));
    var s9 := Do(s8, Test(0));
    assert s9 == State(true, -1, [Done, Blocked], [Idle], 1, ok);
    assert s9.waiters[1] == Blocked;
    ts := [];
    ts := Prepend(s8, Test(0), ts);
    ts := Prepend(s7, Enter(1), ts);
    ts := Prepend(s6, Enter(0), ts);
    ts := Prepend(s5, Read(0), ts);
    ts := Prepend(s4, Post(0, 0), ts);
    ts := Prepend(s3, Read(0), ts);
    ts := Prepend(s2, SetCond(true), ts);
    ts := Prepend(s1, Test(1), ts);
    ts := Prepend(s, Test(0), ts);
  }

  lemma Prepend(s: State, t: Step, rest: seq<Step>) returns (ts: seq<Step>)
    requires Enabled(s, t) && IsRun(Do(s, t), rest)
    ensures IsRun(s, ts) && After(s, ts) == After(Do(s, t), rest) && ts == [t] + rest
  {
    ts := [t] + rest;
    assert ts[1..] == rest;
  }
}

/**
 Starting and stopping: the framework thread, the gps thread and the daemon's death notices.

 One framework thread calls mtk_gps_start and mtk_gps_cleanup one after the other; the gps thread
 handles NMEA input and HAL_CMD_MNL_DIE. Every read or write of a field that both threads use is a
 step of its own, so all interleavings are runs. The lock fields are the `condtion` slots of M_START
 and M_STOP: releasing fills the slot, getting waits for it and empties it under its mutex; the tests
 of M_STOP outside the mutex are a read and, if the slot was full, a later write.
 */
module StartHandoff {
  import opened Bytes

  datatype Framework =
    | Idle
    | PastLoop      // saw start_flag != 1, the daemon accepted the start
    | GotToken      // get_condition(M_START) returned
    | Acquired      // holds the wakelock, M_STOP not yet looked at
    | SawStop       // saw M_STOP full, has not emptied it yet
    | Ready         // about to write start_flag
    | AwaitingStop  // mtk_gps_cleanup in get_condition(M_STOP)
    | StopDone      // mtk_gps_cleanup, M_STOP not yet looked at
    | CleanupSawStop

  datatype Gps =
    | Listening
    | Released      // M_START released, flag_unlock not yet written
    | DieBegun      // flag_unlock cleared
    | DieStopped    // M_STOP released
    | DieUnlocked   // wakelock released, start_flag not yet written

  datatype Wake = Acquire | Release

  datatype State = State(
    fw: Framework, gps: Gps,
    startLock: bool, stopLock: bool, flagUnlock: bool, startFlag: bool,
    wakes: seq<Wake>,   // wakelock callbacks so far
    tokens: nat,        // M_START releases so far
    passed: nat,        // calls of mtk_gps_start past M_START so far
    deaths: nat)        // MNL_DIE messages taken so far

  const INITIAL := State(Idle, Listening, false, false, false, false, [], 0, 0, 0)

  datatype Action =
    | StartCall | GetStart | AcquireWake | ReadStop | EmptyStop | FinishStart
    | CleanupCall | GetStop | CleanupReadStop | CleanupEmptyStop
    | Nmea | SetUnlock
    | DieBegin | DieStop | DieRelease | DieEnd

  predicate Can(s: State, a: Action) {
    match a
    case StartCall => s.fw == Idle && !s.startFlag
    case GetStart => s.fw == PastLoop && s.startLock
    case AcquireWake => s.fw == GotToken
    case ReadStop => s.fw == Acquired
    case EmptyStop => s.fw == SawStop
    case FinishStart => s.fw == Ready
    case CleanupCall => s.fw == Idle
    case GetStop => s.fw == AwaitingStop && s.stopLock
    case CleanupReadStop => s.fw == StopDone
    case CleanupEmptyStop => s.fw == CleanupSawStop
    case Nmea => s.gps == Listening
    case SetUnlock => s.gps == Released
    case DieBegin => s.gps == Listening
    case DieStop => s.gps == DieBegun
    case DieRelease => s.gps == DieStopped
    case DieEnd => s.gps == DieUnlocked
  }

  function Do(s: State, a: Action): State
    requires Can(s, a)
  {
    match a
    case StartCall => s.(fw := PastLoop)
    case GetStart => s.(fw := GotToken, startLock := false, passed := s.passed + 1)
    case AcquireWake => s.(fw := Acquired, wakes := s.wakes + [Acquire])
    case ReadStop => s.(fw := if s.stopLock then SawStop else Ready)
    case EmptyStop => s.(fw := Ready, stopLock := false)
    case FinishStart => s.(fw := Idle, startFlag := true)
    case CleanupCall => s.(fw := if s.startFlag then AwaitingStop else StopDone)
    case GetStop => s.(fw := StopDone, stopLock := false)
    case CleanupReadStop => s.(fw := if s.stopLock then CleanupSawStop else Idle)
    case CleanupEmptyStop => s.(fw := Idle, stopLock := false)
    case Nmea => if s.flagUnlock then s else s.(gps := Released, startLock := true, tokens := s.tokens + 1)
    case SetUnlock => s.(gps := Listening, flagUnlock := true)
    case DieBegin => s.(gps := DieBegun, flagUnlock := false, deaths := s.deaths + 1)
    case DieStop => s.(gps := DieStopped, stopLock := true)
    case DieRelease => s.(gps := DieUnlocked, wakes := s.wakes + [Release])
    case DieEnd => s.(gps := Listening, startFlag := false)
  }

  /** The state after a run, if every action was possible when its turn came. */
  function Exec(s: State, run: seq<Action>): Option<State> {
    if run == [] then Some(s)
    else
      var before := Exec(s, run[..|run| - 1]);
      var a := run[|run| - 1];
      if before.Some? && Can(before.value, a) then Some(Do(before.value, a)) else None
  }

  // ----- start tokens -----

  ghost predicate TokensCounted(s: State) {
    && s.passed + (if s.startLock then 1 else 0) <= s.tokens
    && s.tokens + (if s.flagUnlock || s.gps == Released then 0 else 1) <= 1 + s.deaths
    && (s.gps in {DieBegun, DieStopped, DieUnlocked} ==> !s.flagUnlock)
  }

  /**
   In every interleaving no token is consumed twice, and at most one start more than MNL_DIE
   messages were taken gets past M_START.
   */
  lemma {:induction false} StartsBoundedByDeaths(run: seq<Action>)
    requires Exec(INITIAL, run).Some?
    ensures TokensCounted(Exec(INITIAL, run).value)
    ensures var s := Exec(INITIAL, run).value;
            s.passed <= s.tokens && s.passed <= 1 + s.deaths
  {
    hide Do, Can;
    if run != [] {
      StartsBoundedByDeaths(run[..|run| - 1]);
      StepKeepsCount(Exec(INITIAL, run[..|run| - 1]).value, run[|run| - 1]);
    }
  }

  lemma StepKeepsCount(s: State, a: Action)
    requires TokensCounted(s) && Can(s, a)
    ensures TokensCounted(Do(s, a))
  {
  }

  // ----- the wakelock -----

  predicate Held(s: State) {
    s.wakes != [] && s.wakes[|s.wakes| - 1] == Acquire
  }

  /** Between any two acquisitions lies a release. */
  predicate Alternates(wakes: seq<Wake>) {
    forall i :: 0 < i < |wakes| ==> !(wakes[i - 1] == Acquire && wakes[i] == Acquire)
  }

  /**
   A start about to write start_flag acquired the wakelock while one MNL_DIE handler stands between
   releasing the wakelock and clearing start_flag.
   */
  predicate Straddles(s: State, a: Action) {
    a == FinishStart && s.gps == DieUnlocked && Held(s)
  }

  ghost predicate NeverStraddles(run: seq<Action>) {
    run != [] ==>
      && NeverStraddles(run[..|run| - 1])
      && var before := Exec(INITIAL, run[..|run| - 1]);
         before.Some? ==> !Straddles(before.value, run[|run| - 1])
  }

  ghost predicate WakeInv(s: State) {
    && Alternates(s.wakes)
    && (s.fw in {PastLoop, GotToken, Acquired, SawStop, Ready} ==> !s.startFlag)
    && (Held(s) ==> s.fw in {Acquired, SawStop, Ready} || (s.startFlag && s.gps != DieUnlocked))
  }

  /** The straddling start is the one step that breaks the invariant, and it always does. */
  lemma StepKeepsWakeInv(s: State, a: Action)
    requires WakeInv(s) && Can(s, a)
    ensures WakeInv(Do(s, a)) <==> !Straddles(s, a)
  {
  }

  /** Without a straddling start, every run releases the wakelock before acquiring it again. */
  lemma {:induction false} WakelockAlternates(run: seq<Action>)
    requires Exec(INITIAL, run).Some? && NeverStraddles(run)
    ensures WakeInv(Exec(INITIAL, run).value)
    ensures Alternates(Exec(INITIAL, run).value.wakes)
  {
    hide Do, Can;
    if run != [] {
      WakelockAlternates(run[..|run| - 1]);
      StepKeepsWakeInv(Exec(INITIAL, run[..|run| - 1]).value, run[|run| - 1]);
    }
  }

  const AFTERMATH := [FinishStart, DieEnd, Nmea, SetUnlock, StartCall, GetStart, AcquireWake]

  lemma {:induction false} ExecAppend(s: State, run: seq<Action>, more: seq<Action>)
    requires Exec(s, run).Some?
    ensures Exec(s, run + more) == Exec(Exec(s, run).value, more)
  {
    if more == [] {
      assert run + more == run;
    } else {
      assert (run + more)[..|run + more| - 1] == run + more[..|more| - 1];
      ExecAppend(s, run, more[..|more| - 1]);
    }
  }

  /**
   The condition is exact: whenever a start does straddle a death, the same seven steps lead to a
   second acquisition with no release in between.
   */
  lemma StraddleBreaksAlternation(run: seq<Action>)
    requires Exec(INITIAL, run).Some? && Straddles(Exec(INITIAL, run).value, FinishStart)
    requires Can(Exec(INITIAL, run).value, FinishStart)
    ensures var end := Exec(INITIAL, run + AFTERMATH);
            end.Some? && !Alternates(end.value.wakes)
  {
    StartsBoundedByDeaths(run);
    ExecAppend(INITIAL, run, AFTERMATH);
    var s := Exec(INITIAL, run).value;
    AftermathFrom(s);
  }

  lemma AftermathFrom(s: State)
    requires s.fw == Ready && s.gps == DieUnlocked && Held(s) && !s.flagUnlock
    ensures var end := Exec(s, AFTERMATH);
            end.Some? && end.value.wakes == s.wakes + [Acquire] && !Alternates(end.value.wakes)
  {
    var r1, r2, r3 := [FinishStart], [FinishStart, DieEnd], [FinishStart, DieEnd, Nmea];
    var s3 := Relisten(s);
    var r4, r5, r6 := r3 + [SetUnlock], r3 + [SetUnlock] + [StartCall], r3 + [SetUnlock] + [StartCall] + [GetStart];
    var s4 := Do(s3, SetUnlock);
    var s5 := Do(s4, StartCall);
    var s6 := Do(s5, GetStart);
    var s7 := Do(s6, AcquireWake);
    hide Exec, Do, Can, Alternates;
    ExecOne(s, r3, s3, SetUnlock);
    ExecOne(s, r4, s4, StartCall);
    ExecOne(s, r5, s5, GetStart);
    ExecOne(s, r6, s6, AcquireWake);
    assert r6 + [AcquireWake] == AFTERMATH;
    TwoAcquires(s.wakes);
  }

  /** The start and the death end, and the next NMEA input fills M_START again. */
  lemma Relisten(s: State) returns (t: State)
    requires s.fw == Ready && s.gps == DieUnlocked && !s.flagUnlock
    ensures Exec(s, [FinishStart, DieEnd, Nmea]) == Some(t)
    ensures t.fw == Idle && t.gps == Released && t.startLock && !t.startFlag && t.wakes == s.wakes
  {
    var s1 := Do(s, FinishStart);
    var s2 := Do(s1, DieEnd);
    t := Do(s2, Nmea);
    hide Exec, Do, Can;
    ExecNothing(s);
    ExecOne(s, [], s, FinishStart);
    ExecOne(s, [FinishStart], s1, DieEnd);
    ExecOne(s, [FinishStart, DieEnd], s2, Nmea);
    assert [] + [FinishStart] == [FinishStart] && [FinishStart] + [DieEnd] == [FinishStart, DieEnd];
    assert [FinishStart, DieEnd] + [Nmea] == [FinishStart, DieEnd, Nmea];
  }

  lemma ExecNothing(s: State)
    ensures Exec(s, []) == Some(s)
  {
  }

  lemma TwoAcquires(wakes: seq<Wake>)
    requires wakes != [] && wakes[|wakes| - 1] == Acquire
    ensures !Alternates(wakes + [Acquire])
  {
    var n := |wakes|;
    var after := wakes + [Acquire];
    assert after[n - 1] == Acquire && after[n] == Acquire;
  }

  lemma ExecOne(s: State, run: seq<Action>, t: State, a: Action)
    requires Exec(s, run) == Some(t) && Can(t, a)
    ensures Exec(s, run + [a]) == Some(Do(t, a))
  {
  }

  const STRADDLE := [Nmea, SetUnlock, StartCall, GetStart, DieBegin, DieStop, DieRelease, AcquireWake, ReadStop,
                     EmptyStop]

  /** And such a run exists: the death is taken while the very first start is on its way. */
  lemma AStraddlingRun()
    ensures Exec(INITIAL, STRADDLE).Some?
    ensures Can(Exec(INITIAL, STRADDLE).value, FinishStart) && Straddles(Exec(INITIAL, STRADDLE).value, FinishStart)
  {
    var s := INITIAL;
    var run: seq<Action> := [];
    var i := 0;
    ExecNothing(s);
    hide Exec;
    while i < |STRADDLE|
      invariant 0 <= i <= |STRADDLE| && run == STRADDLE[..i]
      invariant Exec(INITIAL, run) == Some(s)
      invariant s.wakes == if i < 7 then [] else if i == 7 then [Release] else [Release, Acquire]
      invariant s.fw == if i < 3 then Idle else if i == 3 then PastLoop else if i < 8 then GotToken
                        else if i == 8 then Acquired else if i == 9 then SawStop else Ready
      invariant s.gps == if i == 1 then Released else if i < 5 then Listening
                         else if i == 5 then DieBegun else if i == 6 then DieStopped else DieUnlocked
      invariant s.stopLock == (6 <= i < 10) && s.startLock == (1 <= i < 4)
      invariant !s.startFlag && s.flagUnlock == (2 <= i < 5)
    {
      ExecOne(INITIAL, run, s, STRADDLE[i]);
      s := Do(s, STRADDLE[i]);
      run := run + [STRADDLE[i]];
      i := i + 1;
    }
    assert run == STRADDLE;
  }

  // ----- stops -----

  function CountOf(run: seq<Action>, a: Action): nat {
    if run == [] then 0 else CountOf(run[..|run| - 1], a) + if run[|run| - 1] == a then 1 else 0
  }

  /**
   In every run a cleanup gets past M_STOP at most once for each death whose handler has released
   it, and only after having found the start flag set.
   */
  lemma {:induction false} StopsBoundedByDeaths(run: seq<Action>)
    requires Exec(INITIAL, run).Some?
    ensures var s := Exec(INITIAL, run).value;
            && CountOf(run, GetStop) + (if s.stopLock then 1 else 0) <= CountOf(run, DieStop) <= s.deaths
            && (s.gps == DieBegun ==> CountOf(run, DieStop) < s.deaths)
            && (s.fw == AwaitingStop ==> CountOf(run, GetStop) < CountOf(run, CleanupCall))
            && CountOf(run, GetStop) <= CountOf(run, CleanupCall)
  {
    hide Exec;
    if run != [] {
      var init, a := run[..|run| - 1], run[|run| - 1];
      ExecLast(INITIAL, run);
      StopsBoundedByDeaths(init);
    } else {
      ExecNothing(INITIAL);
    }
  }

  lemma ExecLast(s: State, run: seq<Action>)
    requires run != [] && Exec(s, run).Some?
    ensures var before := Exec(s, run[..|run| - 1]);
            && before.Some? && Can(before.value, run[|run| - 1])
            && Exec(s, run).value == Do(before.value, run[|run| - 1])
  {
  }
}

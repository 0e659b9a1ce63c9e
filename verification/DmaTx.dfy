/** Serial transmission by DMA: one writer thread and the transmit-done interrupt, step by step. */
module DmaTx {
  import opened Options

  const QUEUE_SIZE := 8

  /** The writer: outside, between its push and its test of the flag, or about to start the transfer it claimed. */
  datatype Pc = Idle | Pushed | Claimed

  /** Buffers are numbered in the order they are pushed; `started` lists the transfers in order. */
  datatype State = State(queue: seq<nat>, activated: bool, inflight: Option<nat>, pc: Pc, pushes: nat, started: seq<nat>)

  datatype Event = Push | Test | Start | Done

  const INITIAL := State([], false, None, Idle, 0, [])

  /** A full queue blocks the writer; the interrupt comes when a transfer is under way. */
  predicate Enabled(s: State, e: Event) {
    match e
    case Push => s.pc == Idle && |s.queue| < QUEUE_SIZE
    case Test => s.pc == Pushed
    case Start => s.pc == Claimed
    case Done => s.inflight.Some?
  }

  /** The pop, then the next transfer if something is queued. */
  function Interrupt(s: State): State {
    var queue := if s.queue == [] then [] else s.queue[1..];
    if queue != [] then s.(queue := queue, activated := true, inflight := Some(queue[0]), started := s.started + [queue[0]])
    else s.(queue := queue, activated := false, inflight := None)
  }

  function Next(s: State, e: Event): State {
    match e
    case Push => s.(queue := s.queue + [s.pushes], pushes := s.pushes + 1, pc := Pushed)
    case Test => if s.activated then s.(pc := Idle) else s.(activated := true, pc := Claimed)
    case Start =>
      var x := if s.pushes > 0 then s.pushes - 1 else 0;
      s.(inflight := Some(x), started := s.started + [x], pc := Idle)
    case Done => Interrupt(s)
  }

  /** The interrupt takes the writer's own buffer off the queue before the writer has tested the flag. */
  predicate Overtakes(s: State, e: Event) {
    e == Done && s.pc == Pushed && |s.queue| == 1
  }

  predicate Run(s: State, es: seq<Event>)
    decreases |es|
  {
    es == [] || (Enabled(s, es[0]) && Run(Next(s, es[0]), es[1..]))
  }

  function After(s: State, es: seq<Event>): State
    decreases |es|
  {
    if es == [] then s else After(Next(s, es[0]), es[1..])
  }

  predicate Overtaken(s: State, es: seq<Event>)
    decreases |es|
  {
    es != [] && (Overtakes(s, es[0]) || Overtaken(Next(s, es[0]), es[1..]))
  }

  // ---------- What holds as long as nothing overtakes ----------

  /** The numbers from a to b - 1. */
  function Range(a: nat, b: nat): (r: seq<nat>)
    requires a <= b
    ensures |r| == b - a
    ensures forall i | 0 <= i < b - a :: r[i] == a + i
  {
    if a == b then [] else Range(a, b - 1) + [b - 1]
  }

  lemma RangeTail(a: nat, b: nat)
    requires a < b
    ensures Range(a, b)[1..] == Range(a + 1, b)
  {}

  /** The transfers so far are the first pushes, in order and once each; the one in flight is at the head of
      the queue, and the queue holds it and everything behind it. */
  predicate Inv(s: State) {
    var k := |s.started|;
    && k <= s.pushes && s.started == Range(0, k)
    && match s.inflight
       case Some(x) =>
         && s.activated && s.pc != Claimed && k > 0 && x == k - 1 && s.queue == Range(k - 1, s.pushes)
       case None =>
         && s.queue == Range(k, s.pushes) && s.activated == (s.pc == Claimed)
         && s.pushes == if s.pc == Idle then k else k + 1
  }

  lemma StepKeeps(s: State, e: Event)
    requires Inv(s) && Enabled(s, e) && !Overtakes(s, e)
    ensures Inv(Next(s, e))
  {
    match e
    case Push =>
    case Test =>
    case Start =>
    case Done =>
      RangeTail(|s.started| - 1, s.pushes);
  }

  /** Over every run without overtaking. */
  lemma {:induction false} RunKeeps(s: State, es: seq<Event>)
    requires Inv(s) && Run(s, es) && !Overtaken(s, es)
    ensures Inv(After(s, es))
    decreases |es|
  {
    if es != [] {
      StepKeeps(s, es[0]);
      RunKeeps(Next(s, es[0]), es[1..]);
    }
  }

  /** A transfer is never started while another is under way. */
  lemma OneInFlight(s: State)
    requires Inv(s)
    ensures Enabled(s, Start) ==> s.inflight == None
    ensures s.inflight.Some? ==> s.queue != [] && s.queue[0] == s.inflight.value
  {}

  /** When all is quiet, every pushed buffer has been sent. */
  lemma QuietMeansSent(s: State)
    requires Inv(s) && s.inflight == None && s.pc == Idle
    ensures s.queue == [] && s.started == Range(0, s.pushes)
  {}

  // ---------- What happens otherwise ----------

  predicate InOrderOnce(s: State) {
    s.started == Range(0, |s.started|)
  }

  /** Transfers are only ever added. */
  lemma {:induction false} StartedGrows(s: State, es: seq<Event>)
    ensures |s.started| <= |After(s, es).started| && After(s, es).started[..|s.started|] == s.started
    decreases |es|
  {
    if es != [] {
      var s1 := Next(s, es[0]);
      StartedGrows(s1, es[1..]);
      assert s1.started[..|s.started|] == s.started;
      assert After(s, es).started[..|s1.started|][..|s.started|] == After(s, es).started[..|s.started|];
    }
  }

  lemma PrefixInOrder(s: State, t: State)
    requires |s.started| <= |t.started| && t.started[..|s.started|] == s.started && InOrderOnce(t)
    ensures InOrderOnce(s)
  {}

  lemma Unfold(s: State, es: seq<Event>)
    requires es != []
    ensures Run(s, es) <==> Enabled(s, es[0]) && Run(Next(s, es[0]), es[1..])
    ensures After(s, es) == After(Next(s, es[0]), es[1..])
    ensures Overtaken(s, es) <==> Overtakes(s, es[0]) || Overtaken(Next(s, es[0]), es[1..])
  {}

  lemma Finished(s: State)
    ensures After(s, []) == s
  {}

  /** An overtaken writer has everything started already, and nothing is under way. */
  lemma OvertakenState(s: State)
    requires Inv(s) && Overtakes(s, Done) && Enabled(s, Done)
    ensures Next(s, Done) == State([], false, None, Pushed, s.pushes, Range(0, s.pushes)) && s.pushes > 0
  {}

  lemma RestartNotInOrder(n: nat)
    requires n > 0
    ensures Range(0, n) + [n - 1] != Range(0, n + 1)
  {
    assert (Range(0, n) + [n - 1])[n] == n - 1;
  }

  /** Once overtaken the writer can only go on to start its buffer again. */
  lemma {:induction false} OvertakenRestarts(s: State, es: seq<Event>)
    requires Inv(s) && es != [] && Run(s, es) && Overtakes(s, es[0]) && After(s, es).pc == Idle
    ensures !InOrderOnce(After(s, es))
  {
    hide Run, After, Inv;
    Unfold(s, es);
    OvertakenState(s);
    var n, all, last: nat := s.pushes, Range(0, s.pushes), s.pushes - 1;
    var s1, r1 := State([], false, None, Pushed, n, all), es[1..];
    if r1 == [] { Finished(s1); }
    Unfold(s1, r1);
    var s2, r2 := State([], true, None, Claimed, n, all), r1[1..];
    if r2 == [] { Finished(s2); }
    Unfold(s2, r2);
    var s3, r3 := State([], true, Some(last), Idle, n, all + [last]), r2[1..];
    StartedGrows(s3, r3);
    RestartNotInOrder(n);
    if InOrderOnce(After(s3, r3)) {
      PrefixInOrder(s3, After(s3, r3));
    }
  }

  /** Transfers are the pushes in order, each once, exactly when no interrupt overtakes the writer. */
  lemma {:induction false} InOrderOnceIff(s: State, es: seq<Event>)
    requires Inv(s) && Run(s, es) && After(s, es).pc == Idle
    ensures InOrderOnce(After(s, es)) <==> !Overtaken(s, es)
    decreases |es|
  {
    if es != [] {
      if Overtakes(s, es[0]) {
        OvertakenRestarts(s, es);
      } else {
        StepKeeps(s, es[0]);
        InOrderOnceIff(Next(s, es[0]), es[1..]);
      }
    }
  }

  lemma InitialInv()
    ensures Inv(INITIAL)
  {}

  lemma {:induction false} Joined(s: State, a: seq<Event>, b: seq<Event>)
    ensures After(s, a + b) == After(After(s, a), b)
    ensures Run(s, a + b) <==> Run(s, a) && Run(After(s, a), b)
    ensures Overtaken(s, a + b) <==> Overtaken(s, a) || Overtaken(After(s, a), b)
    decreases |a|
  {
    if a == [] {
      assert a + b == b;
    } else {
      assert (a + b)[1..] == a[1..] + b;
      Joined(Next(s, a[0]), a[1..], b);
    }
  }

  lemma Two(s: State, a: Event, b: Event)
    ensures After(s, [a, b]) == Next(Next(s, a), b)
    ensures Run(s, [a, b]) <==> Enabled(s, a) && Enabled(Next(s, a), b)
    ensures Overtaken(s, [a, b]) <==> Overtakes(s, a) || Overtakes(Next(s, a), b)
  {
    hide Next, Enabled, Overtakes;
    var t := Next(s, a);
    assert [a, b][1..] == [b] && [b][1..] == [];
    Unfold(s, [a, b]);
    Unfold(t, [b]);
    Finished(Next(t, b));
  }

  /** Two interrupts between push and test: the second buffer is sent again. */
  lemma SentTwice()
    ensures var es := [Push, Test] + ([Start, Push] + ([Done, Done] + [Test, Start]));
            && Run(INITIAL, es) && Overtaken(INITIAL, es)
            && After(INITIAL, es) == State([], true, Some(1), Idle, 2, [0, 1, 1])
  {
    hide Run, After, Overtaken;
    var s1, s2, s3 := State([0], true, None, Claimed, 1, []), State([0, 1], true, Some(0), Pushed, 2, [0]),
                      State([], false, None, Pushed, 2, [0, 1]);
    Joined(INITIAL, [Push, Test], [Start, Push] + ([Done, Done] + [Test, Start]));
    Two(INITIAL, Push, Test);
    assert [] + [0] == [0];
    Joined(s1, [Start, Push], [Done, Done] + [Test, Start]);
    Two(s1, Start, Push);
    assert [0] + [1] == [0, 1];
    Joined(s2, [Done, Done], [Test, Start]);
    Two(s2, Done, Done);
    assert [0, 1][1..] == [1] && [1][1..] == [];
    Two(s3, Test, Start);
    assert [0, 1] + [1] == [0, 1, 1];
  }

  /** And the buffer pushed next is taken off the queue without ever being sent. */
  lemma NeverSent()
    ensures var s := State([], true, Some(1), Idle, 2, [0, 1, 1]);
            && Run(s, [Push, Test] + [Done])
            && After(s, [Push, Test] + [Done]) == State([], false, None, Idle, 3, [0, 1, 1])
  {
    hide Run, After, Overtaken;
    var s, s1 := State([], true, Some(1), Idle, 2, [0, 1, 1]), State([2], true, Some(1), Idle, 3, [0, 1, 1]);
    Joined(s, [Push, Test], [Done]);
    Two(s, Push, Test);
    assert [] + [2] == [2] && [2][1..] == [];
    Unfold(s1, [Done]);
    assert [Done][1..] == [];
    Finished(Next(s1, Done));
    NoEvents(Next(s1, Done));
  }

  lemma NoEvents(s: State)
    ensures Run(s, [])
  {}
}

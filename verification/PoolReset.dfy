/** What `reset` does to running refill tasks, and exactly when that is harmless. */
module PoolReset {
  import opened Pool
  import opened PoolProtocol

  lemma {:induction false} RunConcat<Key>(size: nat, st: State<Key>, a: seq<Step<Key>>, b: seq<Step<Key>>)
    ensures Run(size, st, a + b) == Run(size, Run(size, st, a), b)
  {
    if b == [] {
      assert a + b == a;
    } else {
      var n := |b| - 1;
      RunConcat(size, st, a, b[..n]);
      assert (a + b)[..|a| + n] == a + b[..n];
    }
  }

  lemma RunCons<Key>(size: nat, st: State<Key>, s: Step<Key>, rest: seq<Step<Key>>)
    ensures Run(size, st, [s] + rest) == Run(size, Apply(size, st, s), rest)
  {
    RunConcat(size, st, [s], rest);
    RunOne(size, st, s);
  }

  lemma RunOne<Key>(size: nat, st: State<Key>, s: Step<Key>)
    ensures Run(size, st, [s]) == Apply(size, st, s)
  {
    assert [s][..0] == [] && Run(size, st, []) == st;
  }

  /** A task number not yet used. */
  lemma {:induction false} Unused(s: set<nat>) returns (n: nat)
    ensures forall x :: x in s ==> x < n
  {
    if s == {} {
      n := 0;
    } else {
      var x :| x in s;
      var below := Unused(s - {x});
      n := if below <= x then x + 1 else below;
      assert forall y :: y in s ==> y == x || y in s - {x};
    }
  }

  /** Nothing forgets a recorded refill. */
  ghost predicate Remembers<Key>(steps: seq<Step<Key>>) {
    forall i :: 0 <= i < |steps| ==> !steps[i].ClearRefilling?
  }

  lemma {:induction false} RemembersIsTame<Key>(size: nat, st: State<Key>, steps: seq<Step<Key>>)
    requires Remembers(steps)
    ensures Tame(size, st, steps)
  {
    if steps != [] {
      RemembersIsTame(size, st, steps[..|steps| - 1]);
    }
  }

  /** A second task on a key whose first one is still to connect overfills the key. */
  lemma SecondTaskOverfills<Key(!new)>(size: nat, st: State<Key>, t: nat, u: nat) returns (more: seq<Step<Key>>)
    requires size > 0 && t < u && t in st.tasks && u in st.tasks && st.tasks[t].key == st.tasks[u].key
    requires BucketOf(st.idle, st.tasks[t].key) == [] && st.tasks[u].Spawned?
    requires st.tasks[t].Filling? ==> st.tasks[t].handles != []
    ensures Remembers(more) && !KeyBound(size, Run(size, st, more))
  {
    var key := st.tasks[t].key;
    var one := Apply(size, st, Measure(t));
    var two := Apply(size, one, Measure(u));
    RunCons(size, st, Measure(t), [Measure(u)]);
    RunOne(size, one, Measure(u));
    more := [Measure(t)] + [Measure(u)];
    assert two.tasks[t].key == two.tasks[u].key == key;
    assert Outstanding(two.tasks[t]) > 0 && Outstanding(two.tasks[u]) == size;
    LoadOfTwo(two.tasks, key, t, u);
    assert |BucketOf(two.idle, key)| + Load(two.tasks, key, u + 1) > size;
  }

  /** When a task of the key was forgotten, another one can start. */
  lemma ForgottenTask<Key(!new)>(size: nat, st: State<Key>, t: nat) returns (u: nat, next: State<Key>)
    requires t in st.tasks && st.tasks[t].key !in st.refilling
    ensures t < u && next == Apply(size, st, Schedule(st.tasks[t].key, u))
    ensures next == st.(refilling := st.refilling + {st.tasks[t].key}, tasks := st.tasks[u := Spawned(st.tasks[t].key)])
    ensures !OneTask(next)
  {
    u := Unused(st.tasks.Keys);
    next := Apply(size, st, Schedule(st.tasks[t].key, u));
    assert next.tasks[t].key == next.tasks[u].key;
  }

  lemma ForgottenTaskOverfills<Key(!new)>(size: nat, st: State<Key>, t: nat) returns (more: seq<Step<Key>>)
    requires size > 0 && t in st.tasks && st.tasks[t].key !in st.refilling
    requires BucketOf(st.idle, st.tasks[t].key) == []
    ensures Remembers(more) && !KeyBound(size, Run(size, st, more))
  {
    var key := st.tasks[t].key;
    var u, one := ForgottenTask(size, st, t);
    if st.tasks[t].Filling? && st.tasks[t].handles == [] {
      // The forgotten task ends first and takes the record of the second one with it.
      var two := Apply(size, one, FinishTask(t));
      var v, three := ForgottenTask(size, two, u);
      var rest := SecondTaskOverfills(size, three, u, v);
      RunCons(size, two, Schedule(key, v), rest);
      RunCons(size, one, FinishTask(t), [Schedule(key, v)] + rest);
      RunCons(size, st, Schedule(key, u), [FinishTask(t)] + ([Schedule(key, v)] + rest));
      more := [Schedule(key, u)] + ([FinishTask(t)] + ([Schedule(key, v)] + rest));
    } else {
      var rest := SecondTaskOverfills(size, one, t, u);
      RunCons(size, st, Schedule(key, u), rest);
      more := [Schedule(key, u)] + rest;
    }
  }

  lemma {:induction false} NoLoad<Key(!new)>(st: State<Key>, key: Key, n: nat)
    requires SizeBound(0, st)
    ensures Load(st.tasks, key, n) == 0
  {
    if n > 0 {
      NoLoad(st, key, n - 1);
    }
  }

  lemma StepEmptyPool<Key(!new)>(st: State<Key>, s: Step<Key>)
    requires SizeBound(0, st)
    ensures SizeBound(0, Apply(0, st, s))
  {
    hide Pop, MoveAll, StepTake;
    if s.Take? {
      TakeSizeBound(0, st, s.key, s.now);
    }
  }

  /** A pool of size zero stays empty whatever happens. */
  lemma {:induction false} EmptyPool<Key(!new)>(st: State<Key>, steps: seq<Step<Key>>)
    requires SizeBound(0, st)
    ensures SizeBound(0, Run(0, st, steps)) && KeyBound(0, Run(0, st, steps))
  {
    hide SizeBound, Apply;
    if steps != [] {
      var n := |steps| - 1;
      EmptyPool(st, steps[..n]);
      StepEmptyPool(Run(0, st, steps[..n]), steps[n]);
    }
    var end := Run(0, st, steps);
    forall k, n: nat
      ensures |BucketOf(end.idle, k)| + Load(end.tasks, k, n) <= 0
    {
      NoLoad(end, k, n);
      EmptyBucket(end, k);
    }
  }

  lemma EmptyBucket<Key(!new)>(st: State<Key>, key: Key)
    requires SizeBound(0, st)
    ensures BucketOf(st.idle, key) == []
  {
  }

  /** Takers can empty a bucket without touching tasks or records. */
  lemma Drain<Key(!new)>(size: nat, st: State<Key>, key: Key) returns (takes: seq<Step<Key>>, end: State<Key>)
    ensures Remembers(takes) && end == Run(size, st, takes)
    ensures end.tasks == st.tasks && end.refilling == st.refilling && BucketOf(end.idle, key) == []
    decreases |BucketOf(st.idle, key)|
  {
    hide Pop, MoveAll;
    if BucketOf(st.idle, key) == [] {
      takes, end := [], st;
    } else {
      PopOutcome(st.idle[key], st.clock, st.dead);
      var next := Apply(size, st, Take(key, st.clock));
      takes, end := Drain(size, next, key);
      RunCons(size, st, Take(key, st.clock), takes);
      takes := [Take(key, st.clock)] + takes;
    }
  }

  // ---------------------------------------------------------------- clearing the refilling set

  /** Clearing the set is harmless exactly when it is empty: otherwise some run goes on to
      a second task of one key, and beyond the size unless that is zero. */
  lemma ForgettingIsHarmlessWhenIdle<Key(!new)>(size: nat, st: State<Key>)
    requires Sound(size, st)
    ensures (forall more :: Remembers(more) ==> OneTask(Run(size, StepClearRefilling(st), more)))
            <==> st.refilling == {}
    ensures (forall more :: Remembers(more) ==> KeyBound(size, Run(size, StepClearRefilling(st), more)))
            <==> st.refilling == {} || size == 0
  {
    var forgot := StepClearRefilling(st);
    if st.refilling == {} {
      assert forgot == st;
      forall more: seq<Step<Key>> | Remembers(more)
        ensures OneTask(Run(size, forgot, more)) && KeyBound(size, Run(size, forgot, more))
      {
        RemembersIsTame(size, forgot, more);
        RunSound(size, forgot, more);
        SoundParts(size, Run(size, forgot, more));
      }
    } else {
      var k :| k in st.refilling;
      var t :| t in st.tasks && st.tasks[t].key == k;
      var u, next := ForgottenTask(size, forgot, t);
      RunOne(size, forgot, Schedule(k, u));
      assert Remembers([Schedule(k, u)]) && !OneTask(Run(size, forgot, [Schedule(k, u)]));
      if size > 0 {
        var takes, drained := Drain(size, forgot, k);
        var more := ForgottenTaskOverfills(size, drained, t);
        RunConcat(size, forgot, takes, more);
        assert Remembers(takes + more) && !KeyBound(size, Run(size, forgot, takes + more));
      } else {
        forall more: seq<Step<Key>> | Remembers(more)
          ensures KeyBound(size, Run(size, forgot, more))
        {
          EmptyPool(forgot, more);
        }
      }
    }
  }

  // ---------------------------------------------------------------- a call of reset

  /** A call of reset with what other tasks do between its two halves and after it. */
  ghost function AfterReset<Key(!new)>(size: nat, st: State<Key>, during: seq<Step<Key>>, more: seq<Step<Key>>)
    : State<Key>
  {
    Run(size, StepClearRefilling(Run(size, StepClearIdle(st), during)), more)
  }

  /** No get and no warmup schedules a refill. */
  ghost predicate Undisturbed<Key>(during: seq<Step<Key>>) {
    Remembers(during) && forall i :: 0 <= i < |during| ==> !during[i].Schedule?
  }

  lemma {:induction false} NothingRecorded<Key>(size: nat, st: State<Key>, during: seq<Step<Key>>)
    requires Undisturbed(during)
    ensures Run(size, st, during).refilling <= st.refilling
  {
    hide Pop, MoveAll;
    if during != [] {
      NothingRecorded(size, st, during[..|during| - 1]);
    }
  }

  lemma MidResetSound<Key(!new)>(size: nat, st: State<Key>, during: seq<Step<Key>>)
    requires Sound(size, st) && Remembers(during)
    ensures Sound(size, Run(size, StepClearIdle(st), during))
  {
    hide Sound;
    StepSound(size, st, ClearIdle);
    RemembersIsTame(size, StepClearIdle(st), during);
    RunSound(size, StepClearIdle(st), during);
  }

  /** A reset that no get or warmup interrupts is harmless exactly when no refill is
      recorded at the call. */
  lemma ResetIsHarmlessWhenIdle<Key(!new)>(size: nat, st: State<Key>)
    requires Sound(size, st)
    ensures (forall during, more :: Undisturbed(during) && Remembers(more) ==>
               OneTask(AfterReset(size, st, during, more)))
            <==> st.refilling == {}
    ensures (forall during, more :: Undisturbed(during) && Remembers(more) ==>
               KeyBound(size, AfterReset(size, st, during, more)))
            <==> st.refilling == {} || size == 0
  {
    hide Sound, KeyBound, OneTask;
    forall during: seq<Step<Key>>, more: seq<Step<Key>> | Undisturbed(during) && Remembers(more)
      ensures st.refilling == {} ==> OneTask(AfterReset(size, st, during, more))
      ensures st.refilling == {} || size == 0 ==> KeyBound(size, AfterReset(size, st, during, more))
    {
      var mid := Run(size, StepClearIdle(st), during);
      MidResetSound(size, st, during);
      NothingRecorded(size, StepClearIdle(st), during);
      ForgettingIsHarmlessWhenIdle(size, mid);
    }
    assert Run(size, StepClearIdle(st), []) == StepClearIdle(st);
    MidResetSound(size, st, []);
    ForgettingIsHarmlessWhenIdle(size, StepClearIdle(st));
    assert Undisturbed<Key>([]);
    assert forall more :: AfterReset(size, st, [], more) == Run(size, StepClearRefilling(StepClearIdle(st)), more);
  }

  /** But no state makes it harmless when a get may come between its two halves. */
  lemma RacingReset<Key(!new)>(size: nat, st: State<Key>, key: Key) returns (during: seq<Step<Key>>)
    requires Sound(size, st)
    ensures Remembers(during)
    ensures exists more :: Remembers(more) && !OneTask(AfterReset(size, st, during, more))
    ensures size > 0 ==> exists more :: Remembers(more) && !KeyBound(size, AfterReset(size, st, during, more))
  {
    var cleared := StepClearIdle(st);
    var u := Unused(st.tasks.Keys);
    during := [Schedule(key, u)];
    RunOne(size, cleared, Schedule(key, u));
    MidResetSound(size, st, during);
    ForgettingIsHarmlessWhenIdle(size, Run(size, cleared, during));
    assert key in Run(size, cleared, during).refilling;
    assert forall more :: AfterReset(size, st, during, more)
                          == Run(size, StepClearRefilling(Run(size, cleared, during)), more);
  }

  // ---------------------------------------------------------------- two runs that fail

  /** A forgotten refill in a pool of size one, and a second one of the same key. */
  lemma ForgottenThenSecond<Key(!new)>(key: Key)
    ensures var st := Run(1, Empty<Key>().(tasks := map[0 := Spawned(key)]),
                          [Schedule(key, 1)] + ([Measure(0)] + [Measure(1)]));
            !OneTask(st) && !KeyBound(1, st)
  {
    var s2 := Empty<Key>().(tasks := map[0 := Spawned(key)]);
    var s3 := s2.(refilling := {key}, tasks := map[0 := Spawned(key), 1 := Spawned(key)]);
    var s4 := s3.(idle := map[key := []], tasks := map[0 := Filling(key, [Connecting]), 1 := Spawned(key)]);
    var s5 := s4.(tasks := map[0 := Filling(key, [Connecting]), 1 := Filling(key, [Connecting])]);
    assert seq(1, _ => Connecting) == [Connecting];
    assert s3 == Apply(1, s2, Schedule(key, 1));
    assert s4 == Apply(1, s3, Measure(0));
    assert s5 == Apply(1, s4, Measure(1));
    hide Apply, Run;
    RunCons(1, s2, Schedule(key, 1), [Measure(0)] + [Measure(1)]);
    RunCons(1, s3, Measure(0), [Measure(1)]);
    RunOne(1, s4, Measure(1));
    assert s5.tasks[0] == s5.tasks[1] && Outstanding(s5.tasks[0]) == 1;
    LoadOfTwo(s5.tasks, key, 0, 1);
    assert |BucketOf(s5.idle, key)| + Load(s5.tasks, key, 2) > 1;
  }

  /** A reset between two refills of one key. */
  lemma ResetBreaksTheBound<Key(!new)>(key: Key)
    ensures var second := [Schedule(key, 1)] + ([Measure(0)] + [Measure(1)]);
            var st := Run(1, Empty<Key>(), [Schedule(key, 0)] + ([ClearIdle] + ([ClearRefilling] + second)));
            !OneTask(st) && !KeyBound(1, st)
  {
    var second := [Schedule(key, 1)] + ([Measure(0)] + [Measure(1)]);
    var s0 := Empty<Key>();
    var s1 := s0.(refilling := {key}, tasks := map[0 := Spawned(key)]);
    var s2 := s0.(tasks := map[0 := Spawned(key)]);
    assert Apply(1, s0, Schedule(key, 0)) == s1 && Apply(1, s1, ClearIdle) == s1 && Apply(1, s1, ClearRefilling) == s2;
    hide Apply, Run, OneTask, KeyBound;
    RunCons(1, s0, Schedule(key, 0), [ClearIdle] + ([ClearRefilling] + second));
    RunCons(1, s1, ClearIdle, [ClearRefilling] + second);
    RunCons(1, s1, ClearRefilling, second);
    ForgottenThenSecond(key);
  }

  /** A reset called when nothing is recorded, with one get between its two halves. */
  lemma RacingResetBreaksTheBound<Key(!new)>(key: Key)
    ensures var second := [Schedule(key, 1)] + ([Measure(0)] + [Measure(1)]);
            var get := [Take(key, 0.0)] + ([Schedule(key, 0)] + ([ClearRefilling] + second));
            var st := Run(1, Empty<Key>(), [ClearIdle] + get);
            !OneTask(st) && !KeyBound(1, st)
  {
    var second := [Schedule(key, 1)] + ([Measure(0)] + [Measure(1)]);
    var s0 := Empty<Key>();
    var s1 := s0.(refilling := {key}, tasks := map[0 := Spawned(key)]);
    var s2 := s0.(tasks := map[0 := Spawned(key)]);
    assert MoveAll<Key>(map[], [], Closing) == map[];
    assert Apply(1, s0, ClearIdle) == s0 && Apply(1, s0, Take(key, 0.0)) == s0;
    assert Apply(1, s0, Schedule(key, 0)) == s1 && Apply(1, s1, ClearRefilling) == s2;
    hide Apply, Run, OneTask, KeyBound;
    var late := [ClearRefilling] + second;
    RunCons(1, s0, ClearIdle, [Take(key, 0.0)] + ([Schedule(key, 0)] + late));
    RunCons(1, s0, Take(key, 0.0), [Schedule(key, 0)] + late);
    RunCons(1, s0, Schedule(key, 0), late);
    RunCons(1, s1, ClearRefilling, second);
    ForgottenThenSecond(key);
  }
}

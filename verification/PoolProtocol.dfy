/** All interleavings of takers and refill tasks: one refill per key, the size bound,
    and where every connection is. */
module PoolProtocol {
  import opened Octets
  import opened Pool

  /** A spawned connect: still running, finished with a connection not yet collected, or failed. */
  datatype Handle = Connecting | Connected(conn: nat) | Refused

  /** A refill task: before it looked at the bucket, or collecting its connects in order. */
  datatype Refill<Key> = Spawned(key: Key) | Filling(key: Key, handles: seq<Handle>)

  /** Where a connection is; recorded so that it can only be in one place. */
  datatype Place<Key> = Waiting(task: nat) | Idle(key: Key) | HandedOut | Closing

  datatype State<Key> = State(
    clock: real,
    idle: map<Key, Bucket>,
    refilling: set<Key>,
    tasks: map<nat, Refill<Key>>,
    dead: set<nat>,
    places: map<nat, Place<Key>>)

  /** Atomic steps.  A step whose guard fails does nothing.  A reset is two of them, since
      it takes and releases one lock after the other. */
  datatype Step<Key> =
    | Tick(clock: real)
    | PeerCloses(conn: nat)
    | Take(key: Key, now: real)
    | Schedule(key: Key, task: nat)
    | Measure(task: nat)
    | ConnectDone(task: nat, index: nat, outcome: Handle)
    | Collect(task: nat)
    | FinishTask(task: nat)
    | ClearIdle
    | ClearRefilling

  function MoveAll<Key(==)>(places: map<nat, Place<Key>>, conns: seq<nat>, place: Place<Key>): (r: map<nat, Place<Key>>)
    ensures forall c :: c in r <==> c in places || c in conns
    ensures forall c :: c in r ==> r[c] == if c in conns then place else places[c]
  {
    map c | c in places.Keys + (set x | x in conns) :: if c in conns then place else places[c]
  }

  /** get holds the idle lock while it discards and takes. */
  function StepTake<Key(==)>(st: State<Key>, key: Key, now: real): State<Key> {
    var p := Pop(BucketOf(st.idle, key), now, st.dead);
    var placed := MoveAll(st.places, p.discarded, Closing);
    st.(idle := Taken(st.idle, key, now, st.dead),
        places := if p.found.Some? then placed[p.found.value := HandedOut] else placed)
  }

  function StepSchedule<Key(==)>(st: State<Key>, key: Key, task: nat): State<Key> {
    if key in st.refilling || task in st.tasks then st
    else st.(refilling := st.refilling + {key}, tasks := st.tasks[task := Spawned(key)])
  }

  function StepMeasure<Key(==)>(size: nat, st: State<Key>, task: nat): State<Key> {
    if task !in st.tasks || !st.tasks[task].Spawned? then st
    else
      var key := st.tasks[task].key;
      var b := BucketOf(st.idle, key);
      st.(idle := st.idle[key := b],
          tasks := st.tasks[task := Filling(key, seq(Needed(b, size), _ => Connecting))])
  }

  function StepConnectDone<Key(==)>(st: State<Key>, task: nat, index: nat, outcome: Handle): State<Key> {
    if task !in st.tasks || !st.tasks[task].Filling? || index >= |st.tasks[task].handles|
       || !st.tasks[task].handles[index].Connecting? || outcome.Connecting?
       || (outcome.Connected? && outcome.conn in st.places) then st
    else
      var t := st.tasks[task];
      st.(tasks := st.tasks[task := t.(handles := t.handles[index := outcome])],
          places := if outcome.Connected? then st.places[outcome.conn := Waiting(task)] else st.places)
  }

  /** The task awaits its handles in order and puts each connection into the bucket. */
  function StepCollect<Key(==)>(st: State<Key>, task: nat): State<Key> {
    if task !in st.tasks || !st.tasks[task].Filling? || st.tasks[task].handles == []
       || st.tasks[task].handles[0].Connecting? then st
    else
      var t := st.tasks[task];
      var rest := st.(tasks := st.tasks[task := t.(handles := t.handles[1..])]);
      match t.handles[0]
      case Connected(c) =>
        rest.(idle := st.idle[t.key := BucketOf(st.idle, t.key) + [Entry(c, st.clock)]],
              places := st.places[c := Idle(t.key)])
      case _ => rest
  }

  function StepFinish<Key(==)>(st: State<Key>, task: nat): State<Key> {
    if task !in st.tasks || !st.tasks[task].Filling? || st.tasks[task].handles != [] then st
    else st.(refilling := st.refilling - {st.tasks[task].key}, tasks := st.tasks - {task})
  }

  /** Clearing the buckets drops the idle connections. */
  function StepClearIdle<Key(==)>(st: State<Key>): State<Key> {
    st.(idle := map[],
        places := map c | c in st.places :: if st.places[c].Idle? then Closing else st.places[c])
  }

  /** Clearing the set does not tell the running tasks. */
  function StepClearRefilling<Key(==)>(st: State<Key>): State<Key> {
    st.(refilling := {})
  }

  function Apply<Key(==)>(size: nat, st: State<Key>, s: Step<Key>): State<Key> {
    match s
    case Tick(clock) => if clock >= st.clock then st.(clock := clock) else st
    case PeerCloses(conn) => st.(dead := st.dead + {conn})
    case Take(key, now) => if now <= st.clock then StepTake(st, key, now) else st
    case Schedule(key, task) => StepSchedule(st, key, task)
    case Measure(task) => StepMeasure(size, st, task)
    case ConnectDone(task, index, outcome) => StepConnectDone(st, task, index, outcome)
    case Collect(task) => StepCollect(st, task)
    case FinishTask(task) => StepFinish(st, task)
    case ClearIdle => StepClearIdle(st)
    case ClearRefilling => StepClearRefilling(st)
  }

  function Run<Key(==)>(size: nat, st: State<Key>, steps: seq<Step<Key>>): State<Key> {
    if steps == [] then st
    else Apply(size, Run(size, st, steps[..|steps| - 1]), steps[|steps| - 1])
  }

  function Empty<Key(==)>(): State<Key> {
    State(0.0, map[], {}, map[], {}, map[])
  }

  // ---------------------------------------------------------------- one refill per key, and the size bound

  /** The refilling set names exactly the keys with a task in flight, one task each. */
  ghost predicate OneRefill<Key(!new)>(st: State<Key>) {
    && (forall t, u :: t in st.tasks && u in st.tasks && st.tasks[t].key == st.tasks[u].key ==> t == u)
    && (forall t :: t in st.tasks ==> st.tasks[t].key in st.refilling)
    && (forall k :: k in st.refilling ==> exists t :: t in st.tasks && st.tasks[t].key == k)
  }

  function Outstanding<Key>(t: Refill<Key>): nat {
    if t.Filling? then |t.handles| else 0
  }

  /** Idle connections and outstanding connects together stay within the pool size. */
  ghost predicate SizeBound<Key(!new)>(size: nat, st: State<Key>) {
    && (forall k :: k in st.idle ==> |st.idle[k]| <= size)
    && (forall t :: t in st.tasks ==> |BucketOf(st.idle, st.tasks[t].key)| + Outstanding(st.tasks[t]) <= size)
  }

  /** Steps that neither start nor end a task keep the tasks' keys. */
  lemma SameTasks<Key(!new)>(st: State<Key>, end: State<Key>)
    requires OneRefill(st) && end.refilling == st.refilling && end.tasks.Keys == st.tasks.Keys
    requires forall t :: t in st.tasks ==> end.tasks[t].key == st.tasks[t].key
    ensures OneRefill(end)
  {
    forall k | k in end.refilling
      ensures exists t :: t in end.tasks && end.tasks[t].key == k
    {
      var t :| t in st.tasks && st.tasks[t].key == k;
      assert end.tasks[t].key == k;
    }
  }

  lemma ScheduleOneRefill<Key(!new)>(st: State<Key>, key: Key, task: nat)
    requires OneRefill(st)
    ensures OneRefill(StepSchedule(st, key, task))
  {
    var end := StepSchedule(st, key, task);
    forall k | k in end.refilling
      ensures exists t :: t in end.tasks && end.tasks[t].key == k
    {
      if k in st.refilling {
        var t :| t in st.tasks && st.tasks[t].key == k;
        assert t in end.tasks && end.tasks[t].key == k;
      } else {
        assert end.tasks[task].key == k;
      }
    }
  }

  lemma FinishOneRefill<Key(!new)>(st: State<Key>, task: nat)
    requires OneRefill(st)
    ensures OneRefill(StepFinish(st, task))
  {
    var end := StepFinish(st, task);
    forall k | k in end.refilling
      ensures exists t :: t in end.tasks && end.tasks[t].key == k
    {
      var t :| t in st.tasks && st.tasks[t].key == k;
      assert t in end.tasks && end.tasks[t].key == k;
    }
  }

  lemma StepOneRefill<Key(!new)>(size: nat, st: State<Key>, s: Step<Key>)
    requires OneRefill(st) && s != ClearRefilling
    ensures OneRefill(Apply(size, st, s))
  {
    hide Pop, MoveAll, OneRefill, StepSchedule, StepFinish;
    match s
    case Schedule(key, task) => ScheduleOneRefill(st, key, task);
    case FinishTask(task) => FinishOneRefill(st, task);
    case _ => SameTasks(st, Apply(size, st, s));
  }

  lemma StepSizeBound<Key(!new)>(size: nat, st: State<Key>, s: Step<Key>)
    requires OneRefill(st) && SizeBound(size, st)
    ensures SizeBound(size, Apply(size, st, s))
  {
    hide Pop, MoveAll, StepTake;
    if s.Take? {
      TakeSizeBound(size, st, s.key, s.now);
    }
  }

  lemma TakeSizeBound<Key(!new)>(size: nat, st: State<Key>, key: Key, now: real)
    requires SizeBound(size, st)
    ensures SizeBound(size, StepTake(st, key, now))
  {
    hide Pop, MoveAll;
    PopOutcome(BucketOf(st.idle, key), now, st.dead);
  }

  // ---------------------------------------------------------------- creation order

  ghost predicate Chronological<Key(!new)>(st: State<Key>) {
    forall k :: k in st.idle ==>
      Sorted(st.idle[k]) && forall i :: 0 <= i < |st.idle[k]| ==> st.idle[k][i].created <= st.clock
  }

  lemma StepChronological<Key(!new)>(size: nat, st: State<Key>, s: Step<Key>)
    requires Chronological(st)
    ensures Chronological(Apply(size, st, s))
  {
    hide Pop, MoveAll;
    if s.Take? && s.key in st.idle {
      PopOutcome(st.idle[s.key], s.now, st.dead);
    }
  }

  // ---------------------------------------------------------------- where every connection is

  function ReadyIds(handles: seq<Handle>): seq<nat> {
    if handles == [] then []
    else (if handles[0].Connected? then [handles[0].conn] else []) + ReadyIds(handles[1..])
  }

  function ReadyOf<Key>(t: Refill<Key>): seq<nat> {
    if t.Filling? then ReadyIds(t.handles) else []
  }

  /** The record of places tells the truth: a connection is recorded as idle under a key
      exactly when it is in that bucket, as waiting exactly when it is in that task's
      handles, and no bucket or task holds a connection twice. */
  ghost predicate Located<Key(!new)>(st: State<Key>) {
    IdleLocated(st) && WaitingLocated(st)
  }

  ghost predicate IdleLocated<Key(!new)>(st: State<Key>) {
    && (forall k, c :: k in st.idle && c in Ids(st.idle[k]) ==> c in st.places && st.places[c] == Idle(k))
    && (forall k :: k in st.idle ==> Distinct(Ids(st.idle[k])))
    && (forall c :: c in st.places && st.places[c].Idle? ==>
          st.places[c].key in st.idle && c in Ids(st.idle[st.places[c].key]))
  }

  ghost predicate WaitingLocated<Key(!new)>(st: State<Key>) {
    && (forall t, c :: t in st.tasks && c in ReadyOf(st.tasks[t]) ==> c in st.places && st.places[c] == Waiting(t))
    && (forall t :: t in st.tasks ==> Distinct(ReadyOf(st.tasks[t])))
    && (forall c :: c in st.places && st.places[c].Waiting? ==>
          st.places[c].task in st.tasks && c in ReadyOf(st.tasks[st.places[c].task]))
  }

  /** Taking splits a bucket into discarded, found and remaining connections. */
  lemma PopSplits(b: Bucket, now: real, dead: set<nat>)
    requires Distinct(Ids(b))
    ensures var p := Pop(b, now, dead);
            var found := if p.found.Some? then [p.found.value] else [];
            && Ids(b) == p.discarded + found + Ids(p.rest)
            && Distinct(Ids(p.rest))
            && (forall c :: c in Ids(p.rest) ==> c in Ids(b) && c !in p.discarded && c !in found)
            && (forall c :: c in p.discarded ==> c in Ids(b) && c !in found)
            && (forall c :: c in found ==> c in Ids(b))
  {
    hide Pop;
    PopOutcome(b, now, dead);
    var p := Pop(b, now, dead);
    var n := |p.discarded|;
    var found := if p.found.Some? then [p.found.value] else [];
    assert Ids(b) == p.discarded + found + Ids(p.rest);
  }

  lemma TakeLocated<Key(!new)>(st: State<Key>, key: Key, now: real)
    requires Located(st)
    ensures Located(StepTake(st, key, now))
  {
    hide IdleLocated, WaitingLocated;
    PopPlaces(st, key, now);
    TakeIdleLocated(st, key, now);
    TakeWaitingLocated(st, StepTake(st, key, now), key);
  }

  /** What a take moves was idle under its key, and everything else stays put. */
  lemma PopPlaces<Key(!new)>(st: State<Key>, key: Key, now: real)
    requires IdleLocated(st)
    ensures var p := Pop(BucketOf(st.idle, key), now, st.dead);
            var places := StepTake(st, key, now).places;
            && (forall c :: c in p.discarded ==> c in st.places && st.places[c] == Idle(key))
            && (p.found.Some? ==> p.found.value in st.places && st.places[p.found.value] == Idle(key))
            && places.Keys == st.places.Keys
            && forall c :: c in places ==>
                 places[c] == if p.found == Some(c) then HandedOut
                              else if c in p.discarded then Closing else st.places[c]
  {
    hide Pop, Ids, MoveAll;
    if key in st.idle {
      PopSplits(st.idle[key], now, st.dead);
      var p := Pop(st.idle[key], now, st.dead);
      assert p.found.Some? ==> p.found.value in [p.found.value];
    } else {
      PopOutcome([], now, st.dead);
    }
  }

  lemma TakeIdleLocated<Key(!new)>(st: State<Key>, key: Key, now: real)
    requires IdleLocated(st)
    ensures IdleLocated(StepTake(st, key, now))
  {
    hide Pop, Ids, MoveAll, Distinct;
    PopPlaces(st, key, now);
    if key in st.idle {
      PopSplits(st.idle[key], now, st.dead);
    }
  }

  lemma TakeWaitingLocated<Key(!new)>(st: State<Key>, end: State<Key>, key: Key)
    requires WaitingLocated(st) && end.tasks == st.tasks && end.places.Keys == st.places.Keys
    requires forall c :: c in st.places && st.places[c] != Idle(key) ==> end.places[c] == st.places[c]
    requires forall c :: c in st.places && st.places[c] == Idle(key) ==> !end.places[c].Waiting?
    ensures WaitingLocated(end)
  {
    hide ReadyOf;
  }

  lemma {:induction false} ReadyMembers(handles: seq<Handle>, c: nat)
    ensures c in ReadyIds(handles) <==> Connected(c) in handles
  {
    if handles != [] {
      ReadyMembers(handles[1..], c);
      assert handles == [handles[0]] + handles[1..];
    }
  }

  lemma {:induction false} NoneReady(handles: seq<Handle>)
    requires forall i :: 0 <= i < |handles| ==> !handles[i].Connected?
    ensures ReadyIds(handles) == []
  {
    if handles != [] {
      NoneReady(handles[1..]);
    }
  }

  /** One connect finished: its connection, if any, joins the waiting ones. */
  lemma {:induction false} ReadyUpdate(handles: seq<Handle>, i: nat, outcome: Handle)
    requires i < |handles| && handles[i].Connecting? && !outcome.Connecting?
    requires Distinct(ReadyIds(handles)) && (outcome.Connected? ==> outcome.conn !in ReadyIds(handles))
    ensures var after := ReadyIds(handles[i := outcome]);
            && Distinct(after)
            && forall c :: c in after <==> c in ReadyIds(handles) || outcome == Connected(c)
  {
    var head := if handles[0].Connected? then [handles[0].conn] else [];
    assert ReadyIds(handles) == head + ReadyIds(handles[1..]);
    var after := handles[i := outcome];
    if i == 0 {
      assert after[1..] == handles[1..] && head == [];
      assert ReadyIds(handles) == ReadyIds(handles[1..]);
      if outcome.Connected? {
        DistinctCons(outcome.conn, ReadyIds(handles));
      }
    } else {
      assert after[1..] == handles[1..][i - 1 := outcome];
      DistinctTail(head, ReadyIds(handles[1..]));
      ReadyUpdate(handles[1..], i - 1, outcome);
      assert ReadyIds(after) == head + ReadyIds(after[1..]);
    }
  }

  lemma DistinctCons(c: nat, s: seq<nat>)
    requires Distinct(s) && c !in s
    ensures Distinct([c] + s)
  {
  }

  lemma DistinctTail(a: seq<nat>, b: seq<nat>)
    requires Distinct(a + b)
    ensures Distinct(b) && forall c :: c in a ==> c !in b
  {
    var s := a + b;
    forall i, j | 0 <= i < j < |b|
      ensures b[i] != b[j]
    {
      assert s[|a| + i] == b[i] && s[|a| + j] == b[j];
    }
    forall c | c in a
      ensures c !in b
    {
      var i :| 0 <= i < |a| && a[i] == c;
      forall j | 0 <= j < |b|
        ensures b[j] != c
      {
        assert s[i] == c && s[|a| + j] == b[j];
      }
    }
  }

  lemma ConnectDoneLocated<Key(!new)>(st: State<Key>, task: nat, index: nat, outcome: Handle)
    requires Located(st)
    ensures Located(StepConnectDone(st, task, index, outcome))
  {
    hide ReadyIds, Ids, Distinct;
    var end := StepConnectDone(st, task, index, outcome);
    if end != st {
      var handles := st.tasks[task].handles;
      assert ReadyOf(st.tasks[task]) == ReadyIds(handles);
      ReadyUpdate(handles, index, outcome);
      assert ReadyOf(end.tasks[task]) == ReadyIds(handles[index := outcome]);
    }
  }

  lemma CollectLocated<Key(!new)>(st: State<Key>, task: nat)
    requires Located(st)
    ensures Located(StepCollect(st, task))
  {
    hide Located;
    if task in st.tasks && st.tasks[task].Filling? && st.tasks[task].handles != []
       && !st.tasks[task].handles[0].Connecting? {
      if st.tasks[task].handles[0].Connected? {
        CollectOne(st, task);
      } else {
        SkipOne(st, task);
      }
    }
  }

  lemma SkipOne<Key(!new)>(st: State<Key>, task: nat)
    requires Located(st) && task in st.tasks && st.tasks[task].Filling? && st.tasks[task].handles != []
    requires st.tasks[task].handles[0].Refused?
    ensures Located(StepCollect(st, task))
  {
    var t := st.tasks[task];
    assert ReadyOf(t) == ReadyIds(t.handles[1..]) by {
      assert ReadyIds(t.handles) == [] + ReadyIds(t.handles[1..]);
    }
    var end := StepCollect(st, task);
    assert ReadyOf(end.tasks[task]) == ReadyOf(t);
    SameReady(st, end);
  }

  /** Steps that change no bucket and no set of waiting connections. */
  lemma SameReady<Key(!new)>(st: State<Key>, end: State<Key>)
    requires Located(st) && end.idle == st.idle && end.places == st.places && st.tasks.Keys <= end.tasks.Keys
    requires forall t :: t in end.tasks ==> ReadyOf(end.tasks[t]) == if t in st.tasks then ReadyOf(st.tasks[t]) else []
    ensures Located(end)
  {
    hide ReadyOf, Ids;
  }

  lemma CollectOne<Key(!new)>(st: State<Key>, task: nat)
    requires Located(st) && task in st.tasks && st.tasks[task].Filling? && st.tasks[task].handles != []
    requires st.tasks[task].handles[0].Connected?
    ensures Located(StepCollect(st, task))
  {
    hide ReadyIds, Ids;
    var t := st.tasks[task];
    var c := t.handles[0].conn;
    var b := BucketOf(st.idle, t.key);
    var end := StepCollect(st, task);
    ReadyHead(t.handles);
    DistinctTail([c], ReadyIds(t.handles[1..]));
    assert c in ReadyOf(t) && st.places[c] == Waiting(task);
    IdsSnoc(b, Entry(c, st.clock));
    assert c !in Ids(b) by {
      if t.key !in st.idle {
        assert |Ids(b)| == 0;
      }
    }
    assert end.idle[t.key] == b + [Entry(c, st.clock)];
    assert ReadyOf(end.tasks[task]) == ReadyIds(t.handles[1..]);
  }

  lemma ReadyHead(handles: seq<Handle>)
    requires handles != [] && handles[0].Connected?
    ensures ReadyIds(handles) == [handles[0].conn] + ReadyIds(handles[1..])
  {
  }

  lemma IdsSnoc(b: Bucket, e: Entry)
    ensures Ids(b + [e]) == Ids(b) + [e.conn]
    ensures Distinct(Ids(b)) && e.conn !in Ids(b) ==> Distinct(Ids(b + [e]))
  {
    assert Ids(b + [e]) == Ids(b) + [e.conn];
  }

  lemma MeasureLocated<Key(!new)>(size: nat, st: State<Key>, task: nat)
    requires Located(st)
    ensures Located(StepMeasure(size, st, task))
  {
    hide ReadyIds, Ids, Distinct;
    var end := StepMeasure(size, st, task);
    if task in st.tasks && st.tasks[task].Spawned? {
      NoneReady(end.tasks[task].handles);
      assert ReadyOf(end.tasks[task]) == [] == ReadyOf(st.tasks[task]);
    }
  }

  lemma ScheduleLocated<Key(!new)>(st: State<Key>, key: Key, task: nat)
    requires Located(st)
    ensures Located(StepSchedule(st, key, task))
  {
    hide Located;
    if StepSchedule(st, key, task) != st {
      SameReady(st, StepSchedule(st, key, task));
    }
  }

  lemma FinishLocated<Key(!new)>(st: State<Key>, task: nat)
    requires Located(st)
    ensures Located(StepFinish(st, task))
  {
    hide Located;
    if task in st.tasks && st.tasks[task].Filling? && st.tasks[task].handles == [] {
      assert ReadyOf(st.tasks[task]) == [];
      DropLocated(st, task);
      SameReady(st.(tasks := st.tasks - {task}), StepFinish(st, task));
    }
  }

  /** A task with nothing waiting can go. */
  lemma DropLocated<Key(!new)>(st: State<Key>, task: nat)
    requires Located(st) && task in st.tasks && ReadyOf(st.tasks[task]) == []
    ensures Located(st.(tasks := st.tasks - {task}))
  {
    hide Ids, ReadyOf, Distinct;
  }

  lemma StepLocated<Key(!new)>(size: nat, st: State<Key>, s: Step<Key>)
    requires Located(st)
    ensures Located(Apply(size, st, s))
  {
    hide Located, StepClearIdle, StepTake, StepSchedule, StepMeasure, StepConnectDone, StepCollect, StepFinish;
    match s
    case Tick(clock) => SameReady(st, Apply(size, st, s));
    case PeerCloses(conn) => SameReady(st, Apply(size, st, s));
    case Take(key, now) => TakeLocated(st, key, now);
    case Schedule(key, task) => ScheduleLocated(st, key, task);
    case Measure(task) => MeasureLocated(size, st, task);
    case ConnectDone(task, index, outcome) => ConnectDoneLocated(st, task, index, outcome);
    case Collect(task) => CollectLocated(st, task);
    case FinishTask(task) => FinishLocated(st, task);
    case ClearIdle => ClearIdleLocated(st);
    case ClearRefilling => SameReady(st, Apply(size, st, s));
  }

  lemma ClearIdleLocated<Key(!new)>(st: State<Key>)
    requires Located(st)
    ensures Located(StepClearIdle(st))
  {
    hide Ids, ReadyOf;
  }

  // ---------------------------------------------------------------- the size bound per key

  /** Outstanding connects of all tasks on a key, among the tasks numbered below n. */
  function Load<Key(==)>(tasks: map<nat, Refill<Key>>, key: Key, n: nat): nat {
    if n == 0 then 0
    else
      var t := n - 1;
      Load(tasks, key, t) + if t in tasks && tasks[t].key == key then Outstanding(tasks[t]) else 0
  }

  ghost predicate KeyBound<Key(!new)>(size: nat, st: State<Key>) {
    forall k, n :: |BucketOf(st.idle, k)| + Load(st.tasks, k, n) <= size
  }

  ghost predicate OneTask<Key>(st: State<Key>) {
    forall t, u :: t in st.tasks && u in st.tasks && st.tasks[t].key == st.tasks[u].key ==> t == u
  }

  /** With one task per key there is nothing to add up. */
  lemma {:induction false} LoadOfOne<Key(!new)>(st: State<Key>, key: Key, n: nat)
    requires OneTask(st)
    ensures Load(st.tasks, key, n) == 0
            || exists t :: 0 <= t < n && t in st.tasks && st.tasks[t].key == key
                 && Load(st.tasks, key, n) == Outstanding(st.tasks[t])
  {
    if n > 0 {
      LoadOfOne(st, key, n - 1);
    }
  }

  lemma SizeBoundPerKey<Key(!new)>(size: nat, st: State<Key>)
    requires OneTask(st) && SizeBound(size, st)
    ensures KeyBound(size, st)
  {
    forall k, n: nat
      ensures |BucketOf(st.idle, k)| + Load(st.tasks, k, n) <= size
    {
      LoadOfOne(st, k, n);
    }
  }

  lemma {:induction false} LoadIncludes<Key>(tasks: map<nat, Refill<Key>>, key: Key, n: nat, t: nat)
    requires t < n && t in tasks && tasks[t].key == key
    ensures Outstanding(tasks[t]) <= Load(tasks, key, n)
  {
    if t < n - 1 {
      LoadIncludes(tasks, key, n - 1, t);
    }
  }

  lemma {:induction false} LoadOfTwo<Key>(tasks: map<nat, Refill<Key>>, key: Key, t: nat, u: nat)
    requires t < u && t in tasks && u in tasks && tasks[t].key == tasks[u].key == key
    ensures Outstanding(tasks[t]) + Outstanding(tasks[u]) <= Load(tasks, key, u + 1)
  {
    LoadIncludes(tasks, key, u, t);
  }

  // ---------------------------------------------------------------- every interleaving

  /** Whenever the refilling set is cleared it is empty already. */
  predicate Tame<Key(==)>(size: nat, st: State<Key>, steps: seq<Step<Key>>) {
    steps == []
    || (var n := |steps| - 1;
        && Tame(size, st, steps[..n])
        && (steps[n].ClearRefilling? ==> Run(size, st, steps[..n]).refilling == {}))
  }

  ghost predicate Sound<Key(!new)>(size: nat, st: State<Key>) {
    OneRefill(st) && SizeBound(size, st)
  }

  lemma StepSound<Key(!new)>(size: nat, st: State<Key>, s: Step<Key>)
    requires Sound(size, st) && (s.ClearRefilling? ==> st.refilling == {})
    ensures Sound(size, Apply(size, st, s))
  {
    if !s.ClearRefilling? {
      StepOneRefill(size, st, s);
      StepSizeBound(size, st, s);
    }
  }

  lemma {:induction false} RunSound<Key(!new)>(size: nat, st: State<Key>, steps: seq<Step<Key>>)
    requires Sound(size, st) && Tame(size, st, steps)
    ensures Sound(size, Run(size, st, steps))
  {
    hide Sound, Apply;
    if steps != [] {
      var n := |steps| - 1;
      RunSound(size, st, steps[..n]);
      StepSound(size, Run(size, st, steps[..n]), steps[n]);
    }
  }

  /** No interleaving of takers, refill tasks, closing peers and resets disorders a bucket
      or misplaces a connection; and with a constant pool size and a refilling set never
      cleared while it records a refill, none starts a second refill of a key or exceeds
      the size. */
  lemma {:induction false} RunInvariant<Key(!new)>(size: nat, steps: seq<Step<Key>>)
    ensures var st := Run(size, Empty<Key>(), steps);
            && Chronological(st) && Located(st)
            && (Tame(size, Empty<Key>(), steps) ==> OneRefill(st) && SizeBound(size, st) && KeyBound(size, st))
  {
    hide Sound, SizeBound, Chronological, Located, Apply, KeyBound;
    EmptyInvariant<Key>(size);
    if Tame(size, Empty<Key>(), steps) {
      RunSound(size, Empty<Key>(), steps);
      SoundParts(size, Run(size, Empty<Key>(), steps));
    }
    if steps != [] {
      var n := |steps| - 1;
      RunInvariant(size, steps[..n]);
      var st := Run(size, Empty<Key>(), steps[..n]);
      StepChronological(size, st, steps[n]);
      StepLocated(size, st, steps[n]);
    }
  }

  lemma SoundParts<Key(!new)>(size: nat, st: State<Key>)
    requires Sound(size, st)
    ensures OneRefill(st) && SizeBound(size, st) && KeyBound(size, st) && OneTask(st)
  {
    SizeBoundPerKey(size, st);
  }

  lemma EmptyInvariant<Key(!new)>(size: nat)
    ensures Sound(size, Empty<Key>()) && Chronological(Empty<Key>()) && Located(Empty<Key>())
  {
  }

  /** Once handed out or being closed, a connection never comes back into the pool, and a
      made connection is never forgotten. */
  lemma StepFinal<Key(!new)>(size: nat, st: State<Key>, s: Step<Key>, c: nat)
    requires Located(st) && c in st.places
    ensures var end := Apply(size, st, s);
            && c in end.places
            && (st.places[c] in {HandedOut, Closing} ==> end.places[c] == st.places[c])
  {
    hide Pop, ReadyIds, Ids, MoveAll;
    if s.Take? {
      PopPlaces(st, s.key, s.now);
    } else if s.Collect? && s.task in st.tasks && st.tasks[s.task].Filling? && st.tasks[s.task].handles != []
              && st.tasks[s.task].handles[0].Connected? {
      ReadyHead(st.tasks[s.task].handles);
      assert st.tasks[s.task].handles[0].conn in ReadyOf(st.tasks[s.task]);
    }
  }

  /** In every reachable state get hands out the oldest connection of the key that is open
      and at most 120 s old, closes none but those closed already or older, and comes back
      empty-handed exactly when there are no others. */
  lemma GetTakesOldest<Key(!new)>(size: nat, steps: seq<Step<Key>>, key: Key, now: real)
    ensures var st := Run(size, Empty<Key>(), steps);
            var b := BucketOf(st.idle, key);
            var p, end := Pop(b, now, st.dead), StepTake(st, key, now);
            && (p.found.Some? ==>
                  && p.found.value in end.places && end.places[p.found.value] == HandedOut
                  && exists i :: FoundAt(b, now, st.dead, p, i) && BucketOf(end.idle, key) == b[i + 1..])
            && (p.found == None <==> forall j :: 0 <= j < |b| ==> b[j].conn in st.dead || now - b[j].created > 120.0)
            && (p.found == None ==> BucketOf(end.idle, key) == [])
            && (forall c :: c in p.discarded ==>
                  && c in end.places && end.places[c] == Closing
                  && exists j :: 0 <= j < |b| && b[j].conn == c && (c in st.dead || now - b[j].created > 120.0))
  {
    hide Pop, Run, MoveAll, Chronological, Located, OneRefill, SizeBound, KeyBound, Tame, StepTake;
    RunInvariant(size, steps);
    var st := Run(size, Empty<Key>(), steps);
    TakeFinds(st, key, now);
    TakeDiscards(st, key, now);
  }

  lemma TakeFinds<Key(!new)>(st: State<Key>, key: Key, now: real)
    requires Chronological(st) && Located(st)
    ensures var b := BucketOf(st.idle, key);
            var p, end := Pop(b, now, st.dead), StepTake(st, key, now);
            && (p.found.Some? ==>
                  && p.found.value in end.places && end.places[p.found.value] == HandedOut
                  && exists i :: FoundAt(b, now, st.dead, p, i) && BucketOf(end.idle, key) == b[i + 1..])
            && (p.found == None <==> forall j :: 0 <= j < |b| ==> b[j].conn in st.dead || now - b[j].created > 120.0)
            && (p.found == None ==> BucketOf(end.idle, key) == [])
  {
    hide Pop, MoveAll, Located, Ids, FoundAt;
    var b := BucketOf(st.idle, key);
    assert Sorted(b);
    PopFinds(b, now, st.dead);
    LocatedParts(st);
    PopPlaces(st, key, now);
    RestStays(st, key, now);
    if Pop(b, now, st.dead).found.Some? {
      var i :| FoundAt(b, now, st.dead, Pop(b, now, st.dead), i);
      assert Pop(b, now, st.dead).rest == b[i + 1..] by {
        FoundRest(b, now, st.dead, i);
      }
    }
  }

  lemma FoundRest(b: Bucket, now: real, dead: set<nat>, i: nat)
    requires FoundAt(b, now, dead, Pop(b, now, dead), i)
    ensures i < |b| && Pop(b, now, dead).rest == b[i + 1..]
  {
  }

  lemma RestStays<Key>(st: State<Key>, key: Key, now: real)
    ensures BucketOf(StepTake(st, key, now).idle, key) == Pop(BucketOf(st.idle, key), now, st.dead).rest
  {
    hide MoveAll;
    PopOutcome(BucketOf(st.idle, key), now, st.dead);
  }

  lemma LocatedParts<Key(!new)>(st: State<Key>)
    requires Located(st)
    ensures IdleLocated(st) && WaitingLocated(st)
  {
  }

  lemma TakeDiscards<Key(!new)>(st: State<Key>, key: Key, now: real)
    requires Located(st)
    ensures var b := BucketOf(st.idle, key);
            var p, end := Pop(b, now, st.dead), StepTake(st, key, now);
            forall c :: c in p.discarded ==>
              && c in end.places && end.places[c] == Closing
              && exists j :: 0 <= j < |b| && b[j].conn == c && (c in st.dead || now - b[j].created > 120.0)
  {
    hide Pop, MoveAll, IdleLocated, WaitingLocated;
    var b := BucketOf(st.idle, key);
    PopOutcome(b, now, st.dead);
    PopPlaces(st, key, now);
    FoundNotDiscarded(st, key, now);
    var p := Pop(b, now, st.dead);
    forall c | c in p.discarded
      ensures exists j :: 0 <= j < |b| && b[j].conn == c && !Fresh(b[j], now, st.dead)
    {
      var j :| 0 <= j < |p.discarded| && p.discarded[j] == c;
      assert Ids(b)[..|p.discarded|][j] == b[j].conn;
    }
  }

  lemma FoundNotDiscarded<Key(!new)>(st: State<Key>, key: Key, now: real)
    requires Located(st)
    ensures var p := Pop(BucketOf(st.idle, key), now, st.dead); p.found.Some? ==> p.found.value !in p.discarded
  {
    hide Pop;
    if key in st.idle {
      PopSplits(st.idle[key], now, st.dead);
    } else {
      PopOutcome([], now, st.dead);
    }
  }

  /** A connection is as old as the time since it was put into the pool. */
  lemma EntriesAreStamped<Key(!new)>(size: nat, st: State<Key>, s: Step<Key>, key: Key, e: Entry)
    requires e in BucketOf(Apply(size, st, s).idle, key)
    ensures e in BucketOf(st.idle, key)
            || (s.Collect? && e.created == st.clock && s.task in st.tasks && st.tasks[s.task].key == key
                && st.tasks[s.task].Filling? && st.tasks[s.task].handles[..1] == [Connected(e.conn)])
  {
    hide Pop, MoveAll;
    if s.Take? {
      PopOutcome(BucketOf(st.idle, s.key), s.now, st.dead);
    }
  }

  /** Nothing holds up the steps that are due: time passes, peers close, a key with no
      recorded refill gets a task, and a reset closes what was idle and only that. */
  lemma StepsHappen<Key(!new)>(size: nat, st: State<Key>, key: Key, task: nat, conn: nat, now: real)
    requires now >= st.clock
    ensures Apply(size, st, Tick(now)) == st.(clock := now)
    ensures Apply(size, st.(clock := now), Take(key, now)) == StepTake(st.(clock := now), key, now)
    ensures Apply(size, st, PeerCloses(conn)) == st.(dead := st.dead + {conn})
    ensures key !in st.refilling && task !in st.tasks ==>
              Apply(size, st, Schedule(key, task))
              == st.(refilling := st.refilling + {key}, tasks := st.tasks[task := Spawned(key)])
    ensures key in st.refilling ==> Apply(size, st, Schedule(key, task)) == st
    ensures var end := Apply(size, st, ClearIdle);
            && end.places.Keys == st.places.Keys && end.idle == map[]
            && forall c :: c in st.places ==> end.places[c] == if st.places[c].Idle? then Closing else st.places[c]
  {
    hide Pop, MoveAll;
  }

  // ---------------------------------------------------------------- the pool object in the protocol

  lemma RunNext<Key>(size: nat, st: State<Key>, steps: seq<Step<Key>>, n: nat)
    requires n < |steps|
    ensures Run(size, st, steps[..n + 1]) == Apply(size, Run(size, st, steps[..n]), steps[n])
  {
    assert steps[..n + 1][..n] == steps[..n];
  }

  /** get under the idle lock, and where the connections it moves go. */
  method TakeOne<Key(==)>(pool: WsPool<Key>, key: Key, now: real, dead: set<nat>, before: map<nat, Place<Key>>)
    returns (places: map<nat, Place<Key>>)
    modifies pool`idle
    ensures pool.idle == Taken(old(pool.idle), key, now, dead)
    ensures var p := Pop(BucketOf(old(pool.idle), key), now, dead);
            var placed := MoveAll(before, p.discarded, Closing);
            places == if p.found.Some? then placed[p.found.value := HandedOut] else placed
  {
    var found, discarded := pool.Take(key, now, dead);
    places := MoveAll(before, discarded, Closing);
    if found.Some? {
      places := places[found.value := HandedOut];
    }
  }

  /** Takers and refill tasks around one pool object, in any order: the object's buckets
      and refilling set, and the rest of the world, follow the protocol. */
  method RunSteps<Key(==)>(pool: WsPool<Key>, size: nat, steps: seq<Step<Key>>)
    returns (clock: real, tasks: map<nat, Refill<Key>>, dead: set<nat>, places: map<nat, Place<Key>>)
    requires pool.idle == map[] && pool.refilling == {}
    modifies pool
    ensures State(clock, pool.idle, pool.refilling, tasks, dead, places) == Run(size, Empty(), steps)
  {
    hide Pop, MoveAll;
    clock, tasks, dead, places := 0.0, map[], {}, map[];
    assert steps[..0] == [] && Run(size, Empty<Key>(), []) == Empty();
    for n := 0 to |steps|
      invariant State(clock, pool.idle, pool.refilling, tasks, dead, places) == Run(size, Empty(), steps[..n])
    {
      RunNext(size, Empty<Key>(), steps, n);
      ghost var before := Run(size, Empty(), steps[..n]);
      match steps[n] {
        case Tick(later) =>
          clock := if later >= clock then later else clock;
        case PeerCloses(conn) =>
          dead := dead + {conn};
        case Take(key, now) =>
          if now <= clock {
            places := TakeOne(pool, key, now, dead, places);
          }
        case Schedule(key, task) =>
          if task !in tasks {
            var spawned := pool.ScheduleRefill(key);
            tasks := if spawned then tasks[task := Spawned(key)] else tasks;
          }
        case Measure(task) =>
          if task in tasks && tasks[task].Spawned? {
            var needed := pool.Measure(tasks[task].key, size);
            tasks := tasks[task := Filling(tasks[task].key, seq(needed, _ => Connecting))];
          }
        case ConnectDone(task, index, outcome) =>
          if task in tasks && tasks[task].Filling? && index < |tasks[task].handles|
             && tasks[task].handles[index].Connecting? && !outcome.Connecting?
             && (outcome.Connected? ==> outcome.conn !in places) {
            var t := tasks[task];
            tasks := tasks[task := t.(handles := t.handles[index := outcome])];
            places := if outcome.Connected? then places[outcome.conn := Waiting(task)] else places;
          }
        case Collect(task) =>
          if task in tasks && tasks[task].Filling? && tasks[task].handles != [] && !tasks[task].handles[0].Connecting? {
            var t := tasks[task];
            if t.handles[0].Connected? {
              pool.PutBack(t.key, t.handles[0].conn, clock);
              places := places[t.handles[0].conn := Idle(t.key)];
            }
            tasks := tasks[task := t.(handles := t.handles[1..])];
          }
        case FinishTask(task) =>
          if task in tasks && tasks[task].Filling? && tasks[task].handles == [] {
            pool.FinishRefill(tasks[task].key);
            tasks := tasks - {task};
          }
        case ClearIdle =>
          pool.ClearIdle();
          places := map c | c in places :: if places[c].Idle? then Closing else places[c];
        case ClearRefilling =>
          pool.ClearRefilling();
      }
      assert State(clock, pool.idle, pool.refilling, tasks, dead, places) == Apply(size, before, steps[n]);
    }
    assert steps[..|steps|] == steps;
  }
}

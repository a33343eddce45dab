/** What one refill that nothing disturbs brings about. */
module PoolRefill {
  import opened Octets
  import opened Pool
  import opened PoolProtocol
  import opened PoolReset

  function Dones<Key>(task: nat, conns: seq<nat>): seq<Step<Key>> {
    seq(|conns|, i requires 0 <= i < |conns| => ConnectDone(task, i, Connected(conns[i])))
  }

  function Entries(conns: seq<nat>, at: real): (b: Bucket)
    ensures |b| == |conns|
  {
    seq(|conns|, i requires 0 <= i < |conns| => Entry(conns[i], at))
  }

  /** The handles of a task whose first k connects are done. */
  function Handles(conns: seq<nat>, k: nat): (r: seq<Handle>)
    ensures |r| == |conns|
  {
    seq(|conns|, i requires 0 <= i < |conns| => if i < k then Connected(conns[i]) else Connecting)
  }

  predicate New<Key>(st: State<Key>, conns: seq<nat>) {
    Distinct(conns) && forall c :: c in conns ==> c !in st.places
  }

  lemma MoveOneMore<Key>(places: map<nat, Place<Key>>, conns: seq<nat>, k: nat, place: Place<Key>)
    requires k < |conns|
    ensures MoveAll(places, conns[..k], place)[conns[k] := place] == MoveAll(places, conns[..k + 1], place)
    ensures Distinct(conns) && conns[k] !in places ==> conns[k] !in MoveAll(places, conns[..k], place)
  {
    assert conns[..k + 1] == conns[..k] + [conns[k]];
  }

  lemma MoveNone<Key>(places: map<nat, Place<Key>>, place: Place<Key>)
    ensures MoveAll(places, [], place) == places
  {
  }

  /** The state when k connects of a task are done. */
  function Dialled<Key>(st: State<Key>, task: nat, key: Key, conns: seq<nat>, k: nat): State<Key>
    requires k <= |conns|
  {
    st.(tasks := st.tasks[task := Filling(key, Handles(conns, k))],
        places := MoveAll(st.places, conns[..k], Waiting(task)))
  }

  lemma ConnectNext<Key>(size: nat, st: State<Key>, task: nat, key: Key, conns: seq<nat>, k: nat)
    requires New(st, conns) && k < |conns|
    ensures Apply(size, Dialled(st, task, key, conns, k), ConnectDone(task, k, Connected(conns[k])))
            == Dialled(st, task, key, conns, k + 1)
  {
    hide MoveAll;
    MoveOneMore(st.places, conns, k, Waiting(task));
    assert Handles(conns, k)[k := Connected(conns[k])] == Handles(conns, k + 1);
  }

  lemma {:induction false} ConnectAll<Key>(size: nat, st: State<Key>, task: nat, key: Key, conns: seq<nat>, k: nat)
    requires task in st.tasks && st.tasks[task] == Filling(key, Handles(conns, 0))
    requires New(st, conns) && k <= |conns|
    ensures Run(size, st, Dones(task, conns)[..k]) == Dialled(st, task, key, conns, k)
  {
    if k == 0 {
      MoveNone(st.places, Waiting(task));
      assert st.tasks[task := st.tasks[task]] == st.tasks;
    } else {
      hide Apply, Run, Dialled;
      ConnectAll(size, st, task, key, conns, k - 1);
      RunNext(size, st, Dones(task, conns), k - 1);
      ConnectNext(size, st, task, key, conns, k - 1);
    }
  }

  /** The state when the first k connections of a task are in the bucket. */
  function Collecting<Key>(st: State<Key>, task: nat, key: Key, conns: seq<nat>, k: nat): State<Key>
    requires k <= |conns| && key in st.idle
  {
    st.(tasks := st.tasks[task := Filling(key, Handles(conns, |conns|)[k..])],
        idle := st.idle[key := st.idle[key] + Entries(conns, st.clock)[..k]],
        places := MoveAll(st.places, conns[..k], Idle(key)))
  }

  lemma CollectNext<Key>(size: nat, st: State<Key>, task: nat, key: Key, conns: seq<nat>, k: nat)
    requires k < |conns| && key in st.idle
    ensures Apply(size, Collecting(st, task, key, conns, k), Collect(task)) == Collecting(st, task, key, conns, k + 1)
  {
    hide MoveAll;
    MoveOneMore(st.places, conns, k, Idle(key));
    var all, handles := Entries(conns, st.clock), Handles(conns, |conns|);
    assert handles[k..][0] == Connected(conns[k]) && handles[k..][1..] == handles[k + 1..];
    assert all[..k] + [Entry(conns[k], st.clock)] == all[..k + 1];
    Associative(st.idle[key], all[..k], [Entry(conns[k], st.clock)]);
  }

  lemma {:induction false} CollectAll<Key>(size: nat, st: State<Key>, task: nat, key: Key, conns: seq<nat>, k: nat)
    requires task in st.tasks && st.tasks[task] == Filling(key, Handles(conns, |conns|))
    requires key in st.idle && k <= |conns|
    ensures Run(size, st, seq(|conns|, _ => Collect(task))[..k]) == Collecting(st, task, key, conns, k)
  {
    if k == 0 {
      MoveNone(st.places, Idle(key));
      assert st.tasks[task := st.tasks[task]] == st.tasks && st.idle[key] + [] == st.idle[key];
      assert st.idle[key := st.idle[key]] == st.idle;
    } else {
      hide Apply, Run, Collecting;
      CollectAll(size, st, task, key, conns, k - 1);
      RunNext(size, st, seq(|conns|, _ => Collect(task)), k - 1);
      CollectNext(size, st, task, key, conns, k - 1);
    }
  }

  /** A refill all of whose connects succeed fills the bucket to the pool size, stamps the
      new connections with the time, and lets the key be refilled again. */
  lemma RefillFills<Key(!new)>(size: nat, st: State<Key>, task: nat, key: Key, conns: seq<nat>)
    requires task in st.tasks && st.tasks[task] == Spawned(key) && New(st, conns)
    requires var have := |BucketOf(st.idle, key)|; |conns| == if have < size then size - have else 0
    ensures var steps := [Measure(task)]
                         + (Dones(task, conns) + (seq(|conns|, _ => Collect(task)) + [FinishTask(task)]));
            var end := Run(size, st, steps);
            && BucketOf(end.idle, key) == BucketOf(st.idle, key) + Entries(conns, st.clock)
            && (|BucketOf(st.idle, key)| <= size ==> |BucketOf(end.idle, key)| == size)
            && end.refilling == st.refilling - {key} && end.tasks == st.tasks - {task}
            && forall c :: c in conns ==> c in end.places && end.places[c] == Idle(key)
  {
    var b, n := BucketOf(st.idle, key), |conns|;
    var collects: seq<Step<Key>> := seq(n, _ => Collect(task));
    var one := Apply(size, st, Measure(task));
    assert seq(n, _ => Connecting) == Handles(conns, 0);
    assert one == st.(idle := st.idle[key := b], tasks := st.tasks[task := Filling(key, Handles(conns, 0))]);
    RunCons(size, st, Measure(task), Dones(task, conns) + (collects + [FinishTask(task)]));
    hide Apply, Run;
    RunConcat(size, one, Dones(task, conns), collects + [FinishTask(task)]);
    ConnectAll(size, one, task, key, conns, n);
    assert Dones<Key>(task, conns)[..n] == Dones(task, conns) && conns[..n] == conns;
    var two := Run(size, one, Dones(task, conns));
    RunConcat(size, two, collects, [FinishTask(task)]);
    CollectAll(size, two, task, key, conns, n);
    assert collects[..n] == collects && Entries(conns, st.clock)[..n] == Entries(conns, st.clock);
    var three := Run(size, two, collects);
    assert Handles(conns, n)[n..] == [];
    RunOne(size, three, FinishTask(task));
    FinishApplies(size, three, task, key);
    assert three.tasks - {task} == st.tasks - {task};
  }

  lemma FinishApplies<Key>(size: nat, st: State<Key>, task: nat, key: Key)
    requires task in st.tasks && st.tasks[task] == Filling(key, [])
    ensures Apply(size, st, FinishTask(task)) == st.(refilling := st.refilling - {key}, tasks := st.tasks - {task})
  {
  }
}

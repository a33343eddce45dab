/** The pool of idle WebSocket connections: takers and refill tasks as interleaved
    atomic steps over the buckets and the set of keys being refilled. */
module Pool {
  import opened Octets

  /** A connection, named by a number, and when it was put into the pool. */
  datatype Entry = Entry(conn: nat, created: real)
  type Bucket = seq<Entry>

  const MAX_AGE: real := 120.0

  function Ids(b: Bucket): (r: seq<nat>)
    ensures |r| == |b|
    ensures forall i :: 0 <= i < |b| ==> r[i] == b[i].conn
  {
    seq(|b|, i requires 0 <= i < |b| => b[i].conn)
  }

  predicate Distinct(s: seq<nat>) {
    forall i, j :: 0 <= i < j < |s| ==> s[i] != s[j]
  }

  predicate Sorted(b: Bucket) {
    forall i, j :: 0 <= i < j < |b| ==> b[i].created <= b[j].created
  }

  // ---------------------------------------------------------------- taking a connection

  /** Too old at `now` (an age is never negative), or closed meanwhile. */
  predicate Stale(e: Entry, now: real, dead: set<nat>) {
    (if now > e.created then now - e.created else 0.0) > MAX_AGE || e.conn in dead
  }

  /** What a client may be given: open, and put into the pool at most two minutes ago. */
  predicate Fresh(e: Entry, now: real, dead: set<nat>) {
    e.conn !in dead && now - e.created <= 120.0
  }

  lemma FreshOrStale(e: Entry, now: real, dead: set<nat>)
    ensures Fresh(e, now, dead) <==> !Stale(e, now, dead)
  {
  }

  datatype Popped = Popped(rest: Bucket, found: Option<nat>, discarded: seq<nat>)

  function Pop(b: Bucket, now: real, dead: set<nat>): Popped {
    if b == [] then Popped([], None, [])
    else if Stale(b[0], now, dead) then
      var p := Pop(b[1..], now, dead);
      p.(discarded := [b[0].conn] + p.discarded)
    else Popped(b[1..], Some(b[0].conn), [])
  }

  /** What a taker gets: the first fresh connection; exactly the ones before it, none of
      them fresh, are discarded; nothing exactly when none is fresh. */
  lemma {:induction false} PopOutcome(b: Bucket, now: real, dead: set<nat>)
    ensures var p := Pop(b, now, dead);
            var n := |p.discarded|;
            && n <= |b| && p.discarded == Ids(b)[..n]
            && (forall i :: 0 <= i < n ==> !Fresh(b[i], now, dead))
            && (p.found.Some? <==> n < |b|)
            && (p.found.Some? ==> p.found == Some(b[n].conn) && Fresh(b[n], now, dead) && p.rest == b[n + 1..])
            && (p.found == None ==> p.rest == [])
  {
    if b != [] && Stale(b[0], now, dead) {
      PopOutcome(b[1..], now, dead);
      var p := Pop(b[1..], now, dead);
      var n := |p.discarded|;
      assert [b[0].conn] + Ids(b[1..])[..n] == Ids(b)[..n + 1];
      forall i | 0 <= i < n + 1
        ensures !Fresh(b[i], now, dead)
      {
        if i > 0 {
          assert b[i] == b[1..][i - 1];
        }
      }
      if p.found.Some? {
        assert b[1..][n + 1..] == b[n + 2..];
      }
    }
  }

  /** In a bucket sorted by creation time that is the oldest fresh connection. */
  lemma PopIsOldest(b: Bucket, now: real, dead: set<nat>)
    requires Sorted(b)
    ensures var p := Pop(b, now, dead);
            p.found.Some? ==>
              exists i :: 0 <= i < |b| && p.found == Some(b[i].conn) && Fresh(b[i], now, dead)
                && forall j :: 0 <= j < |b| && Fresh(b[j], now, dead) ==> b[i].created <= b[j].created
    ensures Pop(b, now, dead).found == None <==> forall j :: 0 <= j < |b| ==> !Fresh(b[j], now, dead)
  {
    PopOutcome(b, now, dead);
    var n := |Pop(b, now, dead).discarded|;
    if n < |b| {
      assert Fresh(b[n], now, dead);
    }
  }

  /** The connection found is the i-th of its bucket, and what is behind it stays. */
  ghost predicate FoundAt(b: Bucket, now: real, dead: set<nat>, p: Popped, i: nat) {
    && i < |b| && p.found == Some(b[i].conn) && p.rest == b[i + 1..]
    && b[i].conn !in dead && now - b[i].created <= 120.0
    && forall j :: 0 <= j < |b| && b[j].conn !in dead && now - b[j].created <= 120.0 ==> b[i].created <= b[j].created
  }

  lemma PopFinds(b: Bucket, now: real, dead: set<nat>)
    requires Sorted(b)
    ensures var p := Pop(b, now, dead);
            && (p.found.Some? ==> exists i :: FoundAt(b, now, dead, p, i))
            && (p.found == None ==> p.rest == [])
            && (p.found == None <==> forall j :: 0 <= j < |b| ==> b[j].conn in dead || now - b[j].created > 120.0)
  {
    hide Pop;
    PopOutcome(b, now, dead);
    var p := Pop(b, now, dead);
    var n := |p.discarded|;
    if p.found.Some? {
      assert Fresh(b[n], now, dead);
      forall j | 0 <= j < |b| && b[j].conn !in dead && now - b[j].created <= 120.0
        ensures b[n].created <= b[j].created
      {
        assert Fresh(b[j], now, dead);
      }
      assert FoundAt(b, now, dead, p, n);
    } else {
      assert forall j :: 0 <= j < |b| ==> !Fresh(b[j], now, dead);
    }
  }

  // ---------------------------------------------------------------- the pool object

  class WsPool<Key(==)> {
    var idle: map<Key, Bucket>
    var refilling: set<Key>

    constructor ()
      ensures idle == map[] && refilling == {}
    {
      idle, refilling := map[], {};
    }

    /** The part of get under the idle lock. */
    method Take(key: Key, now: real, dead: set<nat>) returns (found: Option<nat>, discarded: seq<nat>)
      modifies this`idle
      ensures idle == Taken(old(idle), key, now, dead)
      ensures var p := Pop(BucketOf(old(idle), key), now, dead);
              found == p.found && discarded == p.discarded
    {
      discarded, found := [], None;
      if key !in idle {
        return;
      }
      var bucket := idle[key];
      ghost var all := bucket;
      while bucket != []
        invariant idle == old(idle)
        invariant var p := Pop(bucket, now, dead); Pop(all, now, dead) == p.(discarded := discarded + p.discarded)
      {
        ghost var here := Pop(bucket, now, dead);
        var e := bucket[0];
        bucket := bucket[1..];
        var age := if now > e.created then now - e.created else 0.0;
        if age > 120.0 || e.conn in dead {
          Associative(discarded, [e.conn], Pop(bucket, now, dead).discarded);
          discarded := discarded + [e.conn];
          continue;
        }
        assert here == Popped(bucket, Some(e.conn), []) && discarded + [] == discarded;
        found := Some(e.conn);
        break;
      }
      assert found == None ==> Pop(bucket, now, dead) == Popped([], None, []) && discarded + [] == discarded;
      assert Pop(all, now, dead) == Popped(bucket, found, discarded);
      idle := idle[key := bucket];
    }

    /** True when a refill task was spawned. */
    method ScheduleRefill(key: Key) returns (spawned: bool)
      modifies this`refilling
      ensures spawned == (key !in old(refilling)) && refilling == old(refilling) + {key}
    {
      if key in refilling {
        return false;
      }
      refilling := refilling + {key};
      return true;
    }

    /** How many connections a refill task opens. */
    method Measure(key: Key, poolSize: nat) returns (needed: nat)
      modifies this`idle
      ensures needed == Needed(BucketOf(old(idle), key), poolSize)
      ensures idle == old(idle)[key := BucketOf(old(idle), key)]
    {
      if key !in idle {
        idle := idle[key := []];
      }
      needed := if |idle[key]| < poolSize then poolSize - |idle[key]| else 0;
    }

    method PutBack(key: Key, conn: nat, now: real)
      modifies this`idle
      ensures idle == old(idle)[key := BucketOf(old(idle), key) + [Entry(conn, now)]]
    {
      idle := idle[key := BucketOf(idle, key) + [Entry(conn, now)]];
    }

    method FinishRefill(key: Key)
      modifies this`refilling
      ensures refilling == old(refilling) - {key}
    {
      refilling := refilling - {key};
    }

    /** The first half of reset, under the idle lock. */
    method ClearIdle()
      modifies this`idle
      ensures idle == map[]
    {
      idle := map[];
    }

    /** The second half of reset, under the refilling lock. */
    method ClearRefilling()
      modifies this`refilling
      ensures refilling == {}
    {
      refilling := {};
    }
  }

  function BucketOf<Key(==)>(idle: map<Key, Bucket>, key: Key): Bucket {
    if key in idle then idle[key] else []
  }

  function Taken<Key(==)>(idle: map<Key, Bucket>, key: Key, now: real, dead: set<nat>): map<Key, Bucket> {
    if key in idle then idle[key := Pop(idle[key], now, dead).rest] else idle
  }

  function Needed(b: Bucket, poolSize: nat): nat {
    if |b| < poolSize then poolSize - |b| else 0
  }
}

/** Choosing between a direct WebSocket and the fallback: the blacklist and the cooldown
    map, as client handlers interleave. */
module Route {
  import opened Octets

  // ---------------------------------------------------------------- keys

  function Decimal(n: nat): (s: string)
    ensures s != [] && forall i :: 0 <= i < |s| ==> '0' <= s[i] <= '9'
  {
    var digit := ['0' + (n % 10) as char];
    if n < 10 then digit else Decimal(n / 10) + digit
  }

  /** The key of a data centre and media flag. */
  function DcKey(dc: nat, isMedia: bool): string {
    Decimal(dc) + if isMedia then "m" else ""
  }

  lemma {:induction false} DecimalInjective(a: nat, b: nat)
    requires Decimal(a) == Decimal(b)
    ensures a == b
    decreases a
  {
    var s, t := Decimal(a), Decimal(b);
    assert s[|s| - 1] == '0' + (a % 10) as char && t[|t| - 1] == '0' + (b % 10) as char;
    assert a % 10 == b % 10;
    if a >= 10 && b >= 10 {
      assert s[..|s| - 1] == Decimal(a / 10) && t[..|t| - 1] == Decimal(b / 10);
      DecimalInjective(a / 10, b / 10);
    }
  }

  /** Different data centres and media flags never share a key. */
  lemma DcKeyInjective(a: nat, am: bool, b: nat, bm: bool)
    requires DcKey(a, am) == DcKey(b, bm)
    ensures a == b && am == bm
  {
    var s, t := DcKey(a, am), DcKey(b, bm);
    var da, db := Decimal(a), Decimal(b);
    assert s[|s| - 1] == if am then 'm' else da[|da| - 1];
    assert t[|t| - 1] == if bm then 'm' else db[|db| - 1];
    assert am == bm;
    assert s[..|da|] == da && t[..|db|] == db;
    DecimalInjective(a, b);
  }

  // ---------------------------------------------------------------- one direct attempt

  /** What connecting to one domain would end in. */
  datatype Attempt = Opened | Redirected | HandshakeFailed | ConnectFailed

  datatype Verdict = Succeeded | AllRedirected | Failed

  /** The meaning of an attempt over all domains. */
  function VerdictOf(poolHit: bool, outcomes: seq<Attempt>): Verdict {
    if poolHit || Opened in outcomes then Succeeded
    else if outcomes != [] && forall i :: 0 <= i < |outcomes| ==> outcomes[i].Redirected? then AllRedirected
    else Failed
  }

  const DC_FAIL_COOLDOWN: real := 30.0
  const WS_FAIL_TIMEOUT: real := 2.0
  const WS_TIMEOUT: real := 10.0

  datatype Decision = Fallback | Direct(timeout: real)

  function Decide(blacklist: set<string>, failUntil: map<string, real>, configured: bool, key: string, now: real)
    : Decision
  {
    if !configured || key in blacklist then Fallback
    else Direct(if now < (if key in failUntil then failUntil[key] else 0.0) then WS_FAIL_TIMEOUT else WS_TIMEOUT)
  }

  /** The shared routing state of all client handlers. */
  class Router {
    var wsBlacklist: set<string>
    var dcFailUntil: map<string, real>

    constructor ()
      ensures wsBlacklist == {} && dcFailUntil == map[]
    {
      wsBlacklist, dcFailUntil := {}, map[];
    }

    /** Up to the first await: fall back, or try directly with some timeout. */
    method Check(configured: bool, key: string, now: real) returns (d: Decision)
      ensures d == Decide(wsBlacklist, dcFailUntil, configured, key, now)
    {
      if !configured || key in wsBlacklist {
        return Fallback;
      }
      var until := 0.0;
      if key in dcFailUntil {
        until := dcFailUntil[key];
      }
      return Direct(if now < until then WS_FAIL_TIMEOUT else WS_TIMEOUT);
    }

    /** After the attempt: try the domains in order, then update the shared state. */
    method TryDirect(key: string, now: real, poolHit: bool, outcomes: seq<Attempt>) returns (connected: bool)
      modifies this
      ensures connected == VerdictOf(poolHit, outcomes).Succeeded?
      ensures (wsBlacklist, dcFailUntil)
              == Settle(old(wsBlacklist), old(dcFailUntil), key, now, VerdictOf(poolHit, outcomes))
    {
      connected := poolHit;
      var failedRedirect, allRedirects := false, true;
      if !poolHit {
        for i := 0 to |outcomes|
          invariant !connected && wsBlacklist == old(wsBlacklist) && dcFailUntil == old(dcFailUntil)
          invariant forall j :: 0 <= j < i ==> !outcomes[j].Opened?
          invariant failedRedirect <==> exists j :: 0 <= j < i && outcomes[j].Redirected?
          invariant allRedirects <==> forall j :: 0 <= j < i ==> outcomes[j].Redirected?
        {
          match outcomes[i] {
            case Opened =>
              connected := true;
              allRedirects := false;
              break;
            case Redirected =>
              failedRedirect := true;
            case HandshakeFailed =>
              allRedirects := false;
            case ConnectFailed =>
              allRedirects := false;
          }
        }
      }
      if !connected {
        assert Opened !in outcomes;
        assert outcomes != [] && allRedirects ==> outcomes[0].Redirected?;
        if failedRedirect && allRedirects {
          wsBlacklist := wsBlacklist + {key};
        } else {
          dcFailUntil := dcFailUntil[key := now + DC_FAIL_COOLDOWN];
        }
        return;
      }
      dcFailUntil := dcFailUntil - {key};
    }
  }

  function Settle(blacklist: set<string>, failUntil: map<string, real>, key: string, started: real, v: Verdict)
    : (set<string>, map<string, real>)
  {
    match v
    case Succeeded => (blacklist, failUntil - {key})
    case AllRedirected => (blacklist + {key}, failUntil)
    case Failed => (blacklist, failUntil[key := started + DC_FAIL_COOLDOWN])
  }

  // ---------------------------------------------------------------- histories

  /** A direct attempt in progress, and one that ended. */
  datatype Active = Active(key: string, started: real, timeout: real)
  datatype Finished = Finished(key: string, started: real, poolHit: bool, outcomes: seq<Attempt>)

  /** The attempt ended with a connection, from the pool or to some domain. */
  predicate Connected(f: Finished) {
    f.poolHit || exists i :: 0 <= i < |f.outcomes| && f.outcomes[i] == Opened
  }

  /** Every domain was tried, at least one, and all answered with a redirect. */
  predicate AllRedirects(f: Finished) {
    !f.poolHit && f.outcomes != [] && forall i :: 0 <= i < |f.outcomes| ==> f.outcomes[i] == Redirected
  }

  lemma VerdictMeans(f: Finished)
    ensures VerdictOf(f.poolHit, f.outcomes)
            == if Connected(f) then Succeeded else if AllRedirects(f) then AllRedirected else Failed
    ensures !(Connected(f) && AllRedirects(f))
  {
    assert Opened in f.outcomes <==> exists i :: 0 <= i < |f.outcomes| && f.outcomes[i] == Opened;
  }

  datatype State = State(
    blacklist: set<string>, failUntil: map<string, real>,
    active: map<nat, Active>, history: seq<Finished>)

  /** A handler arrives and checks; its attempt ends; or it is cancelled meanwhile. */
  datatype Event =
    | Arrive(handler: nat, configured: bool, key: string, now: real)
    | End(handler: nat, poolHit: bool, outcomes: seq<Attempt>)
    | Cancel(handler: nat)

  const EMPTY := State({}, map[], map[], [])

  function Apply(st: State, e: Event): State {
    match e
    case Arrive(h, configured, key, now) =>
      var d := Decide(st.blacklist, st.failUntil, configured, key, now);
      if h !in st.active && d.Direct? then st.(active := st.active[h := Active(key, now, d.timeout)]) else st
    case End(h, poolHit, outcomes) =>
      if h !in st.active then st
      else
        var a := st.active[h];
        var v := VerdictOf(poolHit, outcomes);
        var (bl, fu) := Settle(st.blacklist, st.failUntil, a.key, a.started, v);
        State(bl, fu, st.active - {h}, st.history + [Finished(a.key, a.started, poolHit, outcomes)])
    case Cancel(h) => st.(active := st.active - {h})
  }

  function Run(st: State, es: seq<Event>): State {
    if es == [] then st else Apply(Run(st, es[..|es| - 1]), es[|es| - 1])
  }

  /** The last finished attempt of a key that was not all redirects. */
  function LastDecisive(history: seq<Finished>, key: string): Option<Finished> {
    if history == [] then None
    else
      var f := history[|history| - 1];
      if f.key == key && !AllRedirects(f) then Some(f) else LastDecisive(history[..|history| - 1], key)
  }

  /** Blacklisted keys are those with an all-redirect attempt; keys cooling down are those
      whose last other attempt failed, until 30 s after that attempt started. */
  ghost predicate Explained(st: State) {
    && (forall k :: k in st.blacklist <==>
          exists i :: 0 <= i < |st.history| && st.history[i].key == k && AllRedirects(st.history[i]))
    && (forall k :: k in st.failUntil <==>
          LastDecisive(st.history, k).Some? && !Connected(LastDecisive(st.history, k).value))
    && (forall k :: k in st.failUntil ==>
          st.failUntil[k] == LastDecisive(st.history, k).value.started + 30.0)
  }

  lemma LastDecisiveSnoc(history: seq<Finished>, f: Finished, key: string)
    ensures LastDecisive(history + [f], key)
            == if f.key == key && !AllRedirects(f) then Some(f) else LastDecisive(history, key)
  {
    hide AllRedirects;
    assert (history + [f])[..|history|] == history;
  }

  ghost predicate Redirecting(history: seq<Finished>, key: string) {
    exists i :: 0 <= i < |history| && history[i].key == key && AllRedirects(history[i])
  }

  lemma RedirectingSnoc(history: seq<Finished>, f: Finished, key: string)
    ensures Redirecting(history + [f], key) <==> Redirecting(history, key) || (f.key == key && AllRedirects(f))
  {
    hide AllRedirects;
    var all := history + [f];
    assert all[|history|] == f && forall i :: 0 <= i < |history| ==> all[i] == history[i];
  }

  /** What the history says of one key. */
  ghost predicate ExplainedFor(st: State, k: string) {
    var last := LastDecisive(st.history, k);
    && (k in st.blacklist <==> Redirecting(st.history, k))
    && (k in st.failUntil <==> last.Some? && !Connected(last.value))
    && (k in st.failUntil ==> st.failUntil[k] == last.value.started + 30.0)
  }

  lemma ExplainedKeys(st: State)
    ensures Explained(st) <==> forall k :: ExplainedFor(st, k)
  {
    hide AllRedirects, Connected, LastDecisive;
    if forall k :: ExplainedFor(st, k) {
      forall k
        ensures k in st.blacklist <==> Redirecting(st.history, k)
        ensures k in st.failUntil <==>
                LastDecisive(st.history, k).Some? && !Connected(LastDecisive(st.history, k).value)
        ensures k in st.failUntil ==> st.failUntil[k] == LastDecisive(st.history, k).value.started + 30.0
      {
        assert ExplainedFor(st, k);
      }
    }
  }

  lemma EndExplainedFor(st: State, f: Finished, k: string)
    requires ExplainedFor(st, k)
    ensures var (bl, fu) := Settle(st.blacklist, st.failUntil, f.key, f.started, VerdictOf(f.poolHit, f.outcomes));
            ExplainedFor(State(bl, fu, st.active, st.history + [f]), k)
  {
    hide VerdictOf, Connected, AllRedirects, LastDecisive, Redirecting;
    VerdictMeans(f);
    LastDecisiveSnoc(st.history, f, k);
    RedirectingSnoc(st.history, f, k);
  }

  lemma EndExplained(st: State, f: Finished)
    requires Explained(st)
    ensures var (bl, fu) := Settle(st.blacklist, st.failUntil, f.key, f.started, VerdictOf(f.poolHit, f.outcomes));
            Explained(State(bl, fu, st.active, st.history + [f]))
  {
    hide Explained, ExplainedFor, Settle, VerdictOf;
    var (bl, fu) := Settle(st.blacklist, st.failUntil, f.key, f.started, VerdictOf(f.poolHit, f.outcomes));
    var end := State(bl, fu, st.active, st.history + [f]);
    ExplainedKeys(st);
    ExplainedKeys(end);
    forall k
      ensures ExplainedFor(end, k)
    {
      EndExplainedFor(st, f, k);
    }
  }

  lemma {:induction false} RunExplained(es: seq<Event>)
    ensures Explained(Run(EMPTY, es))
  {
    hide Explained;
    if es == [] {
      EmptyExplained();
    } else {
      var st, e := Run(EMPTY, es[..|es| - 1]), es[|es| - 1];
      RunExplained(es[..|es| - 1]);
      if e.End? && e.handler in st.active {
        var a := st.active[e.handler];
        EndExplained(st, Finished(a.key, a.started, e.poolHit, e.outcomes));
      }
      ActiveIrrelevant(st, Apply(st, e));
    }
  }

  lemma EmptyExplained()
    ensures Explained(EMPTY)
  {
  }

  lemma ActiveIrrelevant(st: State, end: State)
    ensures Explained(st) && end.blacklist == st.blacklist && end.failUntil == st.failUntil && end.history == st.history
            ==> Explained(end)
    ensures Explained(end.(active := st.active)) ==> Explained(end)
  {
  }

  // ---------------------------------------------------------------- the router object in the histories

  /** Client handlers around one router object, in any order: its two collections, the
      attempts in progress and the finished ones follow the state machine. */
  method RunHandlers(r: Router, es: seq<Event>) returns (active: map<nat, Active>, history: seq<Finished>)
    requires r.wsBlacklist == {} && r.dcFailUntil == map[]
    modifies r
    ensures State(r.wsBlacklist, r.dcFailUntil, active, history) == Run(EMPTY, es)
  {
    hide VerdictOf, Settle, Decide;
    active, history := map[], [];
    assert es[..0] == [] && Run(EMPTY, []) == EMPTY;
    for n := 0 to |es|
      invariant State(r.wsBlacklist, r.dcFailUntil, active, history) == Run(EMPTY, es[..n])
    {
      assert es[..n + 1][..n] == es[..n];
      ghost var before := Run(EMPTY, es[..n]);
      match es[n] {
        case Arrive(handler, configured, key, now) =>
          var decision := r.Check(configured, key, now);
          if handler !in active && decision.Direct? {
            active := active[handler := Active(key, now, decision.timeout)];
          }
        case End(handler, poolHit, outcomes) =>
          if handler in active {
            var a := active[handler];
            var _ := r.TryDirect(a.key, a.started, poolHit, outcomes);
            active := active - {handler};
            history := history + [Finished(a.key, a.started, poolHit, outcomes)];
          }
        case Cancel(handler) =>
          active := active - {handler};
      }
      assert State(r.wsBlacklist, r.dcFailUntil, active, history) == Apply(before, es[n]);
    }
    assert es[..|es|] == es;
  }

  // ---------------------------------------------------------------- what the lists mean

  /** The blacklist only grows, and a key enters it only when one attempt on it found
      every domain redirecting. */
  lemma BlacklistStep(st: State, e: Event, key: string)
    ensures key in st.blacklist ==> key in Apply(st, e).blacklist
    ensures key !in st.blacklist && key in Apply(st, e).blacklist ==>
              && e.End? && e.handler in st.active && st.active[e.handler].key == key
              && !e.poolHit && e.outcomes != []
              && forall i :: 0 <= i < |e.outcomes| ==> e.outcomes[i].Redirected?
  {
  }

  /** Direct attempts on a key that were begun. */
  function Begun(es: seq<Event>, key: string): nat {
    if es == [] then 0
    else
      var st, e := Run(EMPTY, es[..|es| - 1]), es[|es| - 1];
      Begun(es[..|es| - 1], key)
      + if e.Arrive? && e.key == key && Apply(st, e).active != st.active then 1 else 0
  }

  /** Once a key is blacklisted no handler arriving later makes a direct attempt on it. */
  lemma {:induction false} NoDirectAfterBlacklist(es: seq<Event>, later: seq<Event>, key: string)
    requires key in Run(EMPTY, es).blacklist
    ensures key in Run(EMPTY, es + later).blacklist
    ensures Begun(es + later, key) == Begun(es, key)
  {
    if later == [] {
      assert es + later == es;
    } else {
      var n := |later| - 1;
      NoDirectAfterBlacklist(es, later[..n], key);
      assert (es + later)[..|es + later| - 1] == es + later[..n];
      BlacklistStep(Run(EMPTY, es + later[..n]), later[n], key);
    }
  }

  /** A direct attempt gets the short timeout exactly when the key's last finished attempt
      that was not all redirects failed and started less than 30 s before. */
  lemma ShortTimeout(es: seq<Event>, key: string, now: real)
    requires now >= 0.0
    ensures var st := Run(EMPTY, es);
            var last := LastDecisive(st.history, key);
            Decide(st.blacklist, st.failUntil, true, key, now) == Direct(WS_FAIL_TIMEOUT)
            <==> key !in st.blacklist && last.Some? && !Connected(last.value)
                 && now < last.value.started + DC_FAIL_COOLDOWN
  {
    RunExplained(es);
  }

  /** Over every history: a new handler begins a direct attempt if and only if the data
      centre is configured and no finished attempt on the key was all redirects.  It has
      2 s when the key's last other attempt failed and began less than 30 s before, and
      10 s otherwise.  (A clock below zero counts as within the cooldown.) */
  lemma DirectAttempts(es: seq<Event>, handler: nat, configured: bool, key: string, now: real)
    requires handler !in Run(EMPTY, es).active
    ensures var st := Run(EMPTY, es);
            var end := Run(EMPTY, es + [Arrive(handler, configured, key, now)]);
            var last := LastDecisive(st.history, key);
            var until := if last.Some? && !Connected(last.value) then last.value.started + 30.0 else 0.0;
            && (handler in end.active <==>
                  configured && forall i :: 0 <= i < |st.history| && st.history[i].key == key ==>
                                  !AllRedirects(st.history[i]))
            && (handler in end.active ==>
                  && end.active[handler].key == key && end.active[handler].started == now
                  && end.active[handler].timeout == if now < until then 2.0 else 10.0)
            && (forall h :: h != handler ==> (h in end.active <==> h in st.active))
  {
    hide AllRedirects, Connected, LastDecisive;
    var e := Arrive(handler, configured, key, now);
    assert (es + [e])[..|es|] == es;
    RunExplained(es);
  }

  /** A cancelled handler leaves no trace but that it is gone. */
  lemma CancelIsSilent(es: seq<Event>, handler: nat)
    ensures var st := Run(EMPTY, es);
            Run(EMPTY, es + [Cancel(handler)]) == st.(active := st.active - {handler})
  {
    assert (es + [Cancel(handler)])[..|es|] == es;
  }

  /** The end of an attempt is recorded as it came, under the key and time it began with. */
  lemma EndIsRecorded(es: seq<Event>, handler: nat, poolHit: bool, outcomes: seq<Attempt>)
    requires handler in Run(EMPTY, es).active
    ensures var st, end := Run(EMPTY, es), Run(EMPTY, es + [End(handler, poolHit, outcomes)]);
            var a := st.active[handler];
            && end.history == st.history + [Finished(a.key, a.started, poolHit, outcomes)]
            && end.active == st.active - {handler}
  {
    assert (es + [End(handler, poolHit, outcomes)])[..|es|] == es;
  }
}

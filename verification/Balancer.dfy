/** Sticky choice of a Cloudflare domain per data centre. */
module Balancer {
  import opened Octets

  const DC_IDS: set<int> := {1, 2, 3, 4, 5, 203}

  function Others(domains: seq<string>, current: Option<string>): seq<string> {
    if domains == [] then []
    else (if Some(domains[0]) != current then [domains[0]] else []) + Others(domains[1..], current)
  }

  class DomainBalancer {
    var domains: seq<string>
    var dcToDomain: map<int, string>

    constructor ()
      ensures domains == [] && dcToDomain == map[]
    {
      domains, dcToDomain := [], map[];
    }

    function Sticky(dc: int): Option<string>
      reads this
    {
      if dc in dcToDomain then Some(dcToDomain[dc]) else None
    }

    /** Every sticky choice is a domain of the pool. */
    ghost predicate Consistent()
      reads this
    {
      forall dc :: dc in dcToDomain ==> dcToDomain[dc] in domains
    }

    /** A new pool draws a domain for every data centre; a reordered one changes nothing.
        `pick` is the random choice.  False stands for the IndexError of choosing from an
        empty pool, which leaves the old choices in place. */
    method UpdateDomainsList(list: seq<string>, pick: int -> nat) returns (ok: bool)
      requires forall dc :: dc in DC_IDS && list != [] ==> pick(dc) < |list|
      modifies this
      ensures multiset(old(domains)) == multiset(list) ==>
                ok && domains == old(domains) && dcToDomain == old(dcToDomain)
      ensures multiset(old(domains)) != multiset(list) ==>
                && domains == list && ok == (list != [])
                && (ok ==> dcToDomain.Keys == {1, 2, 3, 4, 5, 203})
                && (ok ==> forall dc :: dc in DC_IDS ==> dcToDomain[dc] == list[pick(dc)])
                && (!ok ==> dcToDomain == old(dcToDomain))
      ensures ok && old(Consistent()) ==> Consistent()
    {
      if multiset(domains) == multiset(list) {
        return true;
      }
      domains := list;
      if list == [] {
        return false;
      }
      dcToDomain := map dc | dc in DC_IDS :: list[pick(dc)];
      return true;
    }

    method UpdateDomainForDc(dc: int, domain: string) returns (changed: bool)
      modifies this`dcToDomain
      ensures changed == (old(Sticky(dc)) != Some(domain))
      ensures Sticky(dc) == Some(domain)
      ensures forall d :: d != dc ==> Sticky(d) == old(Sticky(d))
      ensures old(Consistent()) && domain in domains ==> Consistent()
    {
      if dc in dcToDomain && dcToDomain[dc] == domain {
        return false;
      }
      dcToDomain := dcToDomain[dc := domain];
      return true;
    }

    /** The candidates for a data centre, in the order tried.  `shuffled` is the pool as
        the random shuffle left it. */
    method GetDomainsForDc(dc: int, shuffled: seq<string>) returns (out: seq<string>)
      requires multiset(shuffled) == multiset(domains)
      ensures out == (if Sticky(dc).Some? then [Sticky(dc).value] else []) + Others(shuffled, Sticky(dc))
    {
      out := [];
      var current := Sticky(dc);
      if current.Some? {
        out := out + [current.value];
      }
      ghost var first := out;
      assert shuffled[0..] == shuffled;
      for i := 0 to |shuffled|
        invariant out + Others(shuffled[i..], current) == first + Others(shuffled, current)
      {
        var domain := shuffled[i];
        assert shuffled[i..][1..] == shuffled[i + 1..];
        if Some(domain) != current {
          Associative(out, [domain], Others(shuffled[i + 1..], current));
          out := out + [domain];
        }
      }
      assert shuffled[|shuffled|..] == [] && out + [] == out;
    }
  }

  lemma {:induction false} OthersCount(domains: seq<string>, current: Option<string>, d: string)
    ensures multiset(Others(domains, current))[d] == if current == Some(d) then 0 else multiset(domains)[d]
  {
    if domains != [] {
      OthersCount(domains[1..], current, d);
      var head := if Some(domains[0]) != current then [domains[0]] else [];
      assert multiset(Others(domains, current)) == multiset(head) + multiset(Others(domains[1..], current));
      assert domains == [domains[0]] + domains[1..];
      assert multiset(domains) == multiset([domains[0]]) + multiset(domains[1..]);
    }
  }

  /** Whatever the shuffle: the sticky domain is tried first and once, and every other
      domain of the pool exactly as often as the pool has it. */
  lemma EnumerationComplete(domains: seq<string>, shuffled: seq<string>, current: Option<string>, d: string)
    requires multiset(shuffled) == multiset(domains)
    ensures var out := (if current.Some? then [current.value] else []) + Others(shuffled, current);
            && (current.Some? ==> out[0] == current.value)
            && multiset(out)[d] == if current == Some(d) then 1 else multiset(domains)[d]
  {
    OthersCount(shuffled, current, d);
    var first := if current.Some? then [current.value] else [];
    assert multiset(first + Others(shuffled, current)) == multiset(first) + multiset(Others(shuffled, current));
  }

  /** Only domains of a consistent balancer are enumerated, so settling on one of them
      keeps it consistent. */
  method SettleOnEnumerated(b: DomainBalancer, dc: int, shuffled: seq<string>, reachable: string -> bool)
    returns (chosen: Option<string>)
    requires b.Consistent() && multiset(shuffled) == multiset(b.domains)
    modifies b`dcToDomain
    ensures b.Consistent()
    ensures chosen == None <==> forall d :: d in b.domains ==> !reachable(d)
    ensures chosen.Some? ==> b.Sticky(dc) == chosen && reachable(chosen.value) && chosen.value in b.domains
    ensures chosen.Some? && old(b.Sticky(dc)).Some? && reachable(old(b.Sticky(dc)).value) ==>
              chosen == old(b.Sticky(dc))
    ensures chosen == None ==> b.dcToDomain == old(b.dcToDomain)
    ensures forall d :: d != dc ==> b.Sticky(d) == old(b.Sticky(d))
  {
    var current := b.Sticky(dc);
    var candidates := b.GetDomainsForDc(dc, shuffled);
    Enumerated(b.domains, shuffled, current);
    for i := 0 to |candidates|
      invariant forall j :: 0 <= j < i ==> !reachable(candidates[j])
    {
      if reachable(candidates[i]) {
        assert candidates[i] in candidates;
        var _ := b.UpdateDomainForDc(dc, candidates[i]);
        return Some(candidates[i]);
      }
    }
    assert forall d :: d in candidates ==> !reachable(d);
    return None;
  }

  lemma Enumerated(domains: seq<string>, shuffled: seq<string>, current: Option<string>)
    requires multiset(shuffled) == multiset(domains)
    requires current.Some? ==> current.value in domains
    ensures var out := (if current.Some? then [current.value] else []) + Others(shuffled, current);
            && (forall d :: d in out <==> d in domains)
            && (current.Some? ==> out[0] == current.value)
  {
    var out := (if current.Some? then [current.value] else []) + Others(shuffled, current);
    forall d
      ensures d in out <==> d in domains
    {
      EnumerationComplete(domains, shuffled, current, d);
      assert d in out <==> d in multiset(out);
      assert d in domains <==> d in multiset(domains);
    }
    if current.Some? {
      EnumerationComplete(domains, shuffled, current, current.value);
    }
  }

  /** With a duplicate-free pool that contains the sticky domain, the enumeration is a
      reordering of the pool. */
  lemma EnumerationIsPermutation(domains: seq<string>, shuffled: seq<string>, current: Option<string>)
    requires multiset(shuffled) == multiset(domains)
    requires forall d :: multiset(domains)[d] <= 1
    requires current.Some? ==> current.value in domains
    ensures multiset((if current.Some? then [current.value] else []) + Others(shuffled, current)) == multiset(domains)
  {
    var out := (if current.Some? then [current.value] else []) + Others(shuffled, current);
    forall d
      ensures multiset(out)[d] == multiset(domains)[d]
    {
      EnumerationComplete(domains, shuffled, current, d);
      if current == Some(d) {
        assert d in multiset(domains);
      }
    }
  }

  /** Reordering the pool between two requests keeps every sticky choice, and so which
      domain is tried first. */
  method ReorderKeepsChoices(b: DomainBalancer, reordered: seq<string>, pick: int -> nat, dc: int,
                             shuffled: seq<string>)
    returns (out: seq<string>)
    requires multiset(reordered) == multiset(b.domains)
    requires forall dc :: dc in DC_IDS && reordered != [] ==> pick(dc) < |reordered|
    requires multiset(shuffled) == multiset(b.domains)
    modifies b
    ensures forall d :: b.Sticky(d) == old(b.Sticky(d))
    ensures old(b.Sticky(dc)).Some? ==> out != [] && out[0] == old(b.Sticky(dc)).value
  {
    var _ := b.UpdateDomainsList(reordered, pick);
    out := b.GetDomainsForDc(dc, shuffled);
  }
}

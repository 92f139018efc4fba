/**
 * Countries, sites and visits of an organisation: no site is ever without a policy and no visit
 * without a site, so the retention job leaves nothing overdue at any of them.
 */
module Organisations {
  import opened Options
  import opened Retention

  datatype SiteRow = SiteRow(country: string, code: string, active: bool)

  class Organisation {
    var sites: map<SiteId, SiteRow>
    /** Days that each country's policy keeps a visit. */
    var policies: map<string, nat>
    var visits: map<VisitId, Visit>

    predicate Valid()
      reads this
    {
      && (forall s <- sites :: sites[s].country in policies)
      && (forall v <- visits :: visits[v].site in sites)
    }

    constructor ()
      ensures Valid() && sites == map[] && policies == map[] && visits == map[]
    {
      sites, policies, visits := map[], map[], map[];
    }

    function ActiveSites(): set<SiteId>
      reads this
    {
      set s <- sites | sites[s].active
    }

    method CreatePolicy(country: string, days: nat) returns (refused: Option<string>)
      requires Valid()
      modifies this`policies
      ensures Valid() && (refused == None <==> country !in old(policies))
      ensures policies == if refused == None then old(policies)[country := days] else old(policies)
    {
      if country in policies { return Some("COUNTRY_EXISTS"); }
      policies := policies[country := days];
      refused := None;
    }

    method UpdatePolicy(country: string, days: nat) returns (refused: Option<string>)
      requires Valid()
      modifies this`policies
      ensures Valid() && (refused == None <==> country in old(policies))
      ensures policies == if refused == None then old(policies)[country := days] else old(policies)
    {
      if country !in policies { return Some("NOT_FOUND"); }
      policies := policies[country := days];
      refused := None;
    }

    /** A site needs a country that has a policy, a code of its own, and room in the plan. */
    method CreateSite(s: SiteId, country: string, code: string, zoned: bool, most: Option<nat>)
      returns (refused: Option<string>)
      requires Valid() && s !in sites
      modifies this`sites
      ensures Valid()
      ensures refused == None <==>
                && zoned && country in policies && (forall x <- old(sites) :: old(sites)[x].code != code)
                && (most.Some? ==> |set x <- old(sites) | old(sites)[x].active| < most.value)
      ensures sites == if refused == None then old(sites)[s := SiteRow(country, code, true)] else old(sites)
    {
      assert ActiveSites() == set x <- sites | sites[x].active;
      if !zoned { return Some("INVALID_TIMEZONE"); }
      if country !in policies { return Some("UNKNOWN_COUNTRY"); }
      if exists x <- sites :: sites[x].code == code { return Some("SITE_CODE_EXISTS"); }
      if most.Some? && |ActiveSites()| >= most.value { return Some("PLAN_LIMIT_SITES"); }
      sites := sites[s := SiteRow(country, code, true)];
      refused := None;
    }

    /** Name, zone and switch may change, the switch as far as the plan has room; the country may not. */
    method UpdateSite(s: SiteId, active: bool, zoned: bool, most: Option<nat>) returns (refused: Option<string>)
      requires Valid()
      modifies this`sites
      ensures Valid()
      ensures refused == None <==>
                && zoned && s in old(sites)
                && (active && !old(sites)[s].active && most.Some? ==>
                    |set x <- old(sites) | old(sites)[x].active| < most.value)
      ensures sites == if refused == None then old(sites)[s := old(sites)[s].(active := active)] else old(sites)
    {
      assert ActiveSites() == set x <- sites | sites[x].active;
      if !zoned { return Some("INVALID_TIMEZONE"); }
      if s !in sites { return Some("NOT_FOUND"); }
      if active && !sites[s].active && most.Some? && |ActiveSites()| >= most.value { return Some("PLAN_LIMIT_SITES"); }
      sites := sites[s := sites[s].(active := active)];
      refused := None;
    }

    /** A tablet of an active site checks a visitor in. */
    method CheckIn(v: VisitId, s: SiteId, now: int, data: string) returns (refused: Option<string>)
      requires Valid() && v !in visits
      modifies this`visits
      ensures Valid() && (refused == None <==> s in sites && sites[s].active)
      ensures visits == if refused == None then old(visits)[v := Visit(s, now, OPEN, Some(data), false)]
          else old(visits)
    {
      if s !in sites || !sites[s].active { return Some("SITE_INACTIVE"); }
      visits := visits[v := Visit(s, now, OPEN, Some(data), false)];
      refused := None;
    }

    /** Closed by the visitor, the reception or the job, or its data removed: a visit stays at its site. */
    method Change(v: VisitId, status: Status, anonymised: bool)
      requires Valid() && v in visits
      modifies this`visits
      ensures Valid() && visits == old(visits)[v := old(visits)[v].(status := status, anonymised := anonymised)]
    {
      visits := visits[v := visits[v].(status := status, anonymised := anonymised)];
    }
  }

  /** What the job reads of an organisation. */
  ghost predicate RulesOf(o: Organisation, r: Rules)
    reads o
  {
    && r.policies == o.policies && r.sites.Keys == o.sites.Keys
    && (forall s <- r.sites :: r.sites[s].country == o.sites[s].country)
  }

  /**
   * Whatever happened to its countries, sites and visits: a run of the retention job leaves every
   * visit of an organisation on time, wherever local midnight is, and they stay at their sites.
   */
  lemma EveryVisitOnTime(o: Organisation, r: Rules, s: Store)
    requires o.Valid() && RulesOf(o, r) && s.visits == o.visits
    ensures Founded(r, s.visits)
    ensures Cleaned(r, s).visits.Keys == o.visits.Keys
    ensures forall v <- o.visits ::
              var visit := Cleaned(r, s).visits[v];
              && visit.site == o.visits[v].site && visit.site in o.sites && o.sites[visit.site].country in o.policies
              && (visit.anonymised || r.now - o.policies[o.sites[visit.site].country] * DAY <= visit.checkIn)
              && (visit.status == OPEN ==> r.sites[visit.site].midnight <= visit.checkIn)
  {
    NothingOverdue(r, s);
    SettledSite(r);
    hide Settled;
  }
}

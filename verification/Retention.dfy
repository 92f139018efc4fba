/**
 * The retention job: every deadline enforced in bounded batches. What a run leaves is stated as a
 * function of what it found; the loops are proved to compute it, and to end.
 */
module Retention {
  import opened Options
  import opened Sets
  import Throttle

  type SiteId = nat
  type VisitId = nat
  type FileId = nat
  type InvitationId = nat

  const DAY: int := 86_400_000
  const INVITATION_KEEP_DAYS := 7
  const DELIVERY_KEEP_DAYS := 7
  const PARCEL_KEEP_DAYS := 180
  const BATCH := 500
  const AUDIT_BATCH := 5000

  datatype Status = OPEN | CLOSED | AUTO_CLOSED | ERASED

  /** `midnight` is when the local day of `now` began at the site. */
  datatype Site = Site(country: string, midnight: int)
  /** `data` stands for the personal data: names, host, document. */
  datatype Visit = Visit(site: SiteId, checkIn: int, status: Status, data: Option<string>, anonymised: bool)
  datatype File = File(visit: Option<VisitId>, invitation: Option<InvitationId>, purgeAfter: int, purged: bool)

  /**
   * What a run reads once: the time, the sites, the retention days of each country's policy, and the
   * configured days.
   */
  datatype Rules = Rules(now: int, sites: map<SiteId, Site>, policies: map<string, nat>, eventDays: nat, auditDays: nat)

  /**
   * The tables whose old rows just go, each row as the instant that decides: the last of an
   * invitation's day, when a parcel was collected (if it was), when an entry or delivery was made,
   * when a sign-in attempt ends; and the counters of the rate limit.
   */
  datatype Rest = Rest(
    invitations: map<InvitationId, int>, parcels: map<nat, Option<int>>, events: map<nat, int>, audit: map<nat, int>,
    attempts: map<nat, int>, webhooks: map<nat, int>, pushes: map<nat, int>, counters: map<nat, Throttle.Row>)

  datatype Store = Store(files: map<FileId, File>, visits: map<VisitId, Visit>, rest: Rest)
  datatype Stats = Stats(filesPurged: nat, visitsAnonymised: nat, autoClosed: nat)

  // ---------------------------------------------------------------- what is due

  predicate Due(r: Rules, f: File) {
    f.purgeAfter < r.now && !f.purged
  }

  /** The site's country has a policy; a site without one is passed over. */
  predicate Covered(r: Rules, s: SiteId) {
    s in r.sites && r.sites[s].country in r.policies
  }

  predicate Expired(r: Rules, v: Visit) {
    Covered(r, v.site) && !v.anonymised && v.checkIn < r.now - r.policies[r.sites[v.site].country] * DAY
  }

  predicate Overnight(r: Rules, v: Visit) {
    v.status == OPEN && v.site in r.sites && v.checkIn < r.sites[v.site].midnight
  }

  function Anonymised(v: Visit): Visit {
    v.(data := None, anonymised := true)
  }

  /** A visit after the run: anonymised past its retention, closed if still open from an earlier day. */
  function Settled(r: Rules, v: Visit): Visit {
    var kept := if Expired(r, v) then Anonymised(v) else v;
    if Covered(r, v.site) && Overnight(r, v) then kept.(status := AUTO_CLOSED) else kept
  }

  /** The visits once the given sites are done. */
  function VisitsAfter(r: Rules, visits: map<VisitId, Visit>, sites: set<SiteId>): map<VisitId, Visit> {
    map v <- visits :: if visits[v].site in sites then Settled(r, visits[v]) else visits[v]
  }

  predicate OfExpired(r: Rules, visits: map<VisitId, Visit>, sites: set<SiteId>, f: File) {
    f.visit.Some? && f.visit.value in visits && visits[f.visit.value].site in sites && Expired(r, visits[f.visit.value])
  }

  function FilesAfter(r: Rules, visits: map<VisitId, Visit>, files: map<FileId, File>,
          sites: set<SiteId>): map<FileId, File> {
    map f <- files :: if OfExpired(r, visits, sites, files[f]) then files[f].(purged := true) else files[f]
  }

  function DueRemoved(r: Rules, files: map<FileId, File>): map<FileId, File> {
    map f <- files :: if Due(r, files[f]) then files[f].(purged := true) else files[f]
  }

  function Since(m: map<nat, int>, cutoff: int): map<nat, int> {
    map x <- m | m[x] >= cutoff :: m[x]
  }

  /** Parcels still waiting, or collected since. */
  function Uncollected(m: map<nat, Option<int>>, cutoff: int): map<nat, Option<int>> {
    map p <- m | m[p].None? || m[p].value >= cutoff :: m[p]
  }

  function Running(m: map<nat, Throttle.Row>, now: int): map<nat, Throttle.Row> {
    map k <- m | !Throttle.Finished(m[k], now) :: m[k]
  }

  function Swept(r: Rules, t: Rest): Rest {
    Rest(Since(t.invitations, r.now - INVITATION_KEEP_DAYS * DAY),
         Uncollected(t.parcels, r.now - PARCEL_KEEP_DAYS * DAY),
         Since(t.events, r.now - r.eventDays * DAY),
         Since(t.audit, r.now - r.auditDays * DAY),
         Since(t.attempts, r.now),
         Since(t.webhooks, r.now - DELIVERY_KEEP_DAYS * DAY),
         Since(t.pushes, r.now - DELIVERY_KEEP_DAYS * DAY),
         Running(t.counters, r.now))
  }

  /** What a run leaves. */
  function Cleaned(r: Rules, s: Store): Store {
    Store(
      FilesAfter(r, s.visits, DueRemoved(r, s.files), r.sites.Keys),
      VisitsAfter(r, s.visits, r.sites.Keys),
      Swept(r, s.rest))
  }

  function DueFiles(r: Rules, files: map<FileId, File>): set<FileId> {
    set f <- files | Due(r, files[f])
  }

  function ExpiredVisits(r: Rules, visits: map<VisitId, Visit>, sites: set<SiteId>): set<VisitId> {
    set v <- visits | visits[v].site in sites && Expired(r, visits[v])
  }

  function OvernightVisits(r: Rules, visits: map<VisitId, Visit>, sites: set<SiteId>): set<VisitId> {
    set v <- visits | visits[v].site in sites && Covered(r, visits[v].site) && Overnight(r, visits[v])
  }

  // ---------------------------------------------------------------- what follows

  /**
   * Every site's country has a policy, and every visit is at a site. Creating sites and visits
   * ensures it (see Organisations).
   */
  predicate Founded(r: Rules, visits: map<VisitId, Visit>) {
    && (forall x <- r.sites :: r.sites[x].country in r.policies)
    && (forall v <- visits :: visits[v].site in r.sites)
  }

  /** A visit that keeps no data longer than its country allows, and is not open from an earlier local day. */
  predicate OnTime(r: Rules, v: Visit) {
    && v.site in r.sites && r.sites[v.site].country in r.policies
    && (v.anonymised || r.now - r.policies[r.sites[v.site].country] * DAY <= v.checkIn)
    && (v.status == OPEN ==> r.sites[v.site].midnight <= v.checkIn)
  }

  /**
   * After a run no unpurged file is past its date, every visit is on time, a visit the run
   * anonymised has no file left, and no invitation is older than a week past its day.
   */
  lemma NothingOverdue(r: Rules, s: Store)
    requires Founded(r, s.visits)
    ensures var after := Cleaned(r, s);
            && (forall f <- after.files :: after.files[f].purged || r.now <= after.files[f].purgeAfter)
            && (forall v <- after.visits :: OnTime(r, after.visits[v]))
            && (forall f <- s.files :: OfExpired(r, s.visits, r.sites.Keys, s.files[f]) ==> after.files[f].purged)
            && (forall i <- after.rest.invitations :: r.now - INVITATION_KEEP_DAYS * DAY <= after.rest.invitations[i])
  {
    hide Swept;
    NothingDueAfter(r, s);
    forall v | v in s.visits ensures OnTime(r, Settled(r, s.visits[v])) {
      SettledIsOnTime(r, s.visits[v]);
    }
    hide Settled, OnTime;
    assert forall v <- Cleaned(r, s).visits :: OnTime(r, Cleaned(r, s).visits[v]);
    NoOldInvitation(r, s.rest);
  }

  lemma SettledIsOnTime(r: Rules, v: Visit)
    requires Covered(r, v.site)
    ensures OnTime(r, Settled(r, v))
  {
  }

  lemma NoOldInvitation(r: Rules, t: Rest)
    ensures forall i <- Swept(r, t).invitations ::
              r.now - INVITATION_KEEP_DAYS * DAY <= Swept(r, t).invitations[i]
  {
  }

  lemma NothingDueAfter(r: Rules, s: Store)
    ensures forall f <- Cleaned(r, s).files :: !Due(r, Cleaned(r, s).files[f])
  {
  }

  lemma NothingToSettleAfter(r: Rules, s: Store)
    ensures forall v <- Cleaned(r, s).visits ::
              var visit := Cleaned(r, s).visits[v];
              !Expired(r, visit) && (Covered(r, visit.site) ==> !Overnight(r, visit))
  {
    forall v | v in s.visits
      ensures !Expired(r, Settled(r, s.visits[v]))
      ensures Covered(r, s.visits[v].site) ==> !Overnight(r, Settled(r, s.visits[v]))
    {
    }
  }

  /**
   * A visit checked in within the days its country keeps visits has its data after the run, and its
   * files until their own dates; one of the current local day is not touched at all.
   */
  lemma RetentionRespected(r: Rules, s: Store, v: VisitId)
    requires v in s.visits && s.visits[v].site in r.sites && r.sites[s.visits[v].site].country in r.policies
    requires r.now - r.policies[r.sites[s.visits[v].site].country] * DAY <= s.visits[v].checkIn
    ensures var after := Cleaned(r, s);
            && v in after.visits && after.visits[v].data == s.visits[v].data
            && after.visits[v].anonymised == s.visits[v].anonymised
            && (r.sites[s.visits[v].site].midnight <= s.visits[v].checkIn ==> after.visits[v] == s.visits[v])
            && forall f <- s.files :: s.files[f].visit == Some(v) && r.now <= s.files[f].purgeAfter ==>
                 f in after.files && after.files[f] == s.files[f]
  {
  }

  /** The instant before which the visits of a country have to go. */
  function Cutoff(r: Rules, s: SiteId): int
    requires s in r.sites && r.sites[s].country in r.policies
  {
    r.now - r.policies[r.sites[s].country] * 86_400_000
  }

  /** A visit before and after the run, column by column. */
  lemma VisitAfterRun(r: Rules, s: Store, v: VisitId)
    requires v in s.visits && s.visits[v].site in r.sites && r.sites[s.visits[v].site].country in r.policies
    ensures Cleaned(r, s).visits.Keys == s.visits.Keys
    ensures var was, now := s.visits[v], Cleaned(r, s).visits[v];
            && now.site == was.site && now.checkIn == was.checkIn
            && (now.anonymised <==> was.anonymised || was.checkIn < Cutoff(r, was.site))
            && now.data == (if was.anonymised || Cutoff(r, was.site) <= was.checkIn then was.data else None)
            && now.status == (if was.status == OPEN && was.checkIn < r.sites[was.site].midnight then AUTO_CLOSED
                              else was.status)
  {
  }

  /** A file is purged exactly if it was, is past its date, or belongs to a visit that loses its data now. */
  lemma FileAfterRun(r: Rules, s: Store, f: FileId)
    requires Founded(r, s.visits) && f in s.files
    ensures Cleaned(r, s).files.Keys == s.files.Keys
    ensures Cleaned(r, s).files[f] == s.files[f].(purged := Cleaned(r, s).files[f].purged)
    ensures Cleaned(r, s).files[f].purged <==>
              || s.files[f].purged || s.files[f].purgeAfter < r.now
              || (s.files[f].visit.Some? && s.files[f].visit.value in s.visits
                  && !s.visits[s.files[f].visit.value].anonymised
                  && s.visits[s.files[f].visit.value].checkIn < Cutoff(r, s.visits[s.files[f].visit.value].site))
  {
  }

  /** The rows of the other tables that a run leaves, as they were; the times are in milliseconds. */
  lemma RowsAfterRun(r: Rules, s: Store, x: nat)
    ensures var was, now := s.rest, Cleaned(r, s).rest;
            && (x in now.invitations <==> x in was.invitations && was.invitations[x] >= r.now - 604_800_000)
            && (x in now.parcels <==>
                  && x in was.parcels
                  && (was.parcels[x].None? || was.parcels[x].value >= r.now - 15_552_000_000))
            && (x in now.events <==> x in was.events && was.events[x] >= r.now - r.eventDays * 86_400_000)
            && (x in now.audit <==> x in was.audit && was.audit[x] >= r.now - r.auditDays * 86_400_000)
            && (x in now.attempts <==> x in was.attempts && was.attempts[x] >= r.now)
            && (x in now.webhooks <==> x in was.webhooks && was.webhooks[x] >= r.now - 604_800_000)
            && (x in now.pushes <==> x in was.pushes && was.pushes[x] >= r.now - 604_800_000)
            && (x in now.counters <==>
                  && x in was.counters
                  && (was.counters[x].expiresAt >= r.now
                      || (was.counters[x].blockedUntil.Some? && was.counters[x].blockedUntil.value >= r.now)))
  {
  }

  lemma RowsStayAsTheyWere(r: Rules, s: Store, x: nat)
    ensures var was, now := s.rest, Cleaned(r, s).rest;
            && (x in now.invitations ==> x in was.invitations && now.invitations[x] == was.invitations[x])
            && (x in now.parcels ==> x in was.parcels && now.parcels[x] == was.parcels[x])
            && (x in now.events ==> x in was.events && now.events[x] == was.events[x])
            && (x in now.audit ==> x in was.audit && now.audit[x] == was.audit[x])
            && (x in now.attempts ==> x in was.attempts && now.attempts[x] == was.attempts[x])
            && (x in now.webhooks ==> x in was.webhooks && now.webhooks[x] == was.webhooks[x])
            && (x in now.pushes ==> x in was.pushes && now.pushes[x] == was.pushes[x])
            && (x in now.counters ==> x in was.counters && now.counters[x] == was.counters[x])
  {
  }

  /** What the run reports: the files past their dates, the visits past their retention, those open overnight. */
  lemma Counted(r: Rules, s: Store)
    requires Founded(r, s.visits)
    ensures DueFiles(r, s.files) == set f <- s.files | !s.files[f].purged && s.files[f].purgeAfter < r.now
    ensures ExpiredVisits(r, s.visits, r.sites.Keys)
         == set v <- s.visits | !s.visits[v].anonymised && s.visits[v].checkIn < Cutoff(r, s.visits[v].site)
    ensures OvernightVisits(r, s.visits, r.sites.Keys)
         == set v <- s.visits | s.visits[v].status == OPEN && s.visits[v].checkIn < r.sites[s.visits[v].site].midnight
  {
  }

  lemma NothingToSettle(r: Rules, visits: map<VisitId, Visit>, files: map<FileId, File>)
    requires forall v <- visits :: !Expired(r, visits[v]) && (Covered(r, visits[v].site) ==> !Overnight(r, visits[v]))
    ensures VisitsAfter(r, visits, r.sites.Keys) == visits && FilesAfter(r, visits, files, r.sites.Keys) == files
  {
    hide Expired, Overnight, Covered;
  }

  lemma NothingDue(r: Rules, files: map<FileId, File>)
    requires forall f <- files :: !Due(r, files[f])
    ensures DueRemoved(r, files) == files
  {
    hide Due;
  }

  lemma SweptTwice(r: Rules, t: Rest)
    ensures Swept(r, Swept(r, t)) == Swept(r, t)
  {
    forall m: map<nat, int>, cutoff ensures Since(Since(m, cutoff), cutoff) == Since(m, cutoff) {
    }
    forall m: map<nat, Option<int>>, cutoff
        ensures Uncollected(Uncollected(m, cutoff), cutoff) == Uncollected(m, cutoff) {
    }
    assert Running(Running(t.counters, r.now), r.now) == Running(t.counters, r.now);
    hide Since, Uncollected, Running;
  }

  /** A second run at the same instant changes nothing. */
  lemma RunTwice(r: Rules, s: Store)
    ensures Cleaned(r, Cleaned(r, s)) == Cleaned(r, s)
  {
    var once := Cleaned(r, s);
    NothingDueAfter(r, s);
    NothingToSettleAfter(r, s);
    hide Due, Expired, Overnight, Covered, VisitsAfter, FilesAfter, DueRemoved, Swept;
    NothingDue(r, once.files);
    NothingToSettle(r, once.visits, once.files);
    SweptTwice(r, s.rest);
  }

  /**
   * The guard of the loop over the sites, for what it is worth: a site whose country had no policy
   * would be passed over, its visits left as they are. Creating a site refuses such a country.
   */
  lemma PassedOverIff(r: Rules, s: Store, v: VisitId)
    requires v in s.visits
    ensures Overnight(r, Cleaned(r, s).visits[v]) <==> Overnight(r, s.visits[v]) && !Covered(r, s.visits[v].site)
    ensures !Covered(r, s.visits[v].site) ==> Cleaned(r, s).visits[v] == s.visits[v]
  {
  }

  /** An invitation's files are due no later than the invitation is deleted, so none outlives it. */
  lemma DeletedInvitationsKeepNoFile(r: Rules, s: Store, i: InvitationId, f: FileId)
    requires i in s.rest.invitations && f in s.files && s.files[f].invitation == Some(i)
    requires s.files[f].purgeAfter <= s.rest.invitations[i] + INVITATION_KEEP_DAYS * DAY
    ensures i !in Cleaned(r, s).rest.invitations ==> Cleaned(r, s).files[f].purged
  {
  }

  // ---------------------------------------------------------------- steps of the loops

  lemma BatchTaken<T>(all: set<T>, done: set<T>, batch: set<T>)
    requires done <= all && batch <= all - done
    ensures |done + batch| == |done| + |batch| && |all - (done + batch)| == |all - done| - |batch|
    ensures done + batch <= all
    ensures (all - done) - batch == all - (done + batch)
    ensures batch == all - done ==> done + batch == all
  {
    DisjointSize(done, batch);
    SubsetSize(batch, all - done);
    assert (all - done) - batch == all - (done + batch);
  }

  /** Any rows of the answer, at most `n` of them: all, if there are fewer. */
  method Take(all: set<nat>, n: nat) returns (batch: set<nat>)
    ensures batch <= all && |batch| <= n && (|batch| < n ==> batch == all)
    ensures n > 0 && all != {} ==> batch != {}
  {
    batch := {};
    var rest := all;
    while rest != {} && |batch| < n
      invariant batch !! rest && batch + rest == all && |batch| <= n
      decreases |rest|
    {
      var x :| x in rest;
      rest := rest - {x};
      batch := batch + {x};
    }
  }

  lemma SettledOneByOne(r: Rules, visits: map<VisitId, Visit>, done: set<SiteId>, s: SiteId)
    requires s !in done
    ensures VisitsAfter(r, VisitsAfter(r, visits, done), {s}) == VisitsAfter(r, visits, done + {s})
  {
    hide Expired, Overnight, Covered;
    SettledSite(r);
    hide Settled;
  }

  lemma SettledSite(r: Rules)
    ensures forall v :: Settled(r, v).site == v.site
  {
  }

  lemma PurgedOneByOne(r: Rules, visits: map<VisitId, Visit>, files: map<FileId, File>, done: set<SiteId>, s: SiteId)
    requires s !in done
    ensures FilesAfter(r, VisitsAfter(r, visits, done), FilesAfter(r, visits, files, done), {s})
         == FilesAfter(r, visits, files, done + {s})
  {
    SettledSite(r);
    hide Expired, Settled;
  }

  lemma ExpiredOneByOne(r: Rules, visits: map<VisitId, Visit>, done: set<SiteId>, s: SiteId)
    requires s !in done
    ensures |ExpiredVisits(r, visits, done + {s})|
         == |ExpiredVisits(r, visits, done)| + |ExpiredVisits(r, VisitsAfter(r, visits, done), {s})|
  {
    SettledSite(r);
    hide Expired, Settled;
    var a, b := ExpiredVisits(r, visits, done), ExpiredVisits(r, VisitsAfter(r, visits, done), {s});
    DisjointSize(a, b);
    assert ExpiredVisits(r, visits, done + {s}) == a + b;
  }

  lemma OvernightOneByOne(r: Rules, visits: map<VisitId, Visit>, done: set<SiteId>, s: SiteId)
    requires s !in done
    ensures |OvernightVisits(r, visits, done + {s})|
         == |OvernightVisits(r, visits, done)| + |OvernightVisits(r, VisitsAfter(r, visits, done), {s})|
  {
    SettledSite(r);
    hide Overnight, Settled, Covered;
    var a, b := OvernightVisits(r, visits, done), OvernightVisits(r, VisitsAfter(r, visits, done), {s});
    DisjointSize(a, b);
    assert OvernightVisits(r, visits, done + {s}) == a + b;
  }

  lemma NoSitesDone(r: Rules, visits: map<VisitId, Visit>, files: map<FileId, File>)
    ensures VisitsAfter(r, visits, {}) == visits && FilesAfter(r, visits, files, {}) == files
    ensures ExpiredVisits(r, visits, {}) == {} && OvernightVisits(r, visits, {}) == {}
  {
  }

  class RetentionJob {
    var files: map<FileId, File>
    var visits: map<VisitId, Visit>
    var invitations: map<InvitationId, int>
    var parcels: map<nat, Option<int>>
    var events: map<nat, int>
    var audit: map<nat, int>
    var attempts: map<nat, int>
    var webhooks: map<nat, int>
    var pushes: map<nat, int>
    var counters: map<nat, Throttle.Row>

    function Rows(): Store
      reads this
    {
      Store(files, visits, Rest(invitations, parcels, events, audit, attempts, webhooks, pushes, counters))
    }

    /** One run: what it leaves, and what it reports. */
    method Execute(r: Rules) returns (stats: Stats)
      modifies this
      ensures Rows() == Cleaned(r, old(Rows()))
      ensures stats ==
          Stats(|DueFiles(r, old(files))|, |ExpiredVisits(r, old(visits), r.sites.Keys)|,
          |OvernightVisits(r, old(visits), r.sites.Keys)|)
    {
      hide Due, Expired, Overnight, Settled, VisitsAfter, FilesAfter, DueRemoved, DueFiles, ExpiredVisits,
          OvernightVisits, Swept;
      var purged := PurgeDue(r);
      var anonymised, closed := SettleSites(r);
      Sweep(r);
      stats := Stats(purged, anonymised, closed);
    }

    /** The tables whose old rows go by one statement each, and the audit trail. */
    method Sweep(r: Rules)
      modifies this
      ensures files == old(files) && visits == old(visits) && Rows().rest == Swept(r, old(Rows()).rest)
    {
      hide Since, Uncollected, Running;
      invitations := Since(invitations, r.now - INVITATION_KEEP_DAYS * DAY);
      parcels := Uncollected(parcels, r.now - PARCEL_KEEP_DAYS * DAY);
      events := Since(events, r.now - r.eventDays * DAY);
      DeleteAudit(r.now - r.auditDays * DAY);
      attempts := Since(attempts, r.now);
      webhooks := Since(webhooks, r.now - DELIVERY_KEEP_DAYS * DAY);
      pushes := Since(pushes, r.now - DELIVERY_KEEP_DAYS * DAY);
      counters := Running(counters, r.now);
    }

    /** Batches of any due files, until one is short: then exactly the due ones are purged, and counted. */
    method PurgeDue(r: Rules) returns (purged: nat)
      modifies this`files
      ensures files == DueRemoved(r, old(files)) && purged == |DueFiles(r, old(files))|
    {
      purged := 0;
      ghost var all := DueFiles(r, files);
      ghost var done: set<FileId> := {};
      DueLeft(r, files, {});
      hide DueFiles, DueRemoved, WithPurged;
      while true
        invariant done <= all && purged == |done| && files == WithPurged(old(files), done)
        invariant DueFiles(r, files) == all - done && all - done <= files.Keys
        decreases |all - done|
      {
        var due := Take(DueFiles(r, files), BATCH);
        PurgeAll(due);
        PurgedTwice(old(files), done, due);
        BatchTaken(all, done, due);
        DueLeft(r, old(files), done + due);
        done := done + due;
        purged := purged + |due|;
        if |due| < BATCH { break; }
      }
      assert done == all;
    }

    /** `purge`, one file after the other. */
    method PurgeAll(due: set<FileId>)
      requires due <= files.Keys
      modifies this`files
      ensures files == WithPurged(old(files), due)
    {
      var todo := due;
      while todo != {}
        invariant todo <= due && files.Keys == old(files).Keys
        invariant forall f <- files ::
            files[f] == if f in due - todo then old(files)[f].(purged := true) else old(files)[f]
      {
        var f :| f in todo;
        files := files[f := files[f].(purged := true)];
        todo := todo - {f};
      }
    }

    /** Every site with a policy: past visits are anonymised, those left open overnight closed. */
    method SettleSites(r: Rules) returns (anonymised: nat, closed: nat)
      modifies this`files, this`visits
      ensures visits == VisitsAfter(r, old(visits), r.sites.Keys)
      ensures files == FilesAfter(r, old(visits), old(files), r.sites.Keys)
      ensures anonymised == |ExpiredVisits(r, old(visits), r.sites.Keys)|
      ensures closed == |OvernightVisits(r, old(visits), r.sites.Keys)|
    {
      anonymised, closed := 0, 0;
      var todo := r.sites.Keys;
      NoSitesDone(r, visits, files);
      hide VisitsAfter, FilesAfter, ExpiredVisits, OvernightVisits;
      ghost var all := todo;
      while todo != {}
        invariant todo <= all
        invariant visits == VisitsAfter(r, old(visits), all - todo)
        invariant files == FilesAfter(r, old(visits), old(files), all - todo)
        invariant anonymised == |ExpiredVisits(r, old(visits), all - todo)|
        invariant closed == |OvernightVisits(r, old(visits), all - todo)|
      {
        var s :| s in todo;
        SettledOneByOne(r, old(visits), all - todo, s);
        PurgedOneByOne(r, old(visits), old(files), all - todo, s);
        ExpiredOneByOne(r, old(visits), all - todo, s);
        OvernightOneByOne(r, old(visits), all - todo, s);
        assert all - (todo - {s}) == (all - todo) + {s};
        var a, c := SettleSite(r, s);
        anonymised, closed := anonymised + a, closed + c;
        todo := todo - {s};
      }
      assert all - todo == all;
    }

    method SettleSite(r: Rules, s: SiteId) returns (anonymised: nat, closed: nat)
      requires s in r.sites
      modifies this`files, this`visits
      ensures visits == VisitsAfter(r, old(visits), {s}) && files == FilesAfter(r, old(visits), old(files), {s})
      ensures anonymised == |ExpiredVisits(r, old(visits), {s})| && closed == |OvernightVisits(r, old(visits), {s})|
    {
      anonymised, closed := 0, 0;
      if r.sites[s].country !in r.policies {
        assert VisitsAfter(r, visits, {s}) == visits && FilesAfter(r, visits, files, {s}) == files;
        assert ExpiredVisits(r, visits, {s}) == {} && OvernightVisits(r, visits, {s}) == {};
        return;
      }
      ghost var visits0, files0 := visits, files;
      anonymised := AnonymiseExpired(r, s);
      assert files == FilesAfter(r, visits0, files0, {s});
      var late := set v <- visits | visits[v].site == s && Overnight(r, visits[v]);
      visits := map v <- visits :: if v in late then visits[v].(status := AUTO_CLOSED) else visits[v];
      closed := |late|;
      assert late == OvernightVisits(r, old(visits), {s});
    }

    /** Past visits of one site, batch by batch. */
    method AnonymiseExpired(r: Rules, s: SiteId) returns (anonymised: nat)
      requires Covered(r, s)
      modifies this`files, this`visits
      ensures anonymised == |ExpiredVisits(r, old(visits), {s})|
      ensures visits == VisitsBy(old(visits), ExpiredVisits(r, old(visits), {s}))
      ensures files == FilesBy(old(files), ExpiredVisits(r, old(visits), {s}))
    {
      anonymised := 0;
      ghost var all := ExpiredVisits(r, visits, {s});
      ghost var done: set<VisitId> := {};
      ByNone(visits, files);
      ExpiredLeft(r, visits, s, {});
      hide ExpiredVisits, VisitsBy, FilesBy, Covered;
      while true
        invariant done <= all && anonymised == |done|
        invariant visits == VisitsBy(old(visits), done) && files == FilesBy(old(files), done)
        invariant ExpiredVisits(r, visits, {s}) == all - done
        decreases |all - done|
      {
        var batch := Take(ExpiredVisits(r, visits, {s}), BATCH);
        ExpiredAreVisits(r, visits, s);
        AnonymiseAll(batch);
        BatchDone(r, old(visits), old(files), s, all, done, batch);
        done := done + batch;
        anonymised := anonymised + |batch|;
        if |batch| < BATCH { break; }
      }
      assert done == all;
    }

    method AnonymiseAll(batch: set<VisitId>)
      requires batch <= visits.Keys
      modifies this`files, this`visits
      ensures visits == VisitsBy(old(visits), batch) && files == FilesBy(old(files), batch)
    {
      var todo := batch;
      assert batch - todo == {} && VisitsBy(visits, {}) == visits && FilesBy(files, {}) == files;
      while todo != {}
        invariant todo <= batch && visits == VisitsBy(old(visits), batch - todo)
        invariant files == FilesBy(old(files), batch - todo)
      {
        var v :| v in todo;
        Anonymise(v);
        todo := todo - {v};
      }
      assert batch - todo == batch;
    }

    /** All files of the visit are purged first; the row stays, without its data. */
    method Anonymise(v: VisitId)
      requires v in visits
      modifies this`files, this`visits
      ensures visits == old(visits)[v := Anonymised(old(visits)[v])] && files == FilesBy(old(files), {v})
    {
      PurgeAll(set f <- files | files[f].visit == Some(v) && !files[f].purged);
      visits := visits[v := Anonymised(visits[v])];
    }

    /** Old audit entries, in batches. */
    method DeleteAudit(cutoff: int)
      modifies this`audit
      ensures audit == Since(old(audit), cutoff)
    {
      while true
        invariant forall a <- audit :: a in old(audit) && audit[a] == old(audit)[a]
        invariant forall a <- old(audit) :: old(audit)[a] >= cutoff ==> a in audit
        decreases |audit|
      {
        var old_ := Take((set a <- audit | audit[a] < cutoff), AUDIT_BATCH);
        ghost var before := audit;
        SubsetSize(old_, audit.Keys);
        audit := audit - old_;
        assert audit.Keys == before.Keys - old_;
        if |old_| < AUDIT_BATCH { break; }
      }
    }
  }

  function VisitsBy(visits: map<VisitId, Visit>, done: set<VisitId>): map<VisitId, Visit> {
    map v <- visits :: if v in done then Anonymised(visits[v]) else visits[v]
  }

  function FilesBy(files: map<FileId, File>, done: set<VisitId>): map<FileId, File> {
    map f <- files ::
        if files[f].visit.Some? && files[f].visit.value in done then files[f].(purged := true) else files[f]
  }

  function WithPurged(files: map<FileId, File>, done: set<FileId>): map<FileId, File> {
    map f <- files :: if f in done then files[f].(purged := true) else files[f]
  }

  lemma PurgedTwice(files: map<FileId, File>, a: set<FileId>, b: set<FileId>)
    ensures WithPurged(WithPurged(files, a), b) == WithPurged(files, a + b)
  {
  }

  lemma DueLeft(r: Rules, files: map<FileId, File>, done: set<FileId>)
    requires done <= DueFiles(r, files)
    ensures DueFiles(r, WithPurged(files, done)) == DueFiles(r, files) - done
    ensures DueFiles(r, files) <= WithPurged(files, done).Keys
    ensures WithPurged(files, {}) == files && WithPurged(files, DueFiles(r, files)) == DueRemoved(r, files)
  {
  }

  lemma ByNone(visits: map<VisitId, Visit>, files: map<FileId, File>)
    ensures VisitsBy(visits, {}) == visits && FilesBy(files, {}) == files
  {
  }

  lemma ByTwice(visits: map<VisitId, Visit>, files: map<FileId, File>, a: set<VisitId>, b: set<VisitId>)
    ensures VisitsBy(VisitsBy(visits, a), b) == VisitsBy(visits, a + b)
    ensures FilesBy(FilesBy(files, a), b) == FilesBy(files, a + b)
  {
  }

  lemma ExpiredLeft(r: Rules, visits: map<VisitId, Visit>, s: SiteId, done: set<VisitId>)
    requires done <= ExpiredVisits(r, visits, {s})
    ensures ExpiredVisits(r, VisitsBy(visits, done), {s}) == ExpiredVisits(r, visits, {s}) - done
  {
  }

  lemma BatchDone(r: Rules, visits: map<VisitId, Visit>, files: map<FileId, File>, s: SiteId, all: set<VisitId>,
          done: set<VisitId>, batch: set<VisitId>)
    requires all == ExpiredVisits(r, visits, {s}) && done <= all && batch <= all - done
    ensures VisitsBy(VisitsBy(visits, done), batch) == VisitsBy(visits, done + batch)
    ensures FilesBy(FilesBy(files, done), batch) == FilesBy(files, done + batch)
    ensures ExpiredVisits(r, VisitsBy(visits, done + batch), {s}) == all - (done + batch)
    ensures |done + batch| == |done| + |batch| && |all - (done + batch)| == |all - done| - |batch|
    ensures done + batch <= all
    ensures batch == all - done ==> done + batch == all
  {
    ByTwice(visits, files, done, batch);
    ExpiredLeft(r, visits, s, done + batch);
    hide *;
    BatchTaken(all, done, batch);
  }

  lemma ExpiredAreVisits(r: Rules, visits: map<VisitId, Visit>, s: SiteId)
    ensures ExpiredVisits(r, visits, {s}) <= visits.Keys
  {
  }
}

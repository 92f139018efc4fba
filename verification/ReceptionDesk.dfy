/**
 * The reception as the tablet, the guest's phone and the console run it: transactions are one step,
 * the rest of a call one statement at a time, and calls take turns in any order.
 */
module ReceptionDesks {
  import opened Options
  import opened ReceptionTables

  class ReceptionDesk {
    var now: int
    var invitations: map<InvitationId, Invitation>
    var visits: map<VisitId, Visit>
    var files: map<FileId, File>
    var nextVisit: nat
    var nextFile: nat
    var calls: map<nat, Call>
    ghost var ever: map<InvitationId, Pass>
    ghost var arrivals: seq<Arrival>
    ghost var under: map<FileId, nat>

    ghost function Tables(): Desk
      reads this
    {
      Desk(invitations, visits, files, nextVisit, nextFile, calls, ever, arrivals, under)
    }

    ghost predicate Valid()
      reads this
    {
      Inv(Tables())
    }

    constructor (start: int)
      ensures Valid() && invitations == map[] && visits == map[] && files == map[] && calls == map[]
    {
      now, invitations, visits, files, nextVisit, nextFile, calls := start, map[], map[], map[], 0, 0, map[];
      ever, arrivals, under := map[], [], map[];
    }

    method Tick(to: int)
      requires Valid() && now <= to
      modifies this`now
      ensures Valid() && now == to
    {
      now := to;
    }

    method Begin(c: nat, call: Call)
      requires Valid() && c !in calls && (call.CancelRead? || call.SubmitRead? || call.ArriveRead? || call.LeaveRead?)
      modifies this`calls
      ensures Valid() && calls == old(calls)[c := call]
    {
      OtherCallMoves(calls, c, call);
      CallMoves(Tables(), calls[c := call]);
      hide Inv;
      calls := calls[c := call];
    }

    /** A call that is not purging a cancelled invitation's files goes on. */
    method GoOn(c: nat, next: Call)
      requires Valid() && c in calls && !calls[c].CancelList? && !calls[c].CancelPurge? && LeaveKnown(Tables(), next)
      modifies this`calls
      ensures Valid() && calls == old(calls)[c := next]
    {
      OtherCallMoves(calls, c, next);
      CallMoves(Tables(), calls[c := next]);
      hide Inv;
      calls := calls[c := next];
    }

    // -------------------------------------------------------------- invitations

    method Invite(i: InvitationId, site: SiteId, from: int, until: int)
      requires Valid() && i !in ever
      modifies this`invitations, this`ever
      ensures Valid() && invitations == old(invitations)[i := Invitation(site, from, until, PENDING, None, None)]
    {
      ghost var d := Tables();
      invitations := invitations[i := Invitation(site, from, until, PENDING, None, None)];
      ever := ever[i := Pass(site, from, until)];
      assert forall f :: FileOk(d, f) ==> FileOk(Tables(), f);
    }

    /** The retention job deletes an invitation some days after its last. */
    method DeleteOld(i: InvitationId)
      requires Valid() && i in invitations && invitations[i].until < now - INVITATION_KEEP_DAYS * DAY
      modifies this`invitations
      ensures Valid() && invitations == old(invitations) - {i}
    {
      ghost var d := Tables();
      invitations := invitations - {i};
      assert forall f :: FileOk(d, f) ==> FileOk(Tables(), f);
    }

    /** Why an invitation is not open any more, for the console. */
    function NotOpen(i: InvitationId): (bad: Option<string>)
      reads this
      ensures bad == None <==> i in invitations && invitations[i].status == PENDING && now <= invitations[i].until
      ensures bad == Some("NOT_FOUND") <==> i !in invitations
      ensures bad == Some("INVITATION_USED") <==> i in invitations && invitations[i].status == USED
      ensures bad == Some("INVITATION_CANCELLED") <==> i in invitations && invitations[i].status == CANCELLED
      ensures bad == Some("INVITATION_EXPIRED") <==>
                i in invitations && invitations[i].status == PENDING && invitations[i].until < now
    {
      assert i in invitations ==> Known(invitations[i].status);
      if i !in invitations then Some("NOT_FOUND")
      else if invitations[i].status == USED then Some("INVITATION_USED")
      else if invitations[i].status == CANCELLED then Some("INVITATION_CANCELLED")
      else if invitations[i].until < now then Some("INVITATION_EXPIRED")
      else None
    }

    method ReadForCancel(c: nat)
      requires Valid() && c in calls && calls[c].CancelRead?
      modifies this`calls
      ensures Valid()
      ensures var i := old(calls)[c].invitation; var bad := old(NotOpen(calls[c].invitation));
              calls == old(calls)[c := if bad.Some? then Over(bad) else CancelUpdate(i)]
    {
      hide Inv;
      var bad := NotOpen(calls[c].invitation);
      GoOn(c, if bad.Some? then Over(bad) else CancelUpdate(calls[c].invitation));
    }

    method UpdateForCancel(c: nat)
      requires Valid() && c in calls && calls[c].CancelUpdate?
      modifies this`calls, this`invitations
      ensures Valid()
      ensures var i := old(calls)[c].invitation;
              && calls == old(calls)[c := CancelList(i)]
              && invitations == if i in old(invitations) && old(invitations)[i].status == PENDING
                                then old(invitations)[i := old(invitations)[i].(status := CANCELLED)]
                                else old(invitations)
    {
      var i := calls[c].invitation;
      Cancelling(Tables(), c, i, i in invitations && invitations[i].status == PENDING);
      hide Inv;
      if i in invitations && invitations[i].status == PENDING {
        invitations := invitations[i := invitations[i].(status := CANCELLED)];
      }
      calls := calls[c := CancelList(i)];
    }

    /** All files waiting with the invitation are put on the call's list. */
    method ListForCancel(c: nat)
      requires Valid() && c in calls && calls[c].CancelList?
      modifies this`calls
      ensures Valid()
      ensures var i := old(calls)[c].invitation;
              calls == old(calls)[c := CancelPurge(i, set f <- files | Waiting(files[f], i))]
    {
      var i := calls[c].invitation;
      var todo := set f <- files | Waiting(files[f], i);
      ListingAll(Tables(), c, i, todo);
      hide Inv;
      calls := calls[c := CancelPurge(i, todo)];
    }

    method PurgeNextCancelled(c: nat)
      requires Valid() && c in calls && calls[c].CancelPurge?
      modifies this`calls, this`files
      ensures Valid()
      ensures var was := old(calls)[c];
              if was.todo == {} then files == old(files) && calls == old(calls)[c := Over(None)]
              else exists f <- was.todo ::
                  files == Purged(old(files), f)
                  && calls == old(calls)[c := CancelPurge(was.invitation, was.todo - {f})]
    {
      var i, todo := calls[c].invitation, calls[c].todo;
      if todo == {} {
        ListDone(Tables(), c, i);
        hide Inv;
        calls := calls[c := Over(None)];
      } else {
        var f :| f in todo;
        PurgingListed(Tables(), c, i, todo, f);
        hide Inv;
        files := Purged(files, f);
        calls := calls[c := CancelPurge(i, todo - {f})];
      }
    }

    // -------------------------------------------------------------- files

    /** Removes an image: by retention, an erasure, or with its parcel. */
    method Purge(f: FileId)
      requires Valid()
      modifies this`files
      ensures Valid() && files == Purged(old(files), f)
    {
      Purging(Tables(), f);
      hide Inv;
      files := Purged(files, f);
    }

    /** One new row, of exactly one owner, which exists and, if it is an invitation, is still open. */
    method Store(owner: Owner, kind: Kind, purgeAfter: int, ghost days: nat) returns (f: FileId)
      requires Valid()
      requires owner.OfVisit? ==> owner.visit in visits && purgeAfter <= visits[owner.visit].checkIn + days * DAY
      requires owner.OfInvitation? ==>
          owner.invitation in invitations && invitations[owner.invitation].status == PENDING
      modifies this`files, this`nextFile, this`under
      ensures Valid() && f == old(nextFile) && nextFile == f + 1
      ensures files == old(files)[f := Linked(owner, kind, purgeAfter)] && under == old(under)[f := days]
      ensures OneOwner(files[f])
    {
      Storing(Tables(), Linked(owner, kind, purgeAfter), days);
      hide Inv;
      f := nextFile;
      files := files[f := Linked(owner, kind, purgeAfter)];
      nextFile := f + 1;
      under := under[f := days];
    }

    /** The images of a visit, with the dates of its policy. */
    method StoreImages(v: VisitId, p: Policy, from: int, kinds: seq<Kind>)
      requires Valid() && v in visits && from == visits[v].checkIn
      modifies this`files, this`nextFile, this`under
      ensures Valid() && files == WithImages(old(files), old(nextFile), v, p, from, kinds)
      ensures nextFile == old(nextFile) + |kinds|
      decreases |kinds|
    {
      hide Inv;
      if kinds != [] {
        var f := Store(OfVisit(v), kinds[0], from + KeepDays(p, kinds[0]) * DAY, p.visitDays);
        StoreImages(v, p, from, kinds[1..]);
      }
    }

    // -------------------------------------------------------------- the guest's phone

    /** Why the guest cannot use the invitation any more, from the phone. */
    function NotLoaded(i: InvitationId): (bad: Option<string>)
      reads this
      ensures bad == None <==> i in invitations && invitations[i].status == PENDING && now < invitations[i].until
      ensures bad == Some("INVITATION_NOT_FOUND") <==> i in invitations ==> invitations[i].status == CANCELLED
      ensures bad == Some("INVITATION_USED") <==> i in invitations && invitations[i].status == USED
      ensures bad == Some("INVITATION_EXPIRED") <==>
                i in invitations && invitations[i].status == PENDING && invitations[i].until <= now
    {
      assert i in invitations ==> Known(invitations[i].status);
      if i !in invitations || invitations[i].status == CANCELLED then Some("INVITATION_NOT_FOUND")
      else if invitations[i].status == USED then Some("INVITATION_USED")
      else if invitations[i].until <= now then Some("INVITATION_EXPIRED")
      else None
    }

    method ReadForSubmit(c: nat, asked: Asked)
      requires Valid() && c in calls && calls[c].SubmitRead?
      modifies this`calls
      ensures Valid()
      ensures var i, p := old(calls)[c].invitation, old(calls)[c].policy;
              var bad, refused := old(NotLoaded(calls[c].invitation)), FormRefused(old(calls)[c].form, p, asked);
              calls == old(calls)[c := if bad.Some? then Over(bad)
                                       else if refused.Some? then Over(refused)
                                       else SubmitWrite(i, p, invitations[i].until, Pre(p.documentData, asked.Keys))]
    {
      hide Inv;
      var i, p := calls[c].invitation, calls[c].policy;
      var bad, refused := NotLoaded(i), FormRefused(calls[c].form, p, asked);
      if bad.Some? {
        GoOn(c, Over(bad));
      } else if refused.Some? {
        GoOn(c, Over(refused));
      } else {
        GoOn(c, SubmitWrite(i, p, invitations[i].until, Pre(p.documentData, asked.Keys)));
      }
    }

    /** Saves the pre-registration and its images, in one transaction; the images it replaces go next. */
    method WriteSubmission(c: nat)
      requires Valid() && c in calls && calls[c].SubmitWrite?
      modifies this`calls, this`invitations, this`files, this`nextFile, this`under
      ensures Valid()
      ensures var i, p := old(calls)[c].invitation, old(calls)[c].policy;
              var due := old(calls)[c].until + 604_800_000;
              if i in old(invitations) && old(invitations)[i].status == PENDING then
                && invitations == old(invitations)[i := old(invitations)[i].(pre := Some(old(calls)[c].pre))]
                && calls == old(calls)[c := SubmitPurge(set f <- old(files) | Waiting(old(files)[f], i))]
                && files == (var signed := old(files)[old(nextFile) := Linked(OfInvitation(i), SIGNATURE, due)];
                             if DocumentPhotoRequired(p)
                                 then signed[old(nextFile) + 1 := Linked(OfInvitation(i), DOCUMENT, due)] else signed)
              else
                files == old(files) && invitations == old(invitations)
                    && calls == old(calls)[c := Over(Some("INVITATION_USED"))]
    {
      hide Inv;
      var i, p, due := calls[c].invitation, calls[c].policy, calls[c].until + INVITATION_KEEP_DAYS * DAY;
      var replaced := set f <- files | Waiting(files[f], i);
      if i in invitations && invitations[i].status == PENDING {
        MarkPreregistered(i, calls[c].pre);
        var f := Store(OfInvitation(i), SIGNATURE, due, 0);
        if DocumentPhotoRequired(p) {
          var g := Store(OfInvitation(i), DOCUMENT, due, 0);
        }
        GoOn(c, SubmitPurge(replaced));
      } else {
        GoOn(c, Over(Some("INVITATION_USED")));
      }
    }

    method MarkPreregistered(i: InvitationId, pre: Pre)
      requires Valid() && i in invitations
      modifies this`invitations
      ensures Valid() && invitations == old(invitations)[i := old(invitations)[i].(pre := Some(pre))]
    {
      ghost var d := Tables();
      invitations := invitations[i := invitations[i].(pre := Some(pre))];
      assert forall f :: FileOk(d, f) ==> FileOk(Tables(), f);
    }

    /** One of the files listed before the new ones were stored is purged, any of them. */
    method PurgeNextReplaced(c: nat)
      requires Valid() && c in calls && calls[c].SubmitPurge?
      modifies this`calls, this`files
      ensures Valid()
      ensures var todo := old(calls)[c].todo;
              if todo == {} then files == old(files) && calls == old(calls)[c := Over(None)]
              else exists f <- todo ::
                  files == Purged(old(files), f) && calls == old(calls)[c := SubmitPurge(todo - {f})]
    {
      hide Inv;
      var todo := calls[c].todo;
      if todo == {} {
        GoOn(c, Over(None));
      } else {
        var f :| f in todo;
        Purge(f);
        GoOn(c, SubmitPurge(todo - {f}));
      }
    }

    // -------------------------------------------------------------- the tablet

    /** Whether an invitation can be used at a site now, and if not, why. */
    function Unusable(i: InvitationId, site: SiteId): (bad: Option<string>)
      reads this
      ensures bad == None <==>
                && i in invitations && invitations[i].site == site && invitations[i].status == PENDING
                && invitations[i].from <= now < invitations[i].until
      ensures bad == Some("INVITATION_OTHER_SITE") <==> i in invitations && invitations[i].site != site
      ensures bad == Some("INVITATION_USED") <==>
                i in invitations && invitations[i].site == site && invitations[i].status == USED
      ensures bad == Some("INVITATION_NOT_FOUND") <==>
                i in invitations ==> invitations[i].site == site && invitations[i].status == CANCELLED
      ensures bad == Some("INVITATION_NOT_TODAY") <==>
                && i in invitations && invitations[i].site == site && invitations[i].status == PENDING
                && !(invitations[i].from <= now < invitations[i].until)
    {
      assert i in invitations ==> Known(invitations[i].status);
      if i !in invitations then Some("INVITATION_NOT_FOUND")
      else if invitations[i].site != site then Some("INVITATION_OTHER_SITE")
      else if invitations[i].status == USED then Some("INVITATION_USED")
      else if invitations[i].status == CANCELLED then Some("INVITATION_NOT_FOUND")
      else if now < invitations[i].from || now >= invitations[i].until then Some("INVITATION_NOT_TODAY")
      else None
    }

    predicate HasImage(i: InvitationId, kind: Kind)
      reads this
    {
      exists f <- files :: Waiting(files[f], i) && files[f].kind == kind
    }

    /** What was sent from the phone, images and all, is enough for the policy and the documents asked now. */
    predicate Complete(i: InvitationId, p: Policy, asked: Asked): (complete: bool)
      reads this
      ensures complete <==>
                && i in invitations && invitations[i].pre.Some? && asked.Keys <= invitations[i].pre.value.documents
                && (p.documentData ==> invitations[i].pre.value.document)
                && (exists f <- files ::
                    files[f].invitation == Some(i) && !files[f].purged && files[f].kind == SIGNATURE)
                && (p.documentData || p.documentPhoto ==>
                      exists f <- files ::
                          files[f].invitation == Some(i) && !files[f].purged && files[f].kind == DOCUMENT)
    {
      && i in invitations && Covers(invitations[i].pre, p, asked)
      && HasImage(i, SIGNATURE) && (DocumentPhotoRequired(p) ==> HasImage(i, DOCUMENT))
    }

    /** What the phone sent has to be enough for the policy and the documents of the day. */
    method ReadForArrival(c: nat, asked: Asked)
      requires Valid() && c in calls && calls[c].ArriveRead?
      modifies this`calls
      ensures Valid()
      ensures var was := old(calls)[c]; var bad := old(Unusable(calls[c].invitation, calls[c].site));
              calls == old(calls)[c := if bad.Some? then Over(bad)
                                       else if old(Complete(calls[c].invitation, calls[c].policy, asked))
                                       then ArriveWrite(was.invitation, was.site, was.policy)
                                       else Over(Some("PREREGISTRATION_INCOMPLETE"))]
    {
      hide Inv;
      var i, site, p := calls[c].invitation, calls[c].site, calls[c].policy;
      var bad := Unusable(i, site);
      if bad.Some? {
        GoOn(c, Over(bad));
      } else if Complete(i, p, asked) {
        GoOn(c, ArriveWrite(i, site, p));
      } else {
        GoOn(c, Over(Some("PREREGISTRATION_INCOMPLETE")));
      }
    }

    /**
     * One transaction: a visit, the waiting files moved to it, a photo of the laptop if wanted, and
     * the invitation used by it.
     */
    method WriteArrival(c: nat)
      requires Valid() && c in calls && calls[c].ArriveWrite?
      modifies this`calls, this`visits, this`nextVisit, this`files, this`nextFile, this`invitations, this`arrivals,
          this`under
      ensures Valid()
      ensures var was := old(calls)[c];
              c in calls && (calls[c] == Over(None) <==>
                && was.invitation in old(invitations) && old(invitations)[was.invitation].status == PENDING
                && old(invitations)[was.invitation].site == was.site
                && old(invitations)[was.invitation].from <= now < old(invitations)[was.invitation].until)
      ensures var was := old(calls)[c]; var bad := old(Unusable(calls[c].invitation, calls[c].site));
              if bad.Some? then
                files == old(files) && visits == old(visits) && invitations == old(invitations)
                    && calls == old(calls)[c := Over(bad)]
              else
                var v := old(nextVisit);
                && calls == old(calls)[c := Over(None)]
                && visits == old(visits)[v := Visit(was.site, now, true)]
                && invitations == UsedBy(old(invitations), was.invitation, v)
                && arrivals == old(arrivals) + [Arrival(was.invitation, v, true)]
                && files == WithImages(Moved(old(files), was.invitation, v, was.policy, now), old(nextFile), v,
                                       was.policy, now, if was.policy.assetRequired then [ASSET_IN] else [])
    {
      hide Inv, WithImages;
      var i, site, p := calls[c].invitation, calls[c].site, calls[c].policy;
      var bad := Unusable(i, site);
      if bad.Some? {
        GoOn(c, Over(bad));
      } else {
        var v := Consume(i, site, p, true);
        StoreImages(v, p, now, if p.assetRequired then [ASSET_IN] else []);
        GoOn(c, Over(None));
      }
    }

    /** The visit with its images, and the invitation of the code, if one is given, used by it; or nothing. */
    method CheckIn(site: SiteId, p: Policy, with: Option<InvitationId>) returns (error: Option<string>)
      requires Valid()
      modifies this`visits, this`nextVisit, this`files, this`nextFile, this`invitations, this`arrivals, this`under
      ensures Valid() && calls == old(calls)
      ensures error == if with.Some? then old(Unusable(with.value, site)) else None
      ensures with.Some? ==> (error == None <==>
                && with.value in old(invitations) && old(invitations)[with.value].status == PENDING
                && old(invitations)[with.value].site == site
                && old(invitations)[with.value].from <= now < old(invitations)[with.value].until)
      ensures error.Some? ==> files == old(files) && visits == old(visits) && invitations == old(invitations)
      ensures error.None? ==>
                var v := old(nextVisit);
                && visits == old(visits)[v := Visit(site, now, true)]
                && files == WithImages(old(files), old(nextFile), v, p, now, FormImages(p))
                && invitations == if with.Some? then UsedBy(old(invitations), with.value, v) else old(invitations)
    {
      hide Inv, WithImages;
      if with.Some? {
        error := Unusable(with.value, site);
        if error.Some? { return; }
      }
      error := None;
      var v;
      if with.Some? {
        v := Consume(with.value, site, p, false);
      } else {
        v := Enter(site);
      }
      StoreImages(v, p, now, FormImages(p));
    }

    /** A visit without an invitation. */
    method Enter(site: SiteId) returns (v: VisitId)
      requires Valid()
      modifies this`visits, this`nextVisit
      ensures Valid() && v == old(nextVisit) && nextVisit == v + 1 && visits == old(visits)[v := Visit(site, now, true)]
    {
      ghost var d := Tables();
      v := nextVisit;
      assert v !in visits;
      visits := visits[v := Visit(site, now, true)];
      nextVisit := v + 1;
      assert forall f :: FileOk(d, f) ==> FileOk(Tables(), f);
    }

    /** A visit that uses an invitation; a pre-registered one takes the images from the phone along. */
    method Consume(i: InvitationId, site: SiteId, p: Policy, pre: bool) returns (v: VisitId)
      requires Valid() && i in invitations && invitations[i].status == PENDING
      requires invitations[i].site == site && invitations[i].from <= now < invitations[i].until
      modifies this`visits, this`nextVisit, this`files, this`invitations, this`arrivals, this`under
      ensures Valid() && v == old(nextVisit) && Tables() == Arrived(old(Tables()), i, site, p, now, pre)
    {
      Arriving(Tables(), i, site, p, now, pre);
      hide Inv, Moved, MovedUnder, Waiting, Arrived, UsedBy;
      ghost var d := Tables();
      v := nextVisit;
      visits := visits[v := Visit(site, now, true)];
      nextVisit := v + 1;
      if pre { MoveFiles(i, v, p); }
      invitations := UsedBy(invitations, i, v);
      arrivals := arrivals + [Arrival(i, v, pre)];
      ArrivedAs(d, Tables(), i, site, p, now, pre);
    }

    /** The rows waiting with the invitation are changed one at a time into those of `Moved`. */
    method MoveFiles(i: InvitationId, v: VisitId, p: Policy)
      modifies this`files, this`under
      ensures files == Moved(old(files), i, v, p, now) && under == MovedUnder(old(files), old(under), i, p)
    {
      under := MovedUnder(files, under, i, p);
      var all := set f <- files | Waiting(files[f], i);
      var todo := all;
      while todo != {}
        invariant todo <= all && under == MovedUnder(old(files), old(under), i, p) && files.Keys == old(files).Keys
        invariant forall f <- files ::
            files[f] == if f in all - todo then Moved(old(files), i, v, p, now)[f] else old(files)[f]
      {
        var f :| f in todo;
        files := files[f := MovedFile(files[f], v, p, now)];
        todo := todo - {f};
      }
    }

    // -------------------------------------------------------------- leaving

    method ReadForLeaving(c: nat)
      requires Valid() && c in calls && calls[c].LeaveRead?
      modifies this`calls
      ensures Valid()
      ensures var was := old(calls)[c];
              calls == old(calls)[c := if was.visit !in visits || visits[was.visit].site != was.site
                                       then Over(Some("NOT_FOUND"))
                                       else if !visits[was.visit].open then Over(Some("VISIT_ALREADY_CLOSED"))
                                       else LeaveWrite(was.visit, visits[was.visit].checkIn, was.policy)]
    {
      hide Inv;
      var v, site := calls[c].visit, calls[c].site;
      var next := if v !in visits || visits[v].site != site then Over(Some("NOT_FOUND"))
                  else if !visits[v].open then Over(Some("VISIT_ALREADY_CLOSED"))
                  else LeaveWrite(v, visits[v].checkIn, calls[c].policy);
      GoOn(c, next);
    }

    function LastPhoto(c: Call): (f: File)
      requires c.LeaveWrite?
      ensures DueBy(f, c.visit, ASSET_OUT, c.checkIn, c.policy.assetDays, c.policy.visitDays) && !f.purged
    {
      Linked(OfVisit(c.visit), ASSET_OUT, c.checkIn + KeepDays(c.policy, ASSET_OUT) * DAY)
    }

    /** Only an open visit is closed; its last photo counts from the check-in. */
    method WriteLeaving(c: nat)
      requires Valid() && c in calls && calls[c].LeaveWrite?
      modifies this`calls, this`visits, this`files, this`nextFile, this`under
      ensures Valid()
      ensures old(calls)[c].visit in old(visits) && old(visits)[old(calls)[c].visit].checkIn == old(calls)[c].checkIn
      ensures var was := old(calls)[c];
              if old(visits)[was.visit].open then
                && visits == old(visits)[was.visit := old(visits)[was.visit].(open := false)]
                && calls == old(calls)[c := Over(None)]
                && files == if was.policy.assetRequired then old(files)[old(nextFile) := LastPhoto(was)] else old(files)
              else
                && visits == old(visits) && files == old(files)
                && calls == old(calls)[c := Over(Some("VISIT_ALREADY_CLOSED"))]
    {
      var v, checkIn, p := calls[c].visit, calls[c].checkIn, calls[c].policy;
      assert LeaveKnown(Tables(), calls[c]);
      if visits[v].open {
        ghost var d := Tables();
        visits := visits[v := visits[v].(open := false)];
        assert forall f :: FileOk(d, f) ==> FileOk(Tables(), f);
        hide Inv;
        if p.assetRequired {
          var f := Store(OfVisit(v), ASSET_OUT, checkIn + KeepDays(p, ASSET_OUT) * DAY, p.visitDays);
        }
        GoOn(c, Over(None));
      } else {
        hide Inv;
        GoOn(c, Over(Some("VISIT_ALREADY_CLOSED")));
      }
    }
  }
}

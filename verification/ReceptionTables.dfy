/**
 * Visits, invitations and the images that belong to them: whose each image is, until when it may
 * stay, and what a cancelled or used invitation leaves behind.
 */
module ReceptionTables {
  import opened Options

  type VisitId = nat
  type InvitationId = nat
  type FileId = nat
  type DocumentId = nat
  type SiteId = nat

  const DAY: int := 86_400_000
  const INVITATION_KEEP_DAYS := 7

  datatype Kind = SIGNATURE | DOCUMENT | ASSET_IN | ASSET_OUT | PARCEL
  datatype Status = PENDING | USED | CANCELLED

  datatype Policy = Policy(visitDays: nat, documentDays: nat, assetDays: nat,
                           documentData: bool, documentPhoto: bool, assetRequired: bool)
  datatype Visit = Visit(site: SiteId, checkIn: int, open: bool)
  /** What a pre-registration holds: whether the identity document was given, and the documents accepted. */
  datatype Pre = Pre(document: bool, documents: set<DocumentId>)
  /** What the guest sends: whether the identity document is given, a photo of it, and the versions accepted. */
  datatype Form = Form(document: bool, photo: bool, accepted: set<nat>)
  /** The documents a site asks to accept now, each with its current version. */
  type Asked = map<DocumentId, nat>
  datatype Invitation = Invitation(site: SiteId, from: int, until: int, status: Status,
                                   visit: Option<VisitId>, pre: Option<Pre>)
  /** A row of `stored_files`: three columns for the owner, one of them set. */
  datatype File = File(visit: Option<VisitId>, invitation: Option<InvitationId>, parcel: Option<nat>,
                       kind: Kind, purgeAfter: int, purged: bool)
  datatype Owner = OfVisit(visit: VisitId) | OfInvitation(invitation: InvitationId) | OfParcel(parcel: nat)

  /** Which visit used which invitation; `pre` if the guest did not fill in the form at the tablet. */
  datatype Arrival = Arrival(invitation: InvitationId, visit: VisitId, pre: bool)

  datatype Call =
    | CancelRead(invitation: InvitationId)
    | CancelUpdate(invitation: InvitationId)
    | CancelList(invitation: InvitationId)
    | CancelPurge(invitation: InvitationId, todo: set<FileId>)
    | SubmitRead(invitation: InvitationId, policy: Policy, form: Form)
    | SubmitWrite(invitation: InvitationId, policy: Policy, until: int, pre: Pre)
    | SubmitPurge(todo: set<FileId>)
    | ArriveRead(invitation: InvitationId, site: SiteId, policy: Policy)
    | ArriveWrite(invitation: InvitationId, site: SiteId, policy: Policy)
    | LeaveRead(visit: VisitId, site: SiteId, policy: Policy)
    | LeaveWrite(visit: VisitId, checkIn: int, policy: Policy)
    | Over(error: Option<string>)

  ghost predicate Known(s: Status) {
    s == PENDING || s == USED || s == CANCELLED
  }

  /** Where and when an invitation may be used. */
  datatype Pass = Pass(site: SiteId, from: int, until: int)

  /**
   * `ever` are all invitations there have been, deleted ones too, `under` the days of the visit
   * retention in force when a file got its date.
   */
  datatype Desk = Desk(invitations: map<InvitationId, Invitation>, visits: map<VisitId, Visit>,
                       files: map<FileId, File>, nextVisit: nat, nextFile: nat, calls: map<nat, Call>,
                       ever: map<InvitationId, Pass>, arrivals: seq<Arrival>, under: map<FileId, nat>)

  function Min(a: nat, b: nat): nat {
    if a < b then a else b
  }

  predicate DocumentPhotoRequired(p: Policy) {
    p.documentData || p.documentPhoto
  }

  /** Days a file of a visit is kept, by kind. */
  function KeepDays(p: Policy, kind: Kind): (days: nat)
    ensures days <= p.visitDays
  {
    match kind
    case DOCUMENT => Min(p.documentDays, p.visitDays)
    case ASSET_IN => Min(p.assetDays, p.visitDays)
    case ASSET_OUT => Min(p.assetDays, p.visitDays)
    case _ => p.visitDays
  }

  /** Days a file moved from the phone is kept: a document photo the policy no longer wants goes at once. */
  function MovedDays(p: Policy, kind: Kind): (days: nat)
    ensures days <= p.visitDays
  {
    if kind == DOCUMENT && !DocumentPhotoRequired(p) then 0
    else if kind == DOCUMENT then KeepDays(p, DOCUMENT)
    else p.visitDays
  }

  /** Why a form is refused: other documents than those asked, or no identity document where the policy wants it. */
  function FormRefused(form: Form, p: Policy, asked: Asked): (refused: Option<string>)
    ensures refused == None <==>
              && (forall d <- asked :: asked[d] in form.accepted) && |form.accepted| == |asked|
              && (p.documentData ==> form.document && form.photo) && (p.documentPhoto ==> form.photo)
    ensures refused == Some("DOCUMENTS_OUTDATED") <==>
              (exists d <- asked :: asked[d] !in form.accepted) || |form.accepted| != |asked|
    ensures refused == Some("DOCUMENT_REQUIRED") <==>
              && (forall d <- asked :: asked[d] in form.accepted) && |form.accepted| == |asked|
              && p.documentData && !form.document
    ensures refused == Some("DOCUMENT_PHOTO_REQUIRED") <==>
              && (forall d <- asked :: asked[d] in form.accepted) && |form.accepted| == |asked|
              && (p.documentData ==> form.document) && (p.documentData || p.documentPhoto) && !form.photo
  {
    if !(asked.Values <= form.accepted) || |form.accepted| != |asked| then Some("DOCUMENTS_OUTDATED")
    else if p.documentData && !form.document then Some("DOCUMENT_REQUIRED")
    else if DocumentPhotoRequired(p) && !form.photo then Some("DOCUMENT_PHOTO_REQUIRED")
    else None
  }

  /** Enough for the policy and for the documents asked now, whichever versions were accepted then. */
  predicate Covers(pre: Option<Pre>, p: Policy, asked: Asked) {
    pre.Some? && (p.documentData ==> pre.value.document) && asked.Keys <= pre.value.documents
  }

  function Linked(owner: Owner, kind: Kind, purgeAfter: int): File {
    match owner
    case OfVisit(v) => File(Some(v), None, None, kind, purgeAfter, false)
    case OfInvitation(i) => File(None, Some(i), None, kind, purgeAfter, false)
    case OfParcel(p) => File(None, None, Some(p), kind, purgeAfter, false)
  }

  function MovedFile(f: File, v: VisitId, p: Policy, now: int): File {
    f.(visit := Some(v), invitation := None, purgeAfter := now + MovedDays(p, f.kind) * DAY)
  }

  function UsedBy(invitations: map<InvitationId, Invitation>, i: InvitationId,
          v: VisitId): map<InvitationId, Invitation>
    requires i in invitations
  {
    invitations[i := invitations[i].(status := USED, visit := Some(v))]
  }

  /** The images that come with the form. */
  function FormImages(p: Policy): seq<Kind> {
    [SIGNATURE] + (if DocumentPhotoRequired(p) then [DOCUMENT] else []) + (if p.assetRequired then [ASSET_IN] else [])
  }

  predicate Waiting(f: File, i: InvitationId) {
    f.invitation == Some(i) && !f.purged
  }

  /** The rows waiting with the invitation change owner, and their dates are counted from the arrival by `MovedDays`. */
  function Moved(files: map<FileId, File>, i: InvitationId, v: VisitId, p: Policy, now: int): map<FileId, File> {
    map f <- files :: if Waiting(files[f], i) then MovedFile(files[f], v, p, now) else files[f]
  }

  function MovedUnder(files: map<FileId, File>, under: map<FileId, nat>, i: InvitationId, p: Policy): map<FileId, nat> {
    map f <- under.Keys + (set g <- files | Waiting(files[g], i)) ::
        if f in files && Waiting(files[f], i) then p.visitDays else under[f]
  }

  /** New images of a visit, one after the other. */
  function WithImages(files: map<FileId, File>, next: FileId, v: VisitId, p: Policy, from: int,
          kinds: seq<Kind>): map<FileId, File>
    decreases |kinds|
  {
    if kinds == [] then files
    else WithImages(files[next := Linked(OfVisit(v), kinds[0], from + KeepDays(p, kinds[0]) * DAY)], next + 1, v, p,
        from, kinds[1..])
  }

  // ---------------------------------------------------------------- what always holds

  predicate OneOwner(f: File) {
    || (f.visit.Some? && f.invitation.None? && f.parcel.None?)
    || (f.visit.None? && f.invitation.Some? && f.parcel.None?)
    || (f.visit.None? && f.invitation.None? && f.parcel.Some?)
  }

  /** One owner, which exists or existed; a visit's file is due within the retention of its day. */
  predicate FileOk(d: Desk, f: FileId) {
    f in d.files ==>
      && f < d.nextFile && OneOwner(d.files[f])
      && (d.files[f].visit.Some? ==>
            && d.files[f].visit.value in d.visits && f in d.under
            && d.files[f].purgeAfter <= d.visits[d.files[f].visit.value].checkIn + d.under[f] * DAY)
      && (d.files[f].invitation.Some? ==> d.files[f].invitation.value in d.ever)
  }

  predicate ListedBy(c: Call, i: InvitationId, f: FileId) {
    c == CancelList(i) || (c.CancelPurge? && c.invitation == i && f in c.todo)
  }

  /** Some cancellation under way will still purge the file. */
  ghost predicate Listed(calls: map<nat, Call>, i: InvitationId, f: FileId) {
    exists c <- calls :: ListedBy(calls[c], i, f)
  }

  ghost predicate CancelledIsEmptied(d: Desk) {
    forall i, f ::
        i in d.invitations && d.invitations[i].status == CANCELLED && f in d.files && Waiting(d.files[f], i) ==>
        Listed(d.calls, i, f)
  }

  ghost predicate ArrivedIsEmptied(d: Desk) {
    forall a <- d.arrivals, f <- d.files :: a.pre ==> !Waiting(d.files[f], a.invitation)
  }

  /** No invitation is used by two visits. */
  ghost predicate OneVisitEach(arrivals: seq<Arrival>) {
    forall i, j :: 0 <= i < j < |arrivals| ==> arrivals[i].invitation != arrivals[j].invitation
  }

  /** The visit began at the site and in the time of the invitation. */
  predicate OnItsDay(p: Pass, v: Visit) {
    v.site == p.site && p.from <= v.checkIn < p.until
  }

  ghost predicate ArrivalsOk(d: Desk) {
    && OneVisitEach(d.arrivals)
    && (forall a <- d.arrivals ::
          && a.invitation in d.ever && a.visit in d.visits
          && OnItsDay(d.ever[a.invitation], d.visits[a.visit])
          && (a.invitation in d.invitations ==>
              d.invitations[a.invitation].status == USED && d.invitations[a.invitation].visit == Some(a.visit)))
  }

  function PassOf(i: Invitation): Pass {
    Pass(i.site, i.from, i.until)
  }

  ghost predicate RowsOk(d: Desk) {
    && (forall f :: FileOk(d, f))
    && (forall v <- d.visits :: v < d.nextVisit)
    && (forall i <- d.invitations :: i in d.ever && d.ever[i] == PassOf(d.invitations[i]))
  }

  /** A call about to close a visit knows when it began. */
  ghost predicate LeaveKnown(d: Desk, c: Call) {
    c.LeaveWrite? ==> c.visit in d.visits && d.visits[c.visit].checkIn == c.checkIn
  }

  ghost predicate Inv(d: Desk) {
    RowsOk(d) && ArrivalsOk(d) && ArrivedIsEmptied(d) && CancelledIsEmptied(d) && forall c <- d.calls ::
        LeaveKnown(d, d.calls[c])
  }

  // ---------------------------------------------------------------- steps

  /** Calls move on, but no cancellation that still has files to purge. */
  ghost predicate KeepsListing(calls: map<nat, Call>, calls': map<nat, Call>) {
    forall i, f :: Listed(calls, i, f) ==> Listed(calls', i, f)
  }

  lemma OtherCallMoves(calls: map<nat, Call>, c: nat, next: Call)
    requires c !in calls || (!calls[c].CancelList? && !calls[c].CancelPurge?)
    ensures KeepsListing(calls, calls[c := next])
  {
    var calls' := calls[c := next];
    forall i, f | Listed(calls, i, f) ensures Listed(calls', i, f) {
      var x :| x in calls && ListedBy(calls[x], i, f);
      assert x in calls' && ListedBy(calls'[x], i, f);
    }
  }

  lemma CallMoves(d: Desk, calls: map<nat, Call>)
    requires Inv(d) && KeepsListing(d.calls, calls) && forall c <- calls :: LeaveKnown(d, calls[c])
    ensures Inv(d.(calls := calls))
  {
    assert forall f :: FileOk(d, f) ==> FileOk(d.(calls := calls), f);
  }

  /** A cancelled invitation's files are purged, each listed by the call that is about to look for them. */
  lemma Cancelling(d: Desk, c: nat, i: InvitationId, cancelled: bool)
    requires Inv(d) && c in d.calls && d.calls[c] == CancelUpdate(i)
    requires cancelled <==> i in d.invitations && d.invitations[i].status == PENDING
    ensures var calls := d.calls[c := CancelList(i)];
            Inv(if cancelled
                then d.(invitations := d.invitations[i := d.invitations[i].(status := CANCELLED)], calls := calls)
                else d.(calls := calls))
  {
    var calls := d.calls[c := CancelList(i)];
    OtherCallMoves(d.calls, c, CancelList(i));
    CallMoves(d, calls);
    var before := d.(calls := calls);
    if cancelled {
      var d' := before.(invitations := d.invitations[i := d.invitations[i].(status := CANCELLED)]);
      assert RowsOk(d') by { assert forall f :: FileOk(before, f) ==> FileOk(d', f); }
      forall j, f | j in d'.invitations && d'.invitations[j].status == CANCELLED && f in d'.files
          && Waiting(d'.files[f], j) ensures Listed(calls, j, f) {
        if j == i { assert ListedBy(calls[c], j, f); }
      }
    }
  }

  lemma ListingAll(d: Desk, c: nat, i: InvitationId, todo: set<FileId>)
    requires Inv(d) && c in d.calls && d.calls[c] == CancelList(i) && todo == set f <- d.files | Waiting(d.files[f], i)
    ensures Inv(d.(calls := d.calls[c := CancelPurge(i, todo)]))
  {
    var calls := d.calls[c := CancelPurge(i, todo)];
    var d' := d.(calls := calls);
    assert RowsOk(d') by { assert forall f :: FileOk(d, f) ==> FileOk(d', f); }
    forall j, f | j in d.invitations && d.invitations[j].status == CANCELLED && f in d.files && Waiting(d.files[f], j)
        ensures Listed(calls, j, f) {
      if j == i {
        assert ListedBy(calls[c], j, f);
      } else {
        var x :| x in d.calls && ListedBy(d.calls[x], j, f);
        assert ListedBy(calls[x], j, f);
      }
    }
  }

  function Purged(files: map<FileId, File>, f: FileId): map<FileId, File> {
    if f in files then files[f := files[f].(purged := true)] else files
  }

  lemma Purging(d: Desk, f: FileId)
    requires Inv(d)
    ensures Inv(d.(files := Purged(d.files, f)))
  {
    var d' := d.(files := Purged(d.files, f));
    assert RowsOk(d') by { assert forall g :: FileOk(d, g) ==> FileOk(d', g); }
    forall a, g | a in d'.arrivals && g in d'.files && a.pre ensures !Waiting(d'.files[g], a.invitation) {
      assert !Waiting(d.files[g], a.invitation);
    }
  }

  /** One file of the list is purged, and leaves the list. */
  lemma PurgingListed(d: Desk, c: nat, i: InvitationId, todo: set<FileId>, f: FileId)
    requires Inv(d) && c in d.calls && d.calls[c] == CancelPurge(i, todo) && f in todo
    ensures Inv(d.(files := Purged(d.files, f), calls := d.calls[c := CancelPurge(i, todo - {f})]))
  {
    Purging(d, f);
    var p := d.(files := Purged(d.files, f));
    var calls := d.calls[c := CancelPurge(i, todo - {f})];
    var d' := p.(calls := calls);
    assert RowsOk(d') by { assert forall g :: FileOk(p, g) ==> FileOk(d', g); }
    forall j, g | j in d'.invitations && d'.invitations[j].status == CANCELLED && g in d'.files
        && Waiting(d'.files[g], j) ensures Listed(calls, j, g) {
      var x :| x in d.calls && ListedBy(d.calls[x], j, g);
      assert ListedBy(calls[x], j, g);
    }
  }

  lemma ListDone(d: Desk, c: nat, i: InvitationId)
    requires Inv(d) && c in d.calls && d.calls[c] == CancelPurge(i, {})
    ensures Inv(d.(calls := d.calls[c := Over(None)]))
  {
    var calls := d.calls[c := Over(None)];
    forall j, f | Listed(d.calls, j, f) ensures Listed(calls, j, f) {
      var x :| x in d.calls && ListedBy(d.calls[x], j, f);
      assert x in calls && ListedBy(calls[x], j, f);
    }
    CallMoves(d, calls);
  }

  /**
   * A new row keeps the rules if a visit's is due within `under` days of its check-in and an
   * invitation's finds it open.
   */
  lemma Storing(d: Desk, file: File, under: nat)
    requires Inv(d) && OneOwner(file) && !file.purged
    requires file.visit.Some? ==>
        file.visit.value in d.visits && file.purgeAfter <= d.visits[file.visit.value].checkIn + under * DAY
    requires file.invitation.Some? ==>
        file.invitation.value in d.invitations && d.invitations[file.invitation.value].status == PENDING
    ensures Inv(d.(files := d.files[d.nextFile := file], nextFile := d.nextFile + 1,
        under := d.under[d.nextFile := under]))
  {
    var d' := d.(files := d.files[d.nextFile := file], nextFile := d.nextFile + 1,
        under := d.under[d.nextFile := under]);
    assert FileOk(d, d.nextFile);
    assert RowsOk(d') by { assert forall f :: FileOk(d, f) ==> FileOk(d', f); }
  }

  /** The arrival of a guest: the visit, the moved files if pre-registered, and the invitation used. */
  lemma Arriving(d: Desk, i: InvitationId, site: SiteId, p: Policy, now: int, pre: bool)
    requires Inv(d) && i in d.invitations && d.invitations[i].status == PENDING
    requires d.invitations[i].site == site && d.invitations[i].from <= now < d.invitations[i].until
    ensures Inv(Arrived(d, i, site, p, now, pre))
  {
    var d' := Arrived(d, i, site, p, now, pre);
    var v := d.nextVisit;
    forall f ensures FileOk(d', f) {
      assert FileOk(d, f);
    }
    assert v !in d.visits;
    assert ArrivedIsEmptied(d') by {
      forall a, f | a in d'.arrivals && f in d'.files && a.pre ensures !Waiting(d'.files[f], a.invitation) {
        if a in d.arrivals { assert !Waiting(d.files[f], a.invitation); }
      }
    }
    assert forall k :: 0 <= k < |d.arrivals| ==> d.arrivals[k] in d.arrivals && d.arrivals[k].invitation != i;
    forall j, f | j in d'.invitations && d'.invitations[j].status == CANCELLED && f in d'.files
        && Waiting(d'.files[f], j) ensures Listed(d'.calls, j, f) {
      assert Waiting(d.files[f], j);
    }
  }

  function Arrived(d: Desk, i: InvitationId, site: SiteId, p: Policy, now: int, pre: bool): Desk
    requires i in d.invitations
  {
    var v := d.nextVisit;
    d.(visits := d.visits[v := Visit(site, now, true)], nextVisit := v + 1,
       files := if pre then Moved(d.files, i, v, p, now) else d.files,
       under := if pre then MovedUnder(d.files, d.under, i, p) else d.under,
       invitations := UsedBy(d.invitations, i, v), arrivals := d.arrivals + [Arrival(i, v, pre)])
  }

  lemma ArrivedAs(d: Desk, d': Desk, i: InvitationId, site: SiteId, p: Policy, now: int, pre: bool)
    requires i in d.invitations && d'.calls == d.calls && d'.ever == d.ever && d'.nextFile == d.nextFile
    requires d'.nextVisit == d.nextVisit + 1 && d'.visits == d.visits[d.nextVisit := Visit(site, now, true)]
    requires d'.files == if pre then Moved(d.files, i, d.nextVisit, p, now) else d.files
    requires d'.under == if pre then MovedUnder(d.files, d.under, i, p) else d.under
    requires d'.invitations == UsedBy(d.invitations, i, d.nextVisit)
    requires d'.arrivals == d.arrivals + [Arrival(i, d.nextVisit, pre)]
    ensures d' == Arrived(d, i, site, p, now, pre)
  {
    hide Moved, MovedUnder, UsedBy;
  }

  // ---------------------------------------------------------------- what follows

  /**
   * Whoever came with an invitation, in whatever way, came to its site and in its time, and was the
   * only one: of invitations deleted since, too.
   */
  lemma InvitationsAreForOneDay(d: Desk, k: nat)
    requires Inv(d) && k < |d.arrivals|
    ensures var a := d.arrivals[k];
            && a.invitation in d.ever && a.visit in d.visits
            && d.visits[a.visit].site == d.ever[a.invitation].site
            && d.ever[a.invitation].from <= d.visits[a.visit].checkIn < d.ever[a.invitation].until
            && (a.invitation in d.invitations ==>
                  && d.invitations[a.invitation].status == USED && d.invitations[a.invitation].visit == Some(a.visit)
                  && d.invitations[a.invitation].site == d.visits[a.visit].site
                  && d.invitations[a.invitation].from <= d.visits[a.visit].checkIn < d.invitations[a.invitation].until)
            && forall j :: 0 <= j < |d.arrivals| && j != k ==> d.arrivals[j].invitation != a.invitation
  {
    var a := d.arrivals[k];
    assert a in d.arrivals;
  }

  /**
   * The images that come with the form, and how long they stay: the signature as long as the visit,
   * the photo of the document (where data or photo of it are asked) and of the laptop (where asked)
   * no longer than that, nor than the days the policy gives them. Times are in milliseconds.
   */
  lemma ImagesOfForm(files: map<FileId, File>, next: FileId, v: VisitId, p: Policy, now: int, f: FileId)
    requires forall g <- files :: g < next
    ensures var after := WithImages(files, next, v, p, now, FormImages(p));
            var document, laptop := p.documentData || p.documentPhoto, p.assetRequired;
            && (f in after <==>
                f in files || next <= f < next + 1 + (if document then 1 else 0) + (if laptop then 1 else 0))
            && (f in files ==> after[f] == files[f])
            && next in after
            && after[next] == File(Some(v), None, None, SIGNATURE, now + p.visitDays * 86_400_000, false)
            && (document ==> next + 1 in after && DueBy(after[next + 1], v, DOCUMENT, now, p.documentDays, p.visitDays))
            && (laptop ==>
                  && next + (if document then 2 else 1) in after
                  && DueBy(after[next + (if document then 2 else 1)], v, ASSET_IN, now, p.assetDays, p.visitDays))
  {
    var document := if DocumentPhotoRequired(p) then [DOCUMENT] else [];
    var laptop := if p.assetRequired then [ASSET_IN] else [];
    var signed := files[next := Linked(OfVisit(v), SIGNATURE, now + p.visitDays * DAY)];
    assert FormImages(p) == [SIGNATURE] + (document + laptop);
    OneImage(files, next, v, p, now, SIGNATURE, document + laptop);
    if DocumentPhotoRequired(p) {
      OneImage(signed, next + 1, v, p, now, DOCUMENT, laptop);
      var shown := signed[next + 1 := Linked(OfVisit(v), DOCUMENT, now + KeepDays(p, DOCUMENT) * DAY)];
      if p.assetRequired { OneImage(shown, next + 2, v, p, now, ASSET_IN, []); }
    } else {
      assert document + laptop == laptop;
      if p.assetRequired { OneImage(signed, next + 1, v, p, now, ASSET_IN, []); }
    }
  }

  lemma OneImage(files: map<FileId, File>, next: FileId, v: VisitId, p: Policy, from: int, kind: Kind, rest: seq<Kind>)
    ensures WithImages(files, next, v, p, from, [kind] + rest)
         == WithImages(files[next := Linked(OfVisit(v), kind, from + KeepDays(p, kind) * DAY)], next + 1, v, p, from,
             rest)
  {
    assert ([kind] + rest)[1..] == rest;
  }

  /** A file of the visit, due after the fewer of two numbers of days. */
  predicate DueBy(f: File, v: VisitId, kind: Kind, from: int, a: nat, b: nat) {
    && f == File(Some(v), None, None, kind, f.purgeAfter, false)
    && f.purgeAfter <= from + a * 86_400_000 && f.purgeAfter <= from + b * 86_400_000
    && (f.purgeAfter == from + a * 86_400_000 || f.purgeAfter == from + b * 86_400_000)
  }

  /**
   * The files that wait with an invitation and move to its visit: the signature stays as long as the
   * visit, the photo of the document as `ImagesOfForm` says, or not at all if no longer asked.
   */
  lemma ImagesMoved(files: map<FileId, File>, i: InvitationId, v: VisitId, p: Policy, now: int, f: FileId)
    requires f in files
    ensures var after := Moved(files, i, v, p, now);
            && after.Keys == files.Keys
            && (files[f].invitation != Some(i) || files[f].purged ==> after[f] == files[f])
            && (files[f].invitation == Some(i) && !files[f].purged ==>
                  && after[f] == files[f].(visit := Some(v), invitation := None, purgeAfter := after[f].purgeAfter)
                  && (files[f].kind != DOCUMENT ==> after[f].purgeAfter == now + p.visitDays * 86_400_000)
                  && (files[f].kind == DOCUMENT && !p.documentData && !p.documentPhoto ==> after[f].purgeAfter == now)
                  && (files[f].kind == DOCUMENT && (p.documentData || p.documentPhoto) ==>
                        DueBy(Linked(OfVisit(v), DOCUMENT, after[f].purgeAfter), v, DOCUMENT, now, p.documentDays,
                            p.visitDays)))
  {
  }

  /** Every file of a visit is due within the visit retention, if the policy never asked for more than `days`. */
  lemma DueWithinRetention(d: Desk, f: FileId, days: nat)
    requires Inv(d) && f in d.files && d.files[f].visit.Some? && (f in d.under ==> d.under[f] <= days)
    ensures d.files[f].visit.value in d.visits
    ensures d.files[f].purgeAfter <= d.visits[d.files[f].visit.value].checkIn + days * DAY
    ensures d.files[f].invitation.None? && d.files[f].parcel.None?
  {
    assert FileOk(d, f);
  }

  /** A cancellation of this invitation has still to list or purge its files. */
  ghost predicate CancelPending(calls: map<nat, Call>, i: InvitationId) {
    exists c <- calls :: (calls[c].CancelList? || calls[c].CancelPurge?) && calls[c].invitation == i
  }

  /**
   * However the calls interleave: at most one visit uses an invitation; one used by a
   * pre-registered arrival keeps no unpurged file, and neither does a cancelled one once no
   * cancellation of it is under way.
   */
  lemma InvitationsLeaveNothing(d: Desk, i: InvitationId)
    requires Inv(d)
    ensures OneVisitEach(d.arrivals)
    ensures (exists a <- d.arrivals :: a.invitation == i && a.pre) ==> forall f <- d.files :: !Waiting(d.files[f], i)
    ensures i in d.invitations && d.invitations[i].status == CANCELLED && !CancelPending(d.calls, i) ==>
              forall f <- d.files :: !Waiting(d.files[f], i)
  {
    if i in d.invitations && d.invitations[i].status == CANCELLED && !CancelPending(d.calls, i) {
      forall f | f in d.files ensures !Waiting(d.files[f], i) {
        assert Waiting(d.files[f], i) ==> Listed(d.calls, i, f);
      }
    }
  }
}

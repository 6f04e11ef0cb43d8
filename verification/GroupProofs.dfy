/**
  Whose outcome is whose. `person` says which account a JID really names; it is
  never computed, only assumed to agree with what the group, the identity store
  and the server report.
 */
module GroupProofs {
  import opened Sequences
  import opened GroupParticipants

  type Naming = JID -> int

  /** A device suffix does not change who is meant. */
  ghost predicate IgnoresDevice(person: Naming) {
    forall j: JID {:trigger j.ToNonAD()} :: person(j) == person(j.ToNonAD())
  }

  /** Every id the entry carries names p. */
  ghost predicate Names(person: Naming, r: Participant, p: int) {
    && person(r.jid) == p
    && (r.phone.user != "" ==> person(r.phone) == p)
    && (r.lid.user != "" ==> person(r.lid) == p)
  }

  ghost predicate TrueLids(person: Naming, lids: JID -> Option<JID>) {
    forall j: JID :: lids(j).Some? ==> person(lids(j).value) == person(j)
  }

  ghost predicate TruePhones(person: Naming, phones: JID -> Option<JID>) {
    forall l: JID :: phones(l).Some? ==> person(phones(l).value) == person(l)
  }

  ghost predicate TrueMembers(person: Naming, ps: seq<Participant>) {
    forall m :: 0 <= m < |ps| ==> Names(person, ps[m], person(ps[m].jid))
  }

  /** No person is listed twice. */
  ghost predicate DistinctMembers(person: Naming, ps: seq<Participant>) {
    forall a, b :: 0 <= a < b < |ps| ==> person(ps[a].jid) != person(ps[b].jid)
  }

  /** Each reply entry names one person, and that person was in the request. */
  ghost predicate OnlyAbout(person: Naming, entries: seq<Participant>, sent: seq<JID>) {
    forall k :: 0 <= k < |entries| ==> exists s :: 0 <= s < |sent| && Names(person, entries[k], person(sent[s]))
  }

  // --------------------------------------------------------------- attribution

  lemma SameUserSamePerson(person: Naming, a: JID, b: JID)
    requires IgnoresDevice(person) && SameUser(a, b)
    ensures person(a) == person(b)
  {
    assert a.ToNonAD() == b.ToNonAD();
  }

  lemma MatchNamesPerson(person: Naming, r: Participant, jid: JID, p: int)
    requires IgnoresDevice(person) && Names(person, r, p) && Matches(r, jid)
    ensures person(jid) == p
  {
    if SameUser(r.jid, jid) {
      SameUserSamePerson(person, r.jid, jid);
    } else if SameUser(r.phone, jid) {
      SameUserSamePerson(person, r.phone, jid);
    } else {
      SameUserSamePerson(person, r.lid, jid);
    }
  }

  /** Whichever of the three rules picks an entry, it is the one about the person asked for. */
  lemma ReplyIsAboutSamePerson(
      person: Naming, phones: JID -> Option<JID>, entries: seq<Participant>, sent: seq<JID>, jid: JID, res: Participant)
    requires IgnoresDevice(person) && TruePhones(person, phones) && OnlyAbout(person, entries, sent)
    requires jid in sent && ResultFor(phones, entries, jid, |sent|) == Some(res)
    ensures res in entries && Names(person, res, person(jid))
  {
    var k :| 0 <= k < |entries| && entries[k] == res
          && (Matches(res, jid) || NamedByLid(phones, res, jid) || (|sent| == 1 && |entries| == 1));
    var s :| 0 <= s < |sent| && Names(person, entries[k], person(sent[s]));
    if Matches(res, jid) {
      MatchNamesPerson(person, res, jid, person(sent[s]));
    } else if NamedByLid(phones, res, jid) {
      SameUserSamePerson(person, phones(res.jid).value, jid);
    }
  }

  /** The address used for a request names the person the caller asked for. */
  lemma TargetIsRequested(person: Naming, job: Job, i: nat)
    requires i < |job.jids| && IgnoresDevice(person) && TrueLids(person, job.lids)
    requires TrueMembers(person, job.info.participants)
    ensures person(job.Target(i)) == person(job.jids[i])
  {
    hide FindParticipant;
    if job.Member(i).Some? {
      var lid := LidForPN(job.lids, job.jids[i]);
      var m := job.info.participants[job.Member(i).value];
      var ids := [job.jids[i], lid];
      assert MatchesAny(m, ids);
      var k :| 0 <= k < |ids| && Matches(m, ids[k]);
      MatchNamesPerson(person, m, ids[k], person(m.jid));
    }
  }

  /** Member m answers to request i: by the id asked for, or by the LID stored for that phone number. */
  ghost predicate Answers(job: Job, i: nat, m: int)
    requires i < |job.jids|
  {
    var jid, ps := job.jids[i], job.info.participants;
    && 0 <= m < |ps|
    && (Carries(ps[m], jid)
        || (jid.server == DefaultUser && job.lids(jid).Some? && Carries(ps[m], job.lids(jid).value)))
  }

  /** A request is taken to be about the first member that answers to it, and about a stranger only if none does. */
  lemma MemberIsFirstToAnswer(job: Job, i: nat)
    requires i < |job.jids|
    ensures job.Member(i).Some? ==>
              && Answers(job, i, job.Member(i).value)
              && forall k :: 0 <= k < job.Member(i).value ==> !Answers(job, i, k)
    ensures job.Member(i).None? ==> forall k :: 0 <= k < |job.info.participants| ==> !Answers(job, i, k)
  {
    var jid, ps := job.jids[i], job.info.participants;
    forall k | 0 <= k < |ps|
      ensures MatchesAny(ps[k], [jid, LidForPN(job.lids, jid)]) <==> Answers(job, i, k)
    {
      MatchesEither(ps[k], jid, LidForPN(job.lids, jid));
    }
    hide FindParticipant, MatchesAny, Answers, LidForPN;
  }

  /** An entry that carries the id asked for is used; failing that, one that comes with a LID stored for that number. */
  lemma EntryIsFound(phones: JID -> Option<JID>, entries: seq<Participant>, jid: JID, sent: nat, e: nat)
    requires e < |entries|
    ensures Carries(entries[e], jid) ==>
              var r := ResultFor(phones, entries, jid, sent); r.Some? && Carries(r.value, jid)
    ensures jid.server == DefaultUser && entries[e].jid.server == HiddenUser && jid.user != ""
            && phones(entries[e].jid).Some? && phones(entries[e].jid).value.ToNonAD() == jid.ToNonAD() ==>
              ResultFor(phones, entries, jid, sent).Some?
    ensures sent == 1 && |entries| == 1 ==> ResultFor(phones, entries, jid, sent).Some?
  {
    MatchesIffCarries(entries[e], jid);
    if ResultFor(phones, entries, jid, sent).Some? {
      MatchesIffCarries(ResultFor(phones, entries, jid, sent).value, jid);
    }
    hide Matches, Carries;
  }

  /** What request b says, and so what reply b is about. */
  function RequestTo(job: Job, b: nat): seq<JID>
    requires OneByOne(job) ==> b < |job.Pending(|job.jids|)|
  {
    if OneByOne(job) then [job.Pending(|job.jids|)[b].jid] else Targets(job.Pending(|job.jids|))
  }

  ghost predicate RepliesOnlyAboutSent(person: Naming, world: World, job: Job) {
    forall k :: 0 <= k < |job.Pending(|job.jids|)| && world.reply(BatchOf(job, k)).Changed? ==>
      OnlyAbout(person, world.reply(BatchOf(job, k)).entries, RequestTo(job, BatchOf(job, k)))
  }

  /**
    An outcome reports exactly what an entry said: its id and code; the action's
    success exactly on code 0, an invite status with the expiry exactly for a
    blocked add, already-member exactly on 409 to an add; anything else failed.
   */
  ghost predicate Tells(out: Outcome, action: Action, res: Participant) {
    && out.jid == res.jid && out.errorCode == res.error
    && (out.status == Added <==> res.error == 0 && action == Add)
    && (out.status == Removed <==> res.error == 0 && action == Remove)
    && (out.status == Promoted <==> res.error == 0 && action == Promote)
    && (out.status == Demoted <==> res.error == 0 && action == Demote)
    && (out.status in {InviteRequired, InviteSent, InviteFailed} <==> res.error != 0 && res.addRequest.Some?)
    && (res.error != 0 && res.addRequest.Some? ==> out.inviteExpires == res.addRequest.value.expiration)
    && (out.status == AlreadyMember <==> res.error == 409 && res.addRequest.None? && action == Add)
    && (out.status == Failed <==> res.error != 0 && res.addRequest.None? && !(res.error == 409 && action == Add))
  }

  /** A pending outcome was failed for want of an answer, or tells what an entry about its own person said. */
  ghost predicate RightlyAttributed(person: Naming, world: World, job: Job, out: Outcome, k: nat)
    requires k < |job.Pending(|job.jids|)|
  {
    var p := job.Pending(|job.jids|)[k];
    match world.reply(BatchOf(job, k))
    case Rejected(cause) => out.status == Failed && out.trouble == RequestFailed(cause)
    case Changed(entries) =>
      || (out.status == Failed && out.trouble == NoResult)
      || exists e :: 0 <= e < |entries| &&
           Names(person, entries[e], person(job.jids[p.idx])) && Tells(out, job.action, entries[e])
  }

  /**
    Correct attribution: if the stored mappings are true, the member entries are
    true and the server answers only about people it was asked about, what a
    pending change is settled to comes from the answer about that same person.
   */
  lemma SettledByItsPerson(person: Naming, world: World, job: Job, sendInvite: bool, k: nat)
    requires job.Valid() && k < |job.Pending(|job.jids|)|
    requires IgnoresDevice(person) && TrueLids(person, job.lids) && TruePhones(person, world.phones)
    requires TrueMembers(person, job.info.participants) && RepliesOnlyAboutSent(person, world, job)
    ensures RightlyAttributed(person, world, job, FinalOutcome(world, job, sendInvite, k), k)
  {
    var p := job.Pending(|job.jids|)[k];
    var reply := world.reply(BatchOf(job, k));
    var out := FinalOutcome(world, job, sendInvite, k);
    if reply.Changed? {
      var res := ResultFor(world.phones, reply.entries, p.jid, BatchSize(job));
      if res.Some? {
        InItsRequest(job, k);
        ReplyIsAboutSamePerson(person, world.phones, reply.entries, RequestTo(job, BatchOf(job, k)), p.jid, res.value);
        job.PendingShape(|job.jids|);
        TargetIsRequested(person, job, p.idx);
        SettleTells(world, job, sendInvite, job.PlannedOutcome(p.idx), p, reply, BatchSize(job));
        var e :| 0 <= e < |reply.entries| && reply.entries[e] == res.value;
        assert Names(person, reply.entries[e], person(job.jids[p.idx])) && Tells(out, job.action, reply.entries[e]);
      }
    }
  }

  /** And so for every line of a finished report. */
  lemma EveryOutcomeIsAboutItsPerson(person: Naming, world: World, job: Job, sendInvite: bool, results: seq<Outcome>)
    requires job.Valid() && SettledTo(world, job, sendInvite, results, |job.Pending(|job.jids|)|)
    requires IgnoresDevice(person) && TrueLids(person, job.lids) && TruePhones(person, world.phones)
    requires TrueMembers(person, job.info.participants) && RepliesOnlyAboutSent(person, world, job)
    ensures forall k :: 0 <= k < |job.Pending(|job.jids|)| ==>
              RightlyAttributed(person, world, job, results[job.Pending(|job.jids|)[k].idx], k)
  {
    hide RightlyAttributed, FinalOutcome, job.Pending;
    forall k | 0 <= k < |job.Pending(|job.jids|)|
      ensures RightlyAttributed(person, world, job, results[job.Pending(|job.jids|)[k].idx], k)
    {
      SettledByItsPerson(person, world, job, sendInvite, k);
    }
  }

  lemma InItsRequest(job: Job, k: nat)
    requires k < |job.Pending(|job.jids|)|
    ensures job.Pending(|job.jids|)[k].jid in RequestTo(job, BatchOf(job, k))
    ensures |RequestTo(job, BatchOf(job, k))| == BatchSize(job)
  {
    if !OneByOne(job) {
      assert RequestTo(job, 0)[k] == job.Pending(|job.jids|)[k].jid;
    }
  }

  lemma SettleTells(world: World, job: Job, sendInvite: bool, planned: Outcome, p: Planned, reply: Reply, sent: nat)
    requires reply.Changed? && ResultFor(world.phones, reply.entries, p.jid, sent).Some?
    ensures Tells(Settle(world, job, sendInvite, planned, p, reply, sent), job.action,
                  ResultFor(world.phones, reply.entries, p.jid, sent).value)
  {
    hide ResultFor;
  }

  /** An add to a LID group answered with one entry a request leaves nobody without a result. */
  lemma LoneReplyAlwaysMatches(world: World, job: Job, sendInvite: bool, results: seq<Outcome>, k: nat)
    requires job.Valid() && k < |job.Pending(|job.jids|)| && OneByOne(job)
    requires SettledTo(world, job, sendInvite, results, |job.Pending(|job.jids|)|)
    requires world.reply(k).Changed? && |world.reply(k).entries| == 1
    ensures Tells(results[job.Pending(|job.jids|)[k].idx], job.action, world.reply(k).entries[0])
    ensures results[job.Pending(|job.jids|)[k].idx].trouble != NoResult
  {
    hide ResultFor, ApplyResult, WithInvite, Tells, job.Pending, job.Target, job.IsPending;
    var p := job.Pending(|job.jids|)[k];
    LoneEntryIsIt(world.phones, world.reply(k).entries, p.jid);
    SettleTells(world, job, sendInvite, job.PlannedOutcome(p.idx), p, world.reply(k), 1);
    MatchedHasResult(world, job, sendInvite, job.PlannedOutcome(p.idx), p, world.reply(k), 1);
    hide Settle;
    assert results[p.idx] == FinalOutcome(world, job, sendInvite, k);
  }

  lemma LoneEntryIsIt(phones: JID -> Option<JID>, entries: seq<Participant>, jid: JID)
    requires |entries| == 1
    ensures ResultFor(phones, entries, jid, 1) == Some(entries[0])
  {
  }

  lemma MatchedHasResult(
      world: World, job: Job, sendInvite: bool, planned: Outcome, p: Planned, reply: Reply, sent: nat)
    requires reply.Changed? && ResultFor(world.phones, reply.entries, p.jid, sent).Some?
    requires planned.trouble == NoTrouble
    ensures Settle(world, job, sendInvite, planned, p, reply, sent).trouble != NoResult
  {
    hide ResultFor;
  }

  // -------------------------------------------------------------- completeness

  lemma SettleDecides(world: World, job: Job, sendInvite: bool, planned: Outcome, p: Planned, reply: Reply, sent: nat)
    ensures var out := Settle(world, job, sendInvite, planned, p, reply, sent);
            out.input == planned.input && out.status != Unset && out.status != NotMember
    ensures Settle(world, job, sendInvite, planned, p, reply, sent).status == InviteSent ==> sendInvite
  {
    hide ResultFor;
  }

  /** One decided outcome per request, in request order. */
  lemma ReportComplete(world: World, job: Job, sendInvite: bool, results: seq<Outcome>, i: nat)
    requires job.Valid() && i < |job.jids|
    requires SettledTo(world, job, sendInvite, results, |job.Pending(|job.jids|)|)
    ensures |results| == |job.inputs| && results[i].input == job.inputs[i] && results[i].status != Unset
    ensures results[i].status == NotMember <==> job.Member(i).None? && job.action != Add
    ensures job.Member(i).Some? && job.action == Add ==>
              && results[i].status == AlreadyMember && results[i].errorCode == 0
              && results[i].jid == job.info.participants[job.Member(i).value].jid
  {
    if job.IsPending(i) {
      var k := job.PendingIndex(|job.jids|, i);
      hide Settle, job.Pending, job.Member;
      assert results[i] == FinalOutcome(world, job, sendInvite, k);
      var p := job.Pending(|job.jids|)[k];
      SettleDecides(world, job, sendInvite, job.PlannedOutcome(i), p, world.reply(BatchOf(job, k)), BatchSize(job));
    } else {
      hide FinalOutcome, job.Pending, job.Member;
      assert results[i] == job.PlannedOutcome(i);
    }
  }

  /** Every invite belongs to a pending change it went out for. */
  lemma {:induction false} InviteOrigin(world: World, job: Job, sendInvite: bool, n: nat, a: nat) returns (k: nat)
    requires job.Valid() && n <= |job.Pending(|job.jids|)| && a < |InvitesUpTo(world, job, sendInvite, n)|
    ensures k < n && Invited(world, job, sendInvite, k)
    ensures var p := job.Pending(|job.jids|)[k]; InvitesUpTo(world, job, sendInvite, n)[a] == Invite(p.idx, p.jid)
  {
    hide Invited, job.Pending;
    if a < |InvitesUpTo(world, job, sendInvite, n - 1)| {
      k := InviteOrigin(world, job, sendInvite, n - 1, a);
    } else {
      k := n - 1;
    }
  }

  lemma {:induction false} InviteListed(world: World, job: Job, sendInvite: bool, n: nat, k: nat)
    requires job.Valid() && k < n <= |job.Pending(|job.jids|)|
    requires Invited(world, job, sendInvite, k)
    ensures var p := job.Pending(|job.jids|)[k]; Invite(p.idx, p.jid) in InvitesUpTo(world, job, sendInvite, n)
  {
    hide Invited, job.Pending;
    if k < n - 1 {
      InviteListed(world, job, sendInvite, n - 1, k);
    }
  }

  /** Invites go out in request order, so no result is invited twice. */
  lemma {:induction false} InvitesOrdered(world: World, job: Job, sendInvite: bool, n: nat, a: nat, b: nat)
    requires job.Valid() && n <= |job.Pending(|job.jids|)| && a < b < |InvitesUpTo(world, job, sendInvite, n)|
    ensures InvitesUpTo(world, job, sendInvite, n)[a].idx < InvitesUpTo(world, job, sendInvite, n)[b].idx
  {
    hide Invited, job.Pending;
    if b < |InvitesUpTo(world, job, sendInvite, n - 1)| {
      InvitesOrdered(world, job, sendInvite, n - 1, a, b);
    } else {
      var k := InviteOrigin(world, job, sendInvite, n - 1, a);
      PendingOrdered(job, k, n - 1);
    }
  }

  lemma PendingOrdered(job: Job, k: nat, l: nat)
    requires k < l < |job.Pending(|job.jids|)|
    ensures job.Pending(|job.jids|)[k].idx < job.Pending(|job.jids|)[l].idx
  {
    job.PendingShape(|job.jids|);
  }

  /**
    A result says invite_sent exactly when an invite went out for it, to the
    address that was asked for, and only on request.
   */
  lemma InviteSentIffInvited(world: World, job: Job, sendInvite: bool, results: seq<Outcome>, i: nat)
    requires job.Valid() && i < |job.jids|
    requires SettledTo(world, job, sendInvite, results, |job.Pending(|job.jids|)|)
    ensures var invites := InvitesUpTo(world, job, sendInvite, |job.Pending(|job.jids|)|);
            results[i].status == InviteSent <==> Invite(i, job.Target(i)) in invites
    ensures results[i].status == InviteSent ==> sendInvite
  {
    var n := |job.Pending(|job.jids|)|;
    job.PendingShape(|job.jids|);
    SettledIs(world, job, sendInvite, results, i);
    if job.IsPending(i) {
      var k := job.PendingIndex(|job.jids|, i);
      InvitedSays(world, job, sendInvite, k);
      hide FinalOutcome, Invited, job.Pending, job.Target, job.IsPending;
      if results[i].status == InviteSent {
        InviteListed(world, job, sendInvite, n, k);
      }
      if Invite(i, job.Target(i)) in InvitesUpTo(world, job, sendInvite, n) {
        var invites := InvitesUpTo(world, job, sendInvite, n);
        var a :| 0 <= a < |invites| && invites[a] == Invite(i, job.Target(i));
        var k' := InviteOrigin(world, job, sendInvite, n, a);
        assert k' == k;
      }
    } else {
      hide Invited, job.Pending, job.Target, job.Member;
      assert results[i].status != InviteSent;
      if Invite(i, job.Target(i)) in InvitesUpTo(world, job, sendInvite, n) {
        var invites := InvitesUpTo(world, job, sendInvite, n);
        var a :| 0 <= a < |invites| && invites[a] == Invite(i, job.Target(i));
        var k' := InviteOrigin(world, job, sendInvite, n, a);
        assert false;
      }
    }
  }

  /** The result says invite_sent exactly when the invite went out. */
  lemma InvitedSays(world: World, job: Job, sendInvite: bool, k: nat)
    requires job.Valid() && k < |job.Pending(|job.jids|)|
    ensures Invited(world, job, sendInvite, k) <==> FinalOutcome(world, job, sendInvite, k).status == InviteSent
  {
    hide ResultFor;
  }

  /**
    Where privacy blocked an add, the result says why there is no invite. It
    stays invite_required, with the reason if an invite was asked for, unless an
    invite was sent and failed; and an invite id is that of an invite that went out.
   */
  lemma NoInviteSaysWhy(world: World, job: Job, sendInvite: bool, planned: Outcome, p: Planned, reply: Reply, sent: nat)
    requires planned.trouble == NoTrouble && planned.inviteId == ""
    ensures var out, fate := Settle(world, job, sendInvite, planned, p, reply, sent), world.invite(p.idx);
            && (out.status == InviteRequired && !sendInvite ==> out.trouble == NoTrouble)
            && (out.status == InviteRequired && sendInvite ==>
                  out.trouble == NoInviteCode || (fate.Denied? && out.trouble == HeldBack(fate.reason)))
            && (out.status == InviteFailed ==> sendInvite && fate.NotSent? && out.trouble == SendFailed(fate.cause))
            && (out.status == InviteSent ==> sendInvite && fate == Sent(out.inviteId) && out.trouble == NoTrouble)
            && (out.inviteId != "" ==> out.status == InviteSent)
  {
    hide ResultFor;
  }

  lemma SettledIs(world: World, job: Job, sendInvite: bool, results: seq<Outcome>, i: nat)
    requires job.Valid() && i < |job.jids|
    requires SettledTo(world, job, sendInvite, results, |job.Pending(|job.jids|)|)
    ensures |results| == |job.jids|
    ensures !job.IsPending(i) ==> results[i].status in {AlreadyMember, NotMember}
    ensures job.IsPending(i) ==>
              forall k :: 0 <= k < |job.Pending(|job.jids|)| && job.Pending(|job.jids|)[k].idx == i ==>
                results[i] == FinalOutcome(world, job, sendInvite, k)
    ensures results[i].status == InviteSent ==> sendInvite
  {
    if job.IsPending(i) {
      var k := job.PendingIndex(|job.jids|, i);
      assert results[i] == FinalOutcome(world, job, sendInvite, k);
      var p := job.Pending(|job.jids|)[k];
      SettleDecides(world, job, sendInvite, job.PlannedOutcome(i), p, world.reply(BatchOf(job, k)), BatchSize(job));
    } else {
      hide FinalOutcome, job.Member;
      assert results[i] == job.PlannedOutcome(i);
    }
  }

  // ------------------------------------------------------------- plan identity

  /** A request refused as a repeat really does name the same person as the earlier one. */
  lemma RepeatIsSamePerson(person: Naming, job: Job, i: nat, j: nat)
    requires i < |job.jids| && j < |job.jids| && job.Identity(i) == job.Identity(j)
    requires IgnoresDevice(person) && TrueLids(person, job.lids) && TrueMembers(person, job.info.participants)
    ensures person(job.jids[i]) == person(job.jids[j])
  {
    IdentityIsPerson(person, job, i);
    IdentityIsPerson(person, job, j);
  }

  lemma IdentityIsPerson(person: Naming, job: Job, i: nat)
    requires i < |job.jids| && IgnoresDevice(person) && TrueLids(person, job.lids)
    requires TrueMembers(person, job.info.participants)
    ensures person(job.Identity(i)) == person(job.jids[i])
  {
    TargetIsRequested(person, job, i);
    hide FindParticipant;
    var lid := LidForPN(job.lids, job.jids[i]);
    var named := if job.Member(i).Some? then job.info.participants[job.Member(i).value].jid
                 else if !lid.IsEmpty() then lid else job.jids[i];
    assert job.Identity(i) == named.ToNonAD();
  }

  /** In an accepted plan two requests that reach members reach different people. */
  lemma MembersDiffer(person: Naming, job: Job, i: nat, j: nat)
    requires i < j < |job.jids| && job.Member(i).Some? && job.Member(j).Some?
    requires AllDifferent(job, |job.jids|)
    requires IgnoresDevice(person) && TrueLids(person, job.lids)
    requires TrueMembers(person, job.info.participants) && DistinctMembers(person, job.info.participants)
    ensures person(job.jids[i]) != person(job.jids[j])
  {
    TargetIsRequested(person, job, i);
    TargetIsRequested(person, job, j);
    hide FindParticipant;
    assert job.Identity(i) != job.Identity(j);
    assert job.Member(i) != job.Member(j);
  }

  /** A removal never reaches the paired user, under any of the ids it has. */
  lemma SelfNotRemoved(person: Naming, job: Job, own: JID, i: nat)
    requires job.Valid() && i < |job.jids| && job.action == Remove && job.IsPending(i)
    requires SelfSpared(job, |job.jids|) && Matches(job.info.participants[job.self], own)
    requires IgnoresDevice(person) && TrueLids(person, job.lids)
    requires TrueMembers(person, job.info.participants) && DistinctMembers(person, job.info.participants)
    ensures person(job.jids[i]) != person(own) && person(job.Target(i)) != person(own)
  {
    TargetIsRequested(person, job, i);
    MatchNamesPerson(person, job.info.participants[job.self], own, person(job.info.participants[job.self].jid));
    hide FindParticipant;
    assert !job.RemovesSelf(i);
    assert job.Member(i).value != job.self;
  }

  /** A request refused for removing the paired user does name it. */
  lemma SelfRefusalIsSelf(person: Naming, job: Job, own: JID, i: nat)
    requires job.Valid() && i < |job.jids| && job.RemovesSelf(i)
    requires Matches(job.info.participants[job.self], own)
    requires IgnoresDevice(person) && TrueLids(person, job.lids) && TrueMembers(person, job.info.participants)
    ensures job.action == Remove && person(job.jids[i]) == person(own)
  {
    TargetIsRequested(person, job, i);
    job.TargetIs(i);
    MatchNamesPerson(person, job.info.participants[job.self], own, person(job.info.participants[job.self].jid));
    hide FindParticipant;
  }

  /** The LID store ignores device and only holds LIDs. */
  ghost predicate LidsWellFormed(lids: JID -> Option<JID>) {
    && (forall j: JID :: lids(j).Some? ==> lids(j).value.server == HiddenUser)
    && (forall a: JID, b: JID :: SameUser(a, b) ==> lids(a) == lids(b))
  }

  /** The store shows a and b to be one account: directly, or through the LID of either, or of both. */
  ghost predicate KnownSame(lids: JID -> Option<JID>, a: JID, b: JID) {
    || SameUser(a, b)
    || SameUser(LidForPN(lids, a), b)
    || SameUser(a, LidForPN(lids, b))
    || SameUser(LidForPN(lids, a), LidForPN(lids, b))
  }

  /** In an accepted plan two newcomers to be added are not known to be the same account. */
  lemma NewcomersNotKnownSame(job: Job, i: nat, j: nat)
    requires i < j < |job.jids| && job.Member(i).None? && job.Member(j).None?
    requires AllDifferent(job, |job.jids|) && LidsWellFormed(job.lids)
    ensures !KnownSame(job.lids, job.jids[i], job.jids[j])
  {
    hide FindParticipant;
    var a, b := job.jids[i], job.jids[j];
    var la, lb := LidForPN(job.lids, a), LidForPN(job.lids, b);
    assert job.Identity(i) != job.Identity(j);
    assert job.Identity(i) == if !la.IsEmpty() then la.ToNonAD() else a.ToNonAD();
    assert job.Identity(j) == if !lb.IsEmpty() then lb.ToNonAD() else b.ToNonAD();
  }
}

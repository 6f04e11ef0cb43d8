/**
  Changing a group's participants: plan against the member list, send in
  batches, attribute WhatsApp's replies, invite where privacy blocks an add.
  The server, the identity store and the invite path are arbitrary oracles.
 */
module GroupParticipants {
  import opened Sequences

  datatype Server = NoServer | DefaultUser | HiddenUser | GroupServer | OtherServer(name: string)

  datatype JID = JID(user: string, server: Server, device: nat) {
    predicate IsEmpty() { server == NoServer }
    function ToNonAD(): JID { JID(user, server, 0) }
  }

  const EMPTY := JID("", NoServer, 0)

  datatype AddRequest = AddRequest(code: string, expiration: Option<int>)

  /** A member-list entry, and the shape of one entry of a server reply. */
  datatype Participant = Participant(
    jid: JID, phone: JID, lid: JID, isAdmin: bool, error: int, addRequest: Option<AddRequest>)

  datatype Addressing = ByPhone | ByLid | UnknownAddressing
  datatype GroupInfo = GroupInfo(participants: seq<Participant>, allMembersMayAdd: bool, addressing: Addressing)
  datatype Action = Add | Remove | Promote | Demote

  datatype Status =
    | Unset | Added | Removed | Promoted | Demoted | AlreadyMember | NotMember
    | InviteRequired | InviteSent | InviteFailed | Failed

  datatype Trouble =
    | NoTrouble | RequestFailed(cause: string) | NoResult | NoInviteCode
    | HeldBack(reason: string) | SendFailed(cause: string)

  datatype Outcome = Outcome(
    input: string, jid: JID, status: Status, errorCode: int, trouble: Trouble,
    inviteId: string, inviteExpires: Option<int>)

  datatype Planned = Planned(idx: nat, jid: JID)

  const ALREADY_MEMBER_CODE := 409

  // ------------------------------------------------------------------ identity

  /** The same account, ignoring device. A phone number never matches a LID. */
  predicate SameUser(a: JID, b: JID) {
    a.user != "" && a.user == b.user && a.server == b.server
  }

  predicate Matches(p: Participant, jid: JID) {
    SameUser(p.jid, jid) || SameUser(p.phone, jid) || SameUser(p.lid, jid)
  }

  /** One of the ids on the entry is this account: same user, same server. */
  ghost predicate Carries(p: Participant, id: JID) {
    id.user != "" && exists x :: x in [p.jid, p.phone, p.lid] && x.user == id.user && x.server == id.server
  }

  lemma MatchesIffCarries(p: Participant, id: JID)
    ensures Matches(p, id) <==> Carries(p, id)
  {
    var ids := [p.jid, p.phone, p.lid];
    assert ids[0] == p.jid && ids[1] == p.phone && ids[2] == p.lid;
  }

  predicate MatchesAny(p: Participant, ids: seq<JID>) {
    exists k :: 0 <= k < |ids| && Matches(p, ids[k])
  }

  /** The first member identified by any of ids. */
  function FindParticipant(ps: seq<Participant>, ids: seq<JID>, from: nat := 0): (r: Option<nat>)
    requires from <= |ps|
    ensures r.Some? ==> from <= r.value < |ps| && MatchesAny(ps[r.value], ids)
    ensures r.Some? ==> forall k :: from <= k < r.value ==> !MatchesAny(ps[k], ids)
    ensures r.None? ==> forall k :: from <= k < |ps| ==> !MatchesAny(ps[k], ids)
    decreases |ps| - from
  {
    if from == |ps| then None
    else if MatchesAny(ps[from], ids) then Some(from)
    else FindParticipant(ps, ids, from + 1)
  }

  lemma MatchesEither(p: Participant, a: JID, b: JID)
    ensures MatchesAny(p, [a, b]) <==> Carries(p, a) || Carries(p, b)
  {
    MatchesIffCarries(p, a);
    MatchesIffCarries(p, b);
    hide Matches, Carries;
    var ids := [a, b];
    assert ids[0] == a && ids[1] == b;
  }

  /** The stored LID of a phone-number JID, or EMPTY. */
  function LidForPN(lids: JID -> Option<JID>, jid: JID): JID {
    if jid.server != DefaultUser then EMPTY
    else match lids(jid) case Some(lid) => lid case None => EMPTY
  }

  predicate MayApply(info: GroupInfo, self: Option<nat>, action: Action)
    requires self.Some? ==> self.value < |info.participants|
  {
    self.Some? && (info.participants[self.value].isAdmin || (action == Add && info.allMembersMayAdd))
  }

  // ---------------------------------------------------------------------- plan

  /** A request to change participants, against one reading of the group. */
  datatype Job = Job(
    info: GroupInfo, self: nat, inputs: seq<string>, jids: seq<JID>, action: Action, lids: JID -> Option<JID>)
  {
    predicate Valid() {
      self < |info.participants| && |inputs| == |jids|
    }

    function Member(i: nat): (r: Option<nat>)
      requires i < |jids|
      ensures r.Some? ==> r.value < |info.participants|
    {
      FindParticipant(info.participants, [jids[i], LidForPN(lids, jids[i])])
    }

    /** Who request i is about, as far as the group and the LID store can tell. */
    function Identity(i: nat): JID
      requires i < |jids|
    {
      if Member(i).Some? then info.participants[Member(i).value].jid.ToNonAD()
      else if !LidForPN(lids, jids[i]).IsEmpty() then LidForPN(lids, jids[i]).ToNonAD()
      else jids[i].ToNonAD()
    }

    predicate RemovesSelf(i: nat)
      requires i < |jids|
    {
      action == Remove && Member(i) == Some(self)
    }

    /** Adds concern strangers; everything else concerns members. */
    predicate IsPending(i: nat)
      requires i < |jids|
    {
      action == Add <==> Member(i).None?
    }

    /** The address to send for a pending request: the group's own for a member. */
    function Target(i: nat): JID
      requires i < |jids|
    {
      if Member(i).Some? then info.participants[Member(i).value].jid else jids[i]
    }

    function PlannedOutcome(i: nat): Outcome
      requires i < |jids| == |inputs|
    {
      var status := if IsPending(i) then Unset else if action == Add then AlreadyMember else NotMember;
      Outcome(inputs[i], Target(i), status, 0, NoTrouble, "", None)
    }

    /** The pending requests among the first n, in request order. */
    function Pending(n: nat): (r: seq<Planned>)
      requires n <= |jids|
      ensures forall k :: 0 <= k < |r| ==> r[k].idx < n
    {
      if n == 0 then []
      else if IsPending(n - 1) then Pending(n - 1) + [Planned(n - 1, Target(n - 1))]
      else Pending(n - 1)
    }

    lemma {:induction false} PendingShape(n: nat)
      requires n <= |jids|
      ensures forall k :: 0 <= k < |Pending(n)| ==>
                IsPending(Pending(n)[k].idx) && Pending(n)[k].jid == Target(Pending(n)[k].idx)
      ensures forall k :: 0 <= k < |Pending(n)| && Member(Pending(n)[k].idx).Some? ==>
                Pending(n)[k].jid == info.participants[Member(Pending(n)[k].idx).value].jid
      ensures forall k :: 0 <= k < |Pending(n)| && Member(Pending(n)[k].idx).None? ==>
                Pending(n)[k].jid == jids[Pending(n)[k].idx]
      ensures forall k, l :: 0 <= k < l < |Pending(n)| ==> Pending(n)[k].idx < Pending(n)[l].idx
    {
      if n > 0 {
        PendingShape(n - 1);
        TargetIs(n - 1);
      }
      hide IsPending, Target, Member;
    }

    /** The group's own address for a member, the caller's for anyone else. */
    lemma TargetIs(i: nat)
      requires i < |jids|
      ensures Member(i).Some? ==> Target(i) == info.participants[Member(i).value].jid
      ensures Member(i).None? ==> Target(i) == jids[i]
    {
      hide FindParticipant;
    }

    /** Where a pending request sits in the list. */
    lemma {:induction false} PendingIndex(n: nat, i: nat) returns (k: nat)
      requires i < n <= |jids| && IsPending(i)
      ensures k < |Pending(n)| && Pending(n)[k].idx == i
    {
      hide Target;
      if i == n - 1 {
        k := |Pending(n)| - 1;
      } else {
        k := PendingIndex(n - 1, i);
      }
    }
  }

  datatype PlanError = SamePerson(first: nat, second: nat) | RemoveSelf(at: nat)
  datatype Result<T, E> = Ok(value: T) | Err(error: E)
  datatype Plan = Plan(outcomes: seq<Outcome>, pending: seq<Planned>)

  ghost predicate AllDifferent(job: Job, n: nat)
    requires n <= |job.jids|
  {
    forall i, j :: 0 <= i < j < n ==> job.Identity(i) != job.Identity(j)
  }

  ghost predicate SelfSpared(job: Job, n: nat)
    requires n <= |job.jids|
  {
    forall i :: 0 <= i < n ==> !job.RemovesSelf(i)
  }

  /** The member and the identity behind request i. */
  method Resolve(job: Job, i: nat) returns (member: Option<nat>, identity: JID)
    requires i < |job.jids|
    ensures member == job.Member(i) && identity == job.Identity(i)
  {
    hide FindParticipant;
    var jid := job.jids[i];
    var lid := LidForPN(job.lids, jid);
    member := FindParticipant(job.info.participants, [jid, lid]);
    identity := jid;
    if member.Some? {
      identity := job.info.participants[member.value].jid;
    } else if !lid.IsEmpty() {
      identity := lid;
    }
    identity := identity.ToNonAD();
  }

  /** The outcome already known for request i, and what is to be sent for it if anything. */
  method PlanOne(job: Job, i: nat, member: Option<nat>) returns (out: Outcome, send: seq<Planned>)
    requires job.Valid() && i < |job.jids| && member == job.Member(i)
    ensures out == job.PlannedOutcome(i)
    ensures send == if job.IsPending(i) then [Planned(i, job.Target(i))] else []
  {
    hide FindParticipant;
    out := Outcome(job.inputs[i], job.jids[i], Unset, 0, NoTrouble, "", None);
    send := [];
    if member.Some? {
      out := out.(jid := job.info.participants[member.value].jid);
    }
    if job.action == Add && member.Some? {
      out := out.(status := AlreadyMember);
    } else if job.action == Add {
      send := [Planned(i, job.jids[i])];
    } else if member.None? {
      out := out.(status := NotMember);
    } else {
      send := [Planned(i, job.info.participants[member.value].jid)];
    }
  }

  /**
    Succeeds exactly when no two requests share an identity and none removes the
    paired user; else names the first offence.
   */
  method PlanParticipantChange(job: Job) returns (r: Result<Plan, PlanError>)
    requires job.Valid()
    ensures r.Ok? <==> AllDifferent(job, |job.jids|) && SelfSpared(job, |job.jids|)
    ensures r.Ok? ==> |r.value.outcomes| == |job.jids| && r.value.pending == job.Pending(|job.jids|)
    ensures r.Ok? ==> forall i :: 0 <= i < |job.jids| ==> r.value.outcomes[i] == job.PlannedOutcome(i)
    ensures r.Err? && r.error.SamePerson? ==>
              && r.error.first < r.error.second < |job.jids|
              && job.Identity(r.error.first) == job.Identity(r.error.second)
              && AllDifferent(job, r.error.second) && SelfSpared(job, r.error.second)
    ensures r.Err? && r.error.RemoveSelf? ==>
              && r.error.at < |job.jids| && job.RemovesSelf(r.error.at)
              && AllDifferent(job, r.error.at + 1) && SelfSpared(job, r.error.at)
  {
    hide job.Identity, job.Member, job.IsPending, job.Target, job.PlannedOutcome;
    var outcomes: seq<Outcome> := [];
    var pending: seq<Planned> := [];
    var seen: map<JID, nat> := map[];
    for i := 0 to |job.jids|
      invariant |outcomes| == i && pending == job.Pending(i)
      invariant forall k :: 0 <= k < i ==> outcomes[k] == job.PlannedOutcome(k)
      invariant forall k :: 0 <= k < i ==> job.Identity(k) in seen
      invariant forall id :: id in seen ==> seen[id] < i && job.Identity(seen[id]) == id
      invariant AllDifferent(job, i) && SelfSpared(job, i)
    {
      var member, identity := Resolve(job, i);
      if identity in seen {
        return Err(SamePerson(seen[identity], i));
      }
      seen := seen[identity := i];
      if member == Some(job.self) && job.action == Remove {
        assert job.RemovesSelf(i);
        return Err(RemoveSelf(i));
      }
      var out, send := PlanOne(job, i, member);
      outcomes, pending := outcomes + [out], pending + send;
    }
    r := Ok(Plan(outcomes, pending));
  }

  // ------------------------------------------------------------------- batches

  /** Adds to a LID-addressed group go one a request; everything else goes together. */
  predicate OneByOne(job: Job) {
    job.action == Add && job.info.addressing == ByLid
  }

  ghost predicate Splits(pending: seq<Planned>, single: bool, batches: seq<seq<Planned>>) {
    if single then |batches| == |pending| && forall k :: 0 <= k < |pending| ==> batches[k] == [pending[k]]
    else batches == [pending]
  }

  method ParticipantBatches(pending: seq<Planned>, single: bool) returns (batches: seq<seq<Planned>>)
    ensures Splits(pending, single, batches)
  {
    if !single {
      return [pending];
    }
    batches := [];
    for i := 0 to |pending|
      invariant |batches| == i && forall k :: 0 <= k < i ==> batches[k] == [pending[k]]
    {
      batches := batches + [[pending[i]]];
    }
  }

  // ------------------------------------------------------------------- replies

  datatype Reply = Rejected(cause: string) | Changed(entries: seq<Participant>)
  datatype InviteReply = Denied(reason: string) | NotSent(cause: string) | Sent(id: string)

  /** The first entry that satisfies the given test. */
  function FirstEntry(entries: seq<Participant>, test: Participant -> bool, from: nat := 0): (r: Option<Participant>)
    requires from <= |entries|
    ensures r.Some? ==> exists k :: from <= k < |entries| && entries[k] == r.value && test(entries[k])
                                 && forall l :: from <= l < k ==> !test(entries[l])
    ensures r.None? ==> forall k :: from <= k < |entries| ==> !test(entries[k])
    decreases |entries| - from
  {
    if from == |entries| then None
    else if test(entries[from]) then Some(entries[from])
    else FirstEntry(entries, test, from + 1)
  }

  /** A LID-only entry whose stored phone number is jid. */
  predicate NamedByLid(phones: JID -> Option<JID>, r: Participant, jid: JID) {
    r.jid.server == HiddenUser && phones(r.jid).Some? && SameUser(phones(r.jid).value, jid)
  }

  /** The entry for jid: by any of its ids, else through the LID store, else the only entry for the only request. */
  function ResultFor(phones: JID -> Option<JID>, entries: seq<Participant>, jid: JID, sent: nat)
    : (r: Option<Participant>)
    ensures r.Some? ==> r.value in entries
    ensures (exists k :: 0 <= k < |entries| && Matches(entries[k], jid)) ==> r.Some? && Matches(r.value, jid)
    ensures r.None? && jid.server == DefaultUser ==>
              forall k :: 0 <= k < |entries| ==> !NamedByLid(phones, entries[k], jid)
    ensures r.None? ==> sent != 1 || |entries| != 1
  {
    var direct := FirstEntry(entries, r => Matches(r, jid));
    if direct.Some? then direct
    else
      var mapped := if jid.server == DefaultUser then FirstEntry(entries, r => NamedByLid(phones, r, jid)) else None;
      if mapped.Some? then mapped
      else if sent == 1 && |entries| == 1 then Some(entries[0])
      else None
  }

  function SuccessStatus(action: Action): Status {
    match action case Add => Added case Remove => Removed case Promote => Promoted case Demote => Demoted
  }

  function ApplyResult(out: Outcome, action: Action, res: Participant): (r: Outcome)
    ensures r.status == InviteRequired ==> res.addRequest.Some?
  {
    var named := out.(jid := res.jid, errorCode := res.error);
    if res.error == 0 then named.(status := SuccessStatus(action))
    else if res.addRequest.Some? then
      named.(status := InviteRequired, inviteExpires := res.addRequest.value.expiration)
    else if action == Add && res.error == ALREADY_MEMBER_CODE then named.(status := AlreadyMember)
    else named.(status := Failed)
  }

  function WithInvite(out: Outcome, req: AddRequest, reply: InviteReply): Outcome {
    if req.code == "" then out.(trouble := NoInviteCode)
    else match reply
      case Denied(reason) => out.(trouble := HeldBack(reason))
      case NotSent(cause) => out.(status := InviteFailed, trouble := SendFailed(cause))
      case Sent(id) => out.(status := InviteSent, inviteId := id)
  }

  /** Sends unless there is no code or the send limit holds it back, and records what happened. */
  method InviteParticipant(out: Outcome, req: AddRequest, reply: InviteReply) returns (r: Outcome, sent: bool)
    ensures r == WithInvite(out, req, reply)
    ensures sent <==> req.code != "" && reply.Sent?
  {
    r, sent := out, false;
    if req.code == "" {
      r := r.(trouble := NoInviteCode);
      return;
    }
    match reply {
      case Denied(reason) => r := r.(trouble := HeldBack(reason));
      case NotSent(cause) => r := r.(status := InviteFailed, trouble := SendFailed(cause));
      case Sent(id) =>
        sent := true;
        r := r.(status := InviteSent, inviteId := id);
    }
  }

  /** The world outside: identity store, the reply to the n-th request, the fate of the invite for result idx. */
  datatype World = World(phones: JID -> Option<JID>, reply: nat -> Reply, invite: nat -> InviteReply)

  /** What result p.idx becomes once the reply to its batch is in. */
  function Settle(world: World, job: Job, sendInvite: bool, out: Outcome, p: Planned, reply: Reply, sent: nat): Outcome
  {
    match reply
    case Rejected(cause) => out.(status := Failed, trouble := RequestFailed(cause))
    case Changed(entries) =>
      match ResultFor(world.phones, entries, p.jid, sent)
      case None => out.(status := Failed, trouble := NoResult)
      case Some(res) =>
        var applied := ApplyResult(out, job.action, res);
        if applied.status == InviteRequired && sendInvite
        then WithInvite(applied, res.addRequest.value, world.invite(p.idx))
        else applied
  }

  /** An invite goes out for p: the add was blocked, a code came back, the caller asked, and the send went through. */
  predicate InviteGoesOut(world: World, sendInvite: bool, p: Planned, reply: Reply, sent: nat) {
    && sendInvite && reply.Changed?
    && var res := ResultFor(world.phones, reply.entries, p.jid, sent);
    && res.Some? && res.value.error != 0 && res.value.addRequest.Some? && res.value.addRequest.value.code != ""
    && world.invite(p.idx).Sent?
  }

  /** Which request carries the k-th pending change, and how many it carries. */
  function BatchOf(job: Job, k: nat): nat {
    if OneByOne(job) then k else 0
  }

  function BatchSize(job: Job): nat {
    if OneByOne(job) then 1 else |job.Pending(|job.jids|)|
  }

  function FinalOutcome(world: World, job: Job, sendInvite: bool, k: nat): Outcome
    requires job.Valid() && k < |job.Pending(|job.jids|)|
  {
    var p := job.Pending(|job.jids|)[k];
    Settle(world, job, sendInvite, job.PlannedOutcome(p.idx), p, world.reply(BatchOf(job, k)), BatchSize(job))
  }

  /** The first n pending results are settled; everything else is as planned. */
  ghost predicate SettledTo(world: World, job: Job, sendInvite: bool, results: seq<Outcome>, n: nat)
    requires job.Valid() && n <= |job.Pending(|job.jids|)|
  {
    var pending := job.Pending(|job.jids|);
    && |results| == |job.jids|
    && (forall k :: 0 <= k < n ==> results[pending[k].idx] == FinalOutcome(world, job, sendInvite, k))
    && (forall k :: n <= k < |pending| ==> results[pending[k].idx] == job.PlannedOutcome(pending[k].idx))
    && (forall i :: 0 <= i < |job.jids| && !job.IsPending(i) ==> results[i] == job.PlannedOutcome(i))
  }

  datatype Invite = Invite(idx: nat, to: JID)

  ghost predicate Invited(world: World, job: Job, sendInvite: bool, k: nat)
    requires job.Valid() && k < |job.Pending(|job.jids|)|
  {
    InviteGoesOut(world, sendInvite, job.Pending(|job.jids|)[k], world.reply(BatchOf(job, k)), BatchSize(job))
  }

  /** The invites that go out for the first n pending changes, in order, each to the address that was sent. */
  ghost function InvitesUpTo(world: World, job: Job, sendInvite: bool, n: nat): seq<Invite>
    requires job.Valid() && n <= |job.Pending(|job.jids|)|
  {
    if n == 0 then []
    else
      var p := job.Pending(|job.jids|)[n - 1];
      InvitesUpTo(world, job, sendInvite, n - 1) +
      (if Invited(world, job, sendInvite, n - 1) then [Invite(p.idx, p.jid)] else [])
  }

  // ----------------------------------------------------------- the whole change

  datatype Report = Report(results: seq<Outcome>, action: Action, isAdmin: bool)

  datatype UpdateError =
    | NotConnected | NotAGroup | BadAction | NoParticipants | BadParticipant | NoGroupInfo
    | NotPermitted | Unplannable(why: PlanError) | FirstRequestFailed(cause: string)

  /** The arguments of a call, already parsed (None where parsing fails), with what the session knows. */
  datatype Call = Call(
    connected: bool, chat: JID, action: Option<Action>, inputs: seq<string>, jids: Option<seq<JID>>,
    group: Option<GroupInfo>, ownPhone: JID, ownLid: JID, sendInvite: bool, lids: JID -> Option<JID>)
  {
    predicate Valid() {
      jids.Some? ==> |jids.value| == |inputs|
    }

    function Self(): Option<nat>
      requires group.Some?
    {
      FindParticipant(group.value.participants, [ownPhone, ownLid])
    }

    /** Entry m is the paired user's: the first that carries one of its ids. */
    ghost predicate OwnEntry(m: int)
      requires group.Some?
    {
      var ps := group.value.participants;
      && 0 <= m < |ps| && (Carries(ps[m], ownPhone) || Carries(ps[m], ownLid))
      && forall k :: 0 <= k < m ==> !Carries(ps[k], ownPhone) && !Carries(ps[k], ownLid)
    }

    /** The paired user is in the group and an admin of it, or wants to add where every member may. */
    ghost predicate Entitled()
      requires group.Some? && action.Some?
    {
      exists m :: OwnEntry(m) &&
        (group.value.participants[m].isAdmin || (action.value == Add && group.value.allMembersMayAdd))
    }

    lemma EntitledIff()
      requires group.Some? && action.Some?
      ensures MayApply(group.value, Self(), action.value) <==> Entitled()
    {
      var ps := group.value.participants;
      forall k | 0 <= k < |ps|
        ensures MatchesAny(ps[k], [ownPhone, ownLid]) <==> Carries(ps[k], ownPhone) || Carries(ps[k], ownLid)
      {
        MatchesEither(ps[k], ownPhone, ownLid);
      }
      hide FindParticipant, Carries, MatchesAny;
      if Self().Some? {
        assert OwnEntry(Self().value);
      }
    }

    /** What the arguments and the group already rule out, in the order it is noticed. */
    ghost function Objection(): Option<UpdateError> {
      if !connected then Some(NotConnected)
      else if chat.server != GroupServer then Some(NotAGroup)
      else if action.None? then Some(BadAction)
      else if inputs == [] then Some(NoParticipants)
      else if jids.None? then Some(BadParticipant)
      else if group.None? then Some(NoGroupInfo)
      else if !Entitled() then Some(NotPermitted)
      else None
    }

    /** Every check before planning passes. */
    predicate Permitted() {
      && connected && chat.server == GroupServer && action.Some? && inputs != [] && jids.Some? && group.Some?
      && MayApply(group.value, Self(), action.value)
    }

    function ToJob(): (job: Job)
      requires Valid() && Permitted()
      ensures job.Valid()
    {
      Job(group.value, Self().value, inputs, jids.value, action.value, lids)
    }
  }

  /** What goes out in the first n requests. */
  ghost predicate RequestsAre(job: Job, requests: seq<seq<JID>>) {
    var pending := job.Pending(|job.jids|);
    if OneByOne(job) then
      |requests| <= |pending| && forall k :: 0 <= k < |requests| ==> requests[k] == [pending[k].jid]
    else
      |requests| <= 1 && (requests != [] ==> requests[0] == Targets(pending))
  }

  function Targets(batch: seq<Planned>): seq<JID> {
    seq(|batch|, k requires 0 <= k < |batch| => batch[k].jid)
  }

  /** The checks before planning, in order. */
  method Check(call: Call) returns (objection: Option<UpdateError>)
    requires call.Valid()
    ensures objection == call.Objection()
  {
    if !call.connected { return Some(NotConnected); }
    if call.chat.server != GroupServer { return Some(NotAGroup); }
    if call.action.None? { return Some(BadAction); }
    if call.inputs == [] { return Some(NoParticipants); }
    if call.jids.None? { return Some(BadParticipant); }
    if call.group.None? { return Some(NoGroupInfo); }
    call.EntitledIff();
    if !MayApply(call.group.value, call.Self(), call.action.value) { return Some(NotPermitted); }
    objection := None;
  }

  lemma ObjectionIff(call: Call)
    requires call.Valid()
    ensures call.Objection().None? <==> call.Permitted()
    ensures call.Objection().None? ==> call.group.Some? && call.action.Some? && call.Entitled()
    ensures call.Objection().Some? ==>
              !call.Objection().value.Unplannable? && !call.Objection().value.FirstRequestFailed?
  {
    if call.group.Some? && call.action.Some? {
      call.EntitledIff();
    }
    hide MayApply, call.Entitled;
  }

  /**
    Either a full report, or an error before anything changed: an error leaves
    at most one request, which the server refused, and no invite.
   */
  method UpdateGroupParticipants(call: Call, world: World)
    returns (res: Result<Report, UpdateError>, requests: seq<seq<JID>>, invites: seq<Invite>)
    requires call.Valid()
    ensures res.Ok? <==>
              && call.Permitted()
              && var job := call.ToJob();
              && AllDifferent(job, |job.jids|) && SelfSpared(job, |job.jids|)
              && (job.Pending(|job.jids|) != [] ==> world.reply(0).Changed?)
    ensures res.Err? ==> invites == []
    ensures res.Err? && !res.error.FirstRequestFailed? ==> requests == []
    ensures res.Err? && res.error.FirstRequestFailed? ==> |requests| == 1 && world.reply(0) == Rejected(res.error.cause)
    ensures res.Err? ==> (call.Permitted() <==> res.error.Unplannable? || res.error.FirstRequestFailed?)
    ensures call.Objection().Some? ==> res == Err(call.Objection().value)
    ensures call.Objection().None? ==> res.Ok? || res.error.Unplannable? || res.error.FirstRequestFailed?
    ensures requests != [] || res.Ok? ==> call.group.Some? && call.action.Some? && call.Entitled()
    ensures res.Ok? && call.action.value == Add && call.group.value.addressing == ByLid ==>
              forall k :: 0 <= k < |requests| ==> |requests[k]| == 1
    ensures res.Ok? && !(call.action.value == Add && call.group.value.addressing == ByLid) ==> |requests| <= 1
    ensures res.Ok? ==>
              var job := call.ToJob();
              var n := |job.Pending(|job.jids|)|;
              && SettledTo(world, job, call.sendInvite, res.value.results, n)
              && invites == InvitesUpTo(world, job, call.sendInvite, n)
              && RequestsAre(job, requests)
              && |requests| == (if OneByOne(job) || n == 0 then n else 1)
              && res.value.action == job.action && res.value.isAdmin == job.info.participants[job.self].isAdmin
  {
    requests, invites := [], [];
    var objection := Check(call);
    ObjectionIff(call);
    if objection.Some? { return Err(objection.value), requests, invites; }

    hide call.Entitled, call.OwnEntry, call.Objection, SettledTo, FinalOutcome, InvitesUpTo;
    var job := call.ToJob();
    var plan := PlanParticipantChange(job);
    if plan.Err? { return Err(Unplannable(plan.error)), requests, invites; }
    if plan.value.pending == [] {
      return Ok(Report(plan.value.outcomes, job.action, job.info.participants[job.self].isAdmin)), requests, invites;
    }
    var failure, results;
    failure, results, requests, invites := SendBatches(world, job, call.sendInvite, plan.value);
    RequestSizes(job, requests);
    if failure.Some? { return Err(FirstRequestFailed(failure.value)), requests, invites; }
    res := Ok(Report(results, job.action, job.info.participants[job.self].isAdmin));
  }

  lemma RequestSizes(job: Job, requests: seq<seq<JID>>)
    ensures RequestsAre(job, requests) ==>
              if job.action == Add && job.info.addressing == ByLid
              then forall k :: 0 <= k < |requests| ==> |requests[k]| == 1
              else |requests| <= 1
  {
    hide job.Pending, Targets;
  }

  ghost predicate IsPlan(job: Job, plan: Plan)
    requires job.Valid()
  {
    && |plan.outcomes| == |job.jids| && plan.pending == job.Pending(|job.jids|)
    && forall i :: 0 <= i < |job.jids| ==> plan.outcomes[i] == job.PlannedOutcome(i)
  }

  /** The batch loop. Only a refusal of the first request fails the call; later ones fail their own results. */
  method SendBatches(world: World, job: Job, sendInvite: bool, plan: Plan)
    returns (failure: Option<string>, results: seq<Outcome>, requests: seq<seq<JID>>, invites: seq<Invite>)
    requires job.Valid() && IsPlan(job, plan) && plan.pending != []
    ensures failure.Some? <==> world.reply(0).Rejected?
    ensures failure.Some? ==> |requests| == 1 && invites == [] && world.reply(0) == Rejected(failure.value)
    ensures failure.None? ==>
              && SettledTo(world, job, sendInvite, results, |plan.pending|)
              && invites == InvitesUpTo(world, job, sendInvite, |plan.pending|)
              && RequestsAre(job, requests)
              && |requests| == if OneByOne(job) then |plan.pending| else 1
  {
    hide SettledTo, IsPlan, job.Pending, RequestsAre, BatchOf, BatchSize, DoneBefore, Splits, OneByOne, InvitesUpTo,
         Targets;
    failure, results, requests, invites := None, plan.outcomes, [], [];
    PlanSettles(world, job, sendInvite, plan);
    var batches := ParticipantBatches(plan.pending, OneByOne(job));
    BatchesCover(job, batches);
    for b := 0 to |batches|
      invariant DoneBefore(job, b) <= |plan.pending|
      invariant |requests| == b && RequestsAre(job, requests)
      invariant b > 0 ==> world.reply(0).Changed?
      invariant SettledTo(world, job, sendInvite, results, DoneBefore(job, b))
      invariant invites == InvitesUpTo(world, job, sendInvite, DoneBefore(job, b))
    {
      BatchAt(job, batches, b, requests);
      requests := requests + [Targets(batches[b])];
      if world.reply(b).Rejected? && b == 0 {
        return Some(world.reply(b).cause), results, requests, invites;
      }
      results, invites := SettleBatch(world, job, sendInvite, results, invites, batches[b], b, DoneBefore(job, b));
    }
  }

  /** How many pending changes the first b batches hold. */
  ghost function DoneBefore(job: Job, b: nat): nat {
    if OneByOne(job) then b else if b == 0 then 0 else |job.Pending(|job.jids|)|
  }

  lemma BatchesCover(job: Job, batches: seq<seq<Planned>>)
    requires Splits(job.Pending(|job.jids|), OneByOne(job), batches) && job.Pending(|job.jids|) != []
    ensures |batches| > 0 && DoneBefore(job, 0) == 0 && DoneBefore(job, |batches|) == |job.Pending(|job.jids|)|
    ensures |batches| == if OneByOne(job) then |job.Pending(|job.jids|)| else 1
    ensures RequestsAre(job, [])
  {
  }

  lemma BatchAt(job: Job, batches: seq<seq<Planned>>, b: nat, requests: seq<seq<JID>>)
    requires Splits(job.Pending(|job.jids|), OneByOne(job), batches) && b < |batches|
    requires RequestsAre(job, requests) && |requests| == b
    ensures DoneBefore(job, b + 1) == DoneBefore(job, b) + |batches[b]| <= |job.Pending(|job.jids|)|
    ensures batches[b] == job.Pending(|job.jids|)[DoneBefore(job, b)..DoneBefore(job, b + 1)]
    ensures |batches[b]| == BatchSize(job)
    ensures forall k :: DoneBefore(job, b) <= k < DoneBefore(job, b + 1) ==> BatchOf(job, k) == b
    ensures RequestsAre(job, requests + [Targets(batches[b])])
  {
  }

  lemma PlanSettles(world: World, job: Job, sendInvite: bool, plan: Plan)
    requires job.Valid() && IsPlan(job, plan)
    ensures plan.pending == job.Pending(|job.jids|)
    ensures SettledTo(world, job, sendInvite, plan.outcomes, 0) && InvitesUpTo(world, job, sendInvite, 0) == []
  {
  }

  method SettleBatch(world: World, job: Job, sendInvite: bool, results0: seq<Outcome>, invites0: seq<Invite>,
                     batch: seq<Planned>, b: nat, ghost done: nat)
    returns (results: seq<Outcome>, invites: seq<Invite>)
    requires job.Valid() && done + |batch| <= |job.Pending(|job.jids|)|
    requires batch == job.Pending(|job.jids|)[done..done + |batch|] && |batch| == BatchSize(job)
    requires forall k :: done <= k < done + |batch| ==> BatchOf(job, k) == b
    requires SettledTo(world, job, sendInvite, results0, done)
    requires invites0 == InvitesUpTo(world, job, sendInvite, done)
    ensures SettledTo(world, job, sendInvite, results, done + |batch|)
    ensures invites == InvitesUpTo(world, job, sendInvite, done + |batch|)
  {
    hide SettledTo, Settle, InviteGoesOut, job.PlannedOutcome, job.Pending;
    results, invites := results0, invites0;
    for j := 0 to |batch|
      invariant SettledTo(world, job, sendInvite, results, done + j)
      invariant invites == InvitesUpTo(world, job, sendInvite, done + j)
    {
      var p := batch[j];
      assert p == job.Pending(|job.jids|)[done + j];
      NextIsPlanned(world, job, sendInvite, results, done + j);
      var out, invited := SettleOne(world, job, sendInvite, results[p.idx], p, world.reply(b), |batch|);
      SettledStep(world, job, sendInvite, results, done + j, out);
      results := results[p.idx := out];
      if invited {
        invites := invites + [Invite(p.idx, p.jid)];
      }
    }
  }

  lemma NextIsPlanned(world: World, job: Job, sendInvite: bool, results: seq<Outcome>, n: nat)
    requires job.Valid() && n < |job.Pending(|job.jids|)| && SettledTo(world, job, sendInvite, results, n)
    ensures var p := job.Pending(|job.jids|)[n]; p.idx < |results| && results[p.idx] == job.PlannedOutcome(p.idx)
  {
  }

  method SettleOne(world: World, job: Job, sendInvite: bool, planned: Outcome, p: Planned, reply: Reply, sent: nat)
    returns (out: Outcome, invited: bool)
    ensures out == Settle(world, job, sendInvite, planned, p, reply, sent)
    ensures invited == InviteGoesOut(world, sendInvite, p, reply, sent)
  {
    hide ResultFor;
    out, invited := planned, false;
    match reply {
      case Rejected(cause) =>
        out := out.(status := Failed, trouble := RequestFailed(cause));
      case Changed(entries) =>
        var res := ResultFor(world.phones, entries, p.jid, sent);
        if res.None? {
          out := out.(status := Failed, trouble := NoResult);
          return;
        }
        out := ApplyResult(out, job.action, res.value);
        if out.status == InviteRequired && sendInvite {
          out, invited := InviteParticipant(out, res.value.addRequest.value, world.invite(p.idx));
        }
    }
  }

  lemma SettledStep(world: World, job: Job, sendInvite: bool, results: seq<Outcome>, n: nat, out: Outcome)
    requires job.Valid() && n < |job.Pending(|job.jids|)|
    requires SettledTo(world, job, sendInvite, results, n) && out == FinalOutcome(world, job, sendInvite, n)
    ensures SettledTo(world, job, sendInvite, results[job.Pending(|job.jids|)[n].idx := out], n + 1)
  {
    hide FinalOutcome, job.PlannedOutcome, job.IsPending;
    job.PendingShape(|job.jids|);
  }
}

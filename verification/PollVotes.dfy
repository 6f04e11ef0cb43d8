/**
  Poll votes: hashed ballots are decoded, kept one row a voter behind a replay
  guard, and tallied. SHA-256 is an arbitrary function, JSON an exact encoding.
 */
module PollVotes {
  import opened Sequences

  type Digest = seq<bv8>
  type Hash = string -> Digest

  datatype PollKey = PollKey(id: string, chat: string)
  datatype VoteKey = VoteKey(poll: PollKey, voter: string)

  /** What a row's JSON column holds; only outside tampering makes it Corrupt. */
  datatype Payload = Selection(options: seq<string>) | Corrupt
  datatype Row = Row(payload: Payload, at: int)
  type Table = map<VoteKey, Row>

  datatype PollResult = PollResult(option: string, votes: nat)

  // ------------------------------------------------------------------ the tally

  /** Where option o is marked on row k: one element per mark. */
  ghost function Marks(t: Table, keys: set<VoteKey>, o: string): set<(VoteKey, int)> {
    set k, i |
      && k in keys && k in t && t[k].payload.Selection?
      && 0 <= i < |t[k].payload.options| && t[k].payload.options[i] == o
      :: (k, i)
  }

  /** The rows of a poll. */
  ghost function Voters(t: Table, poll: PollKey): set<VoteKey> {
    set k | k in t && k.poll == poll
  }

  /** The voters of a poll whose current selection contains o. */
  ghost function Supporters(t: Table, poll: PollKey, o: string): set<VoteKey> {
    set k | k in t && k.poll == poll && t[k].payload.Selection? && o in t[k].payload.options
  }

  ghost function Tally(t: Table, poll: PollKey, o: string): nat {
    |Marks(t, Voters(t, poll), o)|
  }

  // ------------------------------------------------------------- ballot decoding

  /** The first option with this digest. */
  function OptionFor(hash: Hash, options: seq<string>, d: Digest): (r: Option<string>)
    ensures r.Some? ==> exists i :: 0 <= i < |options| && options[i] == r.value && hash(options[i]) == d
                          && forall j :: 0 <= j < i ==> hash(options[j]) != d
    ensures r.None? ==> forall i :: 0 <= i < |options| ==> hash(options[i]) != d
  {
    if options == [] then None
    else if hash(options[0]) == d then
      assert options[0] == options[0] && hash(options[0]) == d;
      Some(options[0])
    else
      assert forall i :: 0 <= i < |options| - 1 ==> options[1..][i] == options[i + 1];
      OptionFor(hash, options[1..], d)
  }

  /** The options a ballot marks, in ballot order; unknown digests are dropped. */
  function Decode(hash: Hash, options: seq<string>, ballot: seq<Digest>): seq<string> {
    if ballot == [] then []
    else
      var n := |ballot| - 1;
      var o := OptionFor(hash, options, ballot[n]);
      Decode(hash, options, ballot[..n]) + (if o.Some? then [o.value] else [])
  }

  /** A ballot event: what arrived, the time it claims, and the clock when it was handled. */
  datatype Event = Event(key: VoteKey, ballot: seq<Digest>, at: int, now: int)

  function Clamp(at: int, now: int): int {
    if at > now then now else at
  }

  /** The row is written unless a strictly newer one is already there. */
  function Upsert(t: Table, k: VoteKey, row: Row): Table {
    if k in t && row.at < t[k].at then t else t[k := row]
  }

  predicate Storable(k: VoteKey) {
    k.poll.id != "" && k.poll.chat != "" && k.voter != ""
  }

  type Messages = map<PollKey, Option<seq<string>>>

  predicate Known(messages: Messages, poll: PollKey) {
    poll in messages && messages[poll].Some?
  }

  /** Writing a message writes its whole row anew, options gone; a blank message has no row. */
  function AfterMessage(messages: Messages, poll: PollKey, blank: bool): Messages {
    if blank then messages else messages[poll := None]
  }

  /** Options are attached to a row that is there; silently nothing otherwise. */
  function AfterOptions(messages: Messages, poll: PollKey, options: seq<string>): Messages {
    if poll.id != "" && poll.chat != "" && poll in messages then messages[poll := Some(options)] else messages
  }

  function Handle(hash: Hash, messages: Messages, t: Table, e: Event): Table {
    if Storable(e.key) && Known(messages, e.key.poll) then
      Upsert(t, e.key, Row(Selection(Decode(hash, messages[e.key.poll].value, e.ballot)), Clamp(e.at, e.now)))
    else t
  }

  class PollStore {
    const hash: Hash
    var messages: Messages     // poll-creation rows; None when a row carries no options
    var votes: Table

    constructor (hash: Hash)
      ensures this.hash == hash && messages == map[] && votes == map[]
    {
      this.hash := hash;
      messages, votes := map[], map[];
    }

    /** INSERT OR REPLACE of a message row, which does not carry the options over. */
    method StoreMessage(key: PollKey, blank: bool)
      modifies this`messages
      ensures messages == AfterMessage(old(messages), key, blank)
    {
      if blank {
        return;
      }
      messages := messages[key := None];
    }

    method StorePollMetadata(poll: PollKey, options: seq<string>) returns (ok: bool)
      modifies this`messages
      ensures ok <==> poll.id != "" && poll.chat != ""
      ensures messages == AfterOptions(old(messages), poll, options)
    {
      if poll.id == "" || poll.chat == "" {
        return false;
      }
      if poll in messages {
        messages := messages[poll := Some(options)];
      }
      ok := true;
    }

    function GetPollOptions(poll: PollKey): Option<seq<string>>
      reads this
    {
      if poll in messages then messages[poll] else None
    }

    method StorePollVote(k: VoteKey, selected: seq<string>, at: int) returns (ok: bool)
      modifies this`votes
      ensures ok <==> k.poll.id != "" && k.poll.chat != "" && k.voter != ""
      ensures votes == if ok then Upsert(old(votes), k, Row(Selection(selected), at)) else old(votes)
    {
      if k.poll.id == "" || k.poll.chat == "" || k.voter == "" {
        return false;
      }
      if k !in votes || at >= votes[k].at {
        votes := votes[k := Row(Selection(selected), at)];
      }
      ok := true;
    }

    /** ballot is None when decryption fails. */
    method HandlePollVote(k: VoteKey, ballot: Option<seq<Digest>>, at: int, now: int)
      modifies this`votes
      ensures ballot.Some? ==> votes == Handle(hash, messages, old(votes), Event(k, ballot.value, at, now))
      ensures ballot.None? ==> votes == old(votes)
    {
      if ballot.None? || k.poll.id == "" {
        return;
      }
      var options := GetPollOptions(k.poll);
      if options.None? {
        return;
      }
      var selected := DecodeBallot(options.value, ballot.value);
      var ts := at;
      if ts > now {
        ts := now;
      }
      var _ := StorePollVote(k, selected, ts);
    }

    method DecodeBallot(options: seq<string>, ballot: seq<Digest>) returns (selected: seq<string>)
      ensures selected == Decode(hash, options, ballot)
    {
      selected := [];
      for j := 0 to |ballot|
        invariant selected == Decode(hash, options, ballot[..j])
      {
        assert ballot[..j + 1][..j] == ballot[..j];
        var i := 0;
        while i < |options| && hash(options[i]) != ballot[j]
          invariant 0 <= i <= |options|
          invariant OptionFor(hash, options, ballot[j]) == OptionFor(hash, options[i..], ballot[j])
        {
          i := i + 1;
        }
        if i < |options| {
          selected := selected + [options[i]];
        }
      }
      assert ballot[..|ballot|] == ballot;
    }

    /** One line per option, in poll order, counting every mark on the current rows of this poll. */
    method GetPollResults(poll: PollKey) returns (r: Option<seq<PollResult>>)
      ensures r.Some? <==> Known(messages, poll)
      ensures r.Some? ==>
                && |r.value| == |messages[poll].value|
                && forall i :: 0 <= i < |r.value| ==>
                     r.value[i] == PollResult(messages[poll].value[i], Tally(votes, poll, messages[poll].value[i]))
    {
      hide Marks;
      var found := GetPollOptions(poll);
      if found.None? {
        return None;
      }
      var options := found.value;
      var counts: map<string, nat> := map[];
      for i := 0 to |options|
        invariant forall o :: o in counts <==> o in options[..i]
        invariant forall o :: o in counts ==> counts[o] == 0
      {
        counts := counts[options[i] := 0];
      }
      assert options[..|options|] == options;

      var rows := set k | k in votes && k.poll == poll;
      var left := rows;
      NoMarks(votes);
      assert rows - left == {};
      while left != {}
        invariant left <= rows
        invariant counts.Keys == set o | o in options
        invariant forall o :: o in counts ==> counts[o] == |Marks(votes, rows - left, o)|
        decreases left
      {
        var k :| k in left;
        if votes[k].payload.Selection? {
          counts := CountRow(counts, votes[k].payload.options, k, rows - left);
        } else {
          CorruptAddsNothing(votes, rows - left, k);
        }
        assert rows - (left - {k}) == rows - left + {k};
        left := left - {k};
      }
      assert rows - {} == Voters(votes, poll);

      var results: seq<PollResult> := [];
      for i := 0 to |options|
        invariant |results| == i
        invariant forall j :: 0 <= j < i ==> results[j] == PollResult(options[j], Tally(votes, poll, options[j]))
      {
        assert options[i] in counts;
        results := results + [PollResult(options[i], counts[options[i]])];
      }
      r := Some(results);
    }

    method CountRow(counts0: map<string, nat>, selected: seq<string>, k: VoteKey, ghost done: set<VoteKey>)
      returns (counts: map<string, nat>)
      requires k in votes && votes[k].payload == Selection(selected) && k !in done
      requires forall o :: o in counts0 ==> counts0[o] == |Marks(votes, done, o)|
      ensures counts.Keys == counts0.Keys
      ensures forall o :: o in counts ==> counts[o] == |Marks(votes, done + {k}, o)|
    {
      counts := counts0;
      for i := 0 to |selected|
        invariant counts.Keys == counts0.Keys
        invariant forall o :: o in counts ==> counts[o] == |Marks(votes, done, o)| + |Places(selected[..i], o)|
      {
        forall o
          ensures |Places(selected[..i + 1], o)| == |Places(selected[..i], o)| + if selected[i] == o then 1 else 0
        {
          PlacesStep(selected, i, o);
        }
        if selected[i] in counts {
          counts := counts[selected[i] := counts[selected[i]] + 1];
        }
      }
      assert selected[..|selected|] == selected;
      forall o
        ensures |Marks(votes, done + {k}, o)| == |Marks(votes, done, o)| + |Places(selected, o)|
      {
        MarksAddRow(votes, done, k, o);
      }
    }
  }

  /** What is attached to a poll's row is what its results list, whole and in order; other polls are as before. */
  method AttachedOptionsAreListed(store: PollStore, poll: PollKey, options: seq<string>)
    returns (r: Option<seq<PollResult>>)
    requires poll in store.messages && poll.id != "" && poll.chat != ""
    modifies store
    ensures r.Some? && |r.value| == |options|
    ensures forall i :: 0 <= i < |options| ==> r.value[i].option == options[i]
    ensures store.votes == old(store.votes)
    ensures forall q :: q != poll ==>
              && (q in store.messages <==> q in old(store.messages))
              && (q in store.messages ==> store.messages[q] == old(store.messages)[q])
  {
    var _ := store.StorePollMetadata(poll, options);
    r := store.GetPollResults(poll);
  }

  /** The positions of o in a selection. */
  ghost function Places(selected: seq<string>, o: string): set<int> {
    set i | 0 <= i < |selected| && selected[i] == o
  }

  lemma PlacesStep(selected: seq<string>, i: nat, o: string)
    requires i < |selected|
    ensures |Places(selected[..i + 1], o)| == |Places(selected[..i], o)| + if selected[i] == o then 1 else 0
  {
    var before, after := Places(selected[..i], o), Places(selected[..i + 1], o);
    if selected[i] == o {
      assert after == before + {i};
    } else {
      assert after == before;
    }
  }

  lemma CorruptAddsNothing(t: Table, done: set<VoteKey>, k: VoteKey)
    requires k in t && t[k].payload.Corrupt?
    ensures forall o :: Marks(t, done + {k}, o) == Marks(t, done, o)
  {
  }

  lemma NoMarks(t: Table)
    ensures forall o :: Marks(t, {}, o) == {}
  {
  }

  lemma MarksAddRow(t: Table, done: set<VoteKey>, k: VoteKey, o: string)
    requires k in t && t[k].payload.Selection? && k !in done
    ensures |Marks(t, done + {k}, o)| == |Marks(t, done, o)| + |Places(t[k].payload.options, o)|
  {
    var row := OnRow(k, Places(t[k].payload.options, o));
    assert Marks(t, done + {k}, o) == Marks(t, done, o) + row;
    assert Marks(t, done, o) !! row;
    OnRowSize(k, Places(t[k].payload.options, o));
  }

  ghost function OnRow<T(!new), U(!new)>(k: T, places: set<U>): set<(T, U)> {
    set i | i in places :: (k, i)
  }

  lemma {:induction false} OnRowSize<T(!new), U(!new)>(k: T, places: set<U>)
    ensures |OnRow(k, places)| == |places|
  {
    if places != {} {
      var i :| i in places;
      OnRowSize(k, places - {i});
      assert OnRow(k, places) == OnRow(k, places - {i}) + {(k, i)};
    }
  }

  // -------------------------------------------------------- marks versus voters

  /** Option o is marked exactly once on the row. */
  ghost predicate Once(selected: seq<string>, o: string) {
    forall i, j :: 0 <= i < |selected| && 0 <= j < |selected| && selected[i] == o && selected[j] == o ==> i == j
  }

  /**
    The tally is the number of voters behind an option exactly when no current
    selection repeats it: a repeated option is counted once per mark.
   */
  lemma TallyCountsVotersIff(t: Table, poll: PollKey, o: string)
    ensures Tally(t, poll, o) >= |Supporters(t, poll, o)|
    ensures Tally(t, poll, o) == |Supporters(t, poll, o)|
       <==> forall k :: k in Supporters(t, poll, o) ==> Once(t[k].payload.options, o)
  {
    var s := Supporters(t, poll, o);
    assert Marks(t, Voters(t, poll), o) == Marks(t, s, o);
    MarksAtLeastRows(t, s, o);
  }

  lemma {:induction false} MarksAtLeastRows(t: Table, keys: set<VoteKey>, o: string)
    requires forall k :: k in keys ==> k in t && t[k].payload.Selection? && o in t[k].payload.options
    ensures |Marks(t, keys, o)| >= |keys|
    ensures |Marks(t, keys, o)| == |keys| <==> forall k :: k in keys ==> Once(t[k].payload.options, o)
  {
    if keys != {} {
      var k :| k in keys;
      var rest := keys - {k};
      assert rest + {k} == keys;
      MarksAtLeastRows(t, rest, o);
      MarksAddRow(t, rest, k, o);
      PlacesOnce(t[k].payload.options, o);
    }
  }

  lemma PlacesOnce(selected: seq<string>, o: string)
    requires o in selected
    ensures |Places(selected, o)| >= 1
    ensures |Places(selected, o)| == 1 <==> Once(selected, o)
  {
    var i :| 0 <= i < |selected| && selected[i] == o;
    var places := Places(selected, o);
    assert places == {i} + (places - {i});
    if Once(selected, o) {
      assert places == {i};
    } else {
      var a, b :| 0 <= a < |selected| && 0 <= b < |selected| && selected[a] == o && selected[b] == o && a != b;
      assert {a, b} <= places;
      SubsetSize({a, b}, places);
    }
  }

  lemma {:induction false} SubsetSize<T>(a: set<T>, b: set<T>)
    requires a <= b
    ensures |a| <= |b|
  {
    if a != {} {
      var x :| x in a;
      SubsetSize(a - {x}, b - {x});
    }
  }

  // ----------------------------------------------------------- last writer wins

  /** A vote as stored. */
  datatype Vote = Vote(key: VoteKey, selected: seq<string>, at: int)

  function Replay(votes: seq<Vote>): Table {
    if votes == [] then map[]
    else
      var v := votes[|votes| - 1];
      Upsert(Replay(votes[..|votes| - 1]), v.key, Row(Selection(v.selected), v.at))
  }

  /** Vote i is its key's latest: none for that key is dated later, and none dated the same arrived after it. */
  ghost predicate IsLatest(votes: seq<Vote>, i: int) {
    && 0 <= i < |votes|
    && forall j :: 0 <= j < |votes| && votes[j].key == votes[i].key ==>
         votes[j].at <= votes[i].at && (j > i ==> votes[j].at < votes[i].at)
  }

  /** A key has a row exactly when some vote names it. */
  lemma {:induction false} RowIffVoted(votes: seq<Vote>, k: VoteKey)
    ensures k in Replay(votes) <==> exists i :: 0 <= i < |votes| && votes[i].key == k
  {
    if votes != [] {
      var n := |votes| - 1;
      RowIffVoted(votes[..n], k);
      assert forall i :: 0 <= i < n ==> votes[..n][i] == votes[i];
      assert votes[n].key == k ==> k in Replay(votes);
    }
  }

  /** And the row is that key's latest vote. */
  lemma {:induction false} RowIsLatest(votes: seq<Vote>, k: VoteKey) returns (i: nat)
    requires k in Replay(votes)
    ensures IsLatest(votes, i) && votes[i].key == k
    ensures Replay(votes)[k] == Row(Selection(votes[i].selected), votes[i].at)
  {
    var n := |votes| - 1;
    var init, v := votes[..n], votes[n];
    if v.key == k && (k !in Replay(init) || v.at >= Replay(init)[k].at) {
      i := n;
      LatestBounds(init, k);
      assert forall j :: 0 <= j < n ==> init[j] == votes[j];
    } else {
      i := RowIsLatest(init, k);
      assert forall j :: 0 <= j < n ==> init[j] == votes[j];
    }
  }

  lemma {:induction false} LatestBounds(votes: seq<Vote>, k: VoteKey)
    ensures k in Replay(votes) ==>
              forall j :: 0 <= j < |votes| && votes[j].key == k ==> votes[j].at <= Replay(votes)[k].at
    ensures k !in Replay(votes) ==> forall j :: 0 <= j < |votes| ==> votes[j].key != k
  {
    if votes != [] {
      LatestBounds(votes[..|votes| - 1], k);
    }
  }

  predicate SameMoment(a: Vote, b: Vote) {
    a.key == b.key && a.at == b.at
  }

  /** Votes of one voter that claim the same instant agree. */
  ghost predicate TiesAgree(votes: seq<Vote>) {
    forall i, j :: 0 <= i < |votes| && 0 <= j < |votes| && SameMoment(votes[i], votes[j]) ==>
      votes[i].selected == votes[j].selected
  }

  /** Convergence: reordering and replaying votes changes nothing, as long as ties agree. */
  lemma Convergence(a: seq<Vote>, b: seq<Vote>)
    requires forall v :: v in a <==> v in b
    requires TiesAgree(a)
    ensures Replay(a) == Replay(b)
  {
    forall k
      ensures k in Replay(a) <==> k in Replay(b)
      ensures k in Replay(a) && k in Replay(b) ==> Replay(a)[k] == Replay(b)[k]
    {
      SameRow(a, b, k);
    }
  }

  lemma LatestNotLater(a: seq<Vote>, b: seq<Vote>, i: nat, j: nat)
    requires i < |a| && IsLatest(b, j) && a[i].key == b[j].key && a[i] in b
    ensures a[i].at <= b[j].at
  {
    var i' :| 0 <= i' < |b| && b[i'] == a[i];
  }

  lemma VotedIn(a: seq<Vote>, b: seq<Vote>, k: VoteKey)
    requires forall v :: v in a ==> v in b
    ensures k in Replay(a) ==> k in Replay(b)
  {
    RowIffVoted(a, k);
    RowIffVoted(b, k);
    if k in Replay(a) {
      var i :| 0 <= i < |a| && a[i].key == k;
      assert a[i] in b;
    }
  }

  lemma SameRow(a: seq<Vote>, b: seq<Vote>, k: VoteKey)
    requires forall v :: v in a <==> v in b
    requires TiesAgree(a)
    ensures k in Replay(a) <==> k in Replay(b)
    ensures k in Replay(a) ==> Replay(a)[k] == Replay(b)[k]
  {
    hide Replay;
    VotedIn(a, b, k);
    VotedIn(b, a, k);
    if k in Replay(a) {
      var i := RowIsLatest(a, k);
      var j := RowIsLatest(b, k);
      assert a[i] in b && b[j] in a;
      LatestNotLater(a, b, i, j);
      LatestNotLater(b, a, j, i);
      var j' :| 0 <= j' < |a| && a[j'] == b[j];
    }
  }

  // ---------------------------------------------------------------- end to end

  /** What reaches the store: a message row, options for one, or a ballot. */
  datatype Step =
    | MessageStored(key: PollKey, blank: bool)
    | OptionsStored(poll: PollKey, options: seq<string>)
    | BallotArrived(event: Event)

  /** The message rows after a run of steps. */
  function MessagesAfter(start: Messages, steps: seq<Step>): Messages {
    if steps == [] then start
    else
      var n := |steps| - 1;
      var messages := MessagesAfter(start, steps[..n]);
      match steps[n]
      case MessageStored(key, blank) => AfterMessage(messages, key, blank)
      case OptionsStored(poll, options) => AfterOptions(messages, poll, options)
      case BallotArrived(_) => messages
  }

  /** Step i writes poll's message row. */
  predicate WritesRow(steps: seq<Step>, poll: PollKey, i: int) {
    0 <= i < |steps| && steps[i] == MessageStored(poll, false)
  }

  /** Step i says what poll's options are. */
  predicate SaysOptions(steps: seq<Step>, poll: PollKey, i: int) {
    0 <= i < |steps| && steps[i].OptionsStored? && steps[i].poll == poll && poll.id != "" && poll.chat != ""
  }

  /** There is a row exactly when there was one or a message that is not blank wrote one. */
  lemma {:induction false} RowPresentIff(start: Messages, steps: seq<Step>, poll: PollKey)
    ensures poll in MessagesAfter(start, steps) <==> poll in start || exists i :: WritesRow(steps, poll, i)
  {
    if steps != [] {
      var n := |steps| - 1;
      RowPresentIff(start, steps[..n], poll);
      assert forall i :: 0 <= i < n ==> (WritesRow(steps, poll, i) <==> WritesRow(steps[..n], poll, i));
      assert WritesRow(steps, poll, n) <==> steps[n] == MessageStored(poll, false);
    }
  }

  /** Step i gave poll its options: it found a row, and nothing has replaced row or options since. */
  ghost predicate GaveOptions(start: Messages, steps: seq<Step>, poll: PollKey, i: int, options: seq<string>) {
    && SaysOptions(steps, poll, i) && steps[i].options == options
    && (poll in start || exists h :: h < i && WritesRow(steps, poll, h))
    && forall j :: i < j < |steps| ==> !WritesRow(steps, poll, j) && !SaysOptions(steps, poll, j)
  }

  /** No step touches poll's row or finds it to attach options. */
  ghost predicate LeftAlone(start: Messages, steps: seq<Step>, poll: PollKey) {
    forall j :: 0 <= j < |steps| ==> !WritesRow(steps, poll, j) && !SaysOptions(steps, poll, j)
  }

  /**
    A poll's options are the whole list of the last step that attached some to a
    row that was there, unless the row has been written again since; or those it
    started with, if no step concerned it.
   */
  lemma {:induction false} OptionsAreLastAttached(
      start: Messages, steps: seq<Step>, poll: PollKey, options: seq<string>)
    ensures (poll in MessagesAfter(start, steps) && MessagesAfter(start, steps)[poll] == Some(options))
       <==> || (exists i :: GaveOptions(start, steps, poll, i, options))
            || (LeftAlone(start, steps, poll) && poll in start && start[poll] == Some(options))
  {
    if steps != [] {
      var n := |steps| - 1;
      OptionsAreLastAttached(start, steps[..n], poll, options);
      if WritesRow(steps, poll, n) {
        assert forall i :: GaveOptions(start, steps, poll, i, options) ==> i == n;
      } else if SaysOptions(steps, poll, n) {
        SaidLast(start, steps, poll, options);
      } else {
        SaidEarlier(start, steps, poll, options);
      }
    }
  }

  lemma SaidLast(start: Messages, steps: seq<Step>, poll: PollKey, options: seq<string>)
    requires steps != [] && SaysOptions(steps, poll, |steps| - 1)
    ensures (poll in MessagesAfter(start, steps) && MessagesAfter(start, steps)[poll] == Some(options))
       <==> exists i :: GaveOptions(start, steps, poll, i, options)
    ensures !LeftAlone(start, steps, poll)
  {
    var n := |steps| - 1;
    RowPresentIff(start, steps[..n], poll);
    assert forall h :: 0 <= h < n ==> (WritesRow(steps, poll, h) <==> WritesRow(steps[..n], poll, h));
    assert forall i :: GaveOptions(start, steps, poll, i, options) ==> i == n;
    if poll in MessagesAfter(start, steps) && MessagesAfter(start, steps)[poll] == Some(options) {
      if poll !in start {
        var h :| WritesRow(steps[..n], poll, h);
        assert h < n && WritesRow(steps, poll, h);
      }
      assert GaveOptions(start, steps, poll, n, options);
    }
  }

  lemma SameGiver(start: Messages, steps: seq<Step>, poll: PollKey, i: int, options: seq<string>)
    requires steps != [] && !WritesRow(steps, poll, |steps| - 1) && !SaysOptions(steps, poll, |steps| - 1)
    ensures GaveOptions(start, steps, poll, i, options)
       <==> GaveOptions(start, steps[..|steps| - 1], poll, i, options)
  {
    var n := |steps| - 1;
    var init := steps[..n];
    assert forall j :: 0 <= j < n ==> (WritesRow(steps, poll, j) <==> WritesRow(init, poll, j));
    assert forall j :: 0 <= j < n ==> (SaysOptions(steps, poll, j) <==> SaysOptions(init, poll, j));
    if SaysOptions(steps, poll, i) && i != n {
      assert steps[i] == init[i];
      assert forall h :: h < i ==> (WritesRow(steps, poll, h) <==> WritesRow(init, poll, h));
    }
  }

  lemma SaidEarlier(start: Messages, steps: seq<Step>, poll: PollKey, options: seq<string>)
    requires steps != [] && !WritesRow(steps, poll, |steps| - 1) && !SaysOptions(steps, poll, |steps| - 1)
    ensures LeftAlone(start, steps, poll) <==> LeftAlone(start, steps[..|steps| - 1], poll)
    ensures var init := steps[..|steps| - 1];
            (exists i :: GaveOptions(start, steps, poll, i, options))
            <==> exists i :: GaveOptions(start, init, poll, i, options)
  {
    var n := |steps| - 1;
    var init := steps[..n];
    assert forall i :: 0 <= i < n ==> (WritesRow(steps, poll, i) <==> WritesRow(init, poll, i));
    assert forall i :: 0 <= i < n ==> (SaysOptions(steps, poll, i) <==> SaysOptions(init, poll, i));
    forall i
      ensures GaveOptions(start, steps, poll, i, options) <==> GaveOptions(start, init, poll, i, options)
    {
      SameGiver(start, steps, poll, i, options);
    }
  }

  /** The vote table after a run of steps, each ballot handled with the message rows of its moment. */
  function Play(hash: Hash, start: Messages, steps: seq<Step>): Table {
    if steps == [] then map[]
    else
      var n := |steps| - 1;
      var t := Play(hash, start, steps[..n]);
      if steps[n].BallotArrived? then Handle(hash, MessagesAfter(start, steps[..n]), t, steps[n].event) else t
  }

  /** The ballot of step i is recorded: its keys are complete and its poll's options are known at that moment. */
  predicate Recorded(start: Messages, steps: seq<Step>, i: nat)
    requires i < |steps|
  {
    && steps[i].BallotArrived? && Storable(steps[i].event.key)
    && Known(MessagesAfter(start, steps[..i]), steps[i].event.key.poll)
  }

  ghost predicate InjectiveOn(hash: Hash, options: seq<string>) {
    forall i, j :: 0 <= i < |options| && 0 <= j < |options| && hash(options[i]) == hash(options[j]) ==>
      options[i] == options[j]
  }

  function Hashed(hash: Hash, choice: seq<string>): seq<Digest> {
    seq(|choice|, i requires 0 <= i < |choice| => hash(choice[i]))
  }

  /** Decoding undoes hashing for any choice among the poll's options. */
  lemma {:induction false} DecodeInvertsHash(hash: Hash, options: seq<string>, choice: seq<string>)
    requires InjectiveOn(hash, options) && forall i :: 0 <= i < |choice| ==> choice[i] in options
    ensures Decode(hash, options, Hashed(hash, choice)) == choice
  {
    if choice != [] {
      var n := |choice| - 1;
      assert Hashed(hash, choice)[..n] == Hashed(hash, choice[..n]);
      DecodeInvertsHash(hash, options, choice[..n]);
      assert choice == choice[..n] + [choice[n]];
      var o := OptionFor(hash, options, hash(choice[n]));
      var i :| 0 <= i < |options| && options[i] == choice[n];
      var j :| 0 <= j < |options| && o.Some? && options[j] == o.value;
    }
  }

  ghost predicate NoRepeats(choice: seq<string>) {
    forall i, j :: 0 <= i < j < |choice| ==> choice[i] != choice[j]
  }

  /** An honest ballot for `choice`: some of the poll's options, each once, dated however the sender likes. */
  ghost predicate Honest(hash: Hash, options: seq<string>, ballot: seq<Digest>, choice: seq<string>) {
    && InjectiveOn(hash, options) && ballot == Hashed(hash, choice)
    && NoRepeats(choice) && forall i :: 0 <= i < |choice| ==> choice[i] in options
  }

  /** Every ballot recorded on this poll is honest about the options known when it came; the rest is arbitrary. */
  ghost predicate HonestOn(
      hash: Hash, start: Messages, steps: seq<Step>, choices: seq<seq<string>>, poll: PollKey)
  {
    && |steps| == |choices|
    && forall i :: 0 <= i < |steps| && Recorded(start, steps, i) && steps[i].event.key.poll == poll ==>
         Honest(hash, MessagesAfter(start, steps[..i])[poll].value, steps[i].event.ballot, choices[i])
  }

  /** The votes the recorded ballots stand for, each at the time it claims or, if that lies ahead, was handled. */
  function VotesOf(start: Messages, steps: seq<Step>, choices: seq<seq<string>>): (votes: seq<Vote>)
    requires |steps| == |choices|
  {
    if steps == [] then []
    else
      var n := |steps| - 1;
      var votes := VotesOf(start, steps[..n], choices[..n]);
      if Recorded(start, steps, n) then votes + [VoteOf(steps[n].event, choices[n])] else votes
  }

  function VoteOf(e: Event, choice: seq<string>): Vote {
    Vote(e.key, choice, Clamp(e.at, e.now))
  }

  /** Each vote comes from a recorded ballot. */
  lemma {:induction false} VoteOrigin(start: Messages, steps: seq<Step>, choices: seq<seq<string>>, v: nat)
    returns (i: nat)
    requires |steps| == |choices| && v < |VotesOf(start, steps, choices)|
    ensures i < |steps| && Recorded(start, steps, i)
    ensures VotesOf(start, steps, choices)[v] == VoteOf(steps[i].event, choices[i])
  {
    var n := |steps| - 1;
    if v < |VotesOf(start, steps[..n], choices[..n])| {
      i := VoteOrigin(start, steps[..n], choices[..n], v);
      assert steps[..n][..i] == steps[..i];
    } else {
      i := n;
    }
  }

  lemma HonestBefore(hash: Hash, start: Messages, steps: seq<Step>, choices: seq<seq<string>>, poll: PollKey)
    requires HonestOn(hash, start, steps, choices, poll) && steps != []
    ensures HonestOn(hash, start, steps[..|steps| - 1], choices[..|steps| - 1], poll)
  {
    hide Honest;
    var n := |steps| - 1;
    forall i | 0 <= i < n && Recorded(start, steps[..n], i) && steps[i].event.key.poll == poll
      ensures Honest(hash, MessagesAfter(start, steps[..n][..i])[poll].value, steps[i].event.ballot, choices[i])
    {
      assert steps[..n][..i] == steps[..i];
      assert Recorded(start, steps, i);
    }
  }

  lemma {:induction false} HandledIsReplayed(
      hash: Hash, start: Messages, steps: seq<Step>, choices: seq<seq<string>>, k: VoteKey)
    requires HonestOn(hash, start, steps, choices, k.poll)
    ensures var t, r := Play(hash, start, steps), Replay(VotesOf(start, steps, choices));
            (k in t <==> k in r) && (k in t ==> t[k] == r[k])
  {
    if steps != [] {
      var n := |steps| - 1;
      HonestBefore(hash, start, steps, choices, k.poll);
      HandledIsReplayed(hash, start, steps[..n], choices[..n], k);
      PlayStep(hash, start, steps, choices);
      if Recorded(start, steps, n) && steps[n].event.key == k {
        DecodeInvertsHash(hash, MessagesAfter(start, steps[..n])[k.poll].value, choices[n]);
      }
      hide Play, Replay, VotesOf, Decode, Hashed, InjectiveOn, MessagesAfter;
    }
  }

  lemma PlayStep(hash: Hash, start: Messages, steps: seq<Step>, choices: seq<seq<string>>)
    requires |steps| == |choices| > 0
    ensures var n := |steps| - 1;
            var t, r := Play(hash, start, steps[..n]), Replay(VotesOf(start, steps[..n], choices[..n]));
            if Recorded(start, steps, n) then
              var e, options := steps[n].event, MessagesAfter(start, steps[..n])[steps[n].event.key.poll].value;
              && Play(hash, start, steps)
              == Upsert(t, e.key, Row(Selection(Decode(hash, options, e.ballot)), Clamp(e.at, e.now)))
              && Replay(VotesOf(start, steps, choices))
              == Upsert(r, e.key, Row(Selection(choices[n]), Clamp(e.at, e.now)))
            else Play(hash, start, steps) == t && Replay(VotesOf(start, steps, choices)) == r
  {
    var n := |steps| - 1;
    var votes := VotesOf(start, steps[..n], choices[..n]);
    hide Decode, Upsert, MessagesAfter;
    if Recorded(start, steps, n) {
      assert (votes + [VoteOf(steps[n].event, choices[n])])[..|votes|] == votes;
    }
  }

  /** The voter's latest ballot on the poll marks o. */
  ghost predicate Backs(votes: seq<Vote>, poll: PollKey, o: string, k: VoteKey) {
    k.poll == poll && exists i :: IsLatest(votes, i) && votes[i].key == k && o in votes[i].selected
  }

  /**
    From hashed ballots to the published count: after any run of messages,
    options and ballots, honest on this poll, the tally of an option is the number
    of voters whose latest recorded ballot marks it, ballots dated ahead counting
    from when they were handled.
   */
  lemma EndToEndCount(
      hash: Hash, start: Messages, steps: seq<Step>, choices: seq<seq<string>>, poll: PollKey, o: string)
    requires HonestOn(hash, start, steps, choices, poll)
    ensures var t := Play(hash, start, steps);
            && Tally(t, poll, o) == |Supporters(t, poll, o)|
            && forall k :: k in Supporters(t, poll, o) <==> Backs(VotesOf(start, steps, choices), poll, o, k)
  {
    var votes := VotesOf(start, steps, choices);
    var t := Play(hash, start, steps);
    forall k
      ensures k in Supporters(t, poll, o) <==> Backs(votes, poll, o, k)
      ensures k in Supporters(t, poll, o) ==> Once(t[k].payload.options, o)
    {
      if k.poll == poll {
        SupportIsBacking(hash, start, steps, choices, k, o);
      }
    }
    TallyCountsVotersIff(t, poll, o);
  }

  lemma SupportIsBacking(
      hash: Hash, start: Messages, steps: seq<Step>, choices: seq<seq<string>>, k: VoteKey, o: string)
    requires HonestOn(hash, start, steps, choices, k.poll)
    ensures var t := Play(hash, start, steps);
            && (k in Supporters(t, k.poll, o) <==> Backs(VotesOf(start, steps, choices), k.poll, o, k))
            && (k in Supporters(t, k.poll, o) ==> Once(t[k].payload.options, o))
  {
    var votes := VotesOf(start, steps, choices);
    HandledIsReplayed(hash, start, steps, choices, k);
    hide Play, Replay, VotesOf, MessagesAfter;
    if k in Replay(votes) {
      var v := RowIsLatest(votes, k);
      var i := VoteOrigin(start, steps, choices, v);
      assert NoRepeats(choices[i]);
      if Backs(votes, k.poll, o, k) {
        var j :| IsLatest(votes, j) && votes[j].key == k && o in votes[j].selected;
        assert v == j;
      }
    } else {
      RowIffVoted(votes, k);
    }
  }

  /** Ballots that come before the options are known are lost: they are not recorded later. */
  lemma EarlyBallotIsLost(hash: Hash, k: VoteKey, ballot: seq<Digest>, at: int, now: int, options: seq<string>)
    ensures Play(hash, map[], [BallotArrived(Event(k, ballot, at, now)), MessageStored(k.poll, false),
                               OptionsStored(k.poll, options)]) == map[]
  {
    var a, b := BallotArrived(Event(k, ballot, at, now)), MessageStored(k.poll, false);
    var c := OptionsStored(k.poll, options);
    assert [a, b, c][..2] == [a, b] && [a, b][..1] == [a] && [a][..0] == [];
    assert MessagesAfter(map[], []) == map[] && Play(hash, map[], []) == map[];
    assert Play(hash, map[], [a]) == map[];
  }

  /** Without that honesty the count is off: one voter who marks an option twice is counted twice. */
  lemma RepeatedMarkCountsTwice(hash: Hash, k: VoteKey, o: string)
    requires Storable(k)
    ensures var t := Play(hash, map[k.poll := Some([o])], [BallotArrived(Event(k, [hash(o), hash(o)], 0, 0))]);
            Tally(t, k.poll, o) == 2 && Supporters(t, k.poll, o) == {k}
  {
    var e := BallotArrived(Event(k, [hash(o), hash(o)], 0, 0));
    var messages: Messages := map[k.poll := Some([o])];
    DecodeTwice(hash, o);
    assert [e][..0] == [];
    assert Play(hash, messages, []) == map[] && MessagesAfter(messages, []) == messages;
    var t := Play(hash, messages, [e]);
    assert t == map[k := Row(Selection([o, o]), 0)];
    assert Voters(t, k.poll) == {k};
    assert Marks(t, {k}, o) == {(k, 0), (k, 1)};
  }

  lemma DecodeTwice(hash: Hash, o: string)
    ensures Decode(hash, [o], [hash(o), hash(o)]) == [o, o]
  {
    var d := hash(o);
    assert OptionFor(hash, [o], d) == Some(o);
    assert [d, d][..1] == [d] && [d][..0] == [];
    assert Decode(hash, [o], []) == [];
    assert Decode(hash, [o], [d]) == [o];
  }

  /** A voter has a row exactly when a ballot with complete keys came while the poll's options were known. */
  lemma {:induction false} RowIffRecorded(hash: Hash, start: Messages, steps: seq<Step>, k: VoteKey)
    ensures k in Play(hash, start, steps) <==>
              && k.poll.id != "" && k.poll.chat != "" && k.voter != ""
              && exists i :: 0 <= i < |steps| && BallotWhileKnown(start, steps, k, i)
  {
    if steps != [] {
      var n := |steps| - 1;
      RowIffRecorded(hash, start, steps[..n], k);
      forall i | 0 <= i < n
        ensures BallotWhileKnown(start, steps, k, i) <==> BallotWhileKnown(start, steps[..n], k, i)
      {
        assert steps[..n][..i] == steps[..i];
      }
      hide MessagesAfter, Decode;
      assert BallotWhileKnown(start, steps, k, n) ==>
          exists i :: 0 <= i < |steps| && BallotWhileKnown(start, steps, k, i);
    }
  }

  predicate BallotWhileKnown(start: Messages, steps: seq<Step>, k: VoteKey, i: nat)
    requires i < |steps|
  {
    var messages := MessagesAfter(start, steps[..i]);
    && steps[i].BallotArrived? && steps[i].event.key == k
    && k.poll in messages && messages[k.poll].Some?
  }

  /** A digest no option has adds nothing, wherever it stands on the ballot. */
  lemma {:induction false} UnknownMarkIsDropped(
      hash: Hash, options: seq<string>, before: seq<Digest>, d: Digest, after: seq<Digest>)
    requires forall i :: 0 <= i < |options| ==> hash(options[i]) != d
    ensures Decode(hash, options, before + [d] + after) == Decode(hash, options, before + after)
  {
    if after == [] {
      assert before + [d] + after == before + [d] && before + after == before;
      DecodeStep(hash, options, before, d);
    } else {
      var n := |after| - 1;
      UnknownMarkIsDropped(hash, options, before, d, after[..n]);
      assert before + [d] + after == (before + [d] + after[..n]) + [after[n]];
      assert before + after == (before + after[..n]) + [after[n]];
      DecodeStep(hash, options, before + [d] + after[..n], after[n]);
      DecodeStep(hash, options, before + after[..n], after[n]);
    }
  }

  lemma DecodeStep(hash: Hash, options: seq<string>, ballot: seq<Digest>, d: Digest)
    ensures Decode(hash, options, ballot + [d])
         == Decode(hash, options, ballot)
          + match OptionFor(hash, options, d) { case Some(o) => [o] case None => [] }
  {
    hide OptionFor;
    assert (ballot + [d])[..|ballot|] == ballot;
  }

  // ------------------------------------------------------------------ the clamp

  /** No stored time is ahead of the clock, whatever times ballots claim. */
  lemma {:induction false} StoredNotAheadOfClock(hash: Hash, start: Messages, steps: seq<Step>, now: int)
    requires forall i :: 0 <= i < |steps| && steps[i].BallotArrived? ==> steps[i].event.now <= now
    ensures forall k :: k in Play(hash, start, steps) ==> Play(hash, start, steps)[k].at <= now
  {
    if steps != [] {
      StoredNotAheadOfClock(hash, start, steps[..|steps| - 1], now);
    }
  }

  /** So no earlier ballot, however far ahead it is dated, can shut out one dated since it was handled. */
  lemma FutureDatesDoNotSuppress(hash: Hash, start: Messages, steps: seq<Step>, e: Event)
    requires Storable(e.key) && Known(MessagesAfter(start, steps), e.key.poll) && e.at <= e.now
    requires forall i :: 0 <= i < |steps| && steps[i].BallotArrived? ==> steps[i].event.now <= e.at
    ensures Play(hash, start, steps + [BallotArrived(e)])[e.key]
         == Row(Selection(Decode(hash, MessagesAfter(start, steps)[e.key.poll].value, e.ballot)), e.at)
  {
    StoredNotAheadOfClock(hash, start, steps, e.at);
    assert (steps + [BallotArrived(e)])[..|steps|] == steps;
  }

  /** A ballot dated ahead of the clock counts as cast when it was handled. */
  lemma AheadCountsAsNow(hash: Hash, start: Messages, steps: seq<Step>, e: Event)
    requires Storable(e.key) && Known(MessagesAfter(start, steps), e.key.poll) && e.at > e.now
    requires forall i :: 0 <= i < |steps| && steps[i].BallotArrived? ==> steps[i].event.now <= e.now
    ensures Play(hash, start, steps + [BallotArrived(e)])[e.key]
         == Row(Selection(Decode(hash, MessagesAfter(start, steps)[e.key.poll].value, e.ballot)), e.now)
  {
    StoredNotAheadOfClock(hash, start, steps, e.now);
    assert (steps + [BallotArrived(e)])[..|steps|] == steps;
  }
}

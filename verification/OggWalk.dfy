/**
  The walk over Ogg pages that yields a voice message's duration, checked
  against the page format of section 6 of RFC 3533.
 */
module OggWalk {
  import opened Sequences

  const OGGS: Bytes := [0x4F, 0x67, 0x67, 0x53]
  const OPUS_HEAD: Bytes := [0x4F, 0x70, 0x75, 0x73, 0x48, 0x65, 0x61, 0x64]
  const U32: int := 0x1_0000_0000
  const U64: int := 0x1_0000_0000_0000_0000

  /** Little-endian value. */
  function LE(bs: Bytes): nat {
    if bs == [] then 0 else bs[0] + 256 * LE(bs[1..])
  }

  function Sum(bs: Bytes): nat {
    if bs == [] then 0 else bs[0] + Sum(bs[1..])
  }

  predicate At(hay: Bytes, needle: Bytes, k: nat) {
    k + |needle| <= |hay| && hay[k..k + |needle|] == needle
  }

  /** The first occurrence at or after from. */
  function Find(hay: Bytes, needle: Bytes, from: nat): (r: Option<nat>)
    ensures r.Some? ==> from <= r.value && At(hay, needle, r.value)
    ensures r.Some? ==> forall k: nat :: from <= k < r.value ==> !At(hay, needle, k)
    ensures r.None? ==> forall k: nat :: from <= k ==> !At(hay, needle, k)
    decreases |hay| - from
  {
    if from > |hay| then None
    else if At(hay, needle, from) then Some(from)
    else Find(hay, needle, from + 1)
  }

  // ------------------------------------------------------------------- the walk

  /** What the loop carries; `pages` lists the positions taken as page starts. */
  datatype State = State(last: nat, preSkip: nat, rate: nat, found: bool, pages: seq<nat>)

  const START := State(0, 0, 48000, false, [])

  /** OutOfRange: a slice reaches past the data, where the program's behaviour depends on spare capacity. */
  datatype Walked = OutOfRange | Done(state: State)

  function PageSize(data: Bytes, i: nat): nat
    requires i + 27 < |data| && i + 27 + data[i + 26] < |data|
  {
    27 + data[i + 26] + Sum(data[i + 27..i + 27 + data[i + 26]])
  }

  /**
    The header fields as the loop picks them up on the page data[i..i + size].
    The rate is bounded by the data and not by the page, so it may be completed
    from the page after; None when it passes the data too.
   */
  function ReadHead(data: Bytes, i: nat, size: nat, st: State): Option<State>
    requires i + size <= |data|
  {
    var head := Find(data[i..i + size], OPUS_HEAD, 0);
    if head.None? || head.value + 12 >= size then Some(st)
    else
      var at := head.value + 8;
      if at + 12 > size then Some(st)
      else if i + at + 16 > |data| then None
      else Some(st.(preSkip := LE(data[i + at + 10..i + at + 12]), rate := LE(data[i + at + 12..i + at + 16]),
                    found := true))
  }

  /** One turn of the loop: leave it, fault, or go on from a later position. */
  datatype Turn = Stop | Fault | Next(i: nat, st: State)

  function Turned(data: Bytes, i: nat, st: State): (t: Turn)
    ensures t.Next? ==> i < t.i
  {
    if i + 27 >= |data| then Stop
    else if data[i..i + 4] != OGGS then Next(i + 1, st)
    else if i + 27 + data[i + 26] >= |data| then Stop
    else
      var size := PageSize(data, i);
      var looks := !st.found && LE(data[i + 18..i + 22]) <= 1;
      if looks && i + size > |data| then Fault
      else
        var headed := if looks then ReadHead(data, i, size, st) else Some(st);
        if headed.None? then Fault
        else
          var granule := LE(data[i + 6..i + 14]);
          Next(i + size, headed.value.(last := if granule != 0 then granule else headed.value.last,
                                       pages := headed.value.pages + [i]))
  }

  function Walk(data: Bytes, i: nat, st: State): Walked
    decreases |data| - i
  {
    match Turned(data, i, st)
    case Stop => Done(st)
    case Fault => OutOfRange
    case Next(i', st') => if i' > |data| then Done(st') else Walk(data, i', st')
  }

  /** Unspecified: the seconds do not fit the 32-bit conversion, or the rate read is zero. */
  datatype Analysis = NotOgg | Faulty | Unspecified | Duration(seconds: nat)

  function CeilDiv(x: nat, y: nat): nat
    requires y > 0
  {
    (x + y - 1) / y
  }

  function Clamped(seconds: nat): nat {
    if seconds < 1 then 1 else if seconds > 300 then 300 else seconds
  }

  function Judge(st: State, length: nat): Analysis {
    if st.last > 0 && st.rate == 0 then Unspecified
    else
      var seconds := if st.last > 0 then CeilDiv((st.last - st.preSkip) % U64, st.rate) else length / 2000;
      if seconds >= U32 then Unspecified else Duration(Clamped(seconds))
  }

  function Analyze(data: Bytes): Analysis {
    if !(OGGS <= data) then NotOgg
    else match Walk(data, 0, START)
      case OutOfRange => Faulty
      case Done(st) => Judge(st, |data|)
  }

  /** The loop, on any bytes at all. */
  method AnalyzeOggOpus(data: Bytes) returns (r: Analysis)
    ensures r == Analyze(data)
  {
    if |data| < 4 || data[0..4] != OGGS {
      return NotOgg;
    }
    hide Turned, Judge;
    var st := START;
    var i := 0;
    while i < |data|
      invariant Walk(data, 0, START) == if i > |data| then Done(st) else Walk(data, i, st)
      decreases |data| - i
    {
      var turn := TakeTurn(data, i, st);
      match turn {
        case Stop => break;
        case Fault => return Faulty;
        case Next(i', st') => i, st := i', st';
      }
    }
    AtEnd(data, i, st);
    r := Judge(st, |data|);
  }

  lemma AtEnd(data: Bytes, i: nat, st: State)
    ensures i >= |data| ==> Turned(data, i, st) == Stop
  {
  }

  /** The loop body. */
  method TakeTurn(data: Bytes, i: nat, st: State) returns (t: Turn)
    requires i < |data|
    ensures t == Turned(data, i, st)
  {
    hide LE, Sum, ReadHead;
    if i + 27 >= |data| {
      return Stop;
    }
    if data[i..i + 4] != OGGS {
      return Next(i + 1, st);
    }
    var granule := LE(data[i + 6..i + 14]);
    var pageSeqNum := LE(data[i + 18..i + 22]);
    var numSegments := data[i + 26];
    if i + 27 + numSegments >= |data| {
      return Stop;
    }
    var pageSize := SumSegments(data, i + 27, numSegments);
    var next := st;
    if !st.found && pageSeqNum <= 1 {
      if i + pageSize > |data| {
        return Fault;
      }
      var headed := ReadHead(data, i, pageSize, st);
      if headed.None? {
        return Fault;
      }
      next := headed.value;
    }
    if granule != 0 {
      next := next.(last := granule);
    }
    next := next.(pages := next.pages + [i]);
    t := Next(i + pageSize, next);
  }

  method SumSegments(data: Bytes, at: nat, n: nat) returns (pageSize: nat)
    requires at + n <= |data|
    ensures pageSize == 27 + n + Sum(data[at..at + n])
  {
    pageSize := 27 + n;
    for k := 0 to n
      invariant pageSize + Sum(data[at + k..at + n]) == 27 + n + Sum(data[at..at + n])
    {
      pageSize := pageSize + data[at + k];
      assert data[at + k..at + n][1..] == data[at + k + 1..at + n];
    }
  }

  // ------------------------------------------------------------------ the format

  function Pow256(n: nat): nat {
    if n == 0 then 1 else 256 * Pow256(n - 1)
  }

  function ToLE(x: nat, n: nat): (bs: Bytes)
    ensures |bs| == n
  {
    if n == 0 then [] else [x % 256] + ToLE(x / 256, n - 1)
  }

  lemma {:induction false} LEInverts(x: nat, n: nat)
    requires x < Pow256(n)
    ensures LE(ToLE(x, n)) == x
  {
    if n > 0 {
      LEInverts(x / 256, n - 1);
      assert ToLE(x, n)[1..] == ToLE(x / 256, n - 1);
    }
  }

  datatype Page = Page(
    version: Byte, flags: Byte, granule: nat, serial: Bytes, seqNum: nat, checksum: Bytes,
    lacing: Bytes, payload: Bytes)
  {
    predicate Valid() {
      && granule < Pow256(8) && seqNum < Pow256(4) && |serial| == 4 && |checksum| == 4
      && |lacing| < 256 && |payload| == Sum(lacing)
    }

    function Header(): (h: Bytes)
      requires Valid()
      ensures |h| == 27 + |lacing|
    {
      OGGS + [version, flags] + ToLE(granule, 8) + serial + ToLE(seqNum, 4) + checksum + [|lacing|] + lacing
    }

    function Encode(): (b: Bytes)
      requires Valid()
      ensures |b| == 27 + |lacing| + |payload|
    {
      Header() + payload
    }
  }

  predicate AllValid(pages: seq<Page>) {
    forall k :: 0 <= k < |pages| ==> pages[k].Valid()
  }

  function EncodeAll(pages: seq<Page>): (b: Bytes)
    requires AllValid(pages)
    ensures pages != [] ==> |b| >= 27
  {
    if pages == [] then [] else pages[0].Encode() + EncodeAll(pages[1..])
  }

  /** Where each page begins when the first begins at i. */
  function Starts(pages: seq<Page>, i: nat): seq<nat>
    requires AllValid(pages)
  {
    if pages == [] then [] else [i] + Starts(pages[1..], i + |pages[0].Encode()|)
  }

  /** The last granule position that is not zero, or the given one. */
  function LastGranule(pages: seq<Page>, otherwise: nat): nat {
    if pages == [] then otherwise
    else LastGranule(pages[1..], if pages[0].granule != 0 then pages[0].granule else otherwise)
  }

  lemma HeaderFields(p: Page)
    requires p.Valid()
    ensures var h := p.Header();
            && h[..4] == OGGS && h[6..14] == ToLE(p.granule, 8) && h[18..22] == ToLE(p.seqNum, 4)
            && h[26] == |p.lacing| && h[27..] == p.lacing
  {
  }

  /** The fields the loop reads off data at i are those of the page encoded there. */
  lemma FieldsAt(data: Bytes, i: nat, p: Page, rest: Bytes)
    requires p.Valid() && i <= |data| && data[i..] == p.Encode() + rest
    ensures i + |p.Encode()| + |rest| == |data| && data[i..i + |p.Encode()|] == p.Encode()
    ensures data[i..i + 4] == OGGS && data[i + 26] == |p.lacing|
    ensures LE(data[i + 6..i + 14]) == p.granule && LE(data[i + 18..i + 22]) == p.seqNum
    ensures data[i + 27..i + 27 + |p.lacing|] == p.lacing
    ensures data[i + |p.Encode()|..] == rest
  {
    LEInverts(p.granule, 8);
    LEInverts(p.seqNum, 4);
    HeaderFields(p);
    var e, h := p.Encode(), p.Header();
    assert e[..|h|] == h && |h| == 27 + |p.lacing|;
    hide Page.Header, Page.Encode, ToLE, LE;
    SliceAt(data, i, e, rest, 0, |e|);
    SliceAt(data, i, e, rest, 0, |h|);
    HeaderAt(data, i, h);
    assert data[i + |e|..] == (e + rest)[|e|..] == rest;
  }

  lemma SliceAt(data: Bytes, i: nat, e: Bytes, rest: Bytes, lo: nat, hi: nat)
    requires i <= |data| && data[i..] == e + rest && lo <= hi <= |e|
    ensures i + |e| + |rest| == |data| && data[i + lo..i + hi] == e[lo..hi]
  {
    assert |data[i..]| == |e| + |rest|;
    forall k | lo <= k < hi
      ensures data[i + k] == e[k]
    {
      assert data[i..][k] == (e + rest)[k];
    }
  }

  lemma HeaderAt(data: Bytes, i: nat, h: Bytes)
    requires |h| >= 27 && i + |h| <= |data| && data[i..i + |h|] == h
    ensures data[i..i + 4] == h[..4] && data[i + 26] == h[26]
    ensures data[i + 6..i + 14] == h[6..14] && data[i + 18..i + 22] == h[18..22]
    ensures data[i + 27..i + |h|] == h[27..]
  {
    forall k | 0 <= k < |h|
      ensures data[i + k] == h[k]
    {
      assert data[i..i + |h|][k] == h[k];
    }
  }

  /** Too near the end of its page for the loop to read fields from it, or not there at all. */
  ghost predicate HeadIgnored(page: Bytes) {
    var head := Find(page, OPUS_HEAD, 0);
    head.None? || head.value + 20 > |page|
  }

  /** Only the first two pages are looked at for the codec header, and it is ignored there. */
  ghost predicate HeadsIgnored(pages: seq<Page>)
    requires AllValid(pages)
  {
    forall k :: 0 <= k < |pages| && pages[k].seqNum <= 1 ==> HeadIgnored(pages[k].Encode())
  }

  /** The pages the loop takes: all, unless the last carries no payload and is cut off. */
  function Taken(pages: seq<Page>): seq<Page> {
    if pages != [] && pages[|pages| - 1].payload == [] then pages[..|pages| - 1] else pages
  }

  /** "OggS" stands at k. */
  predicate CapturesAt(data: Bytes, k: nat)
    requires k + 4 <= |data|
  {
    data[k] == 0x4F && data[k + 1] == 0x67 && data[k + 2] == 0x67 && data[k + 3] == 0x53
  }

  /** Bytes that start no capture pattern are skipped one by one to the next that do. */
  lemma {:induction false} JunkIsSkipped(data: Bytes, i: nat, j: nat, st: State)
    requires i <= j && j + 27 < |data| && forall k :: i <= k < j ==> !CapturesAt(data, k)
    ensures Walk(data, i, st) == Walk(data, j, st)
    decreases j - i
  {
    if i < j {
      JunkIsSkipped(data, i + 1, j, st);
      assert data[i..i + 4] == OGGS ==> CapturesAt(data, i) by {
        assert data[i..i + 4][0] == data[i] && data[i..i + 4][1] == data[i + 1];
        assert data[i..i + 4][2] == data[i + 2] && data[i..i + 4][3] == data[i + 3];
      }
      WalkGoesOn(data, i, st, i + 1, st);
    }
  }

  /** Anything that does not begin with the capture pattern is refused, and nothing else is. */
  lemma RefusedIffNotOgg(data: Bytes)
    ensures Analyze(data) == NotOgg <==> |data| < 4 || data[..4] != [0x4F, 0x67, 0x67, 0x53]
  {
    hide Walk;
  }

  /** One turn, from the fields alone; headed is the state once a header has been looked for. */
  lemma TurnByFields(
      data: Bytes, i: nat, st: State, headed: State, lacing: Bytes, size: nat, granule: nat, seqNum: nat)
    requires i + 27 + |lacing| < |data| && data[i..i + 4] == OGGS && data[i + 26] == |lacing|
    requires data[i + 27..i + 27 + |lacing|] == lacing && size == 27 + |lacing| + Sum(lacing)
    requires LE(data[i + 6..i + 14]) == granule && LE(data[i + 18..i + 22]) == seqNum
    requires !st.found && seqNum <= 1 ==> i + size <= |data|
    requires if !st.found && seqNum <= 1 then ReadHead(data, i, size, st) == Some(headed) else headed == st
    ensures Turned(data, i, st)
         == Next(i + size, headed.(last := if granule != 0 then granule else headed.last, pages := headed.pages + [i]))
  {
    hide LE, Sum, ReadHead;
  }

  /** One turn of the loop at a page start consumes exactly that page. */
  lemma TurnOnePage(data: Bytes, i: nat, p: Page, rest: Bytes, st: State)
    requires p.Valid() && i <= |data| && data[i..] == p.Encode() + rest && p.payload + rest != []
    requires st.found || p.seqNum > 1 || HeadIgnored(p.Encode())
    ensures Turned(data, i, st)
         == Next(i + |p.Encode()|, st.(last := if p.granule != 0 then p.granule else st.last, pages := st.pages + [i]))
  {
    hide *;
    FieldsAt(data, i, p, rest);
    EncodedSize(p);
    assert |p.payload + rest| > 0;
    if !st.found && p.seqNum <= 1 {
      IgnoredReadsNothing(data, i, |p.Encode()|, st);
    }
    TurnByFields(data, i, st, st, p.lacing, |p.Encode()|, p.granule, p.seqNum);
  }

  /** The state after a header at head on the page at i has been read. */
  function Headed(data: Bytes, i: nat, head: nat, st: State): State
    requires i + head + 24 <= |data|
  {
    State(st.last, LE(data[i + head + 18..i + head + 20]), LE(data[i + head + 20..i + head + 24]), true, st.pages)
  }

  /** Where the codec header can be read, the turn also picks up its pre-skip and rate fields. */
  lemma TurnHeadPage(data: Bytes, i: nat, p: Page, rest: Bytes, head: nat, st: State)
    requires p.Valid() && i <= |data| && data[i..] == p.Encode() + rest && p.payload != [] && p.seqNum <= 1 && !st.found
    requires Find(p.Encode(), OPUS_HEAD, 0) == Some(head) && head + 20 <= |p.Encode()| && i + head + 24 <= |data|
    ensures var headed := Headed(data, i, head, st);
            Turned(data, i, st)
            == Next(i + |p.Encode()|, headed.(last := if p.granule != 0 then p.granule else headed.last,
                                              pages := headed.pages + [i]))
  {
    hide *;
    FieldsAt(data, i, p, rest);
    EncodedSize(p);
    HeadRead(data, i, |p.Encode()|, head, st);
    TurnByFields(data, i, st, Headed(data, i, head, st), p.lacing, |p.Encode()|, p.granule, p.seqNum);
  }

  lemma IgnoredReadsNothing(data: Bytes, i: nat, size: nat, st: State)
    requires i + size <= |data| && HeadIgnored(data[i..i + size])
    ensures ReadHead(data, i, size, st) == Some(st)
  {
  }

  lemma SliceOf(data: Bytes, i: nat, whole: Bytes, lo: nat, hi: nat)
    requires i <= |data| && data[i..] == whole && lo <= hi <= |whole|
    ensures i + |whole| == |data| && data[i + lo..i + hi] == whole[lo..hi]
  {
    forall k | lo <= k < hi
      ensures data[i + k] == whole[k]
    {
      assert data[i..][k] == whole[k];
    }
  }

  lemma HeadRead(data: Bytes, i: nat, size: nat, head: nat, st: State)
    requires i + size <= |data| && Find(data[i..i + size], OPUS_HEAD, 0) == Some(head)
    requires head + 20 <= size && i + head + 24 <= |data|
    ensures ReadHead(data, i, size, st) == Some(Headed(data, i, head, st))
  {
    hide LE, Find;
  }

  /** A header cut short by its page takes the missing bytes of its rate from the page that follows. */
  lemma RateCrossesPage(data: Bytes, i: nat, page: Bytes, rest: Bytes, head: nat, st: State)
    requires i <= |data| && data[i..] == page + rest && Find(page, OPUS_HEAD, 0) == Some(head)
    requires head + 20 <= |page| < head + 24 <= |page + rest|
    ensures i + |page| <= |data|
    ensures ReadHead(data, i, |page|, st)
         == Some(State(st.last, LE((page + rest)[head + 18..head + 20]), LE((page + rest)[head + 20..head + 24]),
                       true, st.pages))
  {
    hide *;
    SliceOf(data, i, page + rest, 0, |page|);
    assert (page + rest)[0..|page|] == page;
    SliceOf(data, i, page + rest, head + 18, head + 20);
    SliceOf(data, i, page + rest, head + 20, head + 24);
    HeadRead(data, i, |page|, head, st);
    HeadedIs(data, i, head, st);
  }

  lemma HeadedIs(data: Bytes, i: nat, head: nat, st: State)
    requires i + head + 24 <= |data|
    ensures Headed(data, i, head, st)
         == State(st.last, LE(data[i + head + 18..i + head + 20]), LE(data[i + head + 20..i + head + 24]),
                  true, st.pages)
  {
  }

  /** The loop leaves at a page that ends the data without payload. */
  lemma TurnAtEmptyEnd(data: Bytes, i: nat, p: Page, st: State)
    requires p.Valid() && i <= |data| && data[i..] == p.Encode() && p.payload == []
    ensures Turned(data, i, st) == Stop
  {
    assert data[i..] == p.Encode() + [];
    FieldsAt(data, i, p, []);
    EncodedSize(p);
  }

  lemma EncodedSize(p: Page)
    requires p.Valid()
    ensures |p.Encode()| == 27 + |p.lacing| + |p.payload| == 27 + |p.lacing| + Sum(p.lacing)
  {
  }

  lemma {:induction false} WalkPages(data: Bytes, i: nat, pages: seq<Page>, st: State)
    requires AllValid(pages) && (st.found || HeadsIgnored(pages))
    requires i <= |data| && data[i..] == EncodeAll(pages)
    ensures Walk(data, i, st)
         == Done(st.(last := LastGranule(Taken(pages), st.last), pages := st.pages + Starts(Taken(pages), i)))
    decreases |pages|
  {
    hide Turned, Walk, Page.Encode, HeadIgnored, Taken, Starts, LastGranule;
    if pages == [] {
      assert |data[i..]| == 0;
      AtEnd(data, i, st);
      WalkStops(data, i, st);
      TakenNone(i, st.last);
    } else {
      var p, rest := pages[0], pages[1..];
      assert data[i..] == p.Encode() + EncodeAll(rest);
      if rest == [] && p.payload == [] {
        TurnAtEmptyEnd(data, i, p, st);
        WalkStops(data, i, st);
        TakenNone(i, st.last);
        assert Taken(pages) == [] by {
          OnlyEmpty(pages);
        }
      } else {
        assert st.found || HeadsIgnored(rest);
        TurnOnePage(data, i, p, EncodeAll(rest), st);
        FieldsAt(data, i, p, EncodeAll(rest));
        var st' := st.(last := if p.granule != 0 then p.granule else st.last, pages := st.pages + [i]);
        WalkGoesOn(data, i, st, i + |p.Encode()|, st');
        WalkPages(data, i + |p.Encode()|, rest, st');
        Accumulate(pages, i, st.last);
        var starts := Starts(Taken(rest), i + |p.Encode()|);
        assert st.pages + ([i] + starts) == st'.pages + starts;
      }
    }
  }

  lemma WalkStops(data: Bytes, i: nat, st: State)
    requires Turned(data, i, st) == Stop
    ensures Walk(data, i, st) == Done(st) && st == st.(pages := st.pages + [])
  {
    assert st.pages + [] == st.pages;
  }

  lemma WalkGoesOn(data: Bytes, i: nat, st: State, i': nat, st': State)
    requires Turned(data, i, st) == Next(i', st') && i' <= |data|
    ensures Walk(data, i, st) == Walk(data, i', st')
  {
  }

  lemma TakenNone(i: nat, last: nat)
    ensures Taken([]) == [] && Starts([], i) == [] && LastGranule([], last) == last
  {
  }

  lemma OnlyEmpty(pages: seq<Page>)
    requires |pages| == 1 && pages[0].payload == []
    ensures Taken(pages) == []
  {
  }

  lemma Accumulate(pages: seq<Page>, i: nat, last: nat)
    requires AllValid(pages) && pages != [] && (pages[1..] != [] || pages[0].payload != [])
    ensures AllValid(Taken(pages)) && AllValid(Taken(pages[1..]))
    ensures Starts(Taken(pages), i) == [i] + Starts(Taken(pages[1..]), i + |pages[0].Encode()|)
    ensures LastGranule(Taken(pages), last)
         == LastGranule(Taken(pages[1..]), if pages[0].granule != 0 then pages[0].granule else last)
  {
    TakenRest(pages);
    hide Taken, Page.Encode;
  }

  lemma TakenRest(pages: seq<Page>)
    requires AllValid(pages) && pages != [] && (pages[1..] != [] || pages[0].payload != [])
    ensures Taken(pages) != [] && Taken(pages)[0] == pages[0] && Taken(pages)[1..] == Taken(pages[1..])
    ensures AllValid(Taken(pages)) && AllValid(Taken(pages[1..]))
  {
  }

  /**
    On every concatenation of well-formed pages the walk visits exactly the page
    starts and the duration comes from the last non-zero granule at 48 kHz, or
    from the length when there is none. A final page without payload is missed.
   */
  lemma WellFormedDuration(pages: seq<Page>)
    requires AllValid(pages) && pages != [] && HeadsIgnored(pages)
    ensures var data, last := EncodeAll(pages), LastGranule(Taken(pages), 0);
            && (Walk(data, 0, START).Done? && Walk(data, 0, START).state.pages == Starts(Taken(pages), 0))
            && (0 < last <= 48000 * (U32 - 1) ==> Analyze(data) == Duration(Clamped(CeilDiv(last, 48000))))
            && (last == 0 && |data| / 2000 < U32 ==> Analyze(data) == Duration(Clamped(|data| / 2000)))
  {
    var data, last := EncodeAll(pages), LastGranule(Taken(pages), 0);
    assert data[0..] == data;
    WalkPages(data, 0, pages, START);
    assert data[0..] == pages[0].Encode() + EncodeAll(pages[1..]);
    FieldsAt(data, 0, pages[0], EncodeAll(pages[1..]));
    assert OGGS <= data;
    LastGranuleBound(Taken(pages), 0);
    Pow256Eight();
    JudgePlain(last, Starts(Taken(pages), 0), |data|);
    hide Judge, EncodeAll, Page.Encode, Starts, Taken, LastGranule;
    assert Walk(data, 0, START) == Done(State(last, 0, 48000, false, [] + Starts(Taken(pages), 0)));
  }

  lemma JudgePlain(last: nat, pages: seq<nat>, length: nat)
    requires last < U64
    ensures [] + pages == pages
    ensures var st := State(last, 0, 48000, false, pages);
            && (0 < last <= 48000 * (U32 - 1) ==> Judge(st, length) == Duration(Clamped(CeilDiv(last, 48000))))
            && (last == 0 && length / 2000 < U32 ==> Judge(st, length) == Duration(Clamped(length / 2000)))
  {
  }

  /**
    Where the first page's codec header can be read, the pre-skip taken off and
    the rate divided by are what its bytes 18 to 23 say, wherever they lie; a rate
    of zero divides by zero.
   */
  lemma HeadedDuration(pages: seq<Page>, head: nat)
    requires AllValid(pages) && pages != [] && pages[0].payload != [] && pages[0].seqNum <= 1
    requires Find(pages[0].Encode(), OPUS_HEAD, 0) == Some(head)
    requires head + 20 <= |pages[0].Encode()| && head + 24 <= |EncodeAll(pages)|
    ensures var data, last := EncodeAll(pages), LastGranule(Taken(pages), 0);
            var skip, rate := LE(data[head + 18..head + 20]), LE(data[head + 20..head + 24]);
            && Walk(data, 0, START) == Done(State(last, skip, rate, true, Starts(Taken(pages), 0)))
            && (last > 0 && rate == 0 ==> Analyze(data) == Unspecified)
            && (skip <= last && 0 < last && rate > 0 && last - skip <= rate * (U32 - 1) ==>
                  Analyze(data) == Duration(Clamped(CeilDiv(last - skip, rate))))
  {
    hide *;
    TakenValid(pages);
    var data, last, starts := EncodeAll(pages), LastGranule(Taken(pages), 0), Starts(Taken(pages), 0);
    var skip, rate := LE(data[head + 18..head + 20]), LE(data[head + 20..head + 24]);
    HeadedWalk(pages, head);
    LastGranuleFits(pages);
    JudgeHeaded(last, skip, rate, starts, |data|);
    AnalyzeWalked(data, State(last, skip, rate, true, starts));
  }

  lemma StartIs()
    ensures START == State(0, 0, 48000, false, [])
  {
  }

  lemma TakenValid(pages: seq<Page>)
    requires AllValid(pages)
    ensures AllValid(Taken(pages))
  {
  }

  lemma HeadedWalk(pages: seq<Page>, head: nat)
    requires AllValid(pages) && pages != [] && pages[0].payload != [] && pages[0].seqNum <= 1
    requires Find(pages[0].Encode(), OPUS_HEAD, 0) == Some(head)
    requires head + 20 <= |pages[0].Encode()| && head + 24 <= |EncodeAll(pages)|
    ensures var data := EncodeAll(pages);
            && OGGS <= data
            && Walk(data, 0, START)
            == Done(State(LastGranule(Taken(pages), 0), LE(data[head + 18..head + 20]), LE(data[head + 20..head + 24]),
                          true, Starts(Taken(pages), 0)))
  {
    hide *;
    var data, p, rest := EncodeAll(pages), pages[0], pages[1..];
    AllValidRest(pages);
    assert data[0..] == data;
    assert START.last == 0 && !START.found && START.pages == [] by {
      StartIs();
    }
    TurnHeadPage(data, 0, p, EncodeAll(rest), head, START);
    HeadedIs(data, 0, head, START);
    TakenValid(pages);
    TakenValid(rest);
    assert [] + [0] == [0];
    var st := State(p.granule, LE(data[head + 18..head + 20]), LE(data[head + 20..head + 24]), true, [0]);
    WalkGoesOn(data, 0, START, |p.Encode()|, st);
    assert data[|p.Encode()|..] == EncodeAll(rest);
    WalkPages(data, |p.Encode()|, rest, st);
    Accumulate(pages, 0, 0);
    BeginsAsOgg(data, p, EncodeAll(rest));
  }

  lemma AllValidRest(pages: seq<Page>)
    requires AllValid(pages) && pages != []
    ensures AllValid(pages[1..]) && pages[0].Valid()
    ensures EncodeAll(pages) == pages[0].Encode() + EncodeAll(pages[1..])
  {
  }

  lemma BeginsAsOgg(data: Bytes, p: Page, rest: Bytes)
    requires p.Valid() && data == p.Encode() + rest
    ensures OGGS <= data
  {
    assert data[0..] == data;
    FieldsAt(data, 0, p, rest);
  }

  lemma AnalyzeWalked(data: Bytes, st: State)
    requires OGGS <= data && Walk(data, 0, START) == Done(st)
    ensures Analyze(data) == Judge(st, |data|)
  {
  }

  lemma LastGranuleFits(pages: seq<Page>)
    requires AllValid(pages)
    ensures LastGranule(Taken(pages), 0) < U64
  {
    LastGranuleBound(Taken(pages), 0);
    Pow256Eight();
  }

  lemma JudgeHeaded(last: nat, skip: nat, rate: nat, pages: seq<nat>, length: nat)
    requires last < U64
    ensures var st := State(last, skip, rate, true, pages);
            && (last > 0 && rate == 0 ==> Judge(st, length) == Unspecified)
            && (skip <= last && 0 < last && rate > 0 && last - skip <= rate * (U32 - 1) ==>
                  Judge(st, length) == Duration(Clamped(CeilDiv(last - skip, rate))))
  {
    if skip <= last && 0 < last && rate > 0 && last - skip <= rate * (U32 - 1) {
      CeilDivFits(last - skip, rate, U32 - 1);
    }
  }

  lemma DivBounds(y: nat, rate: nat)
    requires rate > 0
    ensures y / rate * rate <= y < y / rate * rate + rate
  {
  }

  lemma CeilDivFits(x: nat, rate: nat, most: nat)
    requires rate > 0 && x <= rate * most
    ensures CeilDiv(x, rate) <= most
  {
    var q := CeilDiv(x, rate);
    DivBounds(x + rate - 1, rate);
    hide CeilDiv;
    assert (most + 1) * rate == rate * most + rate;
    if q > most {
      Scaled(most + 1, q, rate);
    }
  }

  /** The seconds announced: the fewest whole ones that cover the samples, at least 1 and at most 300. */
  lemma SecondsCover(samples: nat, rate: nat, seconds: nat)
    requires samples > 0 && rate > 0
    ensures seconds == Clamped(CeilDiv(samples, rate))
       <==> 1 <= seconds <= 300 && (seconds < 300 ==> samples <= seconds * rate) && (seconds - 1) * rate < samples
  {
    var q := CeilDiv(samples, rate);
    CeilIsLeast(samples, rate);
    if seconds > q {
      Scaled(q, seconds - 1, rate);
    } else {
      Scaled(seconds, q, rate);
      Scaled(seconds - 1, q - 1, rate);
      if seconds < q {
        Scaled(seconds, q - 1, rate);
      }
    }
  }

  lemma CeilIsLeast(x: nat, rate: nat)
    requires x > 0 && rate > 0
    ensures var q := CeilDiv(x, rate); q >= 1 && (q - 1) * rate < x <= q * rate
  {
    var q := CeilDiv(x, rate);
    DivBounds(x + rate - 1, rate);
    hide CeilDiv;
    assert (q - 1) * rate == q * rate - rate;
    assert q * rate > 0;
  }

  lemma Scaled(a: int, b: int, rate: nat)
    requires a <= b
    ensures a * rate <= b * rate
  {
  }

  /**
    On every concatenation of well-formed pages whose headers are ignored: the
    fewest whole seconds that hold the last granule position's samples at 48 kHz,
    or a second for every 2000 bytes if there is none, always 1 to 300.
   */
  lemma AnnouncedSeconds(pages: seq<Page>, seconds: nat)
    requires AllValid(pages) && pages != [] && HeadsIgnored(pages)
    ensures var data, last := EncodeAll(pages), LastGranule(Taken(pages), 0);
            && (0 < last <= 48000 * 0xFFFF_FFFF ==>
                  (Analyze(data) == Duration(seconds) <==>
                     && 1 <= seconds <= 300
                     && (seconds < 300 ==> last <= 48000 * seconds) && 48000 * (seconds - 1) < last))
            && (last == 0 && |data| / 2000 < U32 ==>
                  (Analyze(data) == Duration(seconds) <==>
                     && 1 <= seconds <= 300
                     && (seconds > 1 ==> 2000 * seconds <= |data|)
                     && (seconds < 300 ==> |data| < 2000 * (seconds + 1))))
  {
    assert 48000 * 0xFFFF_FFFF == 48000 * (U32 - 1);
    hide *;
    WellFormedDuration(pages);
    var data, last := EncodeAll(pages), LastGranule(Taken(pages), 0);
    if last > 0 {
      SecondsCover(last, 48000, seconds);
    }
    LengthSeconds(|data|, seconds);
  }

  lemma LengthSeconds(length: nat, seconds: nat)
    ensures seconds == Clamped(length / 2000)
       <==> && 1 <= seconds <= 300
            && (seconds > 1 ==> 2000 * seconds <= length) && (seconds < 300 ==> length < 2000 * (seconds + 1))
  {
  }

  lemma Pow256Eight()
    ensures Pow256(8) == U64
  {
    assert Pow256(4) == 256 * (256 * (256 * 256));
    assert Pow256(8) == 256 * (256 * (256 * (256 * Pow256(4))));
  }

  lemma {:induction false} LastGranuleBound(pages: seq<Page>, otherwise: nat)
    requires AllValid(pages) && otherwise < Pow256(8)
    ensures LastGranule(pages, otherwise) < Pow256(8)
  {
    if pages != [] {
      LastGranuleBound(pages[1..], if pages[0].granule != 0 then pages[0].granule else otherwise);
    }
  }

  /** The first page of a mapping-family-0 stream: one 19-byte OpusHead packet and nothing else. */
  predicate FamilyZeroHead(p: Page) {
    && p.Valid() && p.granule == 0 && p.seqNum == 0 && p.lacing == [19]
    && |p.payload| == 19 && OPUS_HEAD <= p.payload
  }

  /** That header is always ignored: its fields would start 20 bytes in, and the packet has 19. */
  lemma FamilyZeroIgnored(p: Page)
    requires FamilyZeroHead(p)
    ensures HeadIgnored(p.Encode())
  {
    var e := p.Encode();
    FamilyZeroBytes(p);
    hide Page.Encode, Page.Header, ToLE, At;
    forall k: nat | k < 28
      ensures !At(e, OPUS_HEAD, k)
    {
      NoEarlyHead(e, k);
    }
    assert At(e, OPUS_HEAD, 28);
  }

  /** The samples at 48 kHz to discard from the start, section 5.1 of RFC 7845. */
  function PreSkip(head: Page): nat
    requires FamilyZeroHead(head)
  {
    LE(head.payload[10..12])
  }

  /** The stream starts with a family-0 header, and the codec name is not on its other early pages. */
  ghost predicate FamilyZero(pages: seq<Page>) {
    && AllValid(pages) && pages != [] && FamilyZeroHead(pages[0])
    && forall k :: 1 <= k < |pages| && pages[k].seqNum <= 1 ==> Find(pages[k].Encode(), OPUS_HEAD, 0).None?
  }

  /** A family-0 stream whose other early pages do not mention the codec name is walked as WellFormedDuration says. */
  lemma FamilyZeroStream(pages: seq<Page>)
    requires FamilyZero(pages)
    ensures AllValid(pages) && pages != [] && HeadsIgnored(pages)
  {
    FamilyZeroIgnored(pages[0]);
  }

  lemma SkipCounts(last: nat, skip: nat)
    requires skip < last
    ensures Clamped(CeilDiv(last, 48000)) == Clamped(CeilDiv(last - skip, 48000))
       <==> (last - 1) % 48000 >= skip || last - skip > 299 * 48000
  {
  }

  /**
    The duration of a family-0 stream leaves its pre-skip in. It is the playing
    time, last granule less pre-skip, exactly when the pre-skip does not reach
    back over a whole second, or the clamp hides it.
   */
  lemma PreSkipMissed(pages: seq<Page>)
    requires FamilyZero(pages)
    requires PreSkip(pages[0]) < LastGranule(Taken(pages), 0) <= 48000 * (U32 - 1)
    ensures var last, skip := LastGranule(Taken(pages), 0), PreSkip(pages[0]);
            Analyze(EncodeAll(pages)) == Duration(Clamped(CeilDiv(last - skip, 48000)))
            <==> (last - 1) % 48000 >= skip || last - skip > 299 * 48000
  {
    hide Analyze, EncodeAll, Taken, LastGranule, LE, Walk, HeadsIgnored, HeadIgnored, Clamped, CeilDiv, Starts, Find;
    FamilyZeroStream(pages);
    WellFormedDuration(pages);
    SkipCounts(LastGranule(Taken(pages), 0), PreSkip(pages[0]));
  }

  const ZEROS: Bytes := [0, 0, 0, 0]
  const OPUS_TAGS: Bytes := [0x4F, 0x70, 0x75, 0x73, 0x54, 0x61, 0x67, 0x73]

  /** A mono header with the usual pre-skip of 312, the comment header, and a little over a second of audio. */
  function ShortStream(): seq<Page> {
    [Page(0, 2, 0, ZEROS, 0, ZEROS, [19], OPUS_HEAD + [1, 1, 56, 1, 0x80, 0xBB, 0, 0, 0, 0, 0]),
     Page(0, 0, 0, ZEROS, 1, ZEROS, [8], OPUS_TAGS),
     Page(0, 4, 48100, ZEROS, 2, ZEROS, [1], [0])]
  }

  lemma Sums()
    ensures Sum([19]) == 19 && Sum([8]) == 8 && Sum([1]) == 1
  {
    assert [19][1..] == [] && [8][1..] == [] && [1][1..] == [];
  }

  lemma Powers()
    ensures Pow256(4) == U32 && Pow256(8) == U64
  {
    Pow256Eight();
    assert Pow256(4) == 256 * (256 * (256 * 256));
  }

  lemma ShortStreamValid()
    ensures AllValid(ShortStream()) && FamilyZeroHead(ShortStream()[0]) && PreSkip(ShortStream()[0]) == 312
  {
    var s := ShortStream();
    Sums();
    Powers();
    hide Sum, Pow256;
    assert s[0].payload[10..12] == [56, 1] && [56, 1][1..] == [1] && [1][1..] == [];
  }

  /** The codec name has a letter the page does not. */
  lemma NoNameWithoutH(page: Bytes)
    requires 0x48 !in page
    ensures Find(page, OPUS_HEAD, 0).None?
  {
    forall k: nat
      ensures !At(page, OPUS_HEAD, k)
    {
      if k + 4 < |page| {
        assert page[k + 4] in page;
        Mismatch(page, OPUS_HEAD, k, 4);
      }
    }
  }

  lemma NotInBoth<T>(x: T, a: seq<T>, b: seq<T>)
    requires x !in a && x !in b
    ensures x !in a + b
  {
  }

  /** A page lacks a byte that none of its fields has. */
  lemma PageLacks(p: Page, b: Byte)
    requires p.Valid() && b !in OGGS && b != p.version && b != p.flags && b != |p.lacing|
    requires b !in ToLE(p.granule, 8) && b !in p.serial && b !in ToLE(p.seqNum, 4) && b !in p.checksum
    requires b !in p.lacing && b !in p.payload
    ensures b !in p.Encode()
  {
    hide ToLE;
    var h := OGGS + [p.version, p.flags];
    NotInBoth(b, OGGS, [p.version, p.flags]);
    NotInBoth(b, h, ToLE(p.granule, 8));
    NotInBoth(b, h + ToLE(p.granule, 8), p.serial);
    NotInBoth(b, h + ToLE(p.granule, 8) + p.serial, ToLE(p.seqNum, 4));
    NotInBoth(b, h + ToLE(p.granule, 8) + p.serial + ToLE(p.seqNum, 4), p.checksum);
    NotInBoth(b, h + ToLE(p.granule, 8) + p.serial + ToLE(p.seqNum, 4) + p.checksum, [|p.lacing|]);
    NotInBoth(b, h + ToLE(p.granule, 8) + p.serial + ToLE(p.seqNum, 4) + p.checksum + [|p.lacing|], p.lacing);
    NotInBoth(b, p.Header(), p.payload);
  }

  lemma TagsPageHasNoH()
    requires ShortStream()[1].Valid()
    ensures 0x48 !in ShortStream()[1].Encode()
  {
    assert ToLE(0, 4) == ZEROS;
    assert ToLE(0, 8) == ZEROS + ZEROS;
    assert ToLE(1, 4) == [1] + ToLE(0, 3) && ToLE(0, 3) == [0, 0, 0];
    hide ToLE, Page.Header, Page.Encode, Page.Valid;
    PageLacks(ShortStream()[1], 0x48);
  }

  lemma ShortStreamLast()
    ensures Taken(ShortStream()) == ShortStream() && LastGranule(ShortStream(), 0) == 48100
  {
    var s := ShortStream();
    assert s[1..] == [s[1], s[2]] && s[1..][1..] == [s[2]] && [s[2]][1..] == [];
  }

  /** A stream that plays for less than a second is announced as two. */
  lemma PreSkipWitness()
    ensures FamilyZero(ShortStream()) && PreSkip(ShortStream()[0]) == 312
    ensures Analyze(EncodeAll(ShortStream())) == Duration(2)
    ensures LastGranule(Taken(ShortStream()), 0) - 312 < 48000
  {
    ShortStreamValid();
    TagsPageHasNoH();
    NoNameWithoutH(ShortStream()[1].Encode());
    ShortStreamLast();
    FamilyZeroStream(ShortStream());
    WellFormedDuration(ShortStream());
    hide Analyze, EncodeAll, Taken, LastGranule;
    assert CeilDiv(48100, 48000) == 2;
  }

  /** Every page is taken exactly when the last one carries something. */
  lemma AllTakenIff(pages: seq<Page>)
    requires pages != []
    ensures Taken(pages) == pages <==> pages[|pages| - 1].payload != []
  {
  }

  lemma {:induction false} LastGranuleAppend(pages: seq<Page>, p: Page, otherwise: nat)
    ensures LastGranule(pages + [p], otherwise) == if p.granule != 0 then p.granule else LastGranule(pages, otherwise)
  {
    if pages == [] {
      assert pages + [p] == [p] && [p][1..] == [];
    } else {
      assert (pages + [p])[1..] == pages[1..] + [p];
      LastGranuleAppend(pages[1..], p, if pages[0].granule != 0 then pages[0].granule else otherwise);
    }
  }

  /** The last granule is the one used exactly when the last page carries something, or says nothing new. */
  lemma LastGranuleUsedIff(pages: seq<Page>)
    requires pages != []
    ensures var n := |pages| - 1;
            LastGranule(Taken(pages), 0) == LastGranule(pages, 0)
            <==> pages[n].payload != [] || pages[n].granule in {0, LastGranule(pages[..n], 0)}
  {
    var n := |pages| - 1;
    assert pages == pages[..n] + [pages[n]];
    LastGranuleAppend(pages[..n], pages[n], 0);
    hide LastGranule;
  }

  /** The short stream closed by an empty page that says it plays for three seconds. */
  function LateEnd(): seq<Page> {
    ShortStream() + [EndPage()]
  }

  function EndPage(): Page {
    Page(0, 4, 144000, ZEROS, 3, ZEROS, [], [])
  }

  /** It is still announced as two. */
  lemma EmptyEndWitness()
    ensures AllValid(LateEnd()) && FamilyZero(LateEnd()) && LastGranule(LateEnd(), 0) == 144000
    ensures Analyze(EncodeAll(LateEnd())) == Duration(2)
  {
    assert CeilDiv(48100, 48000) == 2 && Clamped(2) == 2;
    hide *;
    PreSkipWitness();
    ShortStreamLast();
    LateEndShape();
    FamilyZeroAppend(ShortStream(), EndPage());
    LastGranuleAppend(ShortStream(), EndPage(), 0);
    FamilyZeroStream(LateEnd());
    WellFormedDuration(LateEnd());
  }

  lemma LateEndShape()
    ensures LateEnd() == ShortStream() + [EndPage()] && Taken(LateEnd()) == ShortStream()
    ensures EndPage().Valid() && EndPage().seqNum == 3 && EndPage().granule == 144000
  {
    Powers();
    hide ShortStream, Pow256;
    assert LateEnd()[..|LateEnd()| - 1] == ShortStream();
  }

  lemma FamilyZeroAppend(pages: seq<Page>, p: Page)
    requires FamilyZero(pages) && p.Valid() && p.seqNum > 1
    ensures FamilyZero(pages + [p])
  {
    hide Page.Valid, Page.Encode, Find, FamilyZeroHead;
  }

  lemma FamilyZeroBytes(p: Page)
    requires FamilyZeroHead(p)
    ensures var e := p.Encode();
            && |e| == 47 && e[1] == 0x67 && e[2] == 0x67 && e[10] == 0 && e[18] == 0 && e[26] == 1 && e[27] == 19
            && e[28..36] == OPUS_HEAD
  {
    HeaderFields(p);
    assert Sum([19]) == 19 by {
      assert [19][1..] == [];
    }
    ToLEZero(8, 4);
    ToLEZero(4, 0);
    var h := p.Header();
    assert h[10] == h[6..14][4] && h[18] == h[18..22][0] && h[27] == h[27..][0];
    assert h[1] == h[..4][1] && h[2] == h[..4][2];
  }

  lemma {:induction false} ToLEZero(n: nat, k: nat)
    requires k < n
    ensures ToLE(0, n)[k] == 0
  {
    if k > 0 {
      ToLEZero(n - 1, k - 1);
    }
  }

  lemma Mismatch(hay: Bytes, needle: Bytes, k: nat, j: nat)
    requires j < |needle| && k + j < |hay| && hay[k + j] != needle[j]
    ensures !At(hay, needle, k)
  {
    assert k + |needle| <= |hay| ==> hay[k..k + |needle|][j] == hay[k + j];
  }

  lemma NoEarlyHead(e: Bytes, k: nat)
    requires |e| == 47 && e[1] == 0x67 && e[2] == 0x67 && e[10] == 0 && e[18] == 0 && e[26] == 1 && e[27] == 19
    requires k < 28
    ensures !At(e, OPUS_HEAD, k)
  {
    if k == 0 {
      Mismatch(e, OPUS_HEAD, k, 1);
    } else if k <= 2 {
      Mismatch(e, OPUS_HEAD, k, 0);
    } else if k <= 10 {
      Mismatch(e, OPUS_HEAD, k, 10 - k);
    } else if k <= 18 {
      Mismatch(e, OPUS_HEAD, k, 18 - k);
    } else if k <= 26 {
      Mismatch(e, OPUS_HEAD, k, 26 - k);
    } else {
      Mismatch(e, OPUS_HEAD, k, 0);
    }
  }
}

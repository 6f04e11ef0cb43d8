/**
  Downloading media through a cache of files: directory entries point to inodes,
  inodes hold bytes, and every primitive may fail. The disk records each state
  it passes through, so a claim about every recorded state is a claim about a
  crash, or another reader, at any moment.
 */
module MediaCache {
  import opened Sequences

  type Path = seq<string>

  datatype Fs = Fs(entries: map<Path, nat>, inodes: map<nat, Bytes>) {
    predicate Valid() {
      forall p :: p in entries ==> entries[p] in inodes
    }

    function Read(p: Path): Option<Bytes> {
      if p in entries && entries[p] in inodes then Some(inodes[entries[p]]) else None
    }
  }

  datatype LinkOutcome = Linkable | CrossDevice | Unlinkable

  /** The random number in a temp name. */
  type Draw = n: int | 0 <= n < 0x1_0000_0000

  /**
    Where each primitive goes wrong, if it does. `draws` are the numbers tried
    for the temp name before its creation gives up or fails; `writeStops` and
    `copyStops` are the bytes that got through.
   */
  datatype Faults = Faults(
    mkdir: bool, statCache: bool, openCache: bool,
    draws: seq<Draw>, chmod: bool, writeStops: Option<nat>, close: bool, rename: bool, remove: bool,
    link: LinkOutcome, openSource: bool, openOutput: bool, copyStops: Option<nat>, closeOutput: bool)

  const TEMP_PREFIX := ".download-"

  function TempPath(dir: Path, draw: Draw): Path {
    dir + [TEMP_PREFIX + Decimal(draw)]
  }

  /** The first temp path drawn that is free, if there is one. */
  function FreeTemp(fs: Fs, dir: Path, draws: seq<Draw>): (r: Option<Path>)
    ensures r.Some? ==> r.value !in fs.entries && exists k :: 0 <= k < |draws| && r.value == TempPath(dir, draws[k])
  {
    if draws == [] then None
    else if TempPath(dir, draws[0]) !in fs.entries then Some(TempPath(dir, draws[0]))
    else
      var r := FreeTemp(fs, dir, draws[1..]);
      assert forall k :: 0 <= k < |draws| - 1 ==> draws[1..][k] == draws[k + 1];
      r
  }

  /** Bytes, once on an inode that existed before, never change, and no entry but `path` is lost or redirected. */
  ghost predicate OthersKept(before: Fs, after: Fs, path: Path) {
    && (forall i :: i in before.inodes ==> i in after.inodes && after.inodes[i] == before.inodes[i])
    && (forall p :: p in before.entries && p != path ==> p in after.entries && after.entries[p] == before.entries[p])
  }

  /** Every state recorded from position n on keeps the others. */
  ghost predicate OthersKeptFrom(before: Fs, trace: seq<Fs>, n: nat, path: Path) {
    forall k :: n <= k < |trace| ==> OthersKept(before, trace[k], path)
  }

  /** path holds its whole old content or the whole new one. */
  ghost predicate WholeFile(before: Fs, after: Fs, path: Path, data: Bytes) {
    after.Read(path) == before.Read(path) || after.Read(path) == Some(data)
  }

  /** And shows path whole. */
  ghost predicate Atomic(trace: seq<Fs>, n: nat, before: Fs, path: Path, data: Bytes) {
    forall k :: n <= k < |trace| ==> OthersKept(before, trace[k], path) && WholeFile(before, trace[k], path, data)
  }

  class Disk {
    var fs: Fs
    var next: nat              // the first inode number never used
    ghost var trace: seq<Fs>   // every state so far, the current one last

    ghost predicate Valid()
      reads this
    {
      && fs.Valid() && (forall i :: i in fs.inodes ==> i < next)
      && trace != [] && trace[|trace| - 1] == fs
    }

    constructor (fs: Fs, next: nat)
      requires fs.Valid() && forall i :: i in fs.inodes ==> i < next
      ensures Valid() && this.fs == fs
    {
      this.fs, this.next, trace := fs, next, [fs];
    }

    /** O_CREATE|O_EXCL: a new empty file, unless the name is taken. */
    method CreateExclusive(p: Path) returns (ok: bool)
      requires Valid()
      modifies this
      ensures Valid() && old(next) <= next
      ensures ok <==> p !in old(fs).entries
      ensures ok ==> old(next) !in old(fs).inodes
      ensures ok ==> fs == Fs(old(fs).entries[p := old(next)], old(fs).inodes[old(next) := []])
      ensures ok ==> trace == old(trace) + [fs]
      ensures !ok ==> fs == old(fs) && next == old(next) && trace == old(trace)
    {
      ok := p !in fs.entries;
      if ok {
        fs := Fs(fs.entries[p := next], fs.inodes[next := []]);
        next := next + 1;
        trace := trace + [fs];
      }
    }

    /** A new empty file under the first random name that is free. */
    method CreateTemp(dir: Path, draws: seq<Draw>) returns (temp: Option<Path>)
      requires Valid()
      modifies this
      ensures Valid() && temp == FreeTemp(old(fs), dir, draws)
      ensures temp.Some? ==>
                && old(next) !in old(fs).inodes && trace == old(trace) + [fs]
                && fs == Fs(old(fs).entries[temp.value := old(next)], old(fs).inodes[old(next) := []])
      ensures temp.None? ==> fs == old(fs) && trace == old(trace)
    {
      for i := 0 to |draws|
        invariant Valid() && fs == old(fs) && next == old(next) && trace == old(trace)
        invariant FreeTemp(old(fs), dir, draws) == FreeTemp(old(fs), dir, draws[i..])
      {
        var created := CreateExclusive(TempPath(dir, draws[i]));
        if created {
          return Some(TempPath(dir, draws[i]));
        }
      }
      temp := None;
    }

    /** Append data to the file at p, which holds nothing yet; a failing write leaves a prefix. */
    method Fill(p: Path, data: Bytes, stops: Option<nat>) returns (ok: bool)
      requires Valid() && p in fs.entries
      modifies this`fs, this`trace
      ensures Valid()
      ensures ok <==> stops.None?
      ensures fs == Fs(old(fs).entries, old(fs).inodes[old(fs).entries[p] := Filled(data, stops)])
      ensures trace == old(trace) + [fs]
    {
      fs := Fs(fs.entries, fs.inodes[fs.entries[p] := Filled(data, stops)]);
      trace := trace + [fs];
      ok := stops.None?;
    }

    method Rename(from: Path, to: Path)
      requires Valid() && from in fs.entries
      modifies this`fs, this`trace
      ensures Valid()
      ensures fs == Fs((old(fs).entries - {from})[to := old(fs).entries[from]], old(fs).inodes)
      ensures trace == old(trace) + [fs]
    {
      fs := Fs((fs.entries - {from})[to := fs.entries[from]], fs.inodes);
      trace := trace + [fs];
    }

    method Remove(p: Path)
      requires Valid()
      modifies this`fs, this`trace
      ensures Valid() && fs == Fs(old(fs).entries - {p}, old(fs).inodes) && trace == old(trace) + [fs]
    {
      fs := Fs(fs.entries - {p}, fs.inodes);
      trace := trace + [fs];
    }

    method Link(from: Path, to: Path)
      requires Valid() && from in fs.entries && to !in fs.entries
      modifies this`fs, this`trace
      ensures Valid() && fs == Fs(old(fs).entries[to := old(fs).entries[from]], old(fs).inodes)
      ensures trace == old(trace) + [fs]
    {
      fs := Fs(fs.entries[to := fs.entries[from]], fs.inodes);
      trace := trace + [fs];
    }

    /**
      Temp file plus rename. Nothing but the cache file's entry is disturbed, and
      provided the temp file does not land on that entry, every moment shows it whole.
     */
    method ReplaceCacheFile(dir: Path, path: Path, data: Bytes, f: Faults) returns (ok: bool)
      requires Valid()
      modifies this
      ensures Valid() && old(trace) <= trace
      ensures OthersKeptFrom(old(fs), trace, |old(trace)|, path)
      ensures FreeTemp(old(fs), dir, f.draws) != Some(path) ==>
                && Atomic(trace, |old(trace)|, old(fs), path, data)
                && (ok ==> fs.Read(path) == Some(data) && fs.entries.Keys == old(fs).entries.Keys + {path})
                && (!ok ==> fs.Read(path) == old(fs).Read(path))
      ensures NoTempFaults(f) ==> (ok <==> FreeTemp(old(fs), dir, f.draws).Some?)
      ensures FreeTemp(old(fs), dir, f.draws) == Some(path) && NoTempFaults(f) ==>
                fs.Read(path) == None && exists k :: |old(trace)| <= k < |trace| && trace[k].Read(path) == Some([])
    {
      assert fs.Valid();
      hide *;
      ghost var before, n, start := fs, next, trace;
      RecordedNone(start, before, path, data);
      NoTempIsFault(f);
      var created := CreateTemp(dir, f.draws);
      if created.None? {
        return false;
      }
      var temp := created.value;
      ghost var empty, afterCreate := fs, trace;
      CreatedIsStaged(before, fs, temp, n);
      StagedKeeps(before, fs, temp, n, path, data);
      RecordedStep(temp != path, start, trace, |start|, before, fs, path, data);
      ok := FillAndRename(before, n, temp, path, data, f);
      ghost var filled, afterFill := fs, trace;
      RecordedThen(temp != path, afterCreate, trace, |start|, before, path, data);
      DropTemp(temp, f);
      if ok {
        RedroppedKeeps(before, filled, fs, temp, n, path, data);
      } else {
        DroppedKeeps(before, filled, fs, temp, n, path, data);
      }
      RecordedStep(temp != path, afterFill, trace, |start|, before, fs, path, data);
      assert trace[|start|] == empty;
    }

    /** All of it between the creation of the temp file and its deferred removal. */
    method FillAndRename(ghost before: Fs, ghost n: nat, temp: Path, path: Path, data: Bytes, f: Faults)
      returns (ok: bool)
      requires Valid() && before.Valid() && Staged(before, fs, temp, n)
      modifies this`fs, this`trace
      ensures Valid() && old(trace) <= trace
      ensures OthersKeptFrom(before, trace, |old(trace)|, path)
      ensures temp != path ==> Atomic(trace, |old(trace)|, before, path, data)
      ensures ok <==> !f.chmod && f.writeStops.None? && !f.close && !f.rename
      ensures if ok then Replaced(before, fs, temp, n, path, data) else Staged(before, fs, temp, n)
    {
      hide OthersKept, WholeFile, Atomic, OthersKeptFrom;
      ghost var start, empty := trace, fs;
      RecordedNone(start, before, path, data);
      if f.chmod {
        return false;
      }
      var written := Fill(temp, data, f.writeStops);
      ghost var full, afterFill := fs, trace;
      FilledIsStaged(before, empty, fs, temp, n, Filled(data, f.writeStops));
      StagedKeeps(before, fs, temp, n, path, data);
      RecordedStep(temp != path, start, trace, |start|, before, fs, path, data);
      if !written || f.close || f.rename {
        return false;
      }
      Rename(temp, path);
      RenamedReplaces(before, full, fs, temp, n, path, data);
      RecordedStep(temp != path, afterFill, trace, |start|, before, fs, path, data);
      ok := true;
    }

    /** Hard link, or a copy across devices. An output already there satisfies the request as it is. */
    method PlaceAtOutput(src: Path, dst: Path, f: Faults) returns (ok: bool)
      requires Valid()
      modifies this
      ensures Valid() && old(trace) <= trace
      ensures forall k :: |old(trace)| <= k < |trace| ==> AllKept(old(fs), trace[k])
      ensures dst in old(fs).entries ==> fs == old(fs) && trace == old(trace)
      ensures ok <==> src in old(fs).entries && Places(f, dst in old(fs).entries)
      ensures src in old(fs).entries && f.link == Linkable ==> ok
      ensures src in old(fs).entries && f.link == Linkable && dst !in old(fs).entries ==>
                fs == Fs(old(fs).entries[dst := old(fs).entries[src]], old(fs).inodes)
      ensures src in old(fs).entries && f.link == CrossDevice && !f.openSource && !f.openOutput && f.copyStops.None?
              && !f.closeOutput ==>
                ok
      ensures f.link == Unlinkable || (f.link == CrossDevice && (f.openSource || f.openOutput)) ==> !ok && fs == old(fs)
      ensures ok && dst !in old(fs).entries ==> src in old(fs).entries && fs.Read(dst) == old(fs).Read(src)
      ensures src in old(fs).entries && dst !in old(fs).entries && CopyBreaks(f) ==>
                !ok && fs.Read(dst) == Some(Filled(old(fs).Read(src).value, f.copyStops))
    {
      hide AllKept;
      if src !in fs.entries {
        return false;
      }
      if f.link == Linkable {
        if dst !in fs.entries {
          LinkKeeps(fs, src, dst);
          Link(src, dst);
        }
        return true;
      }
      if f.link == Unlinkable || f.openSource {
        return false;
      }
      if dst in fs.entries {
        return !f.openOutput;
      }
      if f.openOutput {
        return false;
      }
      ghost var before, n := fs, next;
      var data := fs.Read(src).value;
      var created := CreateExclusive(dst);
      CopyKeeps(before, dst, n, []);
      var copied := Fill(dst, data, f.copyStops);
      CopyKeeps(before, dst, n, Filled(data, f.copyStops));
      assert before.inodes[n := []][n := Filled(data, f.copyStops)] == before.inodes[n := Filled(data, f.copyStops)];
      ok := copied && !f.closeOutput;
    }

    /** The cached file, placed at the output if one was asked for. */
    method FinalizeDownload(local: Path, output: Option<Path>, f: Faults) returns (r: DownloadResult)
      requires Valid()
      modifies this
      ensures Valid() && old(trace) <= trace
      ensures forall k :: |old(trace)| <= k < |trace| ==> AllKept(old(fs), trace[k])
      ensures output.None? ==> r == Success(local) && fs == old(fs)
      ensures output.Some? && local in old(fs).entries && f.link == Linkable && output.value !in old(fs).entries ==>
                r.Success? && fs == Fs(old(fs).entries[output.value := old(fs).entries[local]], old(fs).inodes)
      ensures output.Some? ==> (r.Success? <==> local in old(fs).entries && Places(f, output.value in old(fs).entries))
      ensures r.Success? && output.Some? ==> r.path == output.value
      ensures r.Success? && output.Some? && output.value in old(fs).entries ==> fs == old(fs)
      ensures r.Success? && output.Some? && output.value !in old(fs).entries ==>
                local in old(fs).entries && fs.Read(output.value) == old(fs).Read(local)
      ensures output.Some? && local in old(fs).entries && output.value !in old(fs).entries && CopyBreaks(f) ==>
                && r == Failure(OutputNotWritten)
                && fs.Read(output.value) == Some(Filled(old(fs).Read(local).value, f.copyStops))
    {
      if output.Some? {
        var placed := PlaceAtOutput(local, output.value, f);
        if !placed {
          return Failure(OutputNotWritten);
        }
        return Success(output.value);
      }
      r := Success(local);
    }

    /**
      Whatever the disk held and whatever fails, at every moment nothing but the
      cache entry changes and that entry is as before or passes the recorded
      length and digest; success hands out a file that passes, unless the output
      was already there, in which case it is handed out as found.
     */
    method Download(req: Request, sha: Bytes -> Bytes, fetch: Option<Bytes>, f: Faults) returns (r: DownloadResult)
      requires Valid()
      modifies this
      ensures Valid() && old(trace) <= trace
      ensures r.Success? ==> req.media.Some? && req.media.value.kind != NotMedia
      ensures r.Success? && req.output.Some? ==> req.outputAllowed
      ensures OthersKeptFrom(old(fs), trace, |old(trace)|, req.Local())
      ensures NamesApart(old(fs), req, f) ==> GuardedFrom(old(fs), trace, |old(trace)|, req, sha)
      ensures NamesApart(old(fs), req, f) && r.Success? && req.output.None? ==>
                r.path == req.Local() && Passes(req, fs.Read(r.path), sha)
      ensures NamesApart(old(fs), req, f) && r.Success? && req.output.Some? ==>
                && r.path == req.output.value
                && (r.path in old(fs).entries ==> fs == old(fs))
                && (r.path !in old(fs).entries ==> Passes(req, fs.Read(r.path), sha))
      ensures Ready(req, f) && req.output.None? && !f.openCache && Passes(req, old(fs).Read(req.Local()), sha) ==>
                r == Success(req.Local()) && fs == old(fs)
      ensures Ready(req, f) && req.output.None? && Fetchable(req.media.value) && fetch.Some?
              && Validate(req.media.value, fetch.value, sha)
              && NoTempFaults(f) && FreeTemp(old(fs), req.Dir(), f.draws).Some? ==>
                r == Success(req.Local()) && (!NamesApart(old(fs), req, f) ==> fs.Read(req.Local()) == None)
      ensures NothingServes(old(fs), req, sha, fetch) && (req.output.Some? ==> req.output.value !in old(fs).entries) ==>
                r.Failure? && fs == old(fs)
      ensures Reaches(req) && Ready(req, f) && req.output.value !in old(fs).entries
              && (CacheServes(old(fs), req, sha, f) || FetchServes(old(fs), req, sha, fetch, f)) ==>
                (r == Success(req.output.value) <==> Places(f, req.output.value == req.Local()))
      ensures Reaches(req) && Ready(req, f) && req.output.value !in old(fs).entries && f.link == Linkable
              && CacheServes(old(fs), req, sha, f) ==>
                && r.Success? && req.Local() in old(fs).entries
                && fs == Fs(old(fs).entries[req.output.value := old(fs).entries[req.Local()]], old(fs).inodes)
      ensures req.output.Some? && !req.outputAllowed ==> r == Failure(BadOutput) && fs == old(fs)
      ensures Allowed(req) && req.media.None? ==> r == Failure(NoMessage) && fs == old(fs)
      ensures Allowed(req) && req.media.Some? && req.media.value.kind == NotMedia ==>
                r == Failure(NotAMediaMessage) && fs == old(fs)
      ensures Allowed(req) && IsMedia(req) && req.output.Some? && req.output.value in old(fs).entries ==>
                r == Success(req.output.value) && fs == old(fs)
      ensures Allowed(req) && IsMedia(req) && (req.output.Some? ==> req.output.value !in old(fs).entries)
              && req.chat.None? ==>
                r == Failure(EscapesStore) && fs == old(fs)
      ensures Reaches(req) && Passes(req, old(fs).Read(req.Local()), sha) && req.output.value !in old(fs).entries
              && !f.mkdir && !f.statCache && !f.openCache && CopyBreaks(f) ==>
                r.Failure? && fs.Read(req.output.value) == Some(Filled(old(fs).Read(req.Local()).value, f.copyStops))
    {
      hide GuardedFrom, Guarded, AllKept, Validate, NamesApart, CopyBreaks, Places, OthersKept, OthersKeptFrom,
           FreeTemp;
      GuardedNone(fs, trace, req, sha);
      KeptNone(fs, trace, req.Local());
      if req.output.Some? && !req.outputAllowed { return Failure(BadOutput); }
      if req.media.None? { return Failure(NoMessage); }
      var media := req.media.value;
      if media.kind == NotMedia { return Failure(NotAMediaMessage); }
      if req.output.Some? && req.output.value in fs.entries { return Success(req.output.value); }
      if req.chat.None? { return Failure(EscapesStore); }
      if f.mkdir { return Failure(NoDirectory); }

      var local := req.Local();
      if f.statCache { return Failure(CacheUnreadable); }
      if local in fs.entries && !f.openCache && Validate(media, fs.Read(local).value, sha) {
        r := FinalizeDownload(local, req.output, f);
        KeptIsGuarded(old(fs), trace, |old(trace)|, req, sha);
        ThenOthersKept(old(fs), old(fs), old(trace), trace, |old(trace)|, local);
        CachedStaysApart(old(fs), req, f);
        return;
      }

      var problem := Refill(req, media, sha, fetch, f);
      if problem.Some? { return Failure(problem.value); }
      ghost var refilled, atRefill := fs, trace;
      r := FinalizeDownload(local, req.output, f);
      ThenOthersKept(old(fs), refilled, atRefill, trace, |old(trace)|, local);
      if NamesApart(old(fs), req, f) {
        ThenKeptIsGuarded(old(fs), refilled, atRefill, trace, |old(trace)|, req, sha);
      }
    }

    /** Fetch, check and store; the disk is touched only for bytes that pass. */
    method Refill(req: Request, media: Media, sha: Bytes -> Bytes, fetch: Option<Bytes>, f: Faults)
      returns (problem: Option<Reason>)
      requires Valid() && req.media == Some(media)
      modifies this
      ensures Valid() && old(trace) <= trace
      ensures OthersKeptFrom(old(fs), trace, |old(trace)|, req.Local()) && OthersKept(old(fs), fs, req.Local())
      ensures NamesApart(old(fs), req, f) ==> GuardedFrom(old(fs), trace, |old(trace)|, req, sha)
      ensures NamesApart(old(fs), req, f) && problem.None? ==>
                && Guarded(old(fs), fs, req, sha) && req.Local() in fs.entries && Passes(req, fs.Read(req.Local()), sha)
                && (req.output.Some? && req.output.value !in old(fs).entries ==>
                      (req.output.value in fs.entries <==> req.output.value == req.Local()))
      ensures problem.None? ==> fetch.Some? && Validate(media, fetch.value, sha) && Fetchable(media)
      ensures !(fetch.Some? && Validate(media, fetch.value, sha) && Fetchable(media)) ==> fs == old(fs)
      ensures Fetchable(media) && fetch.Some? && Validate(media, fetch.value, sha) && NoTempFaults(f) ==>
                && (problem.None? <==> FreeTemp(old(fs), req.Dir(), f.draws).Some?)
                && (!NamesApart(old(fs), req, f) ==> fs.Read(req.Local()) == None)
    {
      hide GuardedFrom, Atomic, Validate, OthersKeptFrom, FreeTemp, NoTempFaults;
      GuardedNone(fs, trace, req, sha);
      KeptNone(fs, trace, req.Local());
      if media.url == "" || media.key == [] || media.digest == [] || media.encDigest == [] || media.length == 0 {
        return Some(Incomplete);
      }
      if media.kind == OtherKind { return Some(Unsupported); }
      if fetch.None? { return Some(FetchFailed); }
      if !Validate(media, fetch.value, sha) { return Some(FetchedInvalid); }
      var saved := ReplaceCacheFile(req.Dir(), req.Local(), fetch.value, f);
      KeptAtEnd(old(fs), old(trace), trace, req.Local());
      if NamesApart(old(fs), req, f) {
        AtomicIsGuarded(old(fs), trace, |old(trace)|, req, sha, fetch.value);
      }
      if !saved { return Some(NotSaved); }
      problem := None;
    }

    /** The deferred removal of the temp file; after a rename there is normally nothing left to remove. */
    method DropTemp(temp: Path, f: Faults)
      requires Valid()
      modifies this`fs, this`trace
      ensures Valid() && old(trace) <= trace <= old(trace) + [fs]
      ensures fs == if f.remove then old(fs) else Fs(old(fs).entries - {temp}, old(fs).inodes)
    {
      if !f.remove {
        Remove(temp);
      }
    }
  }

  lemma RecordedNone(trace: seq<Fs>, before: Fs, path: Path, data: Bytes)
    ensures OthersKeptFrom(before, trace, |trace|, path) && Atomic(trace, |trace|, before, path, data)
  {
  }

  lemma RecordedStep(apart: bool, was: seq<Fs>, trace: seq<Fs>, n: nat, before: Fs, fs: Fs, path: Path, data: Bytes)
    requires was <= trace <= was + [fs] && OthersKept(before, fs, path) && OthersKeptFrom(before, was, n, path)
    requires apart ==> Atomic(was, n, before, path, data) && WholeFile(before, fs, path, data)
    ensures OthersKeptFrom(before, trace, n, path)
    ensures apart ==> Atomic(trace, n, before, path, data)
  {
    hide OthersKept, WholeFile;
  }

  lemma RecordedThen(apart: bool, was: seq<Fs>, trace: seq<Fs>, n: nat, before: Fs, path: Path, data: Bytes)
    requires was <= trace && OthersKeptFrom(before, was, n, path) && OthersKeptFrom(before, trace, |was|, path)
    requires apart ==> Atomic(was, n, before, path, data) && Atomic(trace, |was|, before, path, data)
    ensures OthersKeptFrom(before, trace, n, path)
    ensures apart ==> Atomic(trace, n, before, path, data)
  {
    hide OthersKept, WholeFile;
    assert forall k :: 0 <= k < |was| ==> trace[k] == was[k];
  }

  lemma KeptNone(before: Fs, trace: seq<Fs>, path: Path)
    ensures OthersKeptFrom(before, trace, |trace|, path) && OthersKept(before, before, path)
  {
  }

  lemma KeptAtEnd(before: Fs, was: seq<Fs>, trace: seq<Fs>, path: Path)
    requires was != [] && was[|was| - 1] == before && was <= trace && OthersKeptFrom(before, trace, |was|, path)
    ensures OthersKept(before, trace[|trace| - 1], path)
  {
  }

  lemma ThenOthersKept(before: Fs, mid: Fs, was: seq<Fs>, trace: seq<Fs>, n: nat, path: Path)
    requires was <= trace && OthersKeptFrom(before, was, n, path) && OthersKept(before, mid, path)
    requires forall k :: |was| <= k < |trace| ==> AllKept(mid, trace[k])
    ensures OthersKeptFrom(before, trace, n, path)
  {
    forall k | n <= k < |trace|
      ensures OthersKept(before, trace[k], path)
    {
      if k < |was| {
        assert OthersKept(before, was[k], path);
      } else {
        assert AllKept(mid, trace[k]);
      }
    }
  }

  // ------------------------------------------------------------------- requests

  datatype Kind = NotMedia | Image | Video | Audio | Document | OtherKind
  datatype Media = Media(kind: Kind, url: string, key: Bytes, digest: Bytes, encDigest: Bytes, length: nat)

  datatype Reason =
    | BadOutput | NoMessage | NotAMediaMessage | EscapesStore | NoDirectory | CacheUnreadable | Incomplete
    | Unsupported | FetchFailed | FetchedInvalid | NotSaved | OutputNotWritten

  datatype DownloadResult = Success(path: Path) | Failure(why: Reason)

  /** chat is None when the sanitised chat directory would escape the store; name is the safe base name. */
  datatype Request = Request(
    output: Option<Path>, outputAllowed: bool, media: Option<Media>,
    store: Path, chat: Option<Path>, id: Bytes, name: string)
  {
    function Dir(): Path {
      store + (if chat.Some? then chat.value else []) + HexDir(id)
    }

    function Local(): Path {
      Dir() + [name]
    }
  }

  /** A recorded length of zero or an empty digest checks nothing. */
  predicate Validate(media: Media, data: Bytes, sha: Bytes -> Bytes) {
    (media.length > 0 ==> |data| == media.length) && (media.digest != [] ==> sha(data) == media.digest)
  }

  predicate Passes(req: Request, content: Option<Bytes>, sha: Bytes -> Bytes) {
    content.Some? && req.media.Some? && Validate(req.media.value, content.value, sha)
  }

  /** What passing means: the content has the recorded length, if there is one, and the recorded digest, if there is. */
  lemma PassesMeans(req: Request, content: Option<Bytes>, sha: Bytes -> Bytes)
    ensures Passes(req, content, sha) <==>
              && content.Some? && req.media.Some?
              && (req.media.value.length == 0 || |content.value| == req.media.value.length)
              && (req.media.value.digest == [] || sha(content.value) == req.media.value.digest)
  {
  }

  /** The temp file does not land on the cache file's own entry. */
  predicate NamesApart(fs: Fs, req: Request, f: Faults) {
    FreeTemp(fs, req.Dir(), f.draws) != Some(req.Local())
  }

  /** A 32-bit number as it is printed. */
  predicate IsDraw(s: string) {
    && s != "" && (forall i :: 0 <= i < |s| ==> IsDigit(s[i]))
    && (s[0] == '0' ==> |s| == 1) && Value(s) < 0x1_0000_0000
  }

  /** The cache file's name, which the sender chose, is not a possible temp name. */
  predicate SafeName(req: Request) {
    !(TEMP_PREFIX <= req.name && IsDraw(req.name[|TEMP_PREFIX|..]))
  }

  /** An entry already there is never landed on. */
  lemma CachedStaysApart(fs: Fs, req: Request, f: Faults)
    requires req.Local() in fs.entries
    ensures NamesApart(fs, req, f)
  {
  }

  lemma CollisionIsDrawn(fs: Fs, req: Request, f: Faults)
    requires !NamesApart(fs, req, f)
    ensures !SafeName(req)
  {
    var k :| 0 <= k < |f.draws| && req.Local() == TempPath(req.Dir(), f.draws[k]);
    hide FreeTemp, IsDraw, Decimal;
    DrawIsDraw(f.draws[k]);
    assert req.Local()[|req.Dir()|] == TempPath(req.Dir(), f.draws[k])[|req.Dir()|];
    assert req.name[|TEMP_PREFIX|..] == Decimal(f.draws[k]);
  }

  /** Exactly the names that are not temp names never collide, whatever the disk holds. */
  lemma SafeNamesStayApart(req: Request)
    ensures SafeName(req) <==> forall fs: Fs, f: Faults :: NamesApart(fs, req, f)
  {
    hide IsDraw, FreeTemp, Decimal;
    forall fs: Fs, f: Faults | !NamesApart(fs, req, f)
      ensures !SafeName(req)
    {
      CollisionIsDrawn(fs, req, f);
    }
    if !SafeName(req) {
      var draw := Value(req.name[|TEMP_PREFIX|..]);
      DrawnByValue(req.name[|TEMP_PREFIX|..]);
      assert TEMP_PREFIX + req.name[|TEMP_PREFIX|..] == req.name;
      var f := Faults(false, false, false, [draw], false, None, false, false, false,
                      Linkable, false, false, None, false);
      OneDraw(Fs(map[], map[]), req.Dir(), draw);
      assert !NamesApart(Fs(map[], map[]), req, f);
    }
  }

  lemma OneDraw(fs: Fs, dir: Path, draw: Draw)
    requires TempPath(dir, draw) !in fs.entries
    ensures FreeTemp(fs, dir, [draw]) == Some(TempPath(dir, draw))
  {
  }

  const DIGITS := "0123456789"

  function Decimal(n: nat): string {
    (if n < 10 then "" else Decimal(n / 10)) + [DIGITS[n % 10]]
  }

  function Value(s: string): nat {
    if s == "" then 0
    else
      var n := |s| - 1;
      10 * Value(s[..n]) + if IsDigit(s[n]) then DigitOf(s[n]) else 0
  }

  lemma {:induction false} ValueOfDecimal(n: nat)
    ensures Value(Decimal(n)) == n && (forall i :: 0 <= i < |Decimal(n)| ==> IsDigit(Decimal(n)[i]))
    ensures Decimal(n) != "" && (n > 0 ==> Decimal(n)[0] != '0') && (n == 0 ==> |Decimal(n)| == 1)
  {
    if n >= 10 {
      ValueOfDecimal(n / 10);
      assert Decimal(n)[..|Decimal(n)| - 1] == Decimal(n / 10);
    }
  }

  function DigitOf(c: char): nat
    requires IsDigit(c)
  {
    c as int - '0' as int
  }

  lemma DigitBack(c: char)
    requires IsDigit(c)
    ensures DigitOf(c) < 10 && DIGITS[DigitOf(c)] == c && (c != '0' ==> DigitOf(c) > 0)
  {
  }

  lemma DecimalStep(n: nat, d: nat)
    requires d < 10
    ensures Decimal(10 * n + d) == (if n == 0 then "" else Decimal(n)) + [DIGITS[d]]
  {
    assert (10 * n + d) / 10 == n && (10 * n + d) % 10 == d;
  }

  lemma {:induction false} DecimalOfValue(s: string)
    requires s != "" && (forall i :: 0 <= i < |s| ==> IsDigit(s[i])) && (s[0] == '0' ==> |s| == 1)
    ensures Decimal(Value(s)) == s && (s[0] != '0' ==> Value(s) > 0)
  {
    hide Decimal, IsDigit, DigitOf;
    var n := |s| - 1;
    DigitBack(s[n]);
    DecimalStep(Value(s[..n]), DigitOf(s[n]));
    assert s == s[..n] + [s[n]];
    if n > 0 {
      DecimalOfValue(s[..n]);
    }
  }

  lemma DrawIsDraw(draw: Draw)
    ensures IsDraw(Decimal(draw))
  {
    ValueOfDecimal(draw);
    if draw > 0 {
      assert Decimal(draw)[0] != '0';
    }
  }

  lemma DrawnByValue(s: string)
    requires IsDraw(s)
    ensures Value(s) < 0x1_0000_0000 && Decimal(Value(s)) == s
  {
    DecimalOfValue(s);
  }

  predicate Allowed(req: Request) {
    req.output.Some? ==> req.outputAllowed
  }

  predicate IsMedia(req: Request) {
    req.media.Some? && req.media.value.kind != NotMedia
  }

  /** The call gets as far as the cache with an output to write. */
  predicate Reaches(req: Request) {
    req.output.Some? && req.outputAllowed && req.media.Some? && req.media.value.kind != NotMedia && req.chat.Some?
  }

  /** Nothing stands between the call and the cache. */
  predicate Ready(req: Request, f: Faults) {
    && req.media.Some? && req.media.value.kind != NotMedia && req.chat.Some?
    && (req.output.Some? ==> req.outputAllowed) && !f.mkdir && !f.statCache
  }

  /** The record has all a download needs. */
  predicate Fetchable(media: Media) {
    && media.kind != OtherKind && media.url != "" && media.key != [] && media.digest != []
    && media.encDigest != [] && media.length != 0
  }

  /** A source that is there can be placed: linked, or copied whole across devices unless the output is taken. */
  predicate Places(f: Faults, taken: bool) {
    || f.link == Linkable
    || (f.link == CrossDevice && !f.openSource && !f.openOutput && (taken || (f.copyStops.None? && !f.closeOutput)))
  }

  /** The cached file can be opened and passes. */
  predicate CacheServes(fs: Fs, req: Request, sha: Bytes -> Bytes, f: Faults) {
    !f.openCache && Passes(req, fs.Read(req.Local()), sha)
  }

  /** A fetch brings bytes that pass, and they can be stored beside the entry and moved onto it. */
  predicate FetchServes(fs: Fs, req: Request, sha: Bytes -> Bytes, fetch: Option<Bytes>, f: Faults) {
    && req.media.Some? && Fetchable(req.media.value) && fetch.Some? && Validate(req.media.value, fetch.value, sha)
    && NoTempFaults(f) && FreeTemp(fs, req.Dir(), f.draws).Some? && NamesApart(fs, req, f)
  }

  /** Neither the cached file nor the fetch passes, or the record is too incomplete to fetch at all. */
  predicate NothingServes(fs: Fs, req: Request, sha: Bytes -> Bytes, fetch: Option<Bytes>) {
    && req.media.Some? && !Passes(req, fs.Read(req.Local()), sha)
    && !(Fetchable(req.media.value) && Passes(req, fetch, sha))
  }

  /** The output is on another device and the copy stops part way. */
  predicate CopyBreaks(f: Faults) {
    f.link == CrossDevice && !f.openSource && !f.openOutput && f.copyStops.Some?
  }

  /** Nothing that was there is lost, redirected or changed. */
  ghost predicate AllKept(before: Fs, after: Fs) {
    && (forall i :: i in before.inodes ==> i in after.inodes && after.inodes[i] == before.inodes[i])
    && (forall p :: p in before.entries ==> p in after.entries && after.entries[p] == before.entries[p])
  }

  /** At most the request's own cache entry has changed, and only to content that passes. */
  ghost predicate Guarded(before: Fs, after: Fs, req: Request, sha: Bytes -> Bytes) {
    && OthersKept(before, after, req.Local())
    && (after.Read(req.Local()) == before.Read(req.Local()) || Passes(req, after.Read(req.Local()), sha))
  }

  ghost predicate GuardedFrom(before: Fs, trace: seq<Fs>, n: nat, req: Request, sha: Bytes -> Bytes) {
    forall k :: n <= k < |trace| ==> Guarded(before, trace[k], req, sha)
  }

  lemma GuardedNone(before: Fs, trace: seq<Fs>, req: Request, sha: Bytes -> Bytes)
    ensures GuardedFrom(before, trace, |trace|, req, sha)
  {
  }

  lemma KeptIsGuarded(before: Fs, trace: seq<Fs>, n: nat, req: Request, sha: Bytes -> Bytes)
    requires before.Valid() && req.Local() in before.entries
    requires forall k :: n <= k < |trace| ==> AllKept(before, trace[k])
    ensures GuardedFrom(before, trace, n, req, sha)
  {
    forall k | n <= k < |trace|
      ensures Guarded(before, trace[k], req, sha)
    {
      KeptStepIsGuarded(before, before, trace[k], req, sha);
    }
  }

  lemma KeptStepIsGuarded(before: Fs, mid: Fs, after: Fs, req: Request, sha: Bytes -> Bytes)
    requires mid.Valid() && req.Local() in mid.entries
    requires AllKept(mid, after) && Guarded(before, mid, req, sha)
    ensures Guarded(before, after, req, sha)
  {
    assert after.Read(req.Local()) == mid.Read(req.Local());
  }

  lemma AtomicIsGuarded(before: Fs, trace: seq<Fs>, n: nat, req: Request, sha: Bytes -> Bytes, data: Bytes)
    requires Atomic(trace, n, before, req.Local(), data)
    requires req.media.Some? && Validate(req.media.value, data, sha)
    ensures GuardedFrom(before, trace, n, req, sha)
  {
    forall k | n <= k < |trace|
      ensures Guarded(before, trace[k], req, sha)
    {
      assert WholeFile(before, trace[k], req.Local(), data);
    }
  }

  lemma ThenKeptIsGuarded(
      before: Fs, mid: Fs, was: seq<Fs>, trace: seq<Fs>, n: nat, req: Request, sha: Bytes -> Bytes)
    requires mid.Valid() && req.Local() in mid.entries && was <= trace
    requires GuardedFrom(before, was, n, req, sha) && Guarded(before, mid, req, sha)
    requires forall k :: |was| <= k < |trace| ==> AllKept(mid, trace[k])
    ensures GuardedFrom(before, trace, n, req, sha)
  {
    forall k | n <= k < |trace|
      ensures Guarded(before, trace[k], req, sha)
    {
      if k < |was| {
        assert Guarded(before, was[k], req, sha);
      } else {
        KeptStepIsGuarded(before, mid, trace[k], req, sha);
      }
    }
  }

  lemma LinkKeeps(fs: Fs, src: Path, dst: Path)
    requires fs.Valid() && src in fs.entries && dst !in fs.entries
    ensures var after := Fs(fs.entries[dst := fs.entries[src]], fs.inodes);
            AllKept(fs, after) && after.Read(dst) == fs.Read(src)
  {
  }

  lemma CopyKeeps(before: Fs, dst: Path, n: nat, data: Bytes)
    requires n !in before.inodes && dst !in before.entries
    ensures var after := Fs(before.entries[dst := n], before.inodes[n := data]);
            AllKept(before, after) && after.Read(dst) == Some(data)
  {
  }

  /** The temp file exists beside an otherwise untouched disk. */
  ghost predicate Staged(before: Fs, fs: Fs, temp: Path, n: nat) {
    && n !in before.inodes && temp !in before.entries
    && fs.entries == before.entries[temp := n]
    && n in fs.inodes && fs.inodes == before.inodes[n := fs.inodes[n]]
  }

  lemma CreatedIsStaged(before: Fs, fs: Fs, temp: Path, n: nat)
    requires n !in before.inodes && temp !in before.entries
    requires fs == Fs(before.entries[temp := n], before.inodes[n := []])
    ensures Staged(before, fs, temp, n) && fs.Read(temp) == Some([])
  {
  }

  lemma FilledIsStaged(before: Fs, empty: Fs, fs: Fs, temp: Path, n: nat, data: Bytes)
    requires Staged(before, empty, temp, n)
    requires fs == Fs(empty.entries, empty.inodes[empty.entries[temp] := data])
    ensures Staged(before, fs, temp, n) && fs.inodes[n] == data
  {
  }

  lemma StagedKeeps(before: Fs, fs: Fs, temp: Path, n: nat, path: Path, data: Bytes)
    requires before.Valid() && Staged(before, fs, temp, n)
    ensures OthersKept(before, fs, path)
    ensures temp != path ==> WholeFile(before, fs, path, data)
  {
  }

  lemma DroppedKeeps(before: Fs, staged: Fs, fs: Fs, temp: Path, n: nat, path: Path, data: Bytes)
    requires before.Valid() && Staged(before, staged, temp, n)
    requires fs == staged || fs == Fs(staged.entries - {temp}, staged.inodes)
    ensures OthersKept(before, fs, path)
    ensures temp != path ==> fs.Read(path) == before.Read(path) && WholeFile(before, fs, path, data)
  {
  }

  /** path now names the new inode, which holds data, and the temp name is gone unless it was path itself. */
  ghost predicate Replaced(before: Fs, fs: Fs, temp: Path, n: nat, path: Path, data: Bytes) {
    && n !in before.inodes && temp !in before.entries
    && fs.entries == before.entries[path := n] && fs.inodes == before.inodes[n := data]
  }

  lemma RenamedReplaces(before: Fs, staged: Fs, fs: Fs, temp: Path, n: nat, path: Path, data: Bytes)
    requires before.Valid() && Staged(before, staged, temp, n) && staged.inodes[n] == data
    requires fs == Fs((staged.entries - {temp})[path := staged.entries[temp]], staged.inodes)
    ensures Replaced(before, fs, temp, n, path, data)
    ensures OthersKept(before, fs, path) && WholeFile(before, fs, path, data)
  {
    assert fs.entries == before.entries[path := n];
  }

  /** Removing the temp name after the rename does nothing, unless the temp name was path itself. */
  lemma RedroppedKeeps(before: Fs, replaced: Fs, fs: Fs, temp: Path, n: nat, path: Path, data: Bytes)
    requires Replaced(before, replaced, temp, n, path, data)
    requires fs == replaced || fs == Fs(replaced.entries - {temp}, replaced.inodes)
    ensures OthersKept(before, fs, path)
    ensures temp != path ==> fs.Read(path) == Some(data) && fs.entries.Keys == before.entries.Keys + {path}
    ensures temp != path ==> WholeFile(before, fs, path, data)
    ensures temp == path && fs == Fs(replaced.entries - {temp}, replaced.inodes) ==> fs.Read(path) == None
  {
  }

  /** What a write of data leaves: all of it, or the bytes that got through before it stopped. */
  function Filled(data: Bytes, stops: Option<nat>): (r: Bytes)
    ensures r <= data
    ensures |r| == if stops.Some? && stops.value < |data| then stops.value else |data|
  {
    if stops.Some? && stops.value < |data| then data[..stops.value] else data
  }

  predicate NoTempFaults(f: Faults) {
    !f.chmod && f.writeStops.None? && !f.close && !f.rename && !f.remove
  }

  lemma NoTempIsFault(f: Faults)
    ensures NoTempFaults(f) <==> !f.chmod && f.writeStops.None? && !f.close && !f.rename && !f.remove
  {
  }

  // --------------------------------------------------------- one entry a message

  const HEX := "0123456789abcdef"

  function Hex(id: Bytes): (s: string)
    ensures |s| == 2 * |id|
    ensures forall k :: 0 <= k < |id| ==> s[2 * k] == HEX[id[k] / 16] && s[2 * k + 1] == HEX[id[k] % 16]
  {
    if id == [] then "" else [HEX[id[0] / 16], HEX[id[0] % 16]] + Hex(id[1..])
  }

  /** filepath.Join drops an empty component. */
  function HexDir(id: Bytes): Path {
    if id == [] then [] else [Hex(id)]
  }

  lemma HexDigitInjective(a: nat, b: nat)
    requires a < 16 && b < 16 && HEX[a] == HEX[b]
    ensures a == b
  {
  }

  lemma HexInjective(a: Bytes, b: Bytes)
    requires Hex(a) == Hex(b)
    ensures a == b
  {
    hide Hex;
    assert |a| == |b|;
    forall k | 0 <= k < |a|
      ensures a[k] == b[k]
    {
      assert Hex(a)[2 * k] == Hex(b)[2 * k] && Hex(a)[2 * k + 1] == Hex(b)[2 * k + 1];
      HexDigitInjective(a[k] / 16, b[k] / 16);
      HexDigitInjective(a[k] % 16, b[k] % 16);
    }
  }

  /** Two messages of a chat never share a cache entry, whatever their file names. */
  lemma MessagesNeverShareAnEntry(a: Request, b: Request)
    requires a.store == b.store && a.chat == b.chat && a.id != b.id
    ensures a.Local() != b.Local()
  {
    var base := a.store + (if a.chat.Some? then a.chat.value else []);
    if a.Local() == b.Local() {
      assert |a.Dir()| == |b.Dir()|;
      assert a.Local()[|base|] == b.Local()[|base|];
      HexInjective(a.id, b.id);
    }
  }

  /** A cache entry belongs to one message of one chat, under one name. */
  lemma EntryNamesMessage(a: Request, b: Request)
    requires a.store == b.store && a.chat.Some? && b.chat.Some? && a.id != [] && b.id != []
    requires a.Local() == b.Local()
    ensures a.chat == b.chat && a.id == b.id && a.name == b.name
  {
    var p, n := a.Local(), |a.store|;
    hide Hex;
    assert |a.chat.value| == |b.chat.value|;
    var m := |a.chat.value|;
    assert p[n..n + m] == a.chat.value && p[n..n + m] == b.chat.value;
    assert p[n + m] == Hex(a.id) && p[n + m] == Hex(b.id);
    assert p[n + m + 1] == a.name && p[n + m + 1] == b.name;
    HexInjective(a.id, b.id);
  }

  // --------------------------------------------------------------- stable outputs

  predicate Under(root: Path, p: Path) {
    root <= p
  }

  /** Every file outside the store is still there with the same bytes, on the same inode. */
  ghost predicate OutputsKept(before: Fs, after: Fs, store: Path) {
    && (forall i :: i in before.inodes ==> i in after.inodes && after.inodes[i] == before.inodes[i])
    && (forall p :: p in before.entries && !Under(store, p) ==>
          p in after.entries && after.entries[p] == before.entries[p])
  }

  /** A call keeps every output, even one that is a hard link to the cache file being replaced. */
  lemma CallKeepsOutputs(before: Fs, after: Fs, req: Request)
    requires OthersKept(before, after, req.Local())
    ensures OutputsKept(before, after, req.store)
  {
    assert Under(req.store, req.Local());
  }

  lemma OutputsKeptOn(a: Fs, b: Fs, c: Fs, store: Path)
    requires OutputsKept(a, b, store) && OutputsKept(b, c, store)
    ensures OutputsKept(a, c, store)
  {
  }

  /** What lay outside the store after m states is there, unchanged, in every state from then on. */
  ghost predicate KeptSince(trace: seq<Fs>, m: nat, store: Path) {
    0 < m <= |trace| && forall k :: m - 1 <= k < |trace| ==> OutputsKept(trace[m - 1], trace[k], store)
  }

  lemma KeptSinceNow(trace: seq<Fs>, store: Path)
    requires trace != []
    ensures KeptSince(trace, |trace|, store)
  {
  }

  lemma KeptSinceExtends(was: seq<Fs>, trace: seq<Fs>, m: nat, req: Request)
    requires KeptSince(was, m, req.store) && was <= trace
    requires OthersKeptFrom(was[|was| - 1], trace, |was|, req.Local())
    ensures KeptSince(trace, m, req.store)
  {
    hide OutputsKept, OthersKept;
    forall k | m - 1 <= k < |trace|
      ensures OutputsKept(trace[m - 1], trace[k], req.store)
    {
      if k < |was| {
        assert trace[k] == was[k];
      } else {
        CallKeepsOutputs(was[|was| - 1], trace[k], req);
        OutputsKeptOn(was[m - 1], was[|was| - 1], trace[k], req.store);
      }
    }
  }

  lemma KeptReads(before: Fs, after: Fs, store: Path, p: Path)
    requires before.Valid() && OutputsKept(before, after, store) && p in before.entries && !Under(store, p)
    ensures after.Read(p) == before.Read(p)
  {
  }

  /** One call of Download: what is asked, what the fetch would bring, and what goes wrong. */
  datatype Attempt = Attempt(req: Request, fetch: Option<Bytes>, faults: Faults)

  /**
    Any downloads in any order, whatever they fetch and whatever fails: a file
    outside the store, there at the start or placed by an earlier call, keeps its
    bytes at every moment of all later calls. `marks` are the lengths of the
    record before each call and at the end.
   */
  method DownloadAll(disk: Disk, attempts: seq<Attempt>, sha: Bytes -> Bytes, store: Path)
    returns (results: seq<DownloadResult>, ghost marks: seq<nat>)
    requires disk.Valid() && forall i :: 0 <= i < |attempts| ==> attempts[i].req.store == store
    modifies disk
    ensures disk.Valid() && |results| == |attempts| && old(disk.trace) <= disk.trace
    ensures |marks| == |attempts| + 1 && marks[0] == |old(disk.trace)| && marks[|attempts|] == |disk.trace|
    ensures forall i :: 0 <= i < |marks| ==> KeptSince(disk.trace, marks[i], store)
    ensures forall p :: p in old(disk.fs).entries && !Under(store, p) ==> disk.fs.Read(p) == old(disk.fs).Read(p)
  {
    hide KeptSince, OthersKeptFrom, GuardedFrom, Under, Places, CacheServes, FetchServes, NamesApart, Ready, Reaches;
    hide Passes, Validate, Fetchable, NoTempFaults, FreeTemp, CopyBreaks, Filled, Fs.Read, Request.Local, Request.Dir;
    results, marks := [], [|disk.trace|];
    KeptSinceNow(disk.trace, store);
    for n := 0 to |attempts|
      invariant disk.Valid() && |results| == n && old(disk.trace) <= disk.trace
      invariant |marks| == n + 1 && marks[0] == |old(disk.trace)| && marks[n] == |disk.trace|
      invariant forall i :: 0 <= i <= n ==> KeptSince(disk.trace, marks[i], store)
    {
      ghost var was := disk.trace;
      var r := disk.Download(attempts[n].req, sha, attempts[n].fetch, attempts[n].faults);
      forall i | 0 <= i <= n
        ensures KeptSince(disk.trace, marks[i], store)
      {
        KeptSinceExtends(was, disk.trace, marks[i], attempts[n].req);
      }
      KeptSinceNow(disk.trace, store);
      results, marks := results + [r], marks + [|disk.trace|];
    }
    StartReads(disk.trace, marks[0], store);
  }

  lemma StartReads(trace: seq<Fs>, m: nat, store: Path)
    requires KeptSince(trace, m, store) && trace[m - 1].Valid()
    ensures forall p :: p in trace[m - 1].entries && !Under(store, p) ==>
              trace[|trace| - 1].Read(p) == trace[m - 1].Read(p)
  {
    assert OutputsKept(trace[m - 1], trace[|trace| - 1], store);
    forall p | p in trace[m - 1].entries && !Under(store, p)
      ensures trace[|trace| - 1].Read(p) == trace[m - 1].Read(p)
    {
      KeptReads(trace[m - 1], trace[|trace| - 1], store, p);
    }
  }

  // ------------------------------------------------------------ what is handed out

  /** The content is there with the length and the digest that are recorded. */
  ghost predicate AsRecorded(content: Option<Bytes>, length: nat, digest: Bytes, sha: Bytes -> Bytes) {
    && content.Some?
    && (length != 0 ==> |content.value| == length)
    && (digest != [] ==> sha(content.value) == digest)
  }

  /**
    A success hands out bytes of the recorded length and digest, unless the
    output was there before; where neither the cached file nor the fetch has
    them the call fails and leaves the disk as it was.
   */
  method HandsOutAsRecorded(disk: Disk, req: Request, sha: Bytes -> Bytes, fetch: Option<Bytes>, f: Faults)
    returns (r: DownloadResult)
    requires disk.Valid() && NamesApart(disk.fs, req, f)
    requires req.output.Some? ==> req.output.value !in disk.fs.entries
    modifies disk
    ensures disk.Valid()
    ensures r.Success? ==>
              req.media.Some? && AsRecorded(disk.fs.Read(r.path), req.media.value.length, req.media.value.digest, sha)
    ensures req.media.Some?
            && !AsRecorded(old(disk.fs).Read(req.Local()), req.media.value.length, req.media.value.digest, sha)
            && !AsRecorded(fetch, req.media.value.length, req.media.value.digest, sha) ==>
              r.Failure? && disk.fs == old(disk.fs)
  {
    hide GuardedFrom, NamesApart, OthersKeptFrom, FreeTemp, Passes;
    ghost var cached := disk.fs.Read(req.Local());
    r := disk.Download(req, sha, fetch, f);
    PassesMeans(req, cached, sha);
    PassesMeans(req, fetch, sha);
    if r.Success? {
      PassesMeans(req, disk.fs.Read(r.path), sha);
    }
  }

  /**
    What is looked at before the cache, in order: the output must be allowed, the
    message known and a media message; an output already there is then handed
    out, whatever it holds; and the chat's directory must lie in the store.
   */
  method SettledBeforeCache(disk: Disk, req: Request, sha: Bytes -> Bytes, fetch: Option<Bytes>, f: Faults)
    returns (r: DownloadResult)
    requires disk.Valid()
    requires || (req.output.Some? && (!req.outputAllowed || req.output.value in disk.fs.entries))
             || req.media.None? || req.media.value.kind == NotMedia || req.chat.None?
    modifies disk
    ensures disk.fs == old(disk.fs)
    ensures r == if req.output.Some? && !req.outputAllowed then Failure(BadOutput)
                 else if req.media.None? then Failure(NoMessage)
                 else if req.media.value.kind == NotMedia then Failure(NotAMediaMessage)
                 else if req.output.Some? && req.output.value in old(disk.fs).entries then Success(req.output.value)
                 else Failure(EscapesStore)
  {
    hide GuardedFrom, NamesApart, OthersKeptFrom, FreeTemp, Passes;
    r := disk.Download(req, sha, fetch, f);
  }

  /** A cached file of the recorded length and digest is linked to a free output: one file under both names. */
  method CachedFileIsLinked(disk: Disk, req: Request, sha: Bytes -> Bytes, fetch: Option<Bytes>, f: Faults)
    returns (r: DownloadResult)
    requires disk.Valid() && req.output.Some? && req.outputAllowed && req.chat.Some? && req.media.Some?
    requires req.media.value.kind != NotMedia && !f.mkdir && !f.statCache && !f.openCache && f.link == Linkable
    requires AsRecorded(disk.fs.Read(req.Local()), req.media.value.length, req.media.value.digest, sha)
    requires req.output.value !in disk.fs.entries
    modifies disk
    ensures r == Success(req.output.value)
    ensures req.Local() in old(disk.fs).entries
    ensures disk.fs.inodes == old(disk.fs).inodes
    ensures disk.fs.entries == old(disk.fs).entries[req.output.value := old(disk.fs).entries[req.Local()]]
  {
    hide GuardedFrom, NamesApart, OthersKeptFrom, FreeTemp, Passes;
    PassesMeans(req, disk.fs.Read(req.Local()), sha);
    r := disk.Download(req, sha, fetch, f);
  }

  /** A cached file of the recorded length and digest is served as it is, without a fetch. */
  method CachedFileIsServed(disk: Disk, req: Request, sha: Bytes -> Bytes, fetch: Option<Bytes>, f: Faults)
    returns (r: DownloadResult)
    requires disk.Valid() && req.output.None? && req.chat.Some? && req.media.Some?
    requires req.media.value.kind != NotMedia && !f.mkdir && !f.statCache && !f.openCache
    requires AsRecorded(disk.fs.Read(req.Local()), req.media.value.length, req.media.value.digest, sha)
    modifies disk
    ensures r == Success(req.Local()) && disk.fs == old(disk.fs)
  {
    hide GuardedFrom, NamesApart, OthersKeptFrom, FreeTemp, Passes;
    PassesMeans(req, disk.fs.Read(req.Local()), sha);
    r := disk.Download(req, sha, fetch, f);
  }

  /** With everything recorded and nothing cached, a fetch of the recorded length and digest is stored and served. */
  method GoodFetchIsStored(disk: Disk, req: Request, media: Media, sha: Bytes -> Bytes, data: Bytes, f: Faults)
    returns (r: DownloadResult)
    requires disk.Valid() && req.output.None? && req.chat.Some? && req.media == Some(media)
    requires media.kind in {Image, Video, Audio, Document}
    requires media.url != "" && media.key != [] && media.digest != [] && media.encDigest != [] && media.length != 0
    requires |data| == media.length && sha(data) == media.digest && req.Local() !in disk.fs.entries
    requires !f.mkdir && !f.statCache && !f.chmod && f.writeStops.None? && !f.close && !f.rename && !f.remove
    requires FreeTemp(disk.fs, req.Dir(), f.draws).Some? && NamesApart(disk.fs, req, f)
    modifies disk
    ensures r == Success(req.Local()) && AsRecorded(disk.fs.Read(req.Local()), media.length, media.digest, sha)
  {
    hide GuardedFrom, NamesApart, OthersKeptFrom, FreeTemp, Passes;
    PassesMeans(req, Some(data), sha);
    ValidIfPasses(req, data, sha);
    r := disk.Download(req, sha, Some(data), f);
    PassesMeans(req, disk.fs.Read(req.Local()), sha);
  }

  lemma ValidIfPasses(req: Request, data: Bytes, sha: Bytes -> Bytes)
    ensures Passes(req, Some(data), sha) <==> req.media.Some? && Validate(req.media.value, data, sha)
  {
  }

  /** With something missing from the record and no good file cached nothing is fetched: the call fails. */
  method IncompleteRecordFails(
      disk: Disk, req: Request, media: Media, sha: Bytes -> Bytes, fetch: Option<Bytes>, f: Faults)
    returns (r: DownloadResult)
    requires disk.Valid() && req.media == Some(media) && (req.output.Some? ==> req.output.value !in disk.fs.entries)
    requires || media.url == "" || media.key == [] || media.digest == [] || media.encDigest == [] || media.length == 0
             || media.kind == OtherKind
    requires !AsRecorded(disk.fs.Read(req.Local()), media.length, media.digest, sha)
    modifies disk
    ensures r.Failure? && disk.fs == old(disk.fs)
  {
    hide GuardedFrom, NamesApart, OthersKeptFrom, FreeTemp, Passes;
    PassesMeans(req, disk.fs.Read(req.Local()), sha);
    r := disk.Download(req, sha, fetch, f);
  }

  // ------------------------------------------------------------ where it goes wrong

  lemma TruncatedFails(req: Request, content: Option<Bytes>, stops: Option<nat>, sha: Bytes -> Bytes)
    requires req.media.Some? && stops.Some? && stops.value < req.media.value.length && Passes(req, content, sha)
    ensures content.Some? && !Passes(req, Some(Filled(content.value, stops)), sha)
  {
  }

  /**
    A copy that stops part way leaves the truncated file in place, and the next
    call hands it out as a success: the output exists, so nothing is checked.
   */
  method TruncatedOutputIsAccepted(disk: Disk, req: Request, sha: Bytes -> Bytes, broken: Faults, later: Faults)
    returns (first: DownloadResult, second: DownloadResult)
    requires disk.Valid() && Reaches(req)
    requires Passes(req, disk.fs.Read(req.Local()), sha) && req.output.value !in disk.fs.entries
    requires !broken.mkdir && !broken.statCache && !broken.openCache && CopyBreaks(broken)
    requires broken.copyStops.value < req.media.value.length
    modifies disk
    ensures first.Failure?
    ensures second == Success(req.output.value) && !Passes(req, disk.fs.Read(req.output.value), sha)
  {
    hide GuardedFrom, Passes, NamesApart, Filled;
    TruncatedFails(req, disk.fs.Read(req.Local()), broken.copyStops, sha);
    first := disk.Download(req, sha, None, broken);
    second := disk.Download(req, sha, None, later);
  }

  /**
    When the temp file lands on a name the sender chose, the download reports
    success and there is no file: the cleanup removes what was just saved.
   */
  method CollidingNameLosesFile(disk: Disk, req: Request, sha: Bytes -> Bytes, fetch: Option<Bytes>, f: Faults)
    returns (r: DownloadResult)
    requires disk.Valid() && Ready(req, f) && req.output.None? && Fetchable(req.media.value)
    requires fetch.Some? && Validate(req.media.value, fetch.value, sha)
    requires NoTempFaults(f) && !NamesApart(disk.fs, req, f)
    modifies disk
    ensures r == Success(req.Local()) && disk.fs.Read(req.Local()) == None
  {
    r := disk.Download(req, sha, fetch, f);
  }
}

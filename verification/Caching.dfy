/** The detection cache of internal/ml/detector.go, kept across scans of a changing file system. */
module Caching {
  import opened Options
  import opened DetectorTypes

  /** A file as one scan finds it; `content` is None where it cannot be read. */
  datatype FileState = FileState(modTime: int, size: nat, content: Option<string>)

  type FileSystem = map<Path, FileState>

  datatype CacheEntry = CacheEntry(modTime: int, size: nat, frameworks: seq<Framework>)

  /** What matching the framework patterns against a file finds, None for a notebook that does
      not parse. */
  type Analysis = (Path, string) -> Option<seq<Framework>>

  function Found(analyze: Analysis, p: Path, content: Option<string>): Option<seq<Framework>> {
    if content.Some? then analyze(p, content.value) else None
  }

  function ContentIn(fs: FileSystem, p: Path): Option<string> {
    if p in fs then fs[p].content else None
  }

  /** What a scan without a cache reports for one file. */
  function FreshFrameworks(analyze: Analysis, fs: FileSystem, p: Path): multiset<Framework> {
    var found := Found(analyze, p, ContentIn(fs, p));
    if found.Some? then multiset(found.value) else multiset{}
  }

  function FreshScan(analyze: Analysis, fs: FileSystem, paths: seq<Path>): multiset<Framework> {
    if paths == [] then multiset{}
    else FreshScan(analyze, fs, paths[..|paths| - 1]) + FreshFrameworks(analyze, fs, paths[|paths| - 1])
  }

  /** A file as one scan comes by it: the file system when the cache entry is checked, when the file is
      read, and when its modification time and size are taken for a new entry. */
  datatype Visit = Visit(path: Path, checked: FileSystem, read: FileSystem, stated: FileSystem)

  /** What fresh scans of single files report, each in a file system of its own. */
  function FreshIn(analyze: Analysis, visits: seq<Visit>, seen: seq<FileSystem>): multiset<Framework>
    requires |seen| == |visits|
  {
    if visits == [] then multiset{}
    else
      var n := |visits| - 1;
      FreshIn(analyze, visits[..n], seen[..n]) + FreshFrameworks(analyze, seen[n], visits[n].path)
  }

  /** The content a path has had at a modification time and size, over the whole session. */
  type History = (Path, int, nat) -> Option<string>

  /** Equal path, modification time and size mean equal content. */
  ghost predicate Faithful(history: History, fs: FileSystem) {
    forall p :: p in fs ==> fs[p].content == history(p, fs[p].modTime, fs[p].size)
  }

  ghost predicate EntryOk(analyze: Analysis, history: History, p: Path, e: CacheEntry) {
    var found := Found(analyze, p, history(p, e.modTime, e.size));
    found.Some? && multiset(found.value) == multiset(e.frameworks)
  }

  /** The file, as it is when its modification time and size are taken, holds what was read of it as
      far as the analysis can tell. */
  ghost predicate Undisturbed(analyze: Analysis, v: Visit) {
    v.path in v.stated && Found(analyze, v.path, ContentIn(v.read, v.path)).Some? ==>
      var found := Found(analyze, v.path, ContentIn(v.stated, v.path));
      found.Some? && multiset(found.value) == FreshFrameworks(analyze, v.read, v.path)
  }

  /** What is stored after reading is right for the time and size stored with it exactly when no edit
      came in between: a disturbed visit leaves stale frameworks that later scans take for valid. */
  lemma StoredRightExactly(analyze: Analysis, history: History, v: Visit, frameworks: seq<Framework>)
    requires Faithful(history, v.stated) && v.path in v.stated
    requires Found(analyze, v.path, ContentIn(v.read, v.path)).Some?
    requires multiset(frameworks) == FreshFrameworks(analyze, v.read, v.path)
    ensures var s := v.stated[v.path];
            EntryOk(analyze, history, v.path, CacheEntry(s.modTime, s.size, frameworks)) <==> Undisturbed(analyze, v)
  {
  }

  ghost predicate GoodVisit(analyze: Analysis, history: History, v: Visit) {
    && Faithful(history, v.checked) && Faithful(history, v.read) && Faithful(history, v.stated)
    && Undisturbed(analyze, v)
  }

  /** No entry has an earlier modification time. */
  ghost predicate Oldest(cache: map<Path, CacheEntry>, o: Path) {
    o in cache && forall p :: p in cache ==> cache[o].modTime <= cache[p].modTime
  }

  class Detector {
    const analyze: Analysis
    const enableCache: bool
    ghost const history: History
    var cache: map<Path, CacheEntry>

    constructor (analyze: Analysis, enableCache: bool, ghost history: History)
      ensures Valid() && cache == map[]
      ensures this.analyze == analyze && this.enableCache == enableCache && this.history == history
    {
      this.analyze, this.enableCache, this.history, cache := analyze, enableCache, history, map[];
    }

    ghost predicate Valid()
      reads this
    {
      |cache| <= MAX_CACHE_ENTRIES && forall p :: p in cache ==> EntryOk(analyze, history, p, cache[p])
    }

    method GetCacheEntry(path: Path) returns (entry: Option<CacheEntry>)
      ensures entry == if enableCache && path in cache then Some(cache[path]) else None
    {
      entry := if enableCache && path in cache then Some(cache[path]) else None;
    }

    method IsCacheValid(fs: FileSystem, path: Path, entry: CacheEntry) returns (valid: bool)
      ensures valid <==> path in fs && fs[path].modTime == entry.modTime && fs[path].size == entry.size
    {
      valid := path in fs && fs[path].modTime == entry.modTime && fs[path].size == entry.size;
    }

    /** Removes an entry of least modification time, if there is any entry. */
    method EvictOldest() returns (oldest: Option<Path>)
      modifies this
      ensures oldest.None? <==> old(cache) == map[]
      ensures oldest.None? ==> cache == old(cache)
      ensures oldest.Some? ==>
                Oldest(old(cache), oldest.value) && cache == old(cache) - {oldest.value}
    {
      oldest := None;
      var left := cache.Keys;
      while left != {}
        invariant left <= cache.Keys
        invariant oldest.None? ==> left == cache.Keys
        invariant oldest.Some? ==>
                    && oldest.value in cache
                    && forall p :: p in cache && p !in left ==> cache[oldest.value].modTime <= cache[p].modTime
      {
        var key :| key in left;
        if oldest.None? || cache[key].modTime < cache[oldest.value].modTime {
          oldest := Some(key);
        }
        left := left - {key};
      }
      if oldest.Some? {
        cache := cache - {oldest.value};
      }
    }

    /** Stores an entry, making room first when the cache is full. */
    method SetCacheEntry(path: Path, entry: CacheEntry)
      requires Valid() && EntryOk(analyze, history, path, entry)
      modifies this
      ensures Valid()
      ensures !enableCache ==> cache == old(cache)
      ensures enableCache ==> path in cache && cache[path] == entry
      ensures forall p :: p in cache && p != path ==> p in old(cache) && cache[p] == old(cache)[p]
      ensures enableCache && |old(cache)| < MAX_CACHE_ENTRIES ==> cache == old(cache)[path := entry]
      ensures enableCache && |old(cache)| >= MAX_CACHE_ENTRIES ==>
                exists o :: Oldest(old(cache), o) && cache == (old(cache) - {o})[path := entry]
    {
      if !enableCache {
        return;
      }
      if |cache| >= MAX_CACHE_ENTRIES {
        ghost var before := cache;
        var oldest := EvictOldest();
        RemovingShrinks(before, oldest.value);
      }
      StoringGrows(cache, path, entry);
      cache := cache[path := entry];
    }

    method ClearCache()
      modifies this
      ensures Valid() && cache == map[]
    {
      cache := map[];
    }

    /** DetectWithCache on the Python files and notebooks the walk reports. Each file is reported as a
        fresh scan would, in the file system at the check of its cache entry or at its reading. */
    method DetectWithCache(visits: seq<Visit>)
      returns (frameworks: seq<Framework>, errors: seq<Path>, ghost seen: seq<FileSystem>)
      requires Valid() && forall v :: v in visits ==> GoodVisit(analyze, history, v)
      modifies this
      ensures Valid()
      ensures SeenIn(visits, seen) && multiset(frameworks) == FreshIn(analyze, visits, seen)
      ensures errors == Failed(analyze, visits, seen)
    {
      frameworks, errors, seen := [], [], [];
      for i := 0 to |visits|
        invariant Valid()
        invariant SeenIn(visits[..i], seen) && multiset(frameworks) == FreshIn(analyze, visits[..i], seen)
        invariant errors == Failed(analyze, visits[..i], seen)
      {
        assert visits[i] in visits;
        var found, where := DetectFile(visits[i]);
        OneMoreVisit(analyze, visits, seen, i, where);
        seen := seen + [where];
        if found.Some? {
          frameworks := frameworks + found.value;
        } else {
          errors := errors + [visits[i].path];
        }
      }
      assert visits[..|visits|] == visits;
    }

    /** There is an entry for the file, with the time and size that the file has at the check. */
    ghost predicate Hits(v: Visit)
      reads this
    {
      enableCache && v.path in cache && v.path in v.checked &&
      v.checked[v.path].modTime == cache[v.path].modTime && v.checked[v.path].size == cache[v.path].size
    }

    /** One file: from the cache if its entry is still valid, otherwise read and cached. */
    method DetectFile(v: Visit) returns (found: Option<seq<Framework>>, ghost where: FileSystem)
      requires Valid() && GoodVisit(analyze, history, v)
      modifies this
      ensures Valid()
      ensures where == v.checked || where == v.read
      ensures found.Some? <==> Found(analyze, v.path, ContentIn(where, v.path)).Some?
      ensures found.Some? ==> multiset(found.value) == FreshFrameworks(analyze, where, v.path)
      ensures old(Hits(v)) ==> where == v.checked && cache == old(cache) && found == Some(cache[v.path].frameworks)
      ensures !old(Hits(v)) ==> where == v.read
      ensures !old(Hits(v)) && enableCache && found.Some? && found.value != [] && v.path in v.stated ==>
                var s := v.stated[v.path];
                v.path in cache && cache[v.path] == CacheEntry(s.modTime, s.size, found.value)
    {
      var path := v.path;
      where := v.checked;
      var cached := GetCacheEntry(path);
      if cached.Some? {
        var valid := IsCacheValid(v.checked, path, cached.value);
        if valid {
          assert EntryOk(analyze, history, path, cached.value);
          return Some(cached.value.frameworks), where;
        }
      }
      where := v.read;
      if path !in v.read || v.read[path].content.None? {
        return None, where;
      }
      var matches := analyze(path, v.read[path].content.value);
      if matches.None? {
        return None, where;
      }
      var detected := RangeOver(matches.value);
      if enableCache && |detected| > 0 {
        if path in v.stated {
          StoredRightExactly(analyze, history, v, detected);
          SetCacheEntry(path, CacheEntry(v.stated[path].modTime, v.stated[path].size, detected));
        }
      }
      found := Some(detected);
    }
  }

  ghost predicate SeenIn(visits: seq<Visit>, seen: seq<FileSystem>) {
    |seen| == |visits| && forall i :: 0 <= i < |visits| ==> seen[i] == visits[i].checked || seen[i] == visits[i].read
  }

  /** The paths that could not be read or parsed where they were looked at. */
  function Failed(analyze: Analysis, visits: seq<Visit>, seen: seq<FileSystem>): seq<Path>
    requires |seen| == |visits|
  {
    if visits == [] then []
    else
      var n := |visits| - 1;
      Failed(analyze, visits[..n], seen[..n]) +
      if Found(analyze, visits[n].path, ContentIn(seen[n], visits[n].path)).None? then [visits[n].path] else []
  }

  lemma OneMoreVisit(analyze: Analysis, visits: seq<Visit>, seen: seq<FileSystem>, i: nat, where: FileSystem)
    requires i < |visits| && SeenIn(visits[..i], seen) && (where == visits[i].checked || where == visits[i].read)
    ensures SeenIn(visits[..i + 1], seen + [where])
    ensures FreshIn(analyze, visits[..i + 1], seen + [where])
         == FreshIn(analyze, visits[..i], seen) + FreshFrameworks(analyze, where, visits[i].path)
    ensures Failed(analyze, visits[..i + 1], seen + [where]) == Failed(analyze, visits[..i], seen) +
            if Found(analyze, visits[i].path, ContentIn(where, visits[i].path)).None? then [visits[i].path] else []
  {
    assert visits[..i + 1][..i] == visits[..i] && (seen + [where])[..i] == seen;
  }

  /** With no edit during the scan that is the cache-free scan of the one file system. */
  lemma {:induction false} FreshInOne(analyze: Analysis, visits: seq<Visit>, seen: seq<FileSystem>, fs: FileSystem)
    requires SeenIn(visits, seen) && forall v :: v in visits ==> v.checked == fs && v.read == fs
    ensures FreshIn(analyze, visits, seen) == FreshScan(analyze, fs, PathsOf(visits))
  {
    if visits != [] {
      var n := |visits| - 1;
      FreshInOne(analyze, visits[..n], seen[..n], fs);
      assert visits[n] in visits;
      assert PathsOf(visits)[..n] == PathsOf(visits[..n]);
    }
  }

  function PathsOf(visits: seq<Visit>): (paths: seq<Path>)
    ensures |paths| == |visits| && forall i :: 0 <= i < |visits| ==> paths[i] == visits[i].path
  {
    seq(|visits|, i requires 0 <= i < |visits| => visits[i].path)
  }

  lemma RemovingShrinks(before: map<Path, CacheEntry>, k: Path)
    requires k in before
    ensures |before - {k}| == |before| - 1
  {
    assert (before - {k}).Keys == before.Keys - {k};
  }

  lemma StoringGrows(before: map<Path, CacheEntry>, k: Path, e: CacheEntry)
    ensures |before[k := e]| <= |before| + 1
  {
    assert before[k := e].Keys == before.Keys + {k};
  }

  datatype Request = Scan(visits: seq<Visit>) | Clear

  ghost predicate Answers(analyze: Analysis, r: Request, answer: seq<Framework>) {
    r.Scan? ==> exists seen :: SeenIn(r.visits, seen) && multiset(answer) == FreshIn(analyze, r.visits, seen)
  }

  /** Any session of scans and cache clearings, the files changing freely in between and, but for what
      Undisturbed rules out, during the scans: every scan reports what a scan without a cache would, and
      the cache never outgrows its bound. */
  method Session(d: Detector, requests: seq<Request>) returns (answers: seq<seq<Framework>>)
    requires d.Valid()
    requires forall r, v :: r in requests && r.Scan? && v in r.visits ==> GoodVisit(d.analyze, d.history, v)
    modifies d
    ensures d.Valid() && |d.cache| <= MAX_CACHE_ENTRIES
    ensures |answers| == |requests|
    ensures forall i :: 0 <= i < |requests| ==> Answers(d.analyze, requests[i], answers[i])
  {
    answers := [];
    for i := 0 to |requests|
      invariant d.Valid() && |answers| == i
      invariant forall j :: 0 <= j < i ==> Answers(d.analyze, requests[j], answers[j])
    {
      assert requests[i] in requests;
      match requests[i] {
        case Scan(visits) =>
          var frameworks, errors, seen := d.DetectWithCache(visits);
          answers := answers + [frameworks];
        case Clear =>
          d.ClearCache();
          answers := answers + [[]];
      }
    }
  }
}

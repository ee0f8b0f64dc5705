/**
 * The process-wide model cache of `EyesModel`: artifact path -> loaded network.
 * A path is looked up first; only on a miss is its extension resolved to a
 * loader and the loader run, and the result inserted. The lock around the
 * check, the load and the insert makes the whole lookup one atomic step.
 */
module Cache {
  import opened Wrappers
  import opened Foreign
  import opened Extensions
  import opened LoaderFactory

  /** One `EyesModel` construction: its artifact path, and the files its loader would find. */
  datatype Construction = Construction(path: string, files: Files)

  /** One run of a foreign loader: on which path, against which files, and its outcome. */
  datatype Attempt = Attempt(path: string, files: Files, result: Result<Network, LoadFailure>)

  /** The cache's contents, and every loader run so far, in order. */
  datatype CacheState = CacheState(entries: map<string, Network>, attempts: seq<Attempt>)

  /** The cache at process start. */
  const Empty := CacheState(map[], [])

  /** The format a path is loaded with: `get_loader(path.split('.')[-1])`. */
  function FormatOf(path: string): (r: Result<Format, LoadError>)
    ensures r.Err? ==> r.error == UnsupportedFormat(Extension(path))
    ensures r.Ok? <==> Lower(Extension(path)) in {"h5", "pb"}
  {
    GetLoader(Extension(path))
  }

  /** The map built by inserting the network of each successful attempt, in order. */
  function Loaded(attempts: seq<Attempt>): map<string, Network>
    decreases |attempts|
  {
    if attempts == [] then map[]
    else
      var last := attempts[|attempts| - 1];
      var before := Loaded(attempts[..|attempts| - 1]);
      if last.result.Ok? then before[last.path := last.result.value] else before
  }

  /** The paths of the given attempts. */
  function AttemptPaths(attempts: seq<Attempt>): set<string> {
    set i | 0 <= i < |attempts| :: attempts[i].path
  }

  /** Only attempted paths are in the map, and every successfully loaded one is. */
  lemma {:induction false} LoadedKeys(attempts: seq<Attempt>)
    ensures Loaded(attempts).Keys <= AttemptPaths(attempts)
    ensures forall i :: 0 <= i < |attempts| && attempts[i].result.Ok? ==> attempts[i].path in Loaded(attempts)
    decreases |attempts|
  {
    if attempts != [] {
      var init := attempts[..|attempts| - 1];
      LoadedKeys(init);
      assert AttemptPaths(init) <= AttemptPaths(attempts) by {
        forall p | p in AttemptPaths(init) ensures p in AttemptPaths(attempts) {
          var i :| 0 <= i < |init| && init[i].path == p;
          assert attempts[i] == init[i];
        }
      }
      forall i | 0 <= i < |init| ensures attempts[i] == init[i] { }
    }
  }

  /** An attempt ran the loader its path's extension selects, on its path and files. */
  ghost predicate RanSelectedLoader(backend: Backend, a: Attempt) {
    FormatOf(a.path).Ok? && a.result == Loader(backend, FormatOf(a.path).value)(a.path, a.files)
  }

  /**
   * Every run used the loader its path's extension selects, and no run was
   * on a path an earlier run had already loaded successfully.
   */
  ghost predicate WellRun(backend: Backend, attempts: seq<Attempt>)
    decreases |attempts|
  {
    attempts == [] ||
      var init := attempts[..|attempts| - 1];
      var last := attempts[|attempts| - 1];
      WellRun(backend, init) && RanSelectedLoader(backend, last) && last.path !in Loaded(init)
  }

  /** Each run of a well-run sequence used its selected loader. */
  lemma {:induction false} WellRunSelected(backend: Backend, attempts: seq<Attempt>, k: nat)
    requires WellRun(backend, attempts) && k < |attempts|
    ensures RanSelectedLoader(backend, attempts[k])
    decreases |attempts|
  {
    if k < |attempts| - 1 {
      var init := attempts[..|attempts| - 1];
      WellRunSelected(backend, init, k);
      assert init[k] == attempts[k];
    }
  }

  /** In a well-run sequence, every run on a path that a later run repeats had raised. */
  lemma {:induction false} WellRunNoReload(backend: Backend, attempts: seq<Attempt>, k: nat, l: nat)
    requires WellRun(backend, attempts) && k < l < |attempts| && attempts[k].path == attempts[l].path
    ensures attempts[k].result.Err?
    decreases |attempts|
  {
    var init := attempts[..|attempts| - 1];
    assert init[k] == attempts[k];
    if l < |attempts| - 1 {
      assert init[l] == attempts[l];
      WellRunNoReload(backend, init, k, l);
    } else {
      LoadedKeys(init);
    }
  }

  /**
   * The cache invariant: the cache holds exactly the successfully loaded
   * networks, every loader run used the loader its extension selects, and
   * once a path has loaded successfully its loader never runs on it again.
   */
  ghost predicate Consistent(backend: Backend, s: CacheState) {
    s.entries == Loaded(s.attempts) && WellRun(backend, s.attempts)
  }

  /** Only paths with a supported extension are ever cached. */
  lemma ConsistentSupported(backend: Backend, s: CacheState, p: string)
    requires Consistent(backend, s) && p in s.entries
    ensures FormatOf(p).Ok?
  {
    LoadedKeys(s.attempts);
    var k :| 0 <= k < |s.attempts| && s.attempts[k].path == p;
    WellRunSelected(backend, s.attempts, k);
  }

  /**
   * One `_load_model` lookup of `path`, whose loader, if it runs, finds
   * `files`: the network or the error, and the cache afterwards.
   */
  function LoadStep(backend: Backend, s: CacheState, path: string, files: Files): (out: (Result<Network, LoadError>, CacheState))
    ensures out.0.Ok? ==> path in out.1.entries && out.1.entries[path] == out.0.value
    ensures out.0.Err? ==> out.1.entries == s.entries
    ensures out.1.entries.Keys <= s.entries.Keys + {path}
    ensures forall q :: q in s.entries ==> q in out.1.entries && out.1.entries[q] == s.entries[q]
  {
    if path in s.entries then (Ok(s.entries[path]), s)
    else
      match FormatOf(path)
      case Err(e) => (Err(e), s)
      case Ok(format) =>
        var loaded := Loader(backend, format)(path, files);
        var attempts := s.attempts + [Attempt(path, files, loaded)];
        match loaded
        case Err(failure) => (Err(LoaderRaised(failure)), CacheState(s.entries, attempts))
        case Ok(network) => (Ok(network), CacheState(s.entries[path := network], attempts))
  }

  /** A hit runs no loader, leaves the cache as it was and returns the stored entry. */
  lemma LoadHit(backend: Backend, s: CacheState, path: string, files: Files)
    requires path in s.entries
    ensures LoadStep(backend, s, path, files) == (Ok(s.entries[path]), s)
  {
  }

  /**
   * A miss on a supported path runs the selected loader once; if it returns
   * a network, exactly one key, the path, is added and bound to it, and
   * every other entry stays.
   */
  lemma LoadMissLoaded(backend: Backend, s: CacheState, path: string, files: Files)
    requires path !in s.entries && FormatOf(path).Ok?
    requires Loader(backend, FormatOf(path).value)(path, files).Ok?
    ensures var (r, s') := LoadStep(backend, s, path, files);
      var loaded := Loader(backend, FormatOf(path).value)(path, files);
      && r == Ok(loaded.value)
      && s'.entries.Keys == s.entries.Keys + {path}
      && s'.entries[path] == loaded.value
      && (forall q :: q in s.entries ==> s'.entries[q] == s.entries[q])
      && s'.attempts == s.attempts + [Attempt(path, files, loaded)]
  {
  }

  /**
   * A miss on a supported path whose loader raises propagates the loader's
   * exception; the cache holds exactly what it held, and the run is recorded.
   */
  lemma LoadMissLoaderRaised(backend: Backend, s: CacheState, path: string, files: Files)
    requires path !in s.entries && FormatOf(path).Ok?
    requires Loader(backend, FormatOf(path).value)(path, files).Err?
    ensures var (r, s') := LoadStep(backend, s, path, files);
      var loaded := Loader(backend, FormatOf(path).value)(path, files);
      && r == Err(LoaderRaised(loaded.error))
      && s'.entries == s.entries
      && s'.attempts == s.attempts + [Attempt(path, files, loaded)]
  {
  }

  /** A miss on an unsupported path raises, runs no loader, and leaves the cache exactly as it was. */
  lemma LoadUnsupported(backend: Backend, s: CacheState, path: string, files: Files)
    requires path !in s.entries && FormatOf(path).Err?
    ensures LoadStep(backend, s, path, files) == (Err(UnsupportedFormat(Extension(path))), s)
  {
  }

  /**
   * After a loader raised on a path, the same path is still a miss: a retry
   * runs the loader again, against the files it finds then.
   */
  lemma RetryRunsLoaderAgain(backend: Backend, s: CacheState, path: string, files: Files, files': Files)
    requires path !in s.entries
    requires LoadStep(backend, s, path, files).0.Err?
    requires LoadStep(backend, s, path, files).0.error.LoaderRaised?
    ensures var s1 := LoadStep(backend, s, path, files).1;
      var s2 := LoadStep(backend, s1, path, files').1;
      && path !in s1.entries
      && FormatOf(path).Ok?
      && s2.attempts == s1.attempts + [Attempt(path, files', Loader(backend, FormatOf(path).value)(path, files'))]
  {
  }

  /**
   * Recording a run of the selected loader on an uncached path, and caching
   * what it returned, keeps the cache invariant.
   */
  lemma RecordAttemptConsistent(backend: Backend, s: CacheState, a: Attempt)
    requires Consistent(backend, s)
    requires a.path !in s.entries && RanSelectedLoader(backend, a)
    ensures var attempts := s.attempts + [a];
      Consistent(backend, CacheState(if a.result.Ok? then s.entries[a.path := a.result.value] else s.entries, attempts))
  {
    assert (s.attempts + [a])[..|s.attempts|] == s.attempts;
  }

  /** A lookup keeps the cache invariant. */
  lemma LoadStepConsistent(backend: Backend, s: CacheState, path: string, files: Files)
    requires Consistent(backend, s)
    ensures Consistent(backend, LoadStep(backend, s, path, files).1)
  {
    if path !in s.entries && FormatOf(path).Ok? {
      var loaded := Loader(backend, FormatOf(path).value)(path, files);
      RecordAttemptConsistent(backend, s, Attempt(path, files, loaded));
    }
  }

  /** The paths of a run of constructions. */
  function ConstructedPaths(cs: seq<Construction>): set<string> {
    set i | 0 <= i < |cs| :: cs[i].path
  }

  /**
   * A run of lookups, one per `EyesModel` constructed in order: each
   * construction's result, and the cache at the end. Successive
   * `ModelCache.Load` (or `NewEyesModel`) calls on one cache follow this
   * function: each call's ensures is one `LoadStep` from the state the
   * previous call left, so the lemmas below carry over to the class by
   * induction on the calls.
   */
  function LoadAll(backend: Backend, s: CacheState, cs: seq<Construction>): (out: (seq<Result<Network, LoadError>>, CacheState))
    ensures |out.0| == |cs|
    decreases |cs|
  {
    if cs == [] then ([], s)
    else
      var (r, s1) := LoadStep(backend, s, cs[0].path, cs[0].files);
      var (rs, s2) := LoadAll(backend, s1, cs[1..]);
      ([r] + rs, s2)
  }

  /** A run of lookups keeps the cache invariant. */
  lemma {:induction false} LoadAllConsistent(backend: Backend, s: CacheState, cs: seq<Construction>)
    requires Consistent(backend, s)
    ensures Consistent(backend, LoadAll(backend, s, cs).1)
    decreases |cs|
  {
    if cs != [] {
      LoadStepConsistent(backend, s, cs[0].path, cs[0].files);
      LoadAllConsistent(backend, LoadStep(backend, s, cs[0].path, cs[0].files).1, cs[1..]);
    }
  }

  /** A run of lookups only ever adds entries. */
  lemma {:induction false} LoadAllGrows(backend: Backend, s: CacheState, cs: seq<Construction>)
    ensures var s' := LoadAll(backend, s, cs).1;
      s.entries.Keys <= s'.entries.Keys &&
      forall q :: q in s.entries ==> s'.entries[q] == s.entries[q]
    decreases |cs|
  {
    if cs != [] {
      LoadAllGrows(backend, LoadStep(backend, s, cs[0].path, cs[0].files).1, cs[1..]);
    }
  }

  /**
   * A run of lookups only appends loader runs, each on a path that was
   * constructed, and at most one per construction.
   */
  lemma {:induction false} LoadAllAttempts(backend: Backend, s: CacheState, cs: seq<Construction>)
    ensures var a' := LoadAll(backend, s, cs).1.attempts;
      && |s.attempts| <= |a'| <= |s.attempts| + |cs|
      && a'[..|s.attempts|] == s.attempts
      && forall k :: |s.attempts| <= k < |a'| ==> a'[k].path in ConstructedPaths(cs)
    decreases |cs|
  {
    if cs != [] {
      var s1 := LoadStep(backend, s, cs[0].path, cs[0].files).1;
      LoadAllAttempts(backend, s1, cs[1..]);
      var a' := LoadAll(backend, s, cs).1.attempts;
      assert ConstructedPaths(cs[1..]) <= ConstructedPaths(cs) by {
        forall p | p in ConstructedPaths(cs[1..]) ensures p in ConstructedPaths(cs) {
          var i :| 0 <= i < |cs[1..]| && cs[1..][i].path == p;
          assert cs[i + 1].path == p;
        }
      }
      assert cs[0].path in ConstructedPaths(cs);
      assert s1.attempts[..|s.attempts|] == s.attempts;
      assert a'[..|s1.attempts|] == s1.attempts;
      assert a'[..|s.attempts|] == s1.attempts[..|s.attempts|];
      forall k | |s.attempts| <= k < |s1.attempts| ensures a'[k].path == cs[0].path {
        assert a'[k] == s1.attempts[k];
      }
    }
  }

  /** The paths of the constructions whose result is a network. */
  function OkPaths(cs: seq<Construction>, rs: seq<Result<Network, LoadError>>): set<string>
    requires |rs| == |cs|
  {
    set i | 0 <= i < |cs| && rs[i].Ok? :: cs[i].path
  }

  /** The successful paths of a run are those of its first construction and of the rest. */
  lemma OkPathsCons(cs: seq<Construction>, r: Result<Network, LoadError>, rest: seq<Result<Network, LoadError>>)
    requires |cs| >= 1 && |rest| == |cs| - 1
    ensures OkPaths(cs, [r] + rest) == OkPaths(cs[1..], rest) + (if r.Ok? then {cs[0].path} else {})
  {
    var rs := [r] + rest;
    forall p | p in OkPaths(cs, rs) ensures p in OkPaths(cs[1..], rest) + (if r.Ok? then {cs[0].path} else {}) {
      var i :| 0 <= i < |cs| && rs[i].Ok? && cs[i].path == p;
      if i > 0 { assert rest[i - 1] == rs[i] && cs[1..][i - 1] == cs[i]; }
    }
    forall p | p in OkPaths(cs[1..], rest) ensures p in OkPaths(cs, rs) {
      var i :| 0 <= i < |cs[1..]| && rest[i].Ok? && cs[1..][i].path == p;
      assert rs[i + 1] == rest[i] && cs[i + 1] == cs[1..][i];
    }
  }

  /**
   * After a run of lookups the cache holds exactly the paths it held before
   * plus the paths of the constructions that succeeded.
   */
  lemma {:induction false} LoadAllKeys(backend: Backend, s: CacheState, cs: seq<Construction>)
    ensures var (rs, s') := LoadAll(backend, s, cs);
      s'.entries.Keys == s.entries.Keys + OkPaths(cs, rs)
    decreases |cs|
  {
    if cs != [] {
      var (r, s1) := LoadStep(backend, s, cs[0].path, cs[0].files);
      var rest := LoadAll(backend, s1, cs[1..]);
      LoadAllKeys(backend, s1, cs[1..]);
      assert LoadAll(backend, s, cs) == ([r] + rest.0, rest.1);
      OkPathsCons(cs, r, rest.0);
    }
  }

  /** Each construction that succeeded holds the network that stays cached for its path. */
  lemma {:induction false} LoadAllOkIsCached(backend: Backend, s: CacheState, cs: seq<Construction>, i: nat)
    requires i < |cs| && LoadAll(backend, s, cs).0[i].Ok?
    ensures var s' := LoadAll(backend, s, cs).1;
      cs[i].path in s'.entries && s'.entries[cs[i].path] == LoadAll(backend, s, cs).0[i].value
    decreases |cs|
  {
    var (r, s1) := LoadStep(backend, s, cs[0].path, cs[0].files);
    var rest := LoadAll(backend, s1, cs[1..]);
    assert LoadAll(backend, s, cs) == ([r] + rest.0, rest.1);
    if i == 0 {
      LoadAllGrows(backend, s1, cs[1..]);
    } else {
      assert LoadAll(backend, s, cs).0[i] == rest.0[i - 1];
      LoadAllOkIsCached(backend, s1, cs[1..], i - 1);
    }
  }

  /**
   * Each construction that raised had a path not cached at the start, and
   * raised either the unsupported-format error or the exception of the
   * selected loader run on its own path and files.
   */
  lemma {:induction false} LoadAllErrCases(backend: Backend, s: CacheState, cs: seq<Construction>, i: nat)
    requires i < |cs| && LoadAll(backend, s, cs).0[i].Err?
    ensures cs[i].path !in s.entries
    ensures var r := LoadAll(backend, s, cs).0[i];
      || (FormatOf(cs[i].path).Err? && r == Err(UnsupportedFormat(Extension(cs[i].path))))
      || (FormatOf(cs[i].path).Ok? &&
          var load := Loader(backend, FormatOf(cs[i].path).value)(cs[i].path, cs[i].files);
          load.Err? && r == Err(LoaderRaised(load.error)))
    decreases |cs|
  {
    var (r, s1) := LoadStep(backend, s, cs[0].path, cs[0].files);
    var rest := LoadAll(backend, s1, cs[1..]);
    assert LoadAll(backend, s, cs) == ([r] + rest.0, rest.1);
    if i > 0 {
      assert LoadAll(backend, s, cs).0[i] == rest.0[i - 1];
      LoadAllErrCases(backend, s1, cs[1..], i - 1);
    }
  }

  /** Every later construction of a path that is already cached gets the cached network. */
  lemma {:induction false} LoadAllCachedHits(backend: Backend, s: CacheState, cs: seq<Construction>, i: nat)
    requires i < |cs| && cs[i].path in s.entries
    ensures LoadAll(backend, s, cs).0[i] == Ok(s.entries[cs[i].path])
    decreases |cs|
  {
    var (r, s1) := LoadStep(backend, s, cs[0].path, cs[0].files);
    var rest := LoadAll(backend, s1, cs[1..]);
    assert LoadAll(backend, s, cs) == ([r] + rest.0, rest.1);
    if i > 0 {
      assert LoadAll(backend, s, cs).0[i] == rest.0[i - 1];
      LoadAllCachedHits(backend, s1, cs[1..], i - 1);
    }
  }

  /**
   * Once a construction of a path has succeeded, every later construction
   * with the same path string gets the identical network, whatever files it
   * would find. A loader run again on changed files could return another
   * network, so the sharing is the cache's doing: together with
   * `LoadAllOkIsCached` and `LoadsOncePerPath`, no second load happens.
   */
  lemma {:induction false} SamePathSameNetwork(backend: Backend, s: CacheState, cs: seq<Construction>, i: nat, j: nat)
    requires i <= j < |cs| && cs[i].path == cs[j].path
    requires LoadAll(backend, s, cs).0[i].Ok?
    ensures LoadAll(backend, s, cs).0[j] == LoadAll(backend, s, cs).0[i]
    decreases |cs|
  {
    var (r, s1) := LoadStep(backend, s, cs[0].path, cs[0].files);
    var rest := LoadAll(backend, s1, cs[1..]);
    assert LoadAll(backend, s, cs) == ([r] + rest.0, rest.1);
    if i == 0 {
      if j > 0 {
        assert LoadAll(backend, s, cs).0[j] == rest.0[j - 1];
        LoadAllCachedHits(backend, s1, cs[1..], j - 1);
      }
    } else {
      assert LoadAll(backend, s, cs).0[i] == rest.0[i - 1];
      assert LoadAll(backend, s, cs).0[j] == rest.0[j - 1];
      SamePathSameNetwork(backend, s1, cs[1..], i - 1, j - 1);
    }
  }

  /**
   * Started from an empty cache, the loaders run only on constructed paths
   * with a supported extension, the cache holds exactly the networks they
   * returned, and a path whose load succeeded is never loaded again: without
   * loader failures, each distinct path is loaded at most once.
   */
  lemma LoadsOncePerPath(backend: Backend, cs: seq<Construction>)
    ensures var s' := LoadAll(backend, Empty, cs).1;
      && s'.entries == Loaded(s'.attempts)
      && (forall k :: 0 <= k < |s'.attempts| ==>
            s'.attempts[k].path in ConstructedPaths(cs) && FormatOf(s'.attempts[k].path).Ok?)
      && (forall k, l :: 0 <= k < l < |s'.attempts| && s'.attempts[k].path == s'.attempts[l].path ==>
            s'.attempts[k].result.Err?)
  {
    LoadAllConsistent(backend, Empty, cs);
    LoadAllAttempts(backend, Empty, cs);
    var a := LoadAll(backend, Empty, cs).1.attempts;
    forall k | 0 <= k < |a| ensures FormatOf(a[k].path).Ok? {
      WellRunSelected(backend, a, k);
    }
    forall k, l | 0 <= k < l < |a| && a[k].path == a[l].path ensures a[k].result.Err? {
      WellRunNoReload(backend, a, k, l);
    }
  }

  /** Paths that differ only in case select the same loader format. */
  lemma FormatIgnoresCase(p: string, q: string)
    requires Lower(p) == Lower(q)
    ensures FormatOf(p) == Ok(Keras) <==> FormatOf(q) == Ok(Keras)
    ensures FormatOf(p) == Ok(SavedModel) <==> FormatOf(q) == Ok(SavedModel)
  {
    ExtensionOfLowered(p);
    ExtensionOfLowered(q);
  }

  /**
   * Paths that differ only in case are separate keys: with one of them
   * cached, looking the other up is still a miss and runs its loader.
   */
  lemma CaseSensitiveKeys(backend: Backend, s: CacheState, p: string, q: string, files: Files)
    requires Consistent(backend, s)
    requires p in s.entries && q !in s.entries && Lower(p) == Lower(q)
    ensures FormatOf(q).Ok?
    ensures LoadStep(backend, s, q, files).1.attempts ==
      s.attempts + [Attempt(q, files, Loader(backend, FormatOf(q).value)(q, files))]
  {
    ConsistentSupported(backend, s, p);
    FormatIgnoresCase(p, q);
  }

  /** Lowering a path lowers its extension and leaves the dots where they are. */
  lemma ExtensionOfLowered(path: string)
    ensures Extension(Lower(path)) == Lower(Extension(path))
  {
    var l := Lower(path);
    var e := Extension(path);
    var le := Lower(e);
    assert forall k :: 0 <= k < |path| ==> (l[k] == '.' <==> path[k] == '.');
    var cut := |path| - |e|;
    assert l[cut..] == le by {
      forall k | 0 <= k < |e| ensures l[cut + k] == le[k] { assert path[cut + k] == e[k]; }
    }
    if |le| < |l| {
      assert l[|l| - |le| - 1] == '.';
    }
    ExtensionUnique(l, le);
  }

  /**
   * The cache object shared by the `EyesModel`s that are given it (the class
   * attribute `_model_cache`), over a fixed pair of foreign loaders.
   */
  class ModelCache {
    const backend: Backend
    var entries: map<string, Network>
    /** Every loader run so far, in order. */
    ghost var attempts: seq<Attempt>

    ghost function State(): CacheState
      reads this
    {
      CacheState(entries, attempts)
    }

    ghost predicate Valid()
      reads this
    {
      Consistent(backend, State())
    }

    constructor (backend: Backend)
      ensures Valid() && this.backend == backend && State() == Empty
    {
      this.backend := backend;
      entries := map[];
      attempts := [];
    }

    /** `EyesModel._load_model` for `path`, under the lock; a loader that runs finds `files`. */
    method Load(path: string, files: Files) returns (r: Result<Network, LoadError>)
      requires Valid()
      modifies this
      ensures Valid()
      ensures (r, State()) == LoadStep(backend, old(State()), path, files)
      ensures r.Ok? ==> path in entries && r.value == entries[path]
      ensures r.Err? ==> entries == old(entries)
    {
      LoadStepConsistent(backend, State(), path, files);
      if path !in entries {
        var extension := Extension(path);
        var loader := GetLoader(extension);
        if loader.Err? {
          return Err(loader.error);
        }
        var loaded := Loader(backend, loader.value)(path, files);
        attempts := attempts + [Attempt(path, files, loaded)];
        if loaded.Err? {
          return Err(LoaderRaised(loaded.error));
        }
        entries := entries[path := loaded.value];
      }
      r := Ok(entries[path]);
    }
  }
}

# Eye2 classifier orchestration, modelled in Dafny

This project models the inference-orchestration core of Eye2's retinal
screening backend, `diagnose/classifier/classifier_component.py`:

- **ModelLoaderFactory**: a fixed table from a lower-cased file-extension
  tag (`h5`, `pb`) to a network loader. Any other tag raises
  `ValueError("Unsupported model format: <tag>")`.
- **EyesModel** and its class-wide model cache. Constructing an `EyesModel`
  looks its artifact path up in the cache. Only on a miss does it take the
  text after the last `.` of the path, ask the factory for a loader, run the
  loader and insert the result. The model then binds the cached network to a
  preprocessing strategy, and `diagnose(left, right)` runs strategy and
  network on each eye.
- **Diagnoser**: the ordered registry of models (`add_model` appends) and
  `predict`, which maps `diagnose` over the registry in registration order.

Files, one module each:

- `wrappers.dfy`: `Result`.
- `foreign.dfy`: the opaque values the core passes around. These are images,
  per-image network output (`Scores`), strategies (`Image -> Image`), loaded
  networks (`Image -> Scores`) and the artifact files a loader reads
  (`Files`, path to bytes).
- `extensions.dfy`: `str.split('.')` and the extension `split('.')[-1]`.
- `loader_factory.dfy`: `str.lower`, the loader table and `get_loader`.
- `model_cache.dfy`: `LoadStep`, a pure function that specifies one
  `_load_model` lookup. Also `LoadAll`, a run of lookups in construction
  order, the lemmas about both, and the `ModelCache` class. The class holds
  the cache as a `map` field, and its `Load` method is proved against
  `LoadStep`.
- `eyes_model.dfy`: the `EyesModel` value, `diagnose`, and construction.
- `diagnoser.dfy`: the `Diagnoser` class and the order-preserving map behind
  `predict`.

Modelling choices:

- The class attribute `_model_cache` becomes one `ModelCache` object, which
  `NewEyesModel` takes as a parameter. The source has exactly one cache per
  process. So sharing one `ModelCache` among all constructions is the
  caller's side of the model: `NewEyesModel` itself accepts any cache.
- The foreign loaders `tf.keras.models.load_model` and `tf.saved_model.load`
  are the two functions of a `Backend` value. This value is fixed when the
  cache is created, as the class-level table is in the source.
- A loader reads the file system, which is outside the program. Each loader
  is therefore a function of the path and of the `Files` it finds when it
  runs, and it returns either a network or the exception it raised
  (`LoadFailure`). The files are a parameter of each construction.
- `ModelCache` has a ghost field `attempts`. It lists every loader run, in
  order: the path, the files the loader found, and its outcome. This lets
  "loaded at most once per path" and "a failed load is retried" be stated.
- `get_loader` returns a `Format` tag, and `Loader(backend, format)` is the
  table's lambda by definition: `Keras` selects the `h5` loader and
  `SavedModel` the `pb` loader. `LoaderTable` states what the table holds.
- In `_load_model`, the `if loader:` test at line 53 is always true, because
  a returned lambda is truthy. The model therefore inserts whenever
  `get_loader` returns and the loader returns a network.
- The extension is checked only on a cache miss, because the membership test
  comes first. A path that is already cached is never checked again. No
  path with an unsupported extension can be in the cache
  (`Cache.ConsistentSupported`). A construction that raises, whether from
  `get_loader` or from the loader, never writes an entry. The assignment at
  line 54 evaluates `loader(path)` before it stores anything.
- `EyesModel.Diagnose` is the two-eye composition by definition: each image
  through the strategy, then the network. What it promises is stated by
  `DiagnoseEyesIndependent` and `DiagnoseSwapsWithEyes`.
- An `EyesModel` never changes after `__init__`, so it is a datatype value.
  Its construction can raise, so it is a method returning a `Result`.
- `predict` is a function over the `Diagnoser`'s `models` field.
  `executor.map` yields results in input order, whatever order the threads
  finish in.

## Model

| member | source | states |
|---|---|---|
| `Extensions.Split` | diagnose/classifier/classifier_component.py:51 | `split(sep)` gives at least one piece, and no piece contains the separator |
| `Extensions.JoinSplit` | diagnose/classifier/classifier_component.py:51 | joining the pieces of a split with the separator gives back the original string |
| `Extensions.SplitJoin` | diagnose/classifier/classifier_component.py:51 | splitting a join of separator-free pieces gives back exactly those pieces |
| `Extensions.Extension` | diagnose/classifier/classifier_component.py:51 | `split('.')[-1]` is a suffix of the path with no `.`, and it is preceded by a `.` unless it is the whole path |
| `Extensions.ExtensionUnique` | diagnose/classifier/classifier_component.py:51 | any string with those three properties is the extension, so they define it |
| `Extensions.DotlessPathIsItsOwnExtension` | diagnose/classifier/classifier_component.py:51 | a path with no `.` is itself the tag that gets looked up |
| `Extensions.ExtensionAfterLastDot` | diagnose/classifier/classifier_component.py:51 | `stem + "." + ext` has extension `ext` whenever `ext` has no `.`, whatever dots the stem holds |
| `LoaderFactory.LowerChar` | diagnose/classifier/classifier_component.py:32 | an upper-case ASCII letter becomes its lower-case letter, every other character is kept, and no ASCII upper-case letter comes out |
| `LoaderFactory.Lower` | diagnose/classifier/classifier_component.py:32 | `lower()` keeps the length and lowers every character in place |
| `LoaderFactory.LowerIdempotent` | diagnose/classifier/classifier_component.py:32 | lowering twice is lowering once |
| `LoaderFactory.GetLoader` | diagnose/classifier/classifier_component.py:24-35 | the Keras loader exactly when the tag lowers to `h5`, the SavedModel loader exactly when it lowers to `pb`, and otherwise the unsupported-format error carrying the tag as given |
| `LoaderFactory.GetLoaderIgnoresCase` | diagnose/classifier/classifier_component.py:32-35 | tags that lower to the same text are accepted or rejected together, and when accepted they get the same loader |
| `LoaderFactory.GetLoaderOfLowered` | diagnose/classifier/classifier_component.py:32-35 | a tag and its lower-cased form select the same loader |
| `LoaderFactory.AcceptedTags` | diagnose/classifier/classifier_component.py:24-35 | the accepted tags are exactly `h5`, `H5`, `pb`, `pB`, `Pb` and `PB` |
| `LoaderFactory.LoaderTable` | diagnose/classifier/classifier_component.py:24-28 | the table has exactly the keys `h5` and `pb`, bound to the Keras and the SavedModel loader |
| `Cache.FormatOf` | diagnose/classifier/classifier_component.py:51-52 | a path's loader is found exactly when its lower-cased extension is `h5` or `pb`, and the error names the extension |
| `Cache.LoadedKeys` | diagnose/classifier/classifier_component.py:54 | the map built from a sequence of loader runs holds only paths that were run, and holds every path whose run returned a network |
| `Cache.WellRunSelected` | diagnose/classifier/classifier_component.py:50-54 | in a well-formed log of loader runs, every run used the loader its path's extension selects |
| `Cache.WellRunNoReload` | diagnose/classifier/classifier_component.py:50-54 | in a well-formed log, a run that an earlier run on the same path precedes comes only after that earlier run raised |
| `Cache.ConsistentSupported` | diagnose/classifier/classifier_component.py:50-54 | under the cache invariant, every cached path has a supported extension |
| `Cache.LoadStep` | diagnose/classifier/classifier_component.py:48-55 | one lookup: a returned network is the one cached for the path afterwards; a raise leaves the entries exactly as before; only the looked-up path can be added; every earlier entry is kept unchanged |
| `Cache.LoadHit` | diagnose/classifier/classifier_component.py:50-55 | on a hit no loader runs, the cache stays as it was, and the stored entry is returned |
| `Cache.LoadMissLoaded` | diagnose/classifier/classifier_component.py:50-55 | a miss on a supported path whose loader returns a network adds exactly one key, the path, bound to that network; every other entry is unchanged, the network is returned, and the run is recorded |
| `Cache.LoadMissLoaderRaised` | diagnose/classifier/classifier_component.py:50-54 | a miss on a supported path whose loader raises propagates that exception, leaves the entries exactly as before, and records the run |
| `Cache.LoadUnsupported` | diagnose/classifier/classifier_component.py:50-54 | a miss on an unsupported path raises the unsupported-format error, runs no loader, and leaves the cache exactly as before |
| `Cache.RetryRunsLoaderAgain` | diagnose/classifier/classifier_component.py:50-54 | after a loader raised on a path, the path is still uncached, and the next lookup of it runs the loader again on the files it finds then |
| `Cache.RecordAttemptConsistent` | diagnose/classifier/classifier_component.py:50-54 | recording a run of the selected loader on an uncached path, and caching what it returned, keeps the cache invariant |
| `Cache.LoadStepConsistent` | diagnose/classifier/classifier_component.py:48-55 | a lookup keeps the invariant: the cache holds exactly the networks the loaders returned, each run used the loader its extension selects, and no path is loaded again after a successful load |
| `Cache.LoadAll` | diagnose/classifier/classifier_component.py:43-55 | a sequence of constructions gives one result per construction |
| `Cache.LoadAllConsistent` | diagnose/classifier/classifier_component.py:43-55 | any sequence of constructions keeps that invariant |
| `Cache.LoadAllGrows` | diagnose/classifier/classifier_component.py:43-55 | any sequence of constructions only adds entries |
| `Cache.LoadAllAttempts` | diagnose/classifier/classifier_component.py:43-55 | a sequence of constructions only appends loader runs, no more new runs than constructions, each on a constructed path |
| `Cache.OkPathsCons` | diagnose/classifier/classifier_component.py:43-55 | the successful paths of a sequence are those of its first construction and those of the rest |
| `Cache.LoadAllKeys` | diagnose/classifier/classifier_component.py:43-55 | after a sequence of constructions, the cached paths are the earlier ones plus exactly the paths of the constructions that succeeded |
| `Cache.LoadAllOkIsCached` | diagnose/classifier/classifier_component.py:43-55 | every construction that succeeded holds the network that stays cached for its path |
| `Cache.LoadAllErrCases` | diagnose/classifier/classifier_component.py:43-55 | every construction that raised had an uncached path. It raised either the unsupported-format error naming its extension, or, for a supported extension, exactly the exception that the selected loader raised when run on that construction's path and files |
| `Cache.LoadAllCachedHits` | diagnose/classifier/classifier_component.py:43-55 | every construction of a path that was cached at the start gets the cached network |
| `Cache.SamePathSameNetwork` | diagnose/classifier/classifier_component.py:43-55 | once a construction of a path has succeeded, every later construction with the same path string gets the identical network, whatever files it would find |
| `Cache.LoadsOncePerPath` | diagnose/classifier/classifier_component.py:40-55 | from an empty cache, the loaders run only on constructed paths with a supported extension, the cache holds exactly what they returned, and a path is never loaded again after a successful load |
| `Cache.FormatIgnoresCase` | diagnose/classifier/classifier_component.py:51-52 | paths that differ only in letter case select the same loader |
| `Cache.ExtensionOfLowered` | diagnose/classifier/classifier_component.py:51-52 | lowering a path, then taking its extension, gives the lowered extension |
| `Cache.CaseSensitiveKeys` | diagnose/classifier/classifier_component.py:50-54 | with one path cached, a different path that differs from it only in case is still a miss: it has a supported extension and its lookup runs the loader on it |
| `Cache.ModelCache.constructor` | diagnose/classifier/classifier_component.py:40 | the cache starts empty and no loader has run |
| `Cache.ModelCache.Load` | diagnose/classifier/classifier_component.py:48-55 | `_load_model` as one atomic step: its result and the new cache are exactly `LoadStep` of the old cache, the cache invariant is kept, a returned network is the one now cached for the path, and a raise leaves the entries as they were |
| `Eyes.NewEyesModel` | diagnose/classifier/classifier_component.py:43-46 | construction succeeds exactly when the cache lookup does; it binds the path, the strategy and the cached network, and updates the cache as the lookup does; otherwise it raises the lookup's error |
| `Eyes.DiagnoseEyesIndependent` | diagnose/classifier/classifier_component.py:59-64 | the left result depends only on the left image, and the right result only on the right |
| `Eyes.DiagnoseSwapsWithEyes` | diagnose/classifier/classifier_component.py:59-64 | both eyes go through the same strategy and network, so swapping the images swaps the results |
| `Ensemble.DiagnoseAll` | diagnose/classifier/classifier_component.py:18 | the map over the models has one result per model, and the i-th result is the i-th model's `diagnose` |
| `Ensemble.DiagnoseAllAppend` | diagnose/classifier/classifier_component.py:12-19 | adding a model appends its diagnosis and keeps every earlier result in place |
| `Ensemble.Diagnoser.constructor` | diagnose/classifier/classifier_component.py:9-10 | the registry starts empty |
| `Ensemble.Diagnoser.AddModel` | diagnose/classifier/classifier_component.py:12-13 | the registry grows by one, the new model is last, and the earlier prefix is unchanged; every later `predict` is the earlier one plus the new model's diagnosis |
| `Ensemble.Diagnoser.Predict` | diagnose/classifier/classifier_component.py:15-19 | the result has the registry's length, and its i-th element is `models[i].diagnose(left, right)`, in registration order whatever order the threads finish in |

## Left out

- Preprocessing strategies (`diagnose/classifier/preprocessingStrategy.py`): OpenCV image transforms and one floating-point normalisation. A strategy is an opaque `Image -> Image` function.
- TensorFlow loading and inference (`tf.keras.models.load_model`, `tf.saved_model.load`, `model.predict`): foreign calls. They are the functions of a `Backend` and the `Network` function type.
- The batch dimension: `np.expand_dims(x, axis=0)` before `predict` and `[0]` after it are folded into the `Network` function.
- Exceptions raised inside OpenCV or during TensorFlow inference: strategies and networks are total here. In the source, `list(executor.map(...))` re-raises the first failing model's exception, in registry order, from `predict`. It does not discard it. This is not modelled. Exceptions raised by the loaders are modelled, as `LoaderRaised`.
- `ThreadPoolExecutor` and `threading.Lock`: only concurrency. `predict` is a sequential order-preserving map, and `_load_model` is one atomic method.
- The `Singleton` metaclass: `diagnose/classifier/singleton.py` is not part of this model. One `Diagnoser` object stands for the single instance.
- The alternate `diagnose` with `/ 255.0` normalisation (lines 69-92): it sits inside a string literal, so it never runs.
- Object identity of loaded networks: two networks are "identical" when they are equal values. The ghost `attempts` log shows that no path is loaded again after a successful load.
- LoaderFactory.Lower: does not model Python's full Unicode `str.lower`, only ASCII letters. No non-ASCII character lowers to `h`, `5`, `p` or `b`, so the set of accepted tags is unchanged.
- LoaderFactory.LowerChar: lowers only the ASCII letters `A` to `Z` and keeps every other character. Python also lowers non-ASCII letters, for example `Ä` to `ä`. The accepted tags are unaffected, for the reason given for `Lower`.
- The Django views, models, serializers and routing (`diagnose/views.py`, `diagnose/models.py`, `diagnose/serializers.py`, `diagnose/urls.py`): persistence, REST handling and constant stubs outside this core.
- Error wrapping per ensemble member, deadlines and cancellation: the source has none of these.

/**
 * EyesModel: one cached network bound to one preprocessing strategy,
 * diagnosing a left/right pair of fundus images.
 */
module Eyes {
  import opened Wrappers
  import opened Foreign
  import opened LoaderFactory
  import opened Cache

  /** The per-eye outputs of one model: (left result, right result). */
  type Diagnosis = (Scores, Scores)

  /**
   * An `EyesModel` after construction: its artifact path, its strategy and
   * the network the cache resolved for the path. None of these change later.
   */
  datatype EyesModel = EyesModel(path: string, strategy: Strategy, model: Network) {

    /**
     * `diagnose(left, right)`: each eye preprocessed with the bound strategy
     * and run through the bound network.
     */
    function Diagnose(left: Image, right: Image): Diagnosis
    {
      var leftProcessed := strategy(left);
      var rightProcessed := strategy(right);
      (model(leftProcessed), model(rightProcessed))
    }
  }

  /** The left result depends only on the left image, the right only on the right. */
  lemma DiagnoseEyesIndependent(m: EyesModel, left: Image, left': Image, right: Image, right': Image)
    ensures m.Diagnose(left, right).0 == m.Diagnose(left, right').0
    ensures m.Diagnose(left, right).1 == m.Diagnose(left', right).1
  {
  }

  /** Both eyes go through the same pipeline: swapping the images swaps the results. */
  lemma DiagnoseSwapsWithEyes(m: EyesModel, left: Image, right: Image)
    ensures m.Diagnose(right, left) == (m.Diagnose(left, right).1, m.Diagnose(left, right).0)
  {
  }

  /**
   * `EyesModel(model_path, strategy)`: resolve the network through the given
   * cache, whose loader, if it runs, finds `files`; the construction raises
   * exactly when the lookup does.
   */
  method NewEyesModel(cache: ModelCache, path: string, strategy: Strategy, files: Files) returns (r: Result<EyesModel, LoadError>)
    requires cache.Valid()
    modifies cache
    ensures cache.Valid()
    ensures cache.State() == LoadStep(cache.backend, old(cache.State()), path, files).1
    ensures r.Ok? <==> LoadStep(cache.backend, old(cache.State()), path, files).0.Ok?
    ensures r.Ok? ==> r.value == EyesModel(path, strategy, LoadStep(cache.backend, old(cache.State()), path, files).0.value)
    ensures r.Ok? ==> r.value.model == cache.entries[path]
    ensures r.Err? ==> r.error == LoadStep(cache.backend, old(cache.State()), path, files).0.error
  {
    var model := cache.Load(path, files);
    if model.Err? {
      return Err(model.error);
    }
    r := Ok(EyesModel(path, strategy, model.value));
  }
}

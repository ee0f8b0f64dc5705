/**
 * Diagnoser: the ordered registry of eyes models and the ensemble
 * prediction over it. The thread pool's `executor.map` yields results in
 * input order, so the ensemble is an order-preserving map over the registry.
 */
module Ensemble {
  import opened Foreign
  import opened Eyes

  /** Every model's diagnosis of the pair, in the order the models are given. */
  function DiagnoseAll(models: seq<EyesModel>, left: Image, right: Image): (results: seq<Diagnosis>)
    ensures |results| == |models|
    ensures forall i :: 0 <= i < |models| ==> results[i] == models[i].Diagnose(left, right)
  {
    if models == [] then []
    else [models[0].Diagnose(left, right)] + DiagnoseAll(models[1..], left, right)
  }

  /** Registering one more model appends its diagnosis and keeps every earlier one. */
  lemma {:induction false} DiagnoseAllAppend(models: seq<EyesModel>, model: EyesModel, left: Image, right: Image)
    ensures DiagnoseAll(models + [model], left, right) ==
      DiagnoseAll(models, left, right) + [model.Diagnose(left, right)]
    decreases |models|
  {
    if models != [] {
      assert (models + [model])[1..] == models[1..] + [model];
      DiagnoseAllAppend(models[1..], model, left, right);
    }
  }

  /** The process-wide diagnoser: registered models in registration order. */
  class Diagnoser {
    var models: seq<EyesModel>

    constructor ()
      ensures models == []
    {
      models := [];
    }

    /** `add_model`: the new model goes last; the registered prefix is unchanged. */
    method AddModel(model: EyesModel)
      modifies this
      ensures models == old(models) + [model]
      ensures |models| == |old(models)| + 1 && models[..|old(models)|] == old(models)
      ensures forall left, right :: Predict(left, right) == old(Predict(left, right)) + [model.Diagnose(left, right)]
    {
      ghost var before := models;
      models := models + [model];
      forall left, right
        ensures Predict(left, right) == DiagnoseAll(before, left, right) + [model.Diagnose(left, right)]
      {
        DiagnoseAllAppend(before, model, left, right);
      }
    }

    /** `predict(left, right)`: one diagnosis per registered model, in registration order. */
    function Predict(left: Image, right: Image): (results: seq<Diagnosis>)
      reads this
      ensures |results| == |models|
      ensures forall i :: 0 <= i < |models| ==> results[i] == models[i].Diagnose(left, right)
    {
      DiagnoseAll(models, left, right)
    }
  }
}

/**
 The bookkeeping of pyaerocom-plotting's `PyaModelData`: a nested map
 model name -> variable name -> gridded data, beside two lists of model and
 variable names. Each operation returns the new state instead of mutating
 the object. The gridded data is opaque apart from the two names the data
 setter reads from it.
 */
module Readers {
  import opened Wrappers

  /** A pyaerocom GriddedData object: its `data_id` (the model it belongs
      to), its `var_name` and the cube itself, of a type left open. */
  datatype GriddedData<Cube> = GriddedData(dataId: string, varName: string, cube: Cube)

  /** The state of one PyaModelData object. */
  datatype ModelData<Cube> = ModelData(
    models: seq<string>,
    variables: seq<string>,
    data: map<string, map<string, GriddedData<Cube>>>)

  /** What the nested map holds for a model and a variable. */
  function Lookup<Cube>(s: ModelData<Cube>, model: string, varName: string): Option<GriddedData<Cube>>
  {
    if model in s.data && varName in s.data[model] then Some(s.data[model][varName]) else None
  }

  /** A fresh object. */
  function Init<Cube>(): ModelData<Cube>
  {
    ModelData([], [], map[])
  }

  /** `add_model_data`: record the names in both lists, then store the data
      under (model, variable), creating the model's inner map when absent. */
  function AddModelData<Cube>(s: ModelData<Cube>, model: string, varName: string, d: GriddedData<Cube>): (r: ModelData<Cube>)
    ensures |r.models| == |s.models| + 1 && r.models[..|s.models|] == s.models && r.models[|s.models|] == model
    ensures |r.variables| == |s.variables| + 1 && r.variables[..|s.variables|] == s.variables
      && r.variables[|s.variables|] == varName
    ensures multiset(r.models)[model] == multiset(s.models)[model] + 1
    ensures Lookup(r, model, varName) == Some(d)
    ensures forall v :: v != varName ==> Lookup(r, model, v) == Lookup(s, model, v)
    ensures forall m, v :: m != model ==> Lookup(r, m, v) == Lookup(s, m, v)
    ensures r.data.Keys == s.data.Keys + {model}
  {
    var inner := if model in s.data then s.data[model] else map[];
    ModelData(s.models + [model], s.variables + [varName], s.data[model := inner[varName := d]])
  }

  /** The `data` setter: the model named by the value's `data_id` gets a new
      inner map holding only this value, under its `var_name`. */
  function SetData<Cube>(s: ModelData<Cube>, val: GriddedData<Cube>): (r: ModelData<Cube>)
    ensures r.models == s.models && r.variables == s.variables
    ensures Lookup(r, val.dataId, val.varName) == Some(val)
    ensures forall v :: v != val.varName ==> Lookup(r, val.dataId, v).None?
    ensures forall m, v :: m != val.dataId ==> Lookup(r, m, v) == Lookup(s, m, v)
    ensures r.data.Keys == s.data.Keys + {val.dataId}
  {
    s.(data := s.data[val.dataId := map[val.varName := val]])
  }

  /** The `models` setter appends its argument. */
  function SetModels<Cube>(s: ModelData<Cube>, model: string): (r: ModelData<Cube>)
    ensures |r.models| == |s.models| + 1 && r.models[..|s.models|] == s.models && r.models[|s.models|] == model
    ensures r.variables == s.variables && r.data == s.data
  {
    s.(models := s.models + [model])
  }

  /** The `variables` setter appends its argument. */
  function SetVariables<Cube>(s: ModelData<Cube>, varName: string): (r: ModelData<Cube>)
    ensures |r.variables| == |s.variables| + 1 && r.variables[..|s.variables|] == s.variables
      && r.variables[|s.variables|] == varName
    ensures r.models == s.models && r.data == s.data
  {
    s.(variables := s.variables + [varName])
  }

  // ---------------------------------------------------------------------
  // Properties
  // ---------------------------------------------------------------------

  /** A fresh object lists nothing and stores nothing. */
  lemma InitIsEmpty<Cube>(model: string, varName: string)
    ensures Init<Cube>().models == [] && Init<Cube>().variables == []
    ensures Init<Cube>().data == map[]
    ensures Lookup(Init<Cube>(), model, varName).None?
  {
  }

  /** Every listed model has an entry in the nested map. */
  ghost predicate ListedModelsStored<Cube>(s: ModelData<Cube>)
  {
    forall i :: 0 <= i < |s.models| ==> s.models[i] in s.data
  }

  /** Every model with an entry in the nested map is listed. */
  ghost predicate StoredModelsListed<Cube>(s: ModelData<Cube>)
  {
    forall m :: m in s.data ==> m in s.models
  }

  /** `add_model_data` keeps the list of models and the nested map in step,
      in both directions. */
  lemma AddModelDataKeepsModelsInStep<Cube>(s: ModelData<Cube>, model: string, varName: string, d: GriddedData<Cube>)
    requires ListedModelsStored(s) && StoredModelsListed(s)
    ensures ListedModelsStored(AddModelData(s, model, varName, d))
    ensures StoredModelsListed(AddModelData(s, model, varName, d))
  {
    var r := AddModelData(s, model, varName, d);
    assert r.models == s.models + [model];
  }

  /** The data setter stores a model without listing it: from a fresh
      object, the value's model is stored but not listed. */
  lemma SetDataLeavesModelUnlisted<Cube>(val: GriddedData<Cube>)
    ensures StoredModelsListed(Init<Cube>())
    ensures !StoredModelsListed(SetData(Init<Cube>(), val))
  {
    assert val.dataId in SetData(Init<Cube>(), val).data;
  }

  /** The models setter lists a model without storing anything for it. */
  lemma SetModelsLeavesModelUnstored<Cube>(model: string)
    ensures ListedModelsStored(Init<Cube>())
    ensures !ListedModelsStored(SetModels(Init<Cube>(), model))
  {
    assert SetModels(Init<Cube>(), model).models[0] == model;
  }

  /** The data setter leaves the nested map as `add_model_data` would
      exactly when the model held no other variable. */
  lemma SetDataAgreesWithAddIffNoSiblings<Cube>(s: ModelData<Cube>, val: GriddedData<Cube>)
    ensures SetData(s, val).data == AddModelData(s, val.dataId, val.varName, val).data
        <==> (val.dataId !in s.data || s.data[val.dataId].Keys <= {val.varName})
  {
    var m := val.dataId;
    var a := SetData(s, val).data;
    var b := AddModelData(s, m, val.varName, val).data;
    if m in s.data && !(s.data[m].Keys <= {val.varName}) {
      var v :| v in s.data[m] && v != val.varName;
      assert v in b[m] && v !in a[m];
    } else {
      assert a[m] == b[m];
    }
  }

  /** The two lists are not a grid of stored pairs: after adding (a, x) and
      then (b, y), model a and variable y are both listed, yet nothing is
      stored under (a, y). A caller that looks up every listed model with
      every listed variable fails there. */
  lemma ListsAreNotAGrid<Cube>(a: string, b: string, x: string, y: string, d: GriddedData<Cube>)
    requires a != b && x != y
    ensures var r := AddModelData(AddModelData(Init<Cube>(), a, x, d), b, y, d);
      && a in r.models && y in r.variables
      && Lookup(r, a, y).None?
  {
    var r1 := AddModelData(Init<Cube>(), a, x, d);
    var r := AddModelData(r1, b, y, d);
    assert r.models[0] == a && r.variables[1] == y;
    assert Lookup(r1, a, y).None?;
  }

  /** Storing twice under the same names keeps the later value and lists
      the names twice. */
  lemma AddModelDataTwiceKeepsLater<Cube>(s: ModelData<Cube>, model: string, varName: string,
                                          d1: GriddedData<Cube>, d2: GriddedData<Cube>)
    ensures var r := AddModelData(AddModelData(s, model, varName, d1), model, varName, d2);
      && Lookup(r, model, varName) == Some(d2)
      && multiset(r.models)[model] == multiset(s.models)[model] + 2
      && multiset(r.variables)[varName] == multiset(s.variables)[varName] + 2
  {
    var r1 := AddModelData(s, model, varName, d1);
    var r := AddModelData(r1, model, varName, d2);
    assert r1.variables == s.variables + [varName];
    assert r.variables == r1.variables + [varName];
  }
}

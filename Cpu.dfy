/** The `<cpu>` part of the domain capabilities document: modes, each with
    its models and features, and the first-match lookups over them. */
module Cpu {
  import opened Wrappers

  /** `<model usable=... fallback=...>NAME</model>`; absent parts are None. */
  datatype CPUModel = CPUModel(model: Option<string>, usable: Option<string>, fallback: Option<string>)

  /** `<feature name=... policy=.../>`; the policy is passed through untouched. */
  datatype CPUFeature = CPUFeature(name: Option<string>, policy: Option<string>)

  /** `<mode name=... supported=...>`; `supported` is false when absent or "no". */
  datatype CPUMode = CPUMode(
    name: Option<string>,
    supported: bool,
    vendor: Option<string>,
    models: seq<CPUModel>,
    features: seq<CPUFeature>)

  /** `<cpu>`: the modes in document order. */
  datatype CPU = CPU(modes: seq<CPUMode>)

  /** `_CPUMode.get_model`: the first model whose text is `name`, or None. */
  method GetModel(mode: CPUMode, name: string) returns (r: Option<CPUModel>)
    ensures r.None? <==> forall i :: 0 <= i < |mode.models| ==> mode.models[i].model != Some(name)
    ensures r.Some? ==> exists i ::
      && 0 <= i < |mode.models|
      && mode.models[i] == r.value
      && r.value.model == Some(name)
      && forall j :: 0 <= j < i ==> mode.models[j].model != Some(name)
  {
    var i := 0;
    while i < |mode.models|
      invariant 0 <= i <= |mode.models|
      invariant forall j :: 0 <= j < i ==> mode.models[j].model != Some(name)
    {
      if mode.models[i].model == Some(name) {
        return Some(mode.models[i]);
      }
      i := i + 1;
    }
    return None;
  }

  /** `_CPU.get_mode`: the first mode named `name`, or None. */
  method GetMode(cpu: CPU, name: string) returns (r: Option<CPUMode>)
    ensures r.None? <==> forall i :: 0 <= i < |cpu.modes| ==> cpu.modes[i].name != Some(name)
    ensures r.Some? ==> exists i ::
      && 0 <= i < |cpu.modes|
      && cpu.modes[i] == r.value
      && r.value.name == Some(name)
      && forall j :: 0 <= j < i ==> cpu.modes[j].name != Some(name)
  {
    var i := 0;
    while i < |cpu.modes|
      invariant 0 <= i <= |cpu.modes|
      invariant forall j :: 0 <= j < i ==> cpu.modes[j].name != Some(name)
    {
      if cpu.modes[i].name == Some(name) {
        return Some(cpu.modes[i]);
      }
      i := i + 1;
    }
    return None;
  }
}

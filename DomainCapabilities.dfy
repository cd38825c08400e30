/** The DomainCapabilities aggregate: the parsed document, its construction
    (parsed or stub) and the decision queries derived from it. */
module DomainCapabilities {
  import opened Wrappers
  import opened CapsBlocks
  import opened Cpu
  import opened FirmwarePatterns

  /** `<os>`: a block of its own plus its `<loader>` block. */
  datatype OsBlock = OsBlock(block: CapsBlock, loader: CapsBlock)

  /** `<devices>`: a block of its own plus `<hostdev>` and `<disk>`. */
  datatype DevicesBlock = DevicesBlock(block: CapsBlock, hostdev: CapsBlock, disk: CapsBlock)

  /** `<features>`: a block of its own plus `<gic>`. */
  datatype FeaturesBlock = FeaturesBlock(block: CapsBlock, gic: CapsBlock)

  /** `<domainCapabilities>`; the four text fields are None when absent. */
  datatype DomainCaps = DomainCaps(
    arch: Option<string>,
    domain: Option<string>,
    machine: Option<string>,
    path: Option<string>,
    os: OsBlock,
    cpu: CPU,
    devices: DevicesBlock,
    features: FeaturesBlock)

  /** The object built without a document: every field absent, every list empty. */
  const Stub: DomainCaps := DomainCaps(
    None, None, None, None,
    OsBlock(EmptyBlock, EmptyBlock),
    CPU([]),
    DevicesBlock(EmptyBlock, EmptyBlock, EmptyBlock),
    FeaturesBlock(EmptyBlock, EmptyBlock))

  //////////////////////////////////////////////////////////////////////////
  // Construction
  //////////////////////////////////////////////////////////////////////////

  /** What `getDomainCapabilities` gave: an exception, or the document text
      together with what parsing that text yields. */
  datatype Fetch = FetchFailed | Fetched(xml: string, parsed: DomainCaps)

  /** `build_from_params`: when the connection does not support domain
      capabilities, or the fetch raised, or it returned an empty document,
      the result is the stub; otherwise it is the parsed document. */
  function BuildFromParams(supportsDomainCaps: bool, fetch: Fetch): (r: DomainCaps)
    ensures (!supportsDomainCaps || fetch.FetchFailed? || fetch.xml == "") ==> r == Stub
    ensures supportsDomainCaps && fetch.Fetched? && fetch.xml != "" ==> r == fetch.parsed
    ensures r != Stub ==> fetch.Fetched? && r == fetch.parsed
  {
    if supportsDomainCaps && fetch.Fetched? && fetch.xml != "" then fetch.parsed else Stub
  }

  //////////////////////////////////////////////////////////////////////////
  // UEFI firmware
  //////////////////////////////////////////////////////////////////////////

  /** `arch_can_uefi`: the instance's arch is a key of the pattern table. */
  function ArchCanUefi(caps: DomainCaps): (r: bool)
    ensures r <==> caps.arch in {Some("i686"), Some("x86_64"), Some("aarch64"), Some("armv7l")}
    ensures r <==> PatternsFor(caps.arch).Some?
  {
    assert UefiArchs() == ["i686", "x86_64", "aarch64", "armv7l"];
    caps.arch.Some? && caps.arch.value in UefiArchs()
  }

  /** The loader paths the hypervisor reported, in document order. */
  function LoaderPaths(caps: DomainCaps): seq<string>
  {
    GetValues(caps.os.loader.values)
  }

  /** The patterns of the instance's arch; empty when the arch cannot do UEFI. */
  function UefiPatterns(caps: DomainCaps): seq<Pattern>
  {
    if PatternsFor(caps.arch).Some? then PatternsFor(caps.arch).value else []
  }

  /** No path in `paths` matches `p`. */
  ghost predicate NoPathMatches(p: Pattern, paths: seq<string>)
  {
    forall k :: 0 <= k < |paths| ==> !Matches(p, paths[k])
  }

  /** `x` is the first path, in document order, that matches `p`. */
  ghost predicate FirstPathMatching(p: Pattern, paths: seq<string>, x: string)
  {
    exists k ::
      && 0 <= k < |paths|
      && paths[k] == x
      && Matches(p, x)
      && forall k' :: 0 <= k' < k ==> !Matches(p, paths[k'])
  }

  /** `find_uefi_path_for_arch`: patterns are tried in table order and, for
      each, the loader paths in document order; the first hit is returned.
      So the result matches the earliest pattern that any path matches, and
      is the first path matching that pattern. */
  method FindUefiPathForArch(caps: DomainCaps) returns (r: Option<string>)
    ensures !ArchCanUefi(caps) ==> r == None
    ensures r.None? <==>
      forall i :: 0 <= i < |UefiPatterns(caps)| ==> NoPathMatches(UefiPatterns(caps)[i], LoaderPaths(caps))
    ensures r.Some? ==> exists i ::
      && 0 <= i < |UefiPatterns(caps)|
      && (forall i' :: 0 <= i' < i ==> NoPathMatches(UefiPatterns(caps)[i'], LoaderPaths(caps)))
      && FirstPathMatching(UefiPatterns(caps)[i], LoaderPaths(caps), r.value)
  {
    if !ArchCanUefi(caps) {
      return None;
    }
    var patterns := PatternsFor(caps.arch).value;
    var paths := LoaderPaths(caps);
    assert patterns == UefiPatterns(caps);
    var i := 0;
    while i < |patterns|
      invariant 0 <= i <= |patterns|
      invariant forall i' :: 0 <= i' < i ==> NoPathMatches(patterns[i'], paths)
    {
      var k := 0;
      while k < |paths|
        invariant 0 <= k <= |paths|
        invariant forall k' :: 0 <= k' < k ==> !Matches(patterns[i], paths[k'])
      {
        if Matches(patterns[i], paths[k]) {
          assert FirstPathMatching(patterns[i], paths, paths[k]);
          assert !NoPathMatches(patterns[i], paths);
          return Some(paths[k]);
        }
        k := k + 1;
      }
      i := i + 1;
    }
    return None;
  }

  /** A path matching one of the instance's own UEFI patterns is recognised
      by some table entry, so its label is never "Custom". */
  lemma FoundPathIsRecognized(caps: DomainCaps, i: int, path: string)
    requires 0 <= i < |UefiPatterns(caps)| && Matches(UefiPatterns(caps)[i], path)
    ensures exists a :: 0 <= a < |UefiArchPatterns| && ArchRecognizes(a, path)
  {
    var a :| 0 <= a < |UefiArchPatterns| && UefiArchPatterns[a] == (caps.arch.value, UefiPatterns(caps));
    assert ArchRecognizes(a, path);
  }

  /** The label shown for firmware that the table recognises. */
  function UefiLabel(arch: string, path: string): string
  {
    "UEFI " + arch + ": " + path
  }

  /** `label_for_firmware_path`: with no path, the default firmware of the
      arch ("BIOS" on x86, else "None"); otherwise the first table arch, in
      table order and whatever the instance's own arch, with a pattern that
      matches the path; "Custom" when none does. */
  method LabelForFirmwarePath(caps: DomainCaps, path: Option<string>) returns (text: string)
    ensures (path == None || path == Some("")) ==>
      text == (if caps.arch == Some("i686") || caps.arch == Some("x86_64") then "BIOS" else "None")
    ensures path.Some? && path.value != "" ==>
      || (&& text == "Custom: " + path.value
          && forall a :: 0 <= a < |UefiArchPatterns| ==> !ArchRecognizes(a, path.value))
      || (exists a ::
            && 0 <= a < |UefiArchPatterns|
            && ArchRecognizes(a, path.value)
            && (forall b :: 0 <= b < a ==> !ArchRecognizes(b, path.value))
            && text == UefiLabel(UefiArchPatterns[a].0, path.value))
  {
    if path == None || path == Some("") {
      if caps.arch == Some("i686") || caps.arch == Some("x86_64") {
        return "BIOS";
      }
      return "None";
    }
    var p := path.value;
    var a := 0;
    while a < |UefiArchPatterns|
      invariant 0 <= a <= |UefiArchPatterns|
      invariant forall b :: 0 <= b < a ==> !ArchRecognizes(b, p)
    {
      var (arch, patterns) := UefiArchPatterns[a];
      var i := 0;
      while i < |patterns|
        invariant 0 <= i <= |patterns|
        invariant forall i' :: 0 <= i' < i ==> !Matches(patterns[i'], p)
      {
        if Matches(patterns[i], p) {
          return UefiLabel(arch, p);
        }
        i := i + 1;
      }
      a := a + 1;
    }
    return "Custom: " + p;
  }

  /** `supports_uefi_xml`: the loader block has a "readonly" enum whose values
      include "yes". The enum lookup is only made once the name is known to
      be present, so this never raises. */
  function SupportsUefiXml(caps: DomainCaps): (r: bool)
    ensures r <==> exists i ::
      && IsLastNamed(caps.os.loader.enums, Some("readonly"), i)
      && "yes" in GetValues(caps.os.loader.enums[i].values)
  {
    var loader := caps.os.loader;
    Some("readonly") in EnumNames(loader) &&
    "yes" in GetValues(GetEnum(loader, "readonly").value.values)
  }

  //////////////////////////////////////////////////////////////////////////
  // CPU queries
  //////////////////////////////////////////////////////////////////////////

  /** Every supported "host-model" mode lists at least one model (the source
      reads `models[0]` of such a mode). */
  ghost predicate HostModelsHaveModels(modes: seq<CPUMode>)
  {
    forall i :: 0 <= i < |modes| && modes[i].name == Some("host-model") && modes[i].supported ==>
      |modes[i].models| > 0
  }

  /** One entry of the list that `supports_safe_host_model` builds. */
  predicate SafeHostMode(m: CPUMode)
    requires m.name == Some("host-model") && m.supported ==> |m.models| > 0
  {
    m.name == Some("host-model") && m.supported && m.models[0].fallback == Some("forbid")
  }

  /** `supports_safe_host_model` as written: one boolean per mode. */
  function SupportsSafeHostModel(caps: DomainCaps): (r: seq<bool>)
    requires HostModelsHaveModels(caps.cpu.modes)
    ensures |r| == |caps.cpu.modes|
    ensures forall i :: 0 <= i < |r| ==>
      (r[i] <==> && caps.cpu.modes[i].name == Some("host-model")
                 && caps.cpu.modes[i].supported
                 && caps.cpu.modes[i].models[0].fallback == Some("forbid"))
  {
    var modes := caps.cpu.modes;
    seq(|modes|, i requires 0 <= i < |modes| => SafeHostMode(modes[i]))
  }

  /** Python's truth value of a list: true iff it is non-empty. */
  predicate Truthy<T>(xs: seq<T>)
  {
    xs != []
  }

  /** As a condition, the list that `supports_safe_host_model` returns is
      true exactly when the document lists any CPU mode at all. */
  lemma SafeHostModelTruthIsModeCount(caps: DomainCaps)
    requires HostModelsHaveModels(caps.cpu.modes)
    ensures Truthy(SupportsSafeHostModel(caps)) <==> caps.cpu.modes != []
  {
  }

  /** A document whose only CPU mode is a supported "custom" mode. */
  const CustomOnlyCaps: DomainCaps := Stub.(cpu := CPU([CPUMode(Some("custom"), true, None, [], [])]))

  /** With only a "custom" mode, the returned list reads as true although no
      mode is a safe host-model. */
  lemma CustomOnlyReadsAsSafeHostModel()
    ensures HostModelsHaveModels(CustomOnlyCaps.cpu.modes)
    ensures Truthy(SupportsSafeHostModel(CustomOnlyCaps))
    ensures !HasSafeHostModel(CustomOnlyCaps)
  {
  }

  /** The evidently intended `supports_safe_host_model`: true iff some mode is
      a supported "host-model" whose first model has fallback "forbid". */
  function HasSafeHostModel(caps: DomainCaps): (r: bool)
    requires HostModelsHaveModels(caps.cpu.modes)
    ensures r <==> exists i ::
      && 0 <= i < |caps.cpu.modes|
      && caps.cpu.modes[i].name == Some("host-model")
      && caps.cpu.modes[i].supported
      && caps.cpu.modes[i].models[0].fallback == Some("forbid")
  {
    true in SupportsSafeHostModel(caps)
  }

  /** A mode `get_cpu_models` reads models from. */
  predicate IsSupportedCustom(m: CPUMode)
  {
    m.name == Some("custom") && m.supported
  }

  /** The names of the usable models of one mode, in document order; a model
      with no `usable` attribute counts as usable. */
  function UsableNames(ms: seq<CPUModel>): seq<Option<string>>
  {
    if ms == [] then []
    else (if ms[0].usable != Some("no") then [ms[0].model] else []) + UsableNames(ms[1..])
  }

  /** What `get_cpu_models` returns: the usable model names of every
      supported "custom" mode, mode after mode in document order. */
  function UsableCustomModels(modes: seq<CPUMode>): seq<Option<string>>
  {
    if modes == [] then []
    else (if IsSupportedCustom(modes[0]) then UsableNames(modes[0].models) else []) + UsableCustomModels(modes[1..])
  }

  lemma {:induction false} UsableNamesAppend(a: seq<CPUModel>, b: seq<CPUModel>)
    ensures UsableNames(a + b) == UsableNames(a) + UsableNames(b)
  {
    if a != [] {
      assert (a + b)[0] == a[0];
      assert (a + b)[1..] == a[1..] + b;
      UsableNamesAppend(a[1..], b);
    } else {
      assert a + b == b;
    }
  }

  /** Listing the models of two runs of modes one after the other gives the
      two lists one after the other: document order is kept. */
  lemma {:induction false} UsableCustomModelsAppend(a: seq<CPUMode>, b: seq<CPUMode>)
    ensures UsableCustomModels(a + b) == UsableCustomModels(a) + UsableCustomModels(b)
  {
    if a != [] {
      assert (a + b)[0] == a[0];
      assert (a + b)[1..] == a[1..] + b;
      UsableCustomModelsAppend(a[1..], b);
    } else {
      assert a + b == b;
    }
  }

  lemma {:induction false} UsableNamesMembers(ms: seq<CPUModel>, x: Option<string>)
    ensures x in UsableNames(ms) <==> exists j :: 0 <= j < |ms| && ms[j].model == x && ms[j].usable != Some("no")
  {
    if ms != [] {
      UsableNamesMembers(ms[1..], x);
      if exists j :: 0 <= j < |ms| && ms[j].model == x && ms[j].usable != Some("no") {
        var j :| 0 <= j < |ms| && ms[j].model == x && ms[j].usable != Some("no");
        if j > 0 { assert ms[1..][j - 1] == ms[j]; }
      }
    }
  }

  /** A name is listed iff some supported "custom" mode has a model of that
      name whose `usable` is not "no". */
  lemma {:induction false} UsableCustomModelsMembers(modes: seq<CPUMode>, x: Option<string>)
    ensures x in UsableCustomModels(modes) <==> exists i, j ::
      && 0 <= i < |modes|
      && IsSupportedCustom(modes[i])
      && 0 <= j < |modes[i].models|
      && modes[i].models[j].model == x
      && modes[i].models[j].usable != Some("no")
  {
    if modes != [] {
      UsableCustomModelsMembers(modes[1..], x);
      UsableNamesMembers(modes[0].models, x);
      if exists i, j ::
          && 0 <= i < |modes|
          && IsSupportedCustom(modes[i])
          && 0 <= j < |modes[i].models|
          && modes[i].models[j].model == x
          && modes[i].models[j].usable != Some("no")
      {
        var i, j :|
          && 0 <= i < |modes|
          && IsSupportedCustom(modes[i])
          && 0 <= j < |modes[i].models|
          && modes[i].models[j].model == x
          && modes[i].models[j].usable != Some("no");
        if i > 0 { assert modes[1..][i - 1] == modes[i]; }
      }
      if x in UsableCustomModels(modes[1..]) {
        var i, j :|
          && 0 <= i < |modes[1..]|
          && IsSupportedCustom(modes[1..][i])
          && 0 <= j < |modes[1..][i].models|
          && modes[1..][i].models[j].model == x
          && modes[1..][i].models[j].usable != Some("no");
        assert modes[i + 1] == modes[1..][i];
      }
    }
  }

  /** One more model extends the usable names by that model's name, if usable. */
  lemma UsableNamesStep(ms: seq<CPUModel>, k: int)
    requires 0 <= k < |ms|
    ensures UsableNames(ms[..k + 1])
         == UsableNames(ms[..k]) + (if ms[k].usable != Some("no") then [ms[k].model] else [])
  {
    assert ms[..k + 1] == ms[..k] + [ms[k]];
    UsableNamesAppend(ms[..k], [ms[k]]);
  }

  /** Sequence concatenation re-associates. */
  lemma AppendAssoc<T>(a: seq<T>, b: seq<T>, c: seq<T>)
    ensures (a + b) + c == a + (b + c)
  {
  }

  /** What `get_cpu_models` has collected after its first `i` modes. */
  function UsableCustomModelsUpTo(modes: seq<CPUMode>, i: nat): seq<Option<string>>
    requires i <= |modes|
  {
    if i == 0 then []
    else UsableCustomModelsUpTo(modes, i - 1)
         + (if IsSupportedCustom(modes[i - 1]) then UsableNames(modes[i - 1].models) else [])
  }

  /** What is collected from the first `i` modes, followed by what the
      remaining modes give, is the whole list. */
  lemma {:induction false} UsableCustomModelsUpToSuffix(modes: seq<CPUMode>, i: nat)
    requires i <= |modes|
    ensures UsableCustomModelsUpTo(modes, i) + UsableCustomModels(modes[i..]) == UsableCustomModels(modes)
    decreases i
  {
    if i == 0 {
      assert modes[i..] == modes;
    } else {
      UsableCustomModelsUpToSuffix(modes, i - 1);
      assert modes[i - 1..][0] == modes[i - 1];
      assert modes[i - 1..][1..] == modes[i..];
      AppendAssoc(UsableCustomModelsUpTo(modes, i - 1),
                  if IsSupportedCustom(modes[i - 1]) then UsableNames(modes[i - 1].models) else [],
                  UsableCustomModels(modes[i..]));
    }
  }

  /** The inner loop of `get_cpu_models`: append the name of every usable
      model of one mode. */
  method AppendUsableNames(acc: seq<Option<string>>, ms: seq<CPUModel>) returns (r: seq<Option<string>>)
    ensures r == acc + UsableNames(ms)
  {
    r := acc;
    var k := 0;
    while k < |ms|
      invariant 0 <= k <= |ms|
      invariant r == acc + UsableNames(ms[..k])
    {
      UsableNamesStep(ms, k);
      if ms[k].usable != Some("no") {
        AppendAssoc(acc, UsableNames(ms[..k]), [ms[k].model]);
        r := r + [ms[k].model];
      }
      k := k + 1;
    }
    assert ms[..k] == ms;
  }

  /** `get_cpu_models`: walk the modes, collecting from each supported
      "custom" one. */
  method GetCpuModels(caps: DomainCaps) returns (models: seq<Option<string>>)
    ensures models == UsableCustomModels(caps.cpu.modes)
  {
    var modes := caps.cpu.modes;
    models := [];
    var i := 0;
    while i < |modes|
      invariant 0 <= i <= |modes|
      invariant models == UsableCustomModelsUpTo(modes, i)
    {
      if IsSupportedCustom(modes[i]) {
        models := AppendUsableNames(models, modes[i].models);
      }
      i := i + 1;
    }
    UsableCustomModelsUpToSuffix(modes, i);
    assert modes[i..] == [];
  }

  /** The result of expanding a CPU description with the hypervisor: its
      feature list, or a libvirt error. */
  datatype Expansion = Expanded(features: seq<CPUFeature>) | LibvirtError

  /** The feature names `get_cpu_security_features` keeps. */
  const SecurityFeatureNames: seq<string> := ["spec-ctrl", "ssbd", "ibpb", "virt-ssbd"]

  /** `_get_expanded_cpu`: ask `baselineHypervisorCPU` first and, only if it
      raises a libvirt error, `baselineCPU`, whose own error is not caught.
      Both calls are oracles giving the expansion of a mode. */
  function ExpandedCpu(m: CPUMode, hypervisorBaseline: CPUMode -> Expansion, legacyBaseline: CPUMode -> Expansion): (r: Expansion)
    ensures r == hypervisorBaseline(m) || r == legacyBaseline(m)
    ensures hypervisorBaseline(m).Expanded? ==> r == hypervisorBaseline(m)
    ensures r.LibvirtError? <==> hypervisorBaseline(m).LibvirtError? && legacyBaseline(m).LibvirtError?
  {
    if hypervisorBaseline(m).Expanded? then hypervisorBaseline(m) else legacyBaseline(m)
  }

  /** The whitelisted feature names of an expansion, in reported order. */
  function SecurityNames(fs: seq<CPUFeature>): (r: seq<string>)
    ensures forall x :: x in r ==> x in SecurityFeatureNames
  {
    if fs == [] then []
    else (if fs[0].name.Some? && fs[0].name.value in SecurityFeatureNames then [fs[0].name.value] else [])
         + SecurityNames(fs[1..])
  }

  lemma {:induction false} SecurityNamesAppend(a: seq<CPUFeature>, b: seq<CPUFeature>)
    ensures SecurityNames(a + b) == SecurityNames(a) + SecurityNames(b)
  {
    if a != [] {
      assert (a + b)[0] == a[0];
      assert (a + b)[1..] == a[1..] + b;
      SecurityNamesAppend(a[1..], b);
    } else {
      assert a + b == b;
    }
  }

  /** A name is kept iff it is whitelisted and some reported feature carries it. */
  lemma {:induction false} SecurityNamesMembers(fs: seq<CPUFeature>, x: string)
    ensures x in SecurityNames(fs) <==>
      x in SecurityFeatureNames && exists k :: 0 <= k < |fs| && fs[k].name == Some(x)
  {
    if fs != [] {
      SecurityNamesMembers(fs[1..], x);
      if exists k :: 0 <= k < |fs| && fs[k].name == Some(x) {
        var k :| 0 <= k < |fs| && fs[k].name == Some(x);
        if k > 0 { assert fs[1..][k - 1] == fs[k]; }
      }
      if x in SecurityNames(fs[1..]) {
        var k :| 0 <= k < |fs[1..]| && fs[1..][k].name == Some(x);
        assert fs[k + 1] == fs[1..][k];
      }
    }
  }

  /** A mode `get_cpu_security_features` expands. */
  predicate IsSupportedHostModel(m: CPUMode)
  {
    m.name == Some("host-model") && m.supported
  }

  /** What `get_cpu_security_features` returns: for each supported
      "host-model" mode in document order, the whitelisted features of its
      expansion; the first failed expansion ends the list. */
  function SecurityFeatures(modes: seq<CPUMode>, hypervisorBaseline: CPUMode -> Expansion, legacyBaseline: CPUMode -> Expansion): (r: seq<string>)
    ensures forall x :: x in r ==> x in SecurityFeatureNames
  {
    if modes == [] then []
    else if !IsSupportedHostModel(modes[0]) then SecurityFeatures(modes[1..], hypervisorBaseline, legacyBaseline)
    else match ExpandedCpu(modes[0], hypervisorBaseline, legacyBaseline)
      case LibvirtError => []
      case Expanded(fs) => SecurityNames(fs) + SecurityFeatures(modes[1..], hypervisorBaseline, legacyBaseline)
  }

  /** The supported "host-model" modes of a list, in order. */
  function HostModelModes(modes: seq<CPUMode>): (r: seq<CPUMode>)
    ensures forall m :: m in r ==> IsSupportedHostModel(m)
  {
    if modes == [] then []
    else (if IsSupportedHostModel(modes[0]) then [modes[0]] else []) + HostModelModes(modes[1..])
  }

  /** Exactly the supported "host-model" modes are kept. */
  lemma {:induction false} HostModelModesMembers(modes: seq<CPUMode>, m: CPUMode)
    ensures m in HostModelModes(modes) <==> m in modes && IsSupportedHostModel(m)
  {
    if modes != [] {
      HostModelModesMembers(modes[1..], m);
      assert modes == [modes[0]] + modes[1..];
    }
  }

  /** Only supported "host-model" modes contribute: dropping every other
      mode leaves the result unchanged. */
  lemma {:induction false} SecurityFeaturesOnlyHostModel(modes: seq<CPUMode>, hypervisorBaseline: CPUMode -> Expansion, legacyBaseline: CPUMode -> Expansion)
    ensures SecurityFeatures(modes, hypervisorBaseline, legacyBaseline)
         == SecurityFeatures(HostModelModes(modes), hypervisorBaseline, legacyBaseline)
  {
    if modes != [] {
      SecurityFeaturesOnlyHostModel(modes[1..], hypervisorBaseline, legacyBaseline);
      if IsSupportedHostModel(modes[0]) {
        assert HostModelModes(modes) == [modes[0]] + HostModelModes(modes[1..]);
        assert HostModelModes(modes)[0] == modes[0];
        assert HostModelModes(modes)[1..] == HostModelModes(modes[1..]);
      } else {
        assert HostModelModes(modes) == HostModelModes(modes[1..]);
      }
    }
  }

  /** A failed expansion stops the query: the modes after it are never
      looked at, and the result is what the modes before it gave. */
  lemma {:induction false} SecurityFeaturesStopAtFailure(
    before: seq<CPUMode>, m: CPUMode, after: seq<CPUMode>,
    hypervisorBaseline: CPUMode -> Expansion, legacyBaseline: CPUMode -> Expansion)
    requires IsSupportedHostModel(m)
    requires ExpandedCpu(m, hypervisorBaseline, legacyBaseline).LibvirtError?
    ensures SecurityFeatures(before + [m] + after, hypervisorBaseline, legacyBaseline)
         == SecurityFeatures(before, hypervisorBaseline, legacyBaseline)
  {
    if before == [] {
      assert before + [m] + after == [m] + after;
    } else {
      assert (before + [m] + after)[1..] == before[1..] + [m] + after;
      SecurityFeaturesStopAtFailure(before[1..], m, after, hypervisorBaseline, legacyBaseline);
    }
  }

  /** No expansion in `before` fails. */
  predicate NoExpansionFails(modes: seq<CPUMode>, hypervisorBaseline: CPUMode -> Expansion, legacyBaseline: CPUMode -> Expansion)
  {
    forall i :: 0 <= i < |modes| && IsSupportedHostModel(modes[i]) ==>
      ExpandedCpu(modes[i], hypervisorBaseline, legacyBaseline).Expanded?
  }

  /** While expansions succeed, the features of earlier modes come first:
      the result over two runs of modes is the two results one after the other. */
  lemma {:induction false} SecurityFeaturesAppend(
    before: seq<CPUMode>, after: seq<CPUMode>,
    hypervisorBaseline: CPUMode -> Expansion, legacyBaseline: CPUMode -> Expansion)
    requires NoExpansionFails(before, hypervisorBaseline, legacyBaseline)
    ensures SecurityFeatures(before + after, hypervisorBaseline, legacyBaseline)
         == SecurityFeatures(before, hypervisorBaseline, legacyBaseline) + SecurityFeatures(after, hypervisorBaseline, legacyBaseline)
  {
    if before != [] {
      assert (before + after)[0] == before[0];
      assert (before + after)[1..] == before[1..] + after;
      assert forall i :: 0 <= i < |before[1..]| ==> before[1..][i] == before[i + 1];
      SecurityFeaturesAppend(before[1..], after, hypervisorBaseline, legacyBaseline);
    } else {
      assert before + after == after;
    }
  }

  /** Mode `i` is a supported "host-model" mode, it and every such mode
      before it expand successfully, and its expansion reports a feature
      named `x`, which is whitelisted. */
  ghost predicate ContributesFeature(
    modes: seq<CPUMode>, i: int, x: string,
    hypervisorBaseline: CPUMode -> Expansion, legacyBaseline: CPUMode -> Expansion)
  {
    && 0 <= i < |modes|
    && IsSupportedHostModel(modes[i])
    && NoExpansionFails(modes[..i], hypervisorBaseline, legacyBaseline)
    && ExpandedCpu(modes[i], hypervisorBaseline, legacyBaseline).Expanded?
    && x in SecurityFeatureNames
    && exists k ::
         && 0 <= k < |ExpandedCpu(modes[i], hypervisorBaseline, legacyBaseline).features|
         && ExpandedCpu(modes[i], hypervisorBaseline, legacyBaseline).features[k].name == Some(x)
  }

  /** Whether the first mode is fine, and whether the rest is, decide
      whether a prefix of length `i >= 1` has no failing expansion. */
  lemma NoExpansionFailsCons(
    modes: seq<CPUMode>, i: int,
    hypervisorBaseline: CPUMode -> Expansion, legacyBaseline: CPUMode -> Expansion)
    requires 1 <= i <= |modes|
    ensures NoExpansionFails(modes[..i], hypervisorBaseline, legacyBaseline) <==>
      && (IsSupportedHostModel(modes[0]) ==> ExpandedCpu(modes[0], hypervisorBaseline, legacyBaseline).Expanded?)
      && NoExpansionFails(modes[1..][..i - 1], hypervisorBaseline, legacyBaseline)
  {
    assert modes[..i] == [modes[0]] + modes[1..][..i - 1];
    assert forall j :: 1 <= j < i ==> modes[..i][j] == modes[1..][..i - 1][j - 1];
  }

  /** A name is in the result of `get_cpu_security_features` iff some
      supported "host-model" mode, reached before any failed expansion,
      expands successfully and reports that whitelisted feature. */
  lemma {:induction false} SecurityFeaturesMembers(
    modes: seq<CPUMode>, x: string,
    hypervisorBaseline: CPUMode -> Expansion, legacyBaseline: CPUMode -> Expansion)
    ensures x in SecurityFeatures(modes, hypervisorBaseline, legacyBaseline) <==>
      exists i :: ContributesFeature(modes, i, x, hypervisorBaseline, legacyBaseline)
  {
    if modes != [] {
      var rest := modes[1..];
      var e := ExpandedCpu(modes[0], hypervisorBaseline, legacyBaseline);
      var head := IsSupportedHostModel(modes[0]) ==> e.Expanded?;
      SecurityFeaturesMembers(rest, x, hypervisorBaseline, legacyBaseline);
      // A witness in `modes` past the first mode is a witness in `rest`, and back.
      forall i | 1 <= i <= |modes|
        ensures NoExpansionFails(modes[..i], hypervisorBaseline, legacyBaseline) <==>
          head && NoExpansionFails(rest[..i - 1], hypervisorBaseline, legacyBaseline)
      {
        NoExpansionFailsCons(modes, i, hypervisorBaseline, legacyBaseline);
      }
      if exists i :: ContributesFeature(modes, i, x, hypervisorBaseline, legacyBaseline) {
        var i :| ContributesFeature(modes, i, x, hypervisorBaseline, legacyBaseline);
        if i == 0 {
          SecurityNamesMembers(e.features, x);
        } else {
          assert rest[i - 1] == modes[i];
          assert ContributesFeature(rest, i - 1, x, hypervisorBaseline, legacyBaseline);
        }
      }
      if x in SecurityFeatures(modes, hypervisorBaseline, legacyBaseline) {
        if IsSupportedHostModel(modes[0]) && e.Expanded? && x in SecurityNames(e.features) {
          SecurityNamesMembers(e.features, x);
          assert modes[..0] == [];
          assert ContributesFeature(modes, 0, x, hypervisorBaseline, legacyBaseline);
        } else {
          var i :| ContributesFeature(rest, i, x, hypervisorBaseline, legacyBaseline);
          assert modes[i + 1] == rest[i];
          assert ContributesFeature(modes, i + 1, x, hypervisorBaseline, legacyBaseline);
        }
      }
    }
  }

  /** What mode `i` contributes to the walk from `i` on: a mode that is not a
      supported "host-model" is skipped, an expansion error ends the walk,
      and an expansion adds its security feature names before the rest. */
  lemma SecurityFeaturesStep(
      modes: seq<CPUMode>, i: int, acc: seq<string>,
      hypervisorBaseline: CPUMode -> Expansion, legacyBaseline: CPUMode -> Expansion)
    requires 0 <= i < |modes|
    ensures !IsSupportedHostModel(modes[i]) ==>
      SecurityFeatures(modes[i..], hypervisorBaseline, legacyBaseline)
      == SecurityFeatures(modes[i + 1..], hypervisorBaseline, legacyBaseline)
    ensures IsSupportedHostModel(modes[i]) && ExpandedCpu(modes[i], hypervisorBaseline, legacyBaseline).LibvirtError? ==>
      SecurityFeatures(modes[i..], hypervisorBaseline, legacyBaseline) == []
    ensures IsSupportedHostModel(modes[i]) && ExpandedCpu(modes[i], hypervisorBaseline, legacyBaseline).Expanded? ==>
      acc + SecurityFeatures(modes[i..], hypervisorBaseline, legacyBaseline)
      == (acc + SecurityNames(ExpandedCpu(modes[i], hypervisorBaseline, legacyBaseline).features))
         + SecurityFeatures(modes[i + 1..], hypervisorBaseline, legacyBaseline)
  {
    assert modes[i..][0] == modes[i];
    assert modes[i..][1..] == modes[i + 1..];
    var e := ExpandedCpu(modes[i], hypervisorBaseline, legacyBaseline);
    if IsSupportedHostModel(modes[i]) && e.Expanded? {
      AppendAssoc(acc, SecurityNames(e.features), SecurityFeatures(modes[i + 1..], hypervisorBaseline, legacyBaseline));
    }
  }

  /** The inner loop of `get_cpu_security_features`: append the name of every
      whitelisted feature of one expansion. */
  method AppendSecurityNames(acc: seq<string>, fs: seq<CPUFeature>) returns (r: seq<string>)
    ensures r == acc + SecurityNames(fs)
  {
    r := acc;
    var k := 0;
    while k < |fs|
      invariant 0 <= k <= |fs|
      invariant r == acc + SecurityNames(fs[..k])
    {
      var f := fs[k];
      assert fs[..k + 1] == fs[..k] + [f];
      SecurityNamesAppend(fs[..k], [f]);
      if f.name.Some? && f.name.value in SecurityFeatureNames {
        AppendAssoc(acc, SecurityNames(fs[..k]), [f.name.value]);
        r := r + [f.name.value];
      }
      k := k + 1;
    }
    assert fs[..k] == fs;
  }

  /** `get_cpu_security_features`: a loop over the modes that expands each
      supported "host-model" mode, appends its whitelisted features and
      breaks on the first libvirt error. */
  method GetCpuSecurityFeatures(caps: DomainCaps, hypervisorBaseline: CPUMode -> Expansion, legacyBaseline: CPUMode -> Expansion)
    returns (features: seq<string>)
    ensures features == SecurityFeatures(caps.cpu.modes, hypervisorBaseline, legacyBaseline)
  {
    var modes := caps.cpu.modes;
    features := [];
    var i := 0;
    assert modes[i..] == modes;
    while i < |modes|
      invariant 0 <= i <= |modes|
      invariant features + SecurityFeatures(modes[i..], hypervisorBaseline, legacyBaseline)
             == SecurityFeatures(modes, hypervisorBaseline, legacyBaseline)
    {
      SecurityFeaturesStep(modes, i, features, hypervisorBaseline, legacyBaseline);
      var m := modes[i];
      if !IsSupportedHostModel(m) {
        i := i + 1;
        continue;
      }
      var cpu := ExpandedCpu(m, hypervisorBaseline, legacyBaseline);
      if cpu.LibvirtError? {
        assert features + [] == features;
        break;
      }
      features := AppendSecurityNames(features, cpu.features);
      i := i + 1;
    }
    if i == |modes| {
      assert modes[i..] == [];
      assert features + [] == features;
    }
  }

  /** The stub built for a connection without domain capabilities answers
      every query with "nothing supported". */
  lemma StubReportsNoSupport(hypervisorBaseline: CPUMode -> Expansion, legacyBaseline: CPUMode -> Expansion)
    ensures !ArchCanUefi(Stub)
    ensures !SupportsUefiXml(Stub)
    ensures HostModelsHaveModels(Stub.cpu.modes) && !HasSafeHostModel(Stub)
    ensures UsableCustomModels(Stub.cpu.modes) == []
    ensures SecurityFeatures(Stub.cpu.modes, hypervisorBaseline, legacyBaseline) == []
  {
  }
}

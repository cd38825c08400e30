# Domain capabilities model (virt-manager `virtinst/domcapabilities.py`)

A Dafny model of the parsed libvirt domain capabilities document and of
the decisions virt-install derives from it. The document is read-only once
parsed, so the tree is a set of datatypes:

- `CapsBlocks`: `<value>`, `<enum name=...>` and the generic capability
  block (supported flag, own values, enums), with `get_values`,
  `enum_names` and `get_enum`.
- `Cpu`: the `<cpu>` tree (modes with their models and features) and the
  first-match lookups `get_mode` and `get_model`.
- `FirmwarePatterns`: the table of UEFI firmware file name patterns per
  architecture, and the part of `re.match` that those patterns use.
- `DomainCapabilities`: the aggregate, the stub-or-parse choice of
  `build_from_params`, and the derived queries: `arch_can_uefi`,
  `find_uefi_path_for_arch`, `label_for_firmware_path`,
  `supports_uefi_xml`, `supports_safe_host_model`, `get_cpu_models` and
  `get_cpu_security_features`.

The queries written as loops in Python (`find_uefi_path_for_arch`,
`label_for_firmware_path`, `get_mode`, `get_model`, `get_cpu_models`,
`get_cpu_security_features`) are Dafny methods with loops. The first four
state their first-match results outright. The last two are proved equal to
recursive specification functions, and lemmas state what those functions
promise. Comprehensions and expressions are functions.

How the model reads the source:

- Every XML text or attribute the source binds (`XMLProperty`) is an
  `Option<string>`, with `None` for an absent node. The one exception is
  the `<value>` text, which is a `string`.
- A yes/no `supported` attribute is a `bool`, and an absent attribute
  (None) is false. Where the source uses the value itself rather than its
  truth value, as an operand of `and` in `supports_safe_host_model`, a
  None there becomes `false` in the model (see "Left out").
- Every pattern in the table has the form `.*F1`, `.*F1.*` or `.*F1.*F2`
  with literal fragments. So a pattern is its list of fragments.
  `Matches` is a backtracking search and is proved equal to `InOrder`:
  the fragments occur in order, and no newline comes before the first or
  between two of them. This matches `re.match`, where `.` does not match a
  newline and only the start of the path is anchored. The model makes no
  assumption that paths contain no newlines.
- The hypervisor is reached through two oracles, each a function from a
  CPU mode to an expansion result: `baselineHypervisorCPU` and the
  `baselineCPU` fallback. The capability check and the document fetch of
  `build_from_params` are a boolean and a fetch outcome.

Enum lookup:

- `get_enum` builds a dictionary from the enum list, so with duplicate
  names the last one wins. An absent name raises `KeyError`, which is
  modelled as `Err(KeyError(name))`.
- `enum_names` returns a list in document order, duplicates included.

## Model

| member | source | states |
|---|---|---|
| CapsBlocks.GetValues | virtinst/domcapabilities.py:28-32 | the value texts, one per `<value>`, in document order (no reordering, no deduplication) |
| CapsBlocks.EnumNames | virtinst/domcapabilities.py:44-45 | the enum names, one per `<enum>`, in document order |
| CapsBlocks.EnumDictKeys | virtinst/domcapabilities.py:48 | a name is a key of the dictionary built from the enums iff some enum carries that name |
| CapsBlocks.EnumDictLastWins | virtinst/domcapabilities.py:48 | the dictionary maps a name to the last enum in document order that carries it |
| CapsBlocks.GetEnum | virtinst/domcapabilities.py:47-49 | succeeds iff the name is among `enum_names()`, and then returns the last enum of that name; otherwise it fails with KeyError for that name |
| Cpu.GetModel | virtinst/domcapabilities.py:118-121 | returns None iff no model has that name; otherwise returns the first model, in document order, with that name |
| Cpu.GetMode | virtinst/domcapabilities.py:130-133 | returns None iff no mode has that name; otherwise returns the first mode, in document order, with that name |
| FirmwarePatterns.MatchFromSound | virtinst/domcapabilities.py:196 | when the search from index k succeeds, the first fragment occurs at some j >= k with no newline in between and the rest of the pattern matches after it |
| FirmwarePatterns.MatchFromComplete | virtinst/domcapabilities.py:196 | every such occurrence of the first fragment at j >= k makes the search from k succeed |
| FirmwarePatterns.MatchesMeansInOrder | virtinst/domcapabilities.py:166-184 | a table pattern matches a path (`re.match`) iff its fragments occur in order with newline-free gaps |
| FirmwarePatterns.UefiArchs | virtinst/domcapabilities.py:166-184 | the table's architectures, in table order |
| FirmwarePatterns.PatternsFor | virtinst/domcapabilities.py:193 | `.get(arch)` is None iff arch is absent or not a table key; otherwise it is that key's pattern list |
| DomainCapabilities.BuildFromParams | virtinst/domcapabilities.py:141-156 | gives the stub when domain capabilities are unsupported, the fetch raised, or the document is empty; otherwise gives the parsed document |
| DomainCapabilities.StubReportsNoSupport | virtinst/domcapabilities.py:153-155 | the stub cannot do UEFI, has no UEFI XML support, no safe host-model, no custom models and no security features |
| DomainCapabilities.ArchCanUefi | virtinst/domcapabilities.py:217-221 | true iff arch is one of i686, x86_64, aarch64 or armv7l, which is exactly when the table has patterns for it |
| DomainCapabilities.FindUefiPathForArch | virtinst/domcapabilities.py:186-197 | None when the arch cannot do UEFI. Otherwise None iff no loader path matches any pattern of the arch. A result is the first loader path, in document order, matching the earliest pattern that any path matches: pattern priority beats document order |
| DomainCapabilities.FoundPathIsRecognized | virtinst/domcapabilities.py:193-215 | a path that matches one of the instance's own arch patterns is recognised by some table entry, so its label is a UEFI label |
| DomainCapabilities.LabelForFirmwarePath | virtinst/domcapabilities.py:199-215 | no path or an empty path gives "BIOS" on i686/x86_64 and "None" elsewhere. Otherwise the label is "UEFI <arch>: <path>" for the first table arch with a matching pattern, whatever the instance's arch; with no match it is "Custom: <path>" |
| DomainCapabilities.SupportsUefiXml | virtinst/domcapabilities.py:223-228 | true iff the last loader enum named "readonly" lists "yes"; the lookup never raises because the name is checked first |
| DomainCapabilities.SupportsSafeHostModel | virtinst/domcapabilities.py:230-238 | one boolean per CPU mode; entry i is true iff mode i is a supported "host-model" whose first model has fallback "forbid" |
| DomainCapabilities.SafeHostModelTruthIsModeCount | virtinst/domcapabilities.py:236-238 | used as a condition, the returned list is true iff the document lists any CPU mode |
| DomainCapabilities.CustomOnlyReadsAsSafeHostModel | virtinst/domcapabilities.py:236-238 | with only a supported "custom" mode, the returned list reads as true while no mode is a safe host-model |
| DomainCapabilities.HasSafeHostModel | virtinst/domcapabilities.py:230-235 | true iff some mode is a supported "host-model" whose first model has fallback "forbid" |
| DomainCapabilities.UsableNamesAppend | virtinst/domcapabilities.py:245-247 | the usable names of two runs of models are the two lists one after the other |
| DomainCapabilities.UsableCustomModelsAppend | virtinst/domcapabilities.py:243-249 | the model list over two runs of modes is the two lists one after the other, so document order is kept |
| DomainCapabilities.UsableNamesMembers | virtinst/domcapabilities.py:245-247 | a name is listed for a mode iff one of its models has that name and `usable` other than "no" (absent counts as usable) |
| DomainCapabilities.UsableCustomModelsMembers | virtinst/domcapabilities.py:240-249 | a name is listed iff some supported "custom" mode has a model of that name whose `usable` is not "no" |
| DomainCapabilities.UsableCustomModelsUpToSuffix | virtinst/domcapabilities.py:243-249 | what the first i modes contribute, followed by what the remaining modes give, is the whole model list |
| DomainCapabilities.AppendUsableNames | virtinst/domcapabilities.py:245-247 | the inner loop appends exactly the usable names of one mode's models, in document order, after what was collected before |
| DomainCapabilities.GetCpuModels | virtinst/domcapabilities.py:240-249 | the nested loops build exactly the usable names of the supported "custom" modes, in document order |
| DomainCapabilities.ExpandedCpu | virtinst/domcapabilities.py:259-273 | uses the `baselineHypervisorCPU` answer when it succeeds and the `baselineCPU` answer otherwise; fails iff both calls fail |
| DomainCapabilities.SecurityNames | virtinst/domcapabilities.py:276-280 | only names from {spec-ctrl, ssbd, ibpb, virt-ssbd} are kept |
| DomainCapabilities.SecurityNamesMembers | virtinst/domcapabilities.py:294-296 | a name is kept iff it is whitelisted and some reported feature carries it |
| DomainCapabilities.SecurityNamesAppend | virtinst/domcapabilities.py:294-296 | filtering two runs of features gives the two filtered lists one after the other, in reported order |
| DomainCapabilities.SecurityFeatures | virtinst/domcapabilities.py:276-298 | every returned name is one of spec-ctrl, ssbd, ibpb, virt-ssbd |
| DomainCapabilities.SecurityFeaturesOnlyHostModel | virtinst/domcapabilities.py:284-286 | only supported "host-model" modes contribute; dropping every other mode leaves the result unchanged |
| DomainCapabilities.SecurityFeaturesStopAtFailure | virtinst/domcapabilities.py:288-292 | after a failed expansion, later modes are never consulted; the result is what the earlier modes gave |
| DomainCapabilities.SecurityFeaturesMembers | virtinst/domcapabilities.py:276-298 | a name is in the result iff some supported "host-model" mode, with no failed expansion before it, expands successfully and reports that whitelisted feature |
| DomainCapabilities.NoExpansionFailsCons | virtinst/domcapabilities.py:284-292 | a run of modes reaches its end without a failed expansion iff its first mode does not fail and the rest does not |
| DomainCapabilities.SecurityFeaturesAppend | virtinst/domcapabilities.py:284-298 | while expansions succeed, the features of earlier modes come first, in reported order |
| DomainCapabilities.SecurityFeaturesStep | virtinst/domcapabilities.py:284-296 | mode i is skipped unless it is a supported "host-model"; a failed expansion ends the result; a successful one puts its whitelisted names before what the later modes give |
| DomainCapabilities.AppendSecurityNames | virtinst/domcapabilities.py:294-296 | the inner loop appends exactly the whitelisted names of one expansion's features, in reported order |
| DomainCapabilities.GetCpuSecurityFeatures | virtinst/domcapabilities.py:275-298 | the loop with `continue`, `break` and appends returns exactly the specified whitelisted features |
| DomainCapabilities.HostModelModes | virtinst/domcapabilities.py:285 | every mode kept is a supported "host-model" mode |
| DomainCapabilities.HostModelModesMembers | virtinst/domcapabilities.py:284-286 | a mode is kept iff it is in the list and is a supported "host-model" mode |

## Left out

- The XML binding layer (`XMLBuilder`, `XMLProperty`, `XMLChildProperty`) and the `_make_capsblock` class factory: the parsed tree is given directly as datatypes, with one generic block type.
- Parsing and serialising XML: turning the document text into the tree, `_convert_mode_to_cpu`, and reading the expanded CPU XML into `DomainCpu`. The expansion oracles return the parsed feature list.
- The libvirt calls `check_support`, `getDomainCapabilities`, `baselineHypervisorCPU` and `baselineCPU`: these are oracles. Each expansion oracle is a function of the mode, so two equal modes in one document share one answer, whereas the source makes one call per mode and the two calls could answer differently.
- `build_from_guest`: it only reads four fields of a guest and passes them to `build_from_params`.
- `logging` calls and gettext translation: labels are the untranslated literal strings.
- Python's general regular expression engine: only the fragment form that the table's patterns have is modelled.
- CapsBlocks.GetValues: an empty `<value/>` element is read as the empty string rather than None.
- DomainCapabilities.SupportsSafeHostModel: for a "host-model" mode without a `supported` attribute the source's list entry is `None`, the model's is `false`; both have the same truth value.
- DomainCapabilities.SupportsSafeHostModel: requires every supported "host-model" mode to list a model. The source raises IndexError on `models[0]` otherwise.
- Exceptions other than libvirt errors raised during expansion (for example from XML parsing) are not modelled. The source would let them propagate.

## Findings

| source | as written | input that shows it | evidently intended | confidence | as-written member | corrected member |
|---|---|---|---|---|---|---|
| virtinst/domcapabilities.py:236-238 | `supports_safe_host_model` returns a list comprehension, one boolean per mode, which is true as a condition whenever the list is non-empty | a document whose only CPU mode is a supported "custom" mode: the result is `[False]`, which reads as true | the docstring's "Return True if": true iff some mode is a supported "host-model" whose first model has fallback "forbid" | not executed; high (the docstring and the name ask for one boolean) | DomainCapabilities.CustomOnlyReadsAsSafeHostModel | DomainCapabilities.HasSafeHostModel |

/** The generic `<enum>`/`<value>` part of the domain capabilities document:
    a value list, a named enum holding values, and a capability block that
    carries a supported flag, its own values and a list of enums. */
module CapsBlocks {
  import opened Wrappers

  /** One `<value>` element; its text is the value. */
  datatype ValueElem = ValueElem(value: string)

  /** One `<enum name=...>` element; `name` is None when the attribute is absent. */
  datatype EnumElem = EnumElem(name: Option<string>, values: seq<ValueElem>)

  /** A capability block (`<loader>`, `<hostdev>`, `<disk>`, `<gic>`, ...).
      `supported` is false when the attribute is absent or reads "no". */
  datatype CapsBlock = CapsBlock(supported: bool, values: seq<ValueElem>, enums: seq<EnumElem>)

  /** The error `get_enum` raises for a name that no enum carries. */
  datatype LookupError = KeyError(key: string)

  /** The block a stub document yields: nothing supported, nothing listed. */
  const EmptyBlock: CapsBlock := CapsBlock(false, [], [])

  /** `_HasValues.get_values`: the value texts in document order. */
  function GetValues(vs: seq<ValueElem>): (r: seq<string>)
    ensures |r| == |vs|
    ensures forall i :: 0 <= i < |vs| ==> r[i] == vs[i].value
  {
    if vs == [] then [] else [vs[0].value] + GetValues(vs[1..])
  }

  /** `_CapsBlock.enum_names`: the enum names in document order. */
  function EnumNames(b: CapsBlock): (r: seq<Option<string>>)
    ensures |r| == |b.enums|
    ensures forall i :: 0 <= i < |b.enums| ==> r[i] == b.enums[i].name
  {
    seq(|b.enums|, i requires 0 <= i < |b.enums| => b.enums[i].name)
  }

  /** The dictionary `dict((e.name, e) for e in enums)`: entries are inserted
      in document order, so a later enum overwrites an earlier one of the same name. */
  function EnumDict(es: seq<EnumElem>): map<Option<string>, EnumElem>
  {
    if es == [] then map[] else EnumDict(es[..|es| - 1])[es[|es| - 1].name := es[|es| - 1]]
  }

  /** The enum that is the last one in `es` named `key`. */
  ghost predicate IsLastNamed(es: seq<EnumElem>, key: Option<string>, i: int)
  {
    && 0 <= i < |es|
    && es[i].name == key
    && forall j :: i < j < |es| ==> es[j].name != key
  }

  /** A name is a key of the dictionary iff some enum carries it. */
  lemma {:induction false} EnumDictKeys(es: seq<EnumElem>, key: Option<string>)
    ensures key in EnumDict(es) <==> exists i :: 0 <= i < |es| && es[i].name == key
  {
    if es != [] {
      var n := |es| - 1;
      var init := es[..n];
      EnumDictKeys(init, key);
      if key in EnumDict(init) {
        var i :| 0 <= i < |init| && init[i].name == key;
        assert es[i] == init[i];
      }
      if exists i :: 0 <= i < |es| && es[i].name == key {
        var i :| 0 <= i < |es| && es[i].name == key;
        if i < n { assert init[i] == es[i]; }
      }
    }
  }

  /** The dictionary maps a name to the last enum carrying it. */
  lemma {:induction false} EnumDictLastWins(es: seq<EnumElem>, key: Option<string>)
    requires key in EnumDict(es)
    ensures exists i :: IsLastNamed(es, key, i) && EnumDict(es)[key] == es[i]
  {
    var n := |es| - 1;
    var init := es[..n];
    if es[n].name == key {
      assert IsLastNamed(es, key, n);
    } else {
      EnumDictLastWins(init, key);
      var i :| IsLastNamed(init, key, i) && EnumDict(init)[key] == init[i];
      assert es[i] == init[i];
      assert IsLastNamed(es, key, i);
    }
  }

  /** `_CapsBlock.get_enum`: the last enum named `name`, or KeyError. */
  function GetEnum(b: CapsBlock, name: string): (r: Result<EnumElem, LookupError>)
    ensures r.Ok? <==> Some(name) in EnumNames(b)
    ensures r.Ok? ==> exists i :: IsLastNamed(b.enums, Some(name), i) && r.value == b.enums[i]
    ensures r.Err? ==> r.error == KeyError(name)
  {
    var d := EnumDict(b.enums);
    EnumDictKeys(b.enums, Some(name));
    if Some(name) in d then EnumDictLastWins(b.enums, Some(name)); Ok(d[Some(name)]) else Err(KeyError(name))
  }
}

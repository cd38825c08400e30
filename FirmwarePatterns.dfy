/** The table of UEFI firmware file name patterns per architecture, and the
    part of Python's `re.match` that those patterns exercise.

    Every pattern in the table has the shape `.*F1`, `.*F1.*` or `.*F1.*F2`
    where the fragments F1, F2 are literal text (the only `.` inside a
    fragment is written `\.`). `re.match` anchors at the start of the path
    only, and `.` matches any character except a newline, so such a pattern
    matches a path iff its fragments occur in the path in order, with no
    newline before the first fragment or between two fragments. A pattern
    is therefore modelled as its list of fragments. */
module FirmwarePatterns {
  import opened Wrappers

  /** The literal fragments of a pattern, in order. */
  type Pattern = seq<string>

  /** Fragment `f` occurs in `s` starting at index `k`. */
  predicate FragmentAt(f: string, s: string, k: int)
  {
    0 <= k && k + |f| <= |s| && s[k..k + |f|] == f
  }

  /** The declarative meaning of a pattern: `frags[0]` occurs after a
      newline-free prefix, and the remaining fragments match what follows it. */
  ghost predicate InOrder(frags: seq<string>, s: string)
    decreases |frags|
  {
    || frags == []
    || exists j ::
         && FragmentAt(frags[0], s, j)
         && '\n' !in s[..j]
         && InOrder(frags[1..], s[j + |frags[0]|..])
  }

  /** The first fragment is found at `j`, the gap `s[k..j]` has no newline,
      and the remaining fragments match the rest of `s`. */
  ghost predicate FoundAt(frags: seq<string>, s: string, k: int, j: int)
    requires frags != []
  {
    && 0 <= k <= j
    && FragmentAt(frags[0], s, j)
    && '\n' !in s[k..j]
    && InOrder(frags[1..], s[j + |frags[0]|..])
  }

  /** `re.match(pattern, s) is not None` for a pattern given by its fragments:
      a backtracking search for the first fragment, then the rest. */
  function Matches(p: Pattern, s: string): bool
    decreases |p|, |s| + 1
  {
    p == [] || MatchFrom(p, s, 0)
  }

  /** Search for `frags[0]` at index `k` or later; `.*` cannot step over a newline. */
  function MatchFrom(frags: seq<string>, s: string, k: nat): bool
    requires frags != [] && k <= |s|
    decreases |frags|, |s| - k
  {
    if FragmentAt(frags[0], s, k) && Matches(frags[1..], s[k + |frags[0]|..]) then true
    else k < |s| && s[k] != '\n' && MatchFrom(frags, s, k + 1)
  }

  /** An occurrence found after a non-newline character at `k` is also
      found from `k`. */
  lemma FoundAtStepBack(frags: seq<string>, s: string, k: nat, j: int)
    requires frags != [] && k < |s| && s[k] != '\n' && FoundAt(frags, s, k + 1, j)
    ensures FoundAt(frags, s, k, j)
  {
    assert s[k..j] == [s[k]] + s[k + 1..j];
  }

  /** An occurrence found from `k` beyond `k` is found from `k + 1`, and the
      character at `k` is not a newline. */
  lemma FoundAtStepForward(frags: seq<string>, s: string, k: nat, j: int)
    requires frags != [] && FoundAt(frags, s, k, j) && j > k
    ensures s[k] != '\n' && FoundAt(frags, s, k + 1, j)
  {
    assert s[k] == s[k..j][0];
    assert s[k + 1..j] == s[k..j][1..];
  }

  /** When the search from `k` succeeds, the first fragment occurs at some
      `j >= k` with no newline in between, and the rest of the pattern
      matches after it. */
  lemma {:induction false} MatchFromSound(frags: seq<string>, s: string, k: nat)
    requires frags != [] && k <= |s| && MatchFrom(frags, s, k)
    ensures exists j :: FoundAt(frags, s, k, j)
    decreases |frags|, |s| - k
  {
    var f := frags[0];
    if FragmentAt(f, s, k) && Matches(frags[1..], s[k + |f|..]) {
      MatchesMeansInOrder(frags[1..], s[k + |f|..]);
      assert FoundAt(frags, s, k, k);
    } else {
      MatchFromSound(frags, s, k + 1);
      var j :| FoundAt(frags, s, k + 1, j);
      FoundAtStepBack(frags, s, k, j);
    }
  }

  /** Any such occurrence at `j >= k` is found by the search from `k`. */
  lemma {:induction false} MatchFromComplete(frags: seq<string>, s: string, k: nat, j: int)
    requires frags != [] && k <= |s| && FoundAt(frags, s, k, j)
    ensures MatchFrom(frags, s, k)
    decreases |frags|, |s| - k
  {
    if j == k {
      MatchesMeansInOrder(frags[1..], s[k + |frags[0]|..]);
    } else {
      FoundAtStepForward(frags, s, k, j);
      MatchFromComplete(frags, s, k + 1, j);
    }
  }

  /** The matcher agrees with the declarative meaning of a pattern. */
  lemma {:induction false} MatchesMeansInOrder(p: Pattern, s: string)
    ensures Matches(p, s) <==> InOrder(p, s)
    decreases |p|, |s| + 1
  {
    if p != [] {
      if InOrder(p, s) {
        var j :| FragmentAt(p[0], s, j) && '\n' !in s[..j] && InOrder(p[1..], s[j + |p[0]|..]);
        assert s[0..j] == s[..j];
        MatchFromComplete(p, s, 0, j);
      }
      if Matches(p, s) {
        MatchFromSound(p, s, 0);
        var j :| FoundAt(p, s, 0, j);
        assert s[0..j] == s[..j];
      }
    }
  }

  /** `_uefi_arch_patterns`, in its insertion order (which is the order a
      Python dict iterates in). Each pattern is listed with its regex. */
  const UefiArchPatterns: seq<(string, seq<Pattern>)> := [
    ("i686", [
      ["ovmf-ia32"]]),                   // .*ovmf-ia32.*
    ("x86_64", [
      ["OVMF_CODE.fd"],                  // .*OVMF_CODE\.fd
      ["ovmf-x64/OVMF", ".fd"],          // .*ovmf-x64/OVMF.*\.fd
      ["ovmf-x86_64-"],                  // .*ovmf-x86_64-.*
      ["ovmf"],                          // .*ovmf.*
      ["OVMF"]]),                        // .*OVMF.*
    ("aarch64", [
      ["AAVMF_CODE.fd"],                 // .*AAVMF_CODE\.fd
      ["aarch64/QEMU_EFI"],              // .*aarch64/QEMU_EFI.*
      ["aarch64"]]),                     // .*aarch64.*
    ("armv7l", [
      ["arm/QEMU_EFI"]])                 // .*arm/QEMU_EFI.*
  ]

  /** The architectures the table knows, in table order. */
  function UefiArchs(): (r: seq<string>)
    ensures |r| == |UefiArchPatterns|
    ensures forall i :: 0 <= i < |r| ==> r[i] == UefiArchPatterns[i].0
  {
    seq(|UefiArchPatterns|, i requires 0 <= i < |UefiArchPatterns| => UefiArchPatterns[i].0)
  }

  /** `_uefi_arch_patterns.get(arch)`: the pattern list of `arch`, or None. */
  function PatternsFor(arch: Option<string>): (r: Option<seq<Pattern>>)
    ensures r.None? <==> (arch.None? || arch.value !in UefiArchs())
    ensures r.Some? ==> exists i :: 0 <= i < |UefiArchPatterns| && UefiArchPatterns[i] == (arch.value, r.value)
  {
    if arch.None? then None
    else if arch.value == "i686" then Some(UefiArchPatterns[0].1)
    else if arch.value == "x86_64" then Some(UefiArchPatterns[1].1)
    else if arch.value == "aarch64" then Some(UefiArchPatterns[2].1)
    else if arch.value == "armv7l" then Some(UefiArchPatterns[3].1)
    else None
  }

  /** Some pattern of table entry `a` matches `path`. */
  predicate ArchRecognizes(a: nat, path: string)
    requires a < |UefiArchPatterns|
  {
    exists i :: 0 <= i < |UefiArchPatterns[a].1| && Matches(UefiArchPatterns[a].1[i], path)
  }
}

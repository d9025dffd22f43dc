/** `utils::ensureNewFileName` (src/image_utils.cpp): find a file name that is
    not used yet by probing `<base>_<n><suffix>` for n = 1 .. 99.

    The file system is the set of names an input stream can open. */
module FileNames {
  import opened Common
  import Decimal

  /** The probe loop runs while `n < 100`, so it tries n = 1 .. 99. */
  const ProbeLimit: nat := 100

  /** A name cut at its extension; `suffix` is empty when there is none. */
  datatype NameParts = NameParts(base: string, suffix: string)

  /** `std::string::rfind('.')`: the index of the last dot, if any. */
  function LastDot(name: string): (i: Option<nat>)
    ensures i.Some? ==> i.value < |name| && name[i.value] == '.'
    ensures i.Some? ==> forall j :: i.value < j < |name| ==> name[j] != '.'
    ensures i.None? ==> forall j :: 0 <= j < |name| ==> name[j] != '.'
  {
    if |name| == 0 then None
    else if name[|name| - 1] == '.' then Some(|name| - 1)
    else LastDot(name[..|name| - 1])
  }

  /** The extension is split off only when the last dot lies within the last
      four characters (`name.size() - i <= 4`), so ".png" and ".txt" split and
      ".jpeg" does not. */
  function SplitName(name: string): (p: NameParts)
    ensures p.base + p.suffix == name
    ensures p.suffix != "" ==> p.suffix[0] == '.' && |p.suffix| <= 4
    ensures forall j :: 0 < j < |p.suffix| ==> p.suffix[j] != '.'
    ensures p.suffix == "" <==> forall j :: 0 <= j < |name| && |name| - j <= 4 ==> name[j] != '.'
  {
    match LastDot(name)
    case Some(i) =>
      if |name| - i <= 4 then NameParts(name[..i], name[i..]) else NameParts(name, "")
    case None => NameParts(name, "")
  }

  /** The n-th probed name, `<base>_<n><suffix>`. */
  function Candidate(p: NameParts, n: nat): string {
    p.base + "_" + Decimal.NatToString(n) + p.suffix
  }

  /** Every probed name from n = 1 to 99 is already used. */
  ghost predicate AllTaken(p: NameParts, used: set<string>) {
    forall m :: 1 <= m < ProbeLimit ==> Candidate(p, m) in used
  }

  /** The probe loop from `n` on: the first n below the limit whose candidate
      is unused, or None when all of them are used. */
  function FirstFree(p: NameParts, used: set<string>, n: nat): (k: Option<nat>)
    requires 1 <= n <= ProbeLimit
    ensures k.Some? ==> n <= k.value < ProbeLimit && Candidate(p, k.value) !in used
    ensures k.Some? ==> forall m :: n <= m < k.value ==> Candidate(p, m) in used
    ensures k.None? ==> forall m :: n <= m < ProbeLimit ==> Candidate(p, m) in used
    decreases ProbeLimit - n
  {
    if n == ProbeLimit then None
    else if Candidate(p, n) !in used then Some(n)
    else FirstFree(p, used, n + 1)
  }

  /** `ensureNewFileName(name)`. An unused name comes back unchanged; a used
      one becomes the first unused candidate; when all 99 candidates are used
      the result is the base, with any split-off extension dropped. */
  function EnsureNewFileName(name: string, used: set<string>): (r: string)
    ensures name !in used ==> r == name
    ensures name in used && !AllTaken(SplitName(name), used) ==>
      r !in used &&
      exists n :: 1 <= n < ProbeLimit && r == Candidate(SplitName(name), n) &&
        forall m :: 1 <= m < n ==> Candidate(SplitName(name), m) in used
    ensures name in used && AllTaken(SplitName(name), used) ==> r == SplitName(name).base
  {
    if name !in used then name
    else
      var p := SplitName(name);
      match FirstFree(p, used, 1)
      case Some(n) => Candidate(p, n)
      case None => p.base
  }

  /** A name ending in ".png" (or any dot and at most three more characters
      without a dot) splits exactly there. */
  lemma SplitShortExtension(base: string, ext: string)
    requires 1 <= |ext| <= 4 && ext[0] == '.'
    requires forall j :: 0 < j < |ext| ==> ext[j] != '.'
    ensures SplitName(base + ext) == NameParts(base, ext)
  {
    var name := base + ext;
    assert name[|base|] == '.';
    var p := SplitName(name);
    assert p.suffix != "";
    assert p.base == name[..|base|];
  }

  /** A dot five or more characters from the end (".jpeg") is not an extension. */
  lemma NoSplitLongExtension(stem: string, tail: string)
    requires 4 <= |tail| && forall j :: 0 <= j < |tail| ==> tail[j] != '.'
    ensures SplitName(stem + "." + tail) == NameParts(stem + "." + tail, "")
  {
    var name := stem + "." + tail;
    forall j | 0 <= j < |name| && |name| - j <= 4
      ensures name[j] != '.'
    {
      assert name[j] == tail[j - |stem| - 1];
    }
  }

  /** The header promises a different name when the given one is used. The
      code keeps that promise except in one case: all 99 candidates are used
      and the name had no extension to strip. */
  lemma NewNameUnlessExhausted(name: string, used: set<string>)
    requires name in used
    ensures EnsureNewFileName(name, used) == name <==>
      AllTaken(SplitName(name), used) && SplitName(name).suffix == ""
  {
    var p := SplitName(name);
    if AllTaken(p, used) {
      if p.suffix != "" {
        assert |p.base| < |name|;
      }
    }
  }

  /** Resolving a name that was just created: the first candidate, if it is
      free, is the answer; this is why a repeated time stamp yields `_1` names. */
  lemma ResolveAfterCreate(name: string, used: set<string>)
    requires Candidate(SplitName(name), 1) !in used + {name}
    ensures EnsureNewFileName(name, used + {name}) == Candidate(SplitName(name), 1)
  {
  }

  /** Resolving the same name twice, with the first result created in
      between: the plain name, then the name with "_1" before the extension. */
  lemma ResolveTwice(stem: string, ext: string, used: set<string>)
    requires 1 <= |ext| <= 4 && ext[0] == '.'
    requires forall j :: 0 < j < |ext| ==> ext[j] != '.'
    requires stem + ext !in used && stem + "_1" + ext !in used
    ensures EnsureNewFileName(stem + ext, used) == stem + ext
    ensures EnsureNewFileName(stem + ext, used + {stem + ext}) == stem + "_1" + ext
  {
    SplitShortExtension(stem, ext);
    assert Decimal.NatToString(1) == "1";
    assert Candidate(NameParts(stem, ext), 1) == stem + "_1" + ext;
    assert |stem + "_1" + ext| != |stem + ext|;
    ResolveAfterCreate(stem + ext, used);
  }

  /** Whatever a name with a short extension resolves to starts with the
      part before the extension: the name itself, a numbered candidate, or
      the bare base. */
  lemma ResolvedKeepsBase(base: string, ext: string, used: set<string>) returns (r: string)
    requires 1 <= |ext| <= 4 && ext[0] == '.'
    requires forall j :: 0 < j < |ext| ==> ext[j] != '.'
    ensures r == EnsureNewFileName(base + ext, used)
    ensures base <= r
    ensures r == base + ext || r == base ||
            exists n :: 1 <= n < ProbeLimit && r == Candidate(NameParts(base, ext), n)
  {
    SplitShortExtension(base, ext);
    var p := NameParts(base, ext);
    r := EnsureNewFileName(base + ext, used);
    if base + ext !in used {
      assert r[..|base|] == base;
    } else {
      match FirstFree(p, used, 1)
      case None =>
      case Some(n) =>
        assert r == Candidate(p, n);
        CandidateKeepsBase(p, n);
    }
  }

  lemma CandidateKeepsBase(p: NameParts, n: nat)
    ensures p.base <= Candidate(p, n)
  {
    var tail := "_" + Decimal.NatToString(n) + p.suffix;
    assert Candidate(p, n) == p.base + tail;
    assert (p.base + tail)[..|p.base|] == p.base;
  }
}

/**
 * PkgColorizer: picks the colour in which a package is listed by comparing
 * its version with the version of the package of the same name.arch in a base
 * package set. The base packages and the package being coloured are type
 * parameters; `get_na` and `rpm::evrcmp` come in as functions.
 */
module Colorizer {
  import opened ColorEscape

  /**
   * The name.arch map the constructor's emplace loop builds from `pkgs`: one
   * entry per name.arch, holding the first package that has it, since emplace
   * leaves an existing entry alone.
   */
  function FirstByNa<P>(pkgs: seq<P>, getNa: P -> string): (m: map<string, P>)
    decreases |pkgs|
  {
    if pkgs == [] then map[]
    else
      var front := FirstByNa(pkgs[..|pkgs| - 1], getNa);
      var last := pkgs[|pkgs| - 1];
      if getNa(last) in front then front else front[getNa(last) := last]
  }

  /**
   * The keys of the base map are exactly the name.archs of the base packages,
   * and each maps to the earliest package with that name.arch.
   */
  lemma {:induction false} FirstByNaContents<P>(pkgs: seq<P>, getNa: P -> string)
    ensures forall k :: k in FirstByNa(pkgs, getNa) ==>
              exists i :: 0 <= i < |pkgs| && getNa(pkgs[i]) == k
    ensures forall i :: 0 <= i < |pkgs| ==> getNa(pkgs[i]) in FirstByNa(pkgs, getNa)
    ensures forall i :: 0 <= i < |pkgs| && (forall j :: 0 <= j < i ==> getNa(pkgs[j]) != getNa(pkgs[i])) ==>
              FirstByNa(pkgs, getNa)[getNa(pkgs[i])] == pkgs[i]
    decreases |pkgs|
  {
    if pkgs != [] {
      var n := |pkgs| - 1;
      var front := pkgs[..n];
      FirstByNaContents(front, getNa);
      var m := FirstByNa(pkgs, getNa);
      forall k | k in m
        ensures exists i :: 0 <= i < |pkgs| && getNa(pkgs[i]) == k
      {
        if k in FirstByNa(front, getNa) {
          var i :| 0 <= i < |front| && getNa(front[i]) == k;
          assert pkgs[i] == front[i];
        } else {
          assert getNa(pkgs[n]) == k;
        }
      }
      forall i | 0 <= i < |pkgs|
        ensures getNa(pkgs[i]) in m
      {
        if i < n {
          assert pkgs[i] == front[i];
        }
      }
      forall i | 0 <= i < |pkgs| && (forall j :: 0 <= j < i ==> getNa(pkgs[j]) != getNa(pkgs[i]))
        ensures m[getNa(pkgs[i])] == pkgs[i]
      {
        if i < n {
          assert pkgs[i] == front[i];
          assert forall j :: 0 <= j < i ==> front[j] == pkgs[j];
        } else {
          assert forall j :: 0 <= j < n ==> front[j] == pkgs[j];
        }
      }
    }
  }

  class PkgColorizer<P> {
    /** name.arch of each base package, mapped to that package. */
    const baseNaVersion: map<string, P>
    const colorNotFound: string
    const colorLt: string
    const colorEq: string
    const colorGt: string

    /** The four stored colours are escape sequences (or ""): to_escape leaves each unchanged. */
    ghost predicate Valid()
    {
      EscapeOf(colorNotFound) == colorNotFound && EscapeOf(colorLt) == colorLt &&
      EscapeOf(colorEq) == colorEq && EscapeOf(colorGt) == colorGt
    }

    /** Converts the four colours to escape sequences and indexes the base packages by name.arch. */
    constructor(baseVersions: seq<P>, getNa: P -> string,
                colorNotFound: string, colorLt: string, colorEq: string, colorGt: string)
      ensures this.colorNotFound == EscapeOf(colorNotFound)
      ensures this.colorLt == EscapeOf(colorLt)
      ensures this.colorEq == EscapeOf(colorEq)
      ensures this.colorGt == EscapeOf(colorGt)
      ensures baseNaVersion == FirstByNa(baseVersions, getNa)
      ensures Valid()
    {
      var notFound := ToEscape(colorNotFound);
      var lt := ToEscape(colorLt);
      var eq := ToEscape(colorEq);
      var gt := ToEscape(colorGt);
      var m: map<string, P> := map[];
      for i := 0 to |baseVersions|
        invariant m == FirstByNa(baseVersions[..i], getNa)
      {
        assert baseVersions[..i + 1][..i] == baseVersions[..i];
        var pkg := baseVersions[i];
        if getNa(pkg) !in m {
          m := m[getNa(pkg) := pkg];
        }
      }
      assert baseVersions[..|baseVersions|] == baseVersions;
      EscapeOfIdempotent(colorNotFound);
      EscapeOfIdempotent(colorLt);
      EscapeOfIdempotent(colorEq);
      EscapeOfIdempotent(colorGt);
      this.colorNotFound := notFound;
      this.colorLt := lt;
      this.colorEq := eq;
      this.colorGt := gt;
      baseNaVersion := m;
    }

    /**
     * get_pkg_color: colorNotFound when no base package has the package's
     * name.arch, otherwise colorLt, colorEq or colorGt according to the sign
     * of evrcmp(package, base package).
     */
    function GetPkgColor<Q>(pkg: Q, getNa: Q -> string, evrcmp: (Q, P) -> int): (color: string)
      ensures getNa(pkg) !in baseNaVersion ==> color == colorNotFound
      ensures getNa(pkg) in baseNaVersion && evrcmp(pkg, baseNaVersion[getNa(pkg)]) < 0 ==> color == colorLt
      ensures getNa(pkg) in baseNaVersion && evrcmp(pkg, baseNaVersion[getNa(pkg)]) == 0 ==> color == colorEq
      ensures getNa(pkg) in baseNaVersion && evrcmp(pkg, baseNaVersion[getNa(pkg)]) > 0 ==> color == colorGt
      ensures color in {colorNotFound, colorLt, colorEq, colorGt}
      ensures Valid() ==> EscapeOf(color) == color
    {
      var na := getNa(pkg);
      if na !in baseNaVersion then colorNotFound
      else
        var vercmp := evrcmp(pkg, baseNaVersion[na]);
        if vercmp < 0 then colorLt
        else if vercmp == 0 then colorEq
        else colorGt
    }
  }

  /**
   * Colouring against a base set: a package whose name.arch no base package has
   * gets colorNotFound; otherwise the comparison is with the first base package
   * of that name.arch.
   */
  lemma ColorAgainstBase<P, Q>(c: PkgColorizer<P>, baseVersions: seq<P>, getNa: P -> string,
                               pkg: Q, pkgNa: Q -> string, evrcmp: (Q, P) -> int)
    requires c.baseNaVersion == FirstByNa(baseVersions, getNa)
    ensures (forall i :: 0 <= i < |baseVersions| ==> getNa(baseVersions[i]) != pkgNa(pkg)) ==>
              c.GetPkgColor(pkg, pkgNa, evrcmp) == c.colorNotFound
    ensures forall i :: 0 <= i < |baseVersions| && getNa(baseVersions[i]) == pkgNa(pkg) &&
                        (forall j :: 0 <= j < i ==> getNa(baseVersions[j]) != pkgNa(pkg)) ==>
              var cmp := evrcmp(pkg, baseVersions[i]);
              c.GetPkgColor(pkg, pkgNa, evrcmp) ==
                (if cmp < 0 then c.colorLt else if cmp == 0 then c.colorEq else c.colorGt)
  {
    FirstByNaContents(baseVersions, getNa);
  }
}

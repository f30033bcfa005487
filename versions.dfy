/**
 * mlang_version: the fixed table of Moodle versions the repository knows,
 * and the factory lookups over it.
 */
module Versions {
  import opened Basics

  /** The internal version codes stored in the repository. */
  const Moodle16: int := 1600
  const Moodle17: int := 1700
  const Moodle18: int := 1800
  const Moodle19: int := 1900
  const Moodle20: int := 2000
  const Moodle21: int := 2100
  const Moodle22: int := 2200
  const Moodle23: int := 2300

  /**
   * One row of the version table: the internal code, as stored in the
   * repository's branch column; a human-readable label like "2.0"; the git
   * branch like "MOODLE_20_STABLE"; the directory name like "lang20"; whether
   * translations on the branch are allowed; whether translators should focus on it.
   */
  datatype Version = Version(code: int, humanLabel: string, branch: string, dir: string, translatable: bool, current: bool)

  /** The version table in its source order: newest first. */
  const Known: seq<Version> := [
    Version(Moodle21, "2.1", "MOODLE_21_STABLE", "lang21", false, false),
    Version(Moodle20, "2.0", "MOODLE_20_STABLE", "lang20", true, true),
    Version(Moodle19, "1.9", "MOODLE_19_STABLE", "lang19", true, true),
    Version(Moodle18, "1.8", "MOODLE_18_STABLE", "lang18", true, false),
    Version(Moodle17, "1.7", "MOODLE_17_STABLE", "lang17", true, false),
    Version(Moodle16, "1.6", "MOODLE_16_STABLE", "lang16", true, false)
  ]

  /** Every code and every branch name occurs once in the table, so a lookup by either has at most one answer. */
  lemma KnownKeysUnique()
    ensures forall i, j :: 0 <= i < j < |Known| ==> Known[i].code != Known[j].code
    ensures forall i, j :: 0 <= i < j < |Known| ==> Known[i].branch != Known[j].branch
  {
  }

  /** mlang_version::by_code: the first version with the given code, None when there is none. */
  method ByCode(code: int) returns (r: Option<Version>)
    ensures r.Some? <==> exists i :: 0 <= i < |Known| && Known[i].code == code
    ensures r.Some? ==> r.value in Known && r.value.code == code
  {
    var i := 0;
    while i < |Known|
      invariant 0 <= i <= |Known|
      invariant forall j :: 0 <= j < i ==> Known[j].code != code
    {
      if Known[i].code == code {
        return Some(Known[i]);
      }
      i := i + 1;
    }
    return None;
  }

  /** mlang_version::by_branch: the first version of the given branch name, None when there is none. */
  method ByBranch(branch: string) returns (r: Option<Version>)
    ensures r.Some? <==> exists i :: 0 <= i < |Known| && Known[i].branch == branch
    ensures r.Some? ==> r.value in Known && r.value.branch == branch
  {
    var i := 0;
    while i < |Known|
      invariant 0 <= i <= |Known|
      invariant forall j :: 0 <= j < i ==> Known[j].branch != branch
    {
      if Known[i].branch == branch {
        return Some(Known[i]);
      }
      i := i + 1;
    }
    return None;
  }

  /**
   * mlang_version::list_translatable: the translatable versions keyed by
   * their code; these are exactly 1.6 to 2.0.
   */
  method ListTranslatable() returns (list: map<int, Version>)
    ensures forall c :: c in list <==> exists i :: 0 <= i < |Known| && Known[i].translatable && Known[i].code == c
    ensures forall c :: c in list ==> list[c] in Known && list[c].code == c && list[c].translatable
    ensures list.Keys == {Moodle16, Moodle17, Moodle18, Moodle19, Moodle20}
  {
    list := map[];
    var i := 0;
    while i < |Known|
      invariant 0 <= i <= |Known|
      invariant forall c :: c in list <==> exists j :: 0 <= j < i && Known[j].translatable && Known[j].code == c
      invariant forall c :: c in list ==> list[c] in Known && list[c].code == c && list[c].translatable
    {
      if Known[i].translatable {
        list := list[Known[i].code := Known[i]];
      }
      i := i + 1;
    }
    assert Known[1].code == Moodle20 && Known[2].code == Moodle19 && Known[3].code == Moodle18;
    assert Known[4].code == Moodle17 && Known[5].code == Moodle16;
  }

  /** The 1.x branches are the ones whose strings use the legacy placeholder syntax. */
  predicate IsLegacy(code: int) {
    code <= Moodle19
  }

  /** The current branches are 2.0 and 1.9, one of each syntax. */
  lemma CurrentVersions()
    ensures forall i :: 0 <= i < |Known| && Known[i].current ==> Known[i].code in {Moodle20, Moodle19}
    ensures Known[1].current && !IsLegacy(Known[1].code)
    ensures Known[2].current && IsLegacy(Known[2].code)
  {
  }
}

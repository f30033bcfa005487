/**
 * mlang_stage: the staging area, a collection of components waiting to be
 * committed into the repository, with the rebase that keeps only the
 * staged strings that change something.
 */
module Staging {
  import opened Basics
  import opened Text
  import opened Versions
  import opened Strings
  import opened Repository
  import opened Components

  /** The $deletemissing argument of rebase: a boolean, or a value of some other PHP type. */
  datatype Flag = Bool(value: bool) | NotBool

  // ----- What rebase computes, on values -----

  /** The cap a staged component is rebased on: its snapshot, deletion records included. */
  function CapQuery(k: Ident, basetimestamp: Option<int>): Query {
    Query(k.name, k.lang, k.code, basetimestamp, true, false, [])
  }

  /** The strings rebase compares against: the component's latest records, deletions included, up to the base timestamp. */
  function Cap(rows: seq<Row>, k: Ident, basetimestamp: Option<int>): map<string, Str> {
    Snapshot(rows, CapQuery(k, basetimestamp))
  }

  /** The removal record rebase stages for a cap string: a copy marked deleted, with the deletion time. */
  function Tombstone(s: Str, ts: int): (t: Str)
    ensures t.deleted && t.timemodified == ts
    ensures t.id == s.id && t.text == s.text && t.extra == s.extra
  {
    s.(deleted := true, timemodified := ts)
  }

  /** The staged strings, plus a removal record for every cap string that is not staged. */
  function WithTombstones(staged: map<string, Str>, cap: map<string, Str>, ts: int): (w: map<string, Str>)
    ensures w.Keys == staged.Keys + cap.Keys
    ensures forall id :: id in staged ==> w[id] == staged[id]
    ensures forall id :: id in cap && id !in staged ==> w[id] == Tombstone(cap[id], ts)
  {
    map id | id in staged.Keys + cap.Keys :: if id in staged then staged[id] else Tombstone(cap[id], ts)
  }

  /**
   * Whether rebase keeps the staged string of id `id`: when the cap does not
   * have it; when it removes a live cap string; when it differs from the cap
   * string and is not older than it.
   */
  predicate Keep(id: string, s: Str, cap: map<string, Str>) {
    id !in cap
    || (s.deleted && !cap[id].deleted)
    || (Differ(s, cap[id]) && !(s.timemodified < cap[id].timemodified))
  }

  /** The strings of `w` that rebase keeps against `cap`. */
  function Kept(w: map<string, Str>, cap: map<string, Str>): (m: map<string, Str>)
    ensures forall id :: id in m <==> id in w && Keep(id, w[id], cap)
    ensures forall id :: id in m ==> m[id] == w[id]
  {
    map id | id in w && Keep(id, w[id], cap) :: w[id]
  }

  /** The strings of one staged component after rebase against `cap`. */
  function RebaseStrings(staged: map<string, Str>, cap: map<string, Str>, deletemissing: bool, ts: int): map<string, Str> {
    Kept(if deletemissing then WithTombstones(staged, cap, ts) else staged, cap)
  }

  /** The whole stage after rebase: every component rebased on its own cap, the empty ones unstaged. */
  function RebasedStage(contents: map<Ident, map<string, Str>>, rows: seq<Row>, basetimestamp: Option<int>,
                        deletemissing: bool, ts: int): map<Ident, map<string, Str>> {
    NonEmpty(RebasedComponents(contents, rows, basetimestamp, deletemissing, ts))
  }

  /** Every component rebased on its own cap. */
  function RebasedComponents(contents: map<Ident, map<string, Str>>, rows: seq<Row>, basetimestamp: Option<int>,
                             deletemissing: bool, ts: int): (m: map<Ident, map<string, Str>>)
    ensures m.Keys == contents.Keys
    ensures forall k :: k in m ==> m[k] == RebaseStrings(contents[k], Cap(rows, k, basetimestamp), deletemissing, ts)
  {
    map k | k in contents :: RebaseStrings(contents[k], Cap(rows, k, basetimestamp), deletemissing, ts)
  }

  /** The components that still hold a string. */
  function NonEmpty(contents: map<Ident, map<string, Str>>): (m: map<Ident, map<string, Str>>)
    ensures forall k :: k in m <==> k in contents && contents[k] != map[]
    ensures forall k :: k in m ==> m[k] == contents[k]
  {
    map k | k in contents && contents[k] != map[] :: contents[k]
  }

  /** Two stages that agree component by component are the same. */
  lemma SameStage(a: map<Ident, map<string, Str>>, b: map<Ident, map<string, Str>>)
    requires forall k :: k in a <==> k in b
    requires forall k :: k in a ==> a[k] == b[k]
    ensures a == b
  {
  }

  // ----- Properties of rebase -----

  /**
   * The decision rebase makes for one staged string: kept when the cap does
   * not have it; kept when it removes a live cap string; otherwise dropped
   * when it does not differ from the cap string or is older than it, and
   * kept when it differs and is not older.
   */
  lemma RebaseDecision(staged: map<string, Str>, cap: map<string, Str>, ts: int, id: string)
    requires id in staged
    ensures id !in cap ==> id in RebaseStrings(staged, cap, false, ts)
    ensures id in cap && staged[id].deleted && !cap[id].deleted ==> id in RebaseStrings(staged, cap, false, ts)
    ensures id in cap && !(staged[id].deleted && !cap[id].deleted) && !Differ(staged[id], cap[id])
      ==> id !in RebaseStrings(staged, cap, false, ts)
    ensures id in cap && !(staged[id].deleted && !cap[id].deleted) && staged[id].timemodified < cap[id].timemodified
      ==> id !in RebaseStrings(staged, cap, false, ts)
    ensures id in cap && Differ(staged[id], cap[id]) && staged[id].timemodified >= cap[id].timemodified
      ==> id in RebaseStrings(staged, cap, false, ts)
    ensures id in RebaseStrings(staged, cap, false, ts) ==> RebaseStrings(staged, cap, false, ts)[id] == staged[id]
  {
  }

  /**
   * With deletemissing, a cap string that is not staged comes back as its
   * removal record exactly when it is live in the cap; staged strings are
   * decided as without deletemissing.
   */
  lemma RebaseTombstones(staged: map<string, Str>, cap: map<string, Str>, ts: int, id: string)
    ensures id in cap && id !in staged ==>
      (id in RebaseStrings(staged, cap, true, ts) <==> !cap[id].deleted)
    ensures id in cap && id !in staged && id in RebaseStrings(staged, cap, true, ts) ==>
      RebaseStrings(staged, cap, true, ts)[id] == Tombstone(cap[id], ts)
    ensures id in staged ==>
      (id in RebaseStrings(staged, cap, true, ts) <==> id in RebaseStrings(staged, cap, false, ts))
    ensures id !in staged && id !in cap ==> id !in RebaseStrings(staged, cap, true, ts)
  {
  }

  /** Without deletemissing, rebase only takes strings away: the result is part of the stage. */
  lemma RebaseOnlyRemoves(staged: map<string, Str>, cap: map<string, Str>, ts: int)
    ensures forall id :: id in RebaseStrings(staged, cap, false, ts) ==>
      id in staged && RebaseStrings(staged, cap, false, ts)[id] == staged[id]
  {
  }

  /**
   * What survives rebase changes the repository: a string is new, or it
   * removes a live string, or it differs from the cap string and is not
   * older than it.
   */
  lemma RebasedStringsChangeSomething(staged: map<string, Str>, cap: map<string, Str>, dm: bool, ts: int, id: string)
    requires id in RebaseStrings(staged, cap, dm, ts) && id in cap
    ensures var s := RebaseStrings(staged, cap, dm, ts)[id];
      (s.deleted && !cap[id].deleted) || (Differ(s, cap[id]) && s.timemodified >= cap[id].timemodified)
  {
  }

  /** Against an empty repository rebase keeps everything, with or without deletemissing. */
  lemma RebaseOnEmptyCap(staged: map<string, Str>, dm: bool, ts: int)
    ensures RebaseStrings(staged, map[], dm, ts) == staged
  {
    SameStrings(RebaseStrings(staged, map[], dm, ts), staged);
  }

  /** Without deletemissing, rebasing twice on the same cap is rebasing once. */
  lemma {:induction false} RebaseIdempotent(staged: map<string, Str>, cap: map<string, Str>, ts: int)
    ensures RebaseStrings(RebaseStrings(staged, cap, false, ts), cap, false, ts) == RebaseStrings(staged, cap, false, ts)
  {
    var once := RebaseStrings(staged, cap, false, ts);
    SameStrings(RebaseStrings(once, cap, false, ts), once);
  }

  /**
   * With deletemissing it is not: a staged string equal to its cap string is
   * unstaged by the first rebase, and the second, no longer finding it staged,
   * stages its removal.
   */
  lemma RebaseWithDeleteMissingNotIdempotent()
    ensures var s := Str("a", Some("x"), 1, false, None);
      var cap := map["a" := Str("a", Some("x"), 0, false, None)];
      RebaseStrings(map["a" := s], cap, true, 5) == map[]
      && RebaseStrings(map[], cap, true, 5) == map["a" := Str("a", Some("x"), 5, true, None)]
  {
    var s := Str("a", Some("x"), 1, false, None);
    var c := Str("a", Some("x"), 0, false, None);
    var cap := map["a" := c];
    TrimOfTrimmed("x");
    assert !Differ(s, c);
    assert RebaseStrings(map["a" := s], cap, true, 5) == map[] by {
      assert WithTombstones(map["a" := s], cap, 5) == map["a" := s];
      assert "a" !in RebaseStrings(map["a" := s], cap, true, 5);
    }
    SameStrings(RebaseStrings(map[], cap, true, 5), map["a" := Tombstone(c, 5)]);
  }

  /** No component is left empty by rebase, and none is added. */
  lemma RebasedStageHasNoEmptyComponent(contents: map<Ident, map<string, Str>>, rows: seq<Row>, basetimestamp: Option<int>,
                                        dm: bool, ts: int)
    ensures forall k :: k in RebasedStage(contents, rows, basetimestamp, dm, ts) ==>
      k in contents && RebasedStage(contents, rows, basetimestamp, dm, ts)[k] != map[]
  {
  }

  /** Without deletemissing, rebasing the whole stage twice against the same repository is rebasing it once. */
  lemma {:induction false} RebasedStageIdempotent(contents: map<Ident, map<string, Str>>, rows: seq<Row>, basetimestamp: Option<int>, ts: int)
    ensures RebasedStage(RebasedStage(contents, rows, basetimestamp, false, ts), rows, basetimestamp, false, ts)
      == RebasedStage(contents, rows, basetimestamp, false, ts)
  {
    var once := RebasedStage(contents, rows, basetimestamp, false, ts);
    var twice := RebasedStage(once, rows, basetimestamp, false, ts);
    forall k | k in once
      ensures RebaseStrings(once[k], Cap(rows, k, basetimestamp), false, ts) == once[k]
    {
      RebaseIdempotent(contents[k], Cap(rows, k, basetimestamp), ts);
    }
    SameStage(twice, once);
  }

  /** The deletion time rebase uses: the given one unless it is empty(), else the current time. */
  function DeleteTime(deletetimestamp: Option<int>, now: int): int {
    if Bounded(deletetimestamp) then deletetimestamp.value else now
  }

  // ----- What commit writes, on values -----

  /** The columns commit sets itself; metadata of the same name is overwritten. */
  const CoreColumns: set<string> := {"branch", "lang", "component", "stringid", "text", "timemodified", "deleted", "commitmsg"}

  /** The metadata that survives into the record. */
  function MetaColumns(meta: map<string, string>): (m: map<string, string>)
    ensures forall f :: f in m <==> f in meta && f !in CoreColumns
    ensures forall f :: f in m ==> m[f] == meta[f]
  {
    map f | f in meta && f !in CoreColumns :: meta[f]
  }

  /** The repository record commit writes for staged string `s` of component `k`. */
  function Record(k: Ident, s: Str, message: string, meta: map<string, string>): (r: Row)
    ensures r.branch == k.code && r.lang == k.lang && r.component == k.name
    ensures r.stringid == s.id && r.text == s.text && r.timemodified == s.timemodified && r.deleted == s.deleted
    ensures r.commitmsg == Trim(message) && r.meta == MetaColumns(meta)
  {
    Row(k.code, k.lang, k.name, s.id, s.text, s.timemodified, s.deleted, Trim(message), MetaColumns(meta))
  }


  /** The records of the strings of component `k`. */
  function ComponentRecords(k: Ident, strings: map<string, Str>, message: string, meta: map<string, string>): set<Row> {
    set id | id in strings :: Record(k, strings[id], message, meta)
  }

  /** The records of the strings of the components outside `todo`. */
  function RecordsOutside(contents: map<Ident, map<string, Str>>, todo: set<Ident>, message: string, meta: map<string, string>): set<Row> {
    set k, id | k in contents && k !in todo && id in contents[k] :: Record(k, contents[k][id], message, meta)
  }

  /** The records of every staged string. */
  function Records(contents: map<Ident, map<string, Str>>, message: string, meta: map<string, string>): set<Row> {
    RecordsOutside(contents, {}, message, meta)
  }

  // ----- The staging area -----

  class Stage {
    var components: map<Ident, Component>

    /** Every component is stored under its own identifier and is itself valid. */
    ghost predicate Valid()
      reads this, components.Values
    {
      forall k :: k in components ==> components[k].Key() == k && components[k].Valid()
    }

    /** The staged strings, component by component. */
    ghost function Contents(): map<Ident, map<string, Str>>
      reads this, components.Values
    {
      map k | k in components :: components[k].strings
    }

    /** The strings staged for component `k`; none when it is not staged. */
    ghost function StagedOf(k: Ident): map<string, Str>
      reads this, components.Values
    {
      if k in components then components[k].strings else map[]
    }

    constructor()
      ensures Valid() && components == map[]
    {
      components := map[];
    }

    /**
     * mlang_stage::get_component: the staged component of that name,
     * language and branch, None when there is none.
     */
    function GetComponent(name: string, lang: string, version: Version): (r: Option<Component>)
      reads this
      ensures r.Some? <==> Ident(name, lang, version.code) in components
      ensures r.Some? ==> r.value == components[Ident(name, lang, version.code)]
    {
      var k := Ident(name, lang, version.code);
      if k in components then Some(components[k]) else None
    }

    /**
     * mlang_stage::has_component: with no argument at all, whether anything
     * is staged; with a version, whether that component is staged (a missing
     * name or language counts as ""); without a version, but with a name or a
     * language, never, since no identifier has an empty branch code.
     */
    function HasComponent(name: Option<string>, lang: Option<string>, version: Option<Version>): (b: bool)
      reads this
      ensures name.None? && lang.None? && version.None? ==> (b <==> exists k :: k in components)
      ensures version.None? && !(name.None? && lang.None?) ==> !b
      ensures version.Some? ==> (b <==> GetComponent(name.GetOr(""), lang.GetOr(""), version.value).Some?)
    {
      if name.None? && lang.None? && version.None? then components != map[]
      else version.Some? && Ident(name.GetOr(""), lang.GetOr(""), version.value.code) in components
    }

    /** A staged component is the one of its name, language and branch. */
    lemma GetComponentIdentity(name: string, lang: string, version: Version)
      requires Valid() && GetComponent(name, lang, version).Some?
      ensures GetComponent(name, lang, version).value.Key() == Ident(name, lang, version.code)
      ensures GetComponent(name, lang, version).value.name == name && GetComponent(name, lang, version).value.lang == lang
    {
    }

    /**
     * mlang_stage::add: copies of the strings of `c` are added to the staged
     * component of its identifier, which is created empty first when it is
     * not staged yet. Without `force` the first string whose id is already
     * staged throws; the strings added before it stay staged.
     */
    method Add(c: Component, force: bool) returns (r: Outcome)
      requires Valid() && c.Valid()
      modifies this, components.Values
      ensures Valid()
      ensures c.Key() in components
      ensures c.Key() !in old(components) ==> fresh(components[c.Key()])
      ensures forall k :: k in components <==> k in old(components) || k == c.Key()
      ensures forall k :: k in old(components) ==> components[k] == old(components[k])
      ensures forall k :: k in old(components) && k != c.Key() ==> components[k].strings == old(components[k].strings)
      ensures r.Ok? <==> force || forall id :: id in old(c.strings) ==> id !in old(StagedOf(c.Key()))
      ensures r.Ok? ==> StagedOf(c.Key()) == old(StagedOf(c.Key())) + old(c.strings)
      ensures r.Fail? ==> r.error == DuplicateString
      ensures r.Fail? ==> forall id :: id in old(StagedOf(c.Key())) ==> id in StagedOf(c.Key()) && StagedOf(c.Key())[id] == old(StagedOf(c.Key()))[id]
      ensures r.Fail? ==> forall id :: id in StagedOf(c.Key()) && id !in old(StagedOf(c.Key())) ==> id in old(c.strings) && StagedOf(c.Key())[id] == old(c.strings)[id]
    {
      var k := c.Key();
      var src := c.strings;
      if k !in components {
        var created := new Component(c.name, c.lang, c.version);
        components := components[k := created];
      }
      var target := components[k];
      r := AddStrings(target, src, force);
    }

    /** mlang_stage::clear: every staged component is cleared, then none is staged. */
    method Clear()
      requires Valid()
      modifies this, components.Values
      ensures Valid() && components == map[]
      ensures forall x :: x in old(components.Values) ==> x.strings == map[]
    {
      var todo := components.Keys;
      while todo != {}
        invariant todo <= components.Keys && components == old(components)
        invariant Valid()
        invariant forall k :: k in components && k !in todo ==> components[k].strings == map[]
        decreases todo
      {
        var k :| k in todo;
        components[k].Clear();
        todo := todo - {k};
      }
      components := map[];
    }

    /**
     * mlang_stage::rebase: throws when $deletemissing is not a boolean, and
     * then changes nothing. Otherwise every staged component is rebased on
     * its cap, and the components left empty are unstaged.
     */
    method Rebase(rows: seq<Row>, basetimestamp: Option<int>, deletemissing: Flag, deletetimestamp: Option<int>, now: int)
      returns (r: Outcome)
      requires Valid()
      modifies this, components.Values
      ensures Valid()
      ensures deletemissing.NotBool? ==> r == Fail(BadArgument) && components == old(components) && Contents() == old(Contents())
      ensures deletemissing.Bool? ==> r == Ok
      ensures deletemissing.Bool? ==>
        Contents() == RebasedStage(old(Contents()), rows, basetimestamp, deletemissing.value, DeleteTime(deletetimestamp, now))
      ensures deletemissing.Bool? ==> forall k :: k in components ==> k in old(components) && components[k] == old(components[k])
      ensures deletemissing.Bool? ==> forall k :: k in old(components) && k !in components ==> old(components[k]).strings == map[]
    {
      if deletemissing.NotBool? {
        return Fail(BadArgument);
      }
      RebaseStage(rows, basetimestamp, deletemissing.value, DeleteTime(deletetimestamp, now));
      return Ok;
    }

    /**
     * The loop of rebase over the staged components, once the arguments are
     * checked: the staged contents become the rebased stage; the components
     * kept are the same objects, and the ones unstaged are empty.
     */
    method RebaseStage(rows: seq<Row>, basetimestamp: Option<int>, dm: bool, ts: int)
      requires Valid()
      modifies this, components.Values
      ensures Valid()
      ensures Contents() == RebasedStage(old(Contents()), rows, basetimestamp, dm, ts)
      ensures forall k :: k in components ==> k in old(components) && components[k] == old(components[k])
      ensures forall k :: k in old(components) && k !in components ==> old(components[k]).strings == map[]
    {
      ghost var before := Contents();
      ghost var objects := components;
      ghost var after := RebasedComponents(before, rows, basetimestamp, dm, ts);
      components := RebaseAll(components, rows, basetimestamp, dm, ts);
      forall k | k in objects ensures objects[k].strings == after[k] {
        var c := objects[k];
        assert before[k] == old(c.strings);
        assert c.strings == RebaseStrings(old(c.strings), Cap(rows, k, basetimestamp), dm, ts);
      }
      assert forall k :: k in components ==> components[k].strings == after[k];
      assert forall k :: k in components <==> k in after && after[k] != map[];
      ghost var now' := Contents();
      ghost var expected := NonEmpty(after);
      assert forall k :: k in now' <==> k in expected;
      assert forall k :: k in now' ==> now'[k] == expected[k];
      SameStage(now', expected);
    }

    /**
     * mlang_stage::commit: unless told to skip it, rebases with the default
     * arguments; then writes one record per staged string, with the trimmed
     * message and the metadata, and clears the stage. The records are new
     * rows after the existing ones, which stay as they were.
     */
    method Commit(log: Log, message: string, meta: map<string, string>, skiprebase: bool, now: int)
      requires Valid()
      modifies this, components.Values, log
      ensures Valid() && components == map[]
      ensures forall x :: x in old(components.Values) ==> x.strings == map[]
      ensures |log.rows| >= |old(log.rows)| && log.rows[..|old(log.rows)|] == old(log.rows)
      ensures multiset(log.rows[|old(log.rows)|..]) == multiset(Records(
        if skiprebase then old(Contents()) else RebasedStage(old(Contents()), old(log.rows), None, false, DeleteTime(None, now)),
        message, meta))
    {
      ghost var target := if skiprebase then Contents() else RebasedStage(Contents(), log.rows, None, false, DeleteTime(None, now));
      if !skiprebase {
        var _ := Rebase(log.rows, None, Bool(false), None, now);
      }
      assert Contents() == target;
      ghost var staged := components;
      forall x | x in staged.Values ensures x in old(components.Values) {
        var k :| k in staged && staged[k] == x;
      }
      ghost var n0 := |log.rows|;
      WriteRecords(log, message, meta, target);
      ghost var written := log.rows;
      Clear();
      assert log.rows == written;
    }

    /** The loop of commit that writes the records, component by component; the stage itself is left as it is. */
    method WriteRecords(log: Log, message: string, meta: map<string, string>, ghost contents: map<Ident, map<string, Str>>)
      requires Valid() && contents == Contents()
      modifies log
      ensures |log.rows| >= |old(log.rows)| && log.rows[..|old(log.rows)|] == old(log.rows)
      ensures multiset(log.rows[|old(log.rows)|..]) == multiset(Records(contents, message, meta))
    {
      ghost var n0 := |log.rows|;
      var todo := components.Keys;
      while todo != {}
        invariant todo <= components.Keys
        invariant |log.rows| >= n0 && log.rows[..n0] == old(log.rows)
        invariant multiset(log.rows[n0..]) == multiset(RecordsOutside(contents, todo, message, meta))
        decreases todo
      {
        var k :| k in todo;
        ghost var n1 := |log.rows|;
        ghost var prev := log.rows;
        assert components[k].strings == contents[k];
        CommitComponent(log, k, components[k], message, meta);
        WrittenStep(contents, todo, k, message, meta, prev, log.rows, n0);
        todo := todo - {k};
      }
    }
  }

  /**
   * The loop of mlang_stage::add: copies of the strings of `src` are added to
   * `target` one at a time; without `force` the first one whose id `target`
   * already has throws, and the ones added before it stay.
   */
  method AddStrings(target: Component, src: map<string, Str>, force: bool) returns (r: Outcome)
    requires target.Valid()
    requires forall id :: id in src ==> src[id].id == id
    modifies target
    ensures target.Valid()
    ensures r.Ok? <==> force || forall id :: id in src ==> id !in old(target.strings)
    ensures r.Ok? ==> target.strings == old(target.strings) + src
    ensures r.Fail? ==> r.error == DuplicateString
    ensures r.Fail? ==> forall id :: id in old(target.strings) ==> id in target.strings && target.strings[id] == old(target.strings)[id]
    ensures r.Fail? ==> forall id :: id in target.strings && id !in old(target.strings) ==> id in src && target.strings[id] == src[id]
  {
    ghost var before := target.strings;
    var todo := src.Keys;
    while todo != {}
      invariant todo <= src.Keys && target.Valid()
      invariant forall id :: id in target.strings <==> id in before || (id in src && id !in todo)
      invariant forall id :: id in target.strings ==> target.strings[id] == if id in src && id !in todo then src[id] else before[id]
      invariant !force ==> forall id :: id in src && id !in todo ==> id !in before
      decreases todo
    {
      var id :| id in todo;
      var res := target.AddString(src[id], force);
      if res.Fail? {
        return res;
      }
      todo := todo - {id};
    }
    return Ok;
  }

  /**
   * The loop of mlang_stage::rebase over the staged components, given as
   * the map of them: each is rebased on its cap, and the ones left empty are
   * taken out of the map. Whether a component is taken out depends on its
   * own strings only, so it is decided once all are rebased.
   */
  method RebaseAll(staged: map<Ident, Component>, rows: seq<Row>, basetimestamp: Option<int>, deletemissing: bool, ts: int)
    returns (kept: map<Ident, Component>)
    requires forall k :: k in staged ==> staged[k].Key() == k && staged[k].Valid()
    modifies staged.Values
    ensures forall k :: k in staged ==> staged[k].Valid()
    ensures forall k :: k in staged ==> staged[k].strings == RebaseStrings(old(staged[k].strings), Cap(rows, k, basetimestamp), deletemissing, ts)
    ensures forall k :: k in kept <==> k in staged && staged[k].strings != map[]
    ensures forall k :: k in kept ==> kept[k] == staged[k]
  {
    var todo := staged.Keys;
    while todo != {}
      invariant todo <= staged.Keys
      invariant forall k, k' :: k in staged && k' in staged && k != k' ==> staged[k] != staged[k']
      invariant forall k :: k in staged ==> staged[k].Valid()
      invariant forall k :: k in todo ==> staged[k].strings == old(staged[k].strings)
      invariant forall k :: k in staged && k !in todo ==> staged[k].strings == RebaseStrings(old(staged[k].strings), Cap(rows, k, basetimestamp), deletemissing, ts)
      decreases todo
    {
      var k :| k in todo;
      var comp := staged[k];
      assert comp.Key() == k;
      RebaseComponent(rows, comp, basetimestamp, deletemissing, ts);
      todo := todo - {k};
    }
    kept := map k | k in staged && staged[k].HasString(None) :: staged[k];
  }

  /**
   * The body of rebase for one staged component: the cap is the snapshot
   * of the repository at `basetimestamp`, deletion records included; with
   * `deletemissing`, a removal record is staged for every cap string that
   * is not staged; then each staged string that does not change the cap is
   * unlinked.
   */
  method RebaseComponent(rows: seq<Row>, comp: Component, basetimestamp: Option<int>, deletemissing: bool, ts: int)
    requires comp.Valid()
    modifies comp
    ensures comp.Valid()
    ensures comp.strings == RebaseStrings(old(comp.strings), Cap(rows, comp.Key(), basetimestamp), deletemissing, ts)
  {
    var cap := FromSnapshot(rows, comp.name, comp.lang, comp.version, basetimestamp, true, false, []);
    if deletemissing {
      AddTombstones(comp, cap, ts);
    }
    DropUnchanged(comp, cap);
    cap.Clear();
  }

  /** With deletemissing: a removal record is staged for every cap string that is not staged. */
  method AddTombstones(comp: Component, cap: Component, ts: int)
    requires comp.Valid() && cap.Valid() && comp != cap
    modifies comp
    ensures comp.Valid()
    ensures comp.strings == WithTombstones(old(comp.strings), cap.strings, ts)
  {
    ghost var staged := comp.strings;
    var todo := cap.strings.Keys;
    while todo != {}
      invariant todo <= cap.strings.Keys && comp.Valid()
      invariant forall id :: id in comp.strings <==> id in staged || (id in cap.strings && id !in todo)
      invariant forall id :: id in comp.strings ==> comp.strings[id] == if id in staged then staged[id] else Tombstone(cap.strings[id], ts)
      decreases todo
    {
      var id :| id in todo;
      if comp.GetString(id).None? {
        var _ := comp.AddString(Tombstone(cap.strings[id], ts), false);
      }
      todo := todo - {id};
    }
    SameStrings(comp.strings, WithTombstones(staged, cap.strings, ts));
  }

  /**
   * Each staged string that rebase does not keep is unlinked: one the cap
   * has, unless it removes a live cap string, when it does not differ from
   * the cap string or is older than it.
   */
  method DropUnchanged(comp: Component, cap: Component)
    requires comp.Valid() && cap.Valid() && comp != cap
    modifies comp
    ensures comp.Valid()
    ensures comp.strings == Kept(old(comp.strings), cap.strings)
  {
    ghost var w := comp.strings;
    var todo := comp.strings.Keys;
    while todo != {}
      invariant todo <= w.Keys && comp.Valid()
      invariant forall id :: id in comp.strings <==> id in w && (id in todo || Keep(id, w[id], cap.strings))
      invariant forall id :: id in comp.strings ==> comp.strings[id] == w[id]
      decreases todo
    {
      var id :| id in todo;
      var stagedstring := comp.strings[id];
      var capstring := cap.GetString(id);
      if capstring.Some? && !(stagedstring.deleted && !capstring.value.deleted) {
        if !Differ(stagedstring, capstring.value) || stagedstring.timemodified < capstring.value.timemodified {
          comp.UnlinkString(id);
        }
      }
      todo := todo - {id};
    }
    SameStrings(comp.strings, Kept(w, cap.strings));
  }

  /** The records of one more component are new: none of them belongs to a component already written. */
  lemma RecordsOutsideStep(contents: map<Ident, map<string, Str>>, todo: set<Ident>, k: Ident, message: string, meta: map<string, string>)
    requires k in todo && k in contents
    ensures multiset(RecordsOutside(contents, todo - {k}, message, meta))
      == multiset(RecordsOutside(contents, todo, message, meta)) + multiset(ComponentRecords(k, contents[k], message, meta))
  {
    var a := RecordsOutside(contents, todo, message, meta);
    var b := ComponentRecords(k, contents[k], message, meta);
    assert RecordsOutside(contents, todo - {k}, message, meta) == a + b;
    assert a * b == {};
  }

  /** The strings of `strings` whose ids are in `done`. */
  function Part(strings: map<string, Str>, done: set<string>): (m: map<string, Str>)
    ensures forall id :: id in m <==> id in strings && id in done
    ensures forall id :: id in m ==> m[id] == strings[id]
  {
    map id | id in strings && id in done :: strings[id]
  }

  /** Writing the record of one more string adds exactly that record, which is not among those written before. */
  lemma RecordsOfPartStep(k: Ident, strings: map<string, Str>, done: set<string>, id: string, message: string, meta: map<string, string>)
    requires forall i :: i in strings ==> strings[i].id == i
    requires id in strings && id !in done
    ensures multiset(ComponentRecords(k, Part(strings, done + {id}), message, meta))
      == multiset(ComponentRecords(k, Part(strings, done), message, meta)) + multiset{Record(k, strings[id], message, meta)}
  {
    var rec := Record(k, strings[id], message, meta);
    var part := Part(strings, done);
    var part' := Part(strings, done + {id});
    assert part' == part[id := strings[id]];
    assert rec !in ComponentRecords(k, part, message, meta) by {
      forall i | i in part ensures Record(k, part[i], message, meta) != rec {
        assert part[i].id == i && rec.stringid == id;
      }
    }
    assert ComponentRecords(k, part', message, meta) == ComponentRecords(k, part, message, meta) + {rec} by {
      forall x | x in ComponentRecords(k, part', message, meta) ensures x in ComponentRecords(k, part, message, meta) + {rec} {
        var i :| i in part' && x == Record(k, part'[i], message, meta);
        if i != id {
          assert i in part;
        }
      }
      assert rec == Record(k, part'[id], message, meta);
    }
  }

  /** The rows written so far, followed by the records of component `k`, are the records outside `todo - {k}`. */
  lemma WrittenStep(contents: map<Ident, map<string, Str>>, todo: set<Ident>, k: Ident, message: string, meta: map<string, string>,
                    prev: seq<Row>, cur: seq<Row>, n0: nat)
    requires k in todo && k in contents
    requires n0 <= |prev| <= |cur| && cur[..|prev|] == prev
    requires multiset(prev[n0..]) == multiset(RecordsOutside(contents, todo, message, meta))
    requires multiset(cur[|prev|..]) == multiset(ComponentRecords(k, contents[k], message, meta))
    ensures cur[..n0] == prev[..n0]
    ensures multiset(cur[n0..]) == multiset(RecordsOutside(contents, todo - {k}, message, meta))
  {
    assert cur[n0..|prev|] == prev[n0..];
    assert cur[n0..] == cur[n0..|prev|] + cur[|prev|..];
    RecordsOutsideStep(contents, todo, k, message, meta);
  }

  /** The records of one staged component, written one string at a time. */
  method CommitComponent(log: Log, k: Ident, comp: Component, message: string, meta: map<string, string>)
    requires comp.Valid()
    modifies log
    ensures |log.rows| >= |old(log.rows)| && log.rows[..|old(log.rows)|] == old(log.rows)
    ensures multiset(log.rows[|old(log.rows)|..]) == multiset(ComponentRecords(k, comp.strings, message, meta))
  {
    ghost var n0 := |log.rows|;
    ghost var done: set<string> := {};
    var todo := comp.strings.Keys;
    while todo != {}
      invariant todo <= comp.strings.Keys
      invariant forall id :: id in done <==> id in comp.strings && id !in todo
      invariant |log.rows| >= n0 && log.rows[..n0] == old(log.rows)
      invariant multiset(log.rows[n0..]) == multiset(ComponentRecords(k, Part(comp.strings, done), message, meta))
      decreases todo
    {
      var id :| id in todo;
      var rec := Record(k, comp.strings[id], message, meta);
      ghost var before := log.rows;
      var _ := log.Append(rec);
      assert log.rows[..n0] == before[..n0];
      assert log.rows[n0..] == before[n0..] + [rec];
      RecordsOfPartStep(k, comp.strings, done, id, message, meta);
      done := done + {id};
      todo := todo - {id};
    }
    SameStrings(Part(comp.strings, done), comp.strings);
  }
}

/**
 * The amos_repository table: an append-only log of string records, the
 * snapshot query that mlang_component::from_snapshot runs against it, and
 * mlang_tools::components_tree.
 */
module Repository {
  import opened Basics
  import opened Strings

  /**
   * One record of the repository. Its id is its position in the log, so a
   * later record has a higher id. `meta` holds the columns commit metadata
   * fills in beyond the core ones.
   */
  datatype Row = Row(branch: int, lang: string, component: string, stringid: string, text: Option<string>,
                     timemodified: int, deleted: bool, commitmsg: string, meta: map<string, string>)

  /** The repository table; records are only ever appended. */
  class Log {
    var rows: seq<Row>

    constructor()
      ensures rows == []
    {
      rows := [];
    }

    /** Inserts one record and returns its id. */
    method Append(r: Row) returns (id: nat)
      modifies this
      ensures rows == old(rows) + [r]
      ensures id == |old(rows)| && rows[id] == r
    {
      id := |rows|;
      rows := rows + [r];
    }
  }

  // ----- The snapshot query of from_snapshot -----

  /**
   * The parameters of from_snapshot: the component, its language and branch
   * code; the snapshot time (None is PHP's null); whether deletion records
   * are returned; whether the extra information is filled; the string ids
   * to restrict to (the empty list, like PHP's null, means all of them).
   */
  datatype Query = Query(name: string, lang: string, code: int, timestamp: Option<int>, deleted: bool,
                         fullinfo: bool, stringids: seq<string>)

  /** The record belongs to the queried component, language and branch. */
  predicate InScope(r: Row, q: Query) {
    r.branch == q.code && r.lang == q.lang && r.component == q.name
  }

  /** The id restriction; PHP's empty() makes an empty list mean no restriction. */
  predicate IdAllowed(id: string, q: Query) {
    |q.stringids| == 0 || id in q.stringids
  }

  /** The snapshot time bounds the query only when it is not empty(): None and 0 mean "the most recent". */
  predicate Bounded(timestamp: Option<int>) {
    timestamp.Some? && timestamp.value != 0
  }

  /** A record the inner query groups by string id: in scope, allowed, and not newer than the snapshot time. */
  predicate InInner(r: Row, q: Query) {
    InScope(r, q) && IdAllowed(r.stringid, q) && (!Bounded(q.timestamp) || r.timemodified <= q.timestamp.value)
  }

  /** MAX(timemodified) of the inner query for string `s`, over the first `n` records; None when the group is empty. */
  function LatestTime(rows: seq<Row>, q: Query, s: string, n: nat): (t: Option<int>)
    requires n <= |rows|
    ensures t.None? <==> forall j :: 0 <= j < n ==> !(InInner(rows[j], q) && rows[j].stringid == s)
    ensures t.Some? ==> exists j :: 0 <= j < n && InInner(rows[j], q) && rows[j].stringid == s && rows[j].timemodified == t.value
    ensures t.Some? ==> forall j :: 0 <= j < n && InInner(rows[j], q) && rows[j].stringid == s ==> rows[j].timemodified <= t.value
  {
    if n == 0 then None
    else
      var t := LatestTime(rows, q, s, n - 1);
      var r := rows[n - 1];
      if InInner(r, q) && r.stringid == s && (t.None? || t.value < r.timemodified) then Some(r.timemodified)
      else t
  }

  /**
   * The outer query: a record in scope whose timestamp is the latest of its
   * string's group, live unless deletion records are asked for, and allowed.
   */
  predicate Selected(rows: seq<Row>, q: Query, i: nat)
    requires i < |rows|
  {
    var r := rows[i];
    InScope(r, q) && LatestTime(rows, q, r.stringid, |rows|) == Some(r.timemodified)
    && (q.deleted || !r.deleted) && IdAllowed(r.stringid, q)
  }

  /** The string built from record `i`; with full information, the other columns go into its extra information. */
  function StrOf(rows: seq<Row>, i: nat, fullinfo: bool): (s: Str)
    requires i < |rows|
    ensures s.id == rows[i].stringid && s.text == rows[i].text
    ensures s.timemodified == rows[i].timemodified && s.deleted == rows[i].deleted
    ensures s.extra.Some? <==> fullinfo
    ensures fullinfo ==> s.extra.value.id == i
  {
    var r := rows[i];
    Str(r.stringid, r.text, r.timemodified, r.deleted,
        if fullinfo then Some(Extra(i, r.branch, r.lang, r.component, r.commitmsg, r.meta)) else None)
  }

  /**
   * The strings a snapshot holds after force-adding the selected records
   * among the first `n` in id order: a later record replaces an earlier one.
   */
  function SnapshotUpTo(rows: seq<Row>, q: Query, n: nat): map<string, Str>
    requires n <= |rows|
  {
    if n == 0 then map[]
    else
      var m := SnapshotUpTo(rows, q, n - 1);
      if Selected(rows, q, n - 1) then m[rows[n - 1].stringid := StrOf(rows, n - 1, q.fullinfo)] else m
  }

  /** The strings of from_snapshot over the whole repository. */
  function Snapshot(rows: seq<Row>, q: Query): map<string, Str> {
    SnapshotUpTo(rows, q, |rows|)
  }

  /** The highest id below `n` of a selected record of string `s`, None when there is none. */
  function LastSelected(rows: seq<Row>, q: Query, s: string, n: nat): (k: Option<nat>)
    requires n <= |rows|
    ensures k.None? <==> forall j :: 0 <= j < n ==> !(Selected(rows, q, j) && rows[j].stringid == s)
    ensures k.Some? ==> k.value < n && Selected(rows, q, k.value) && rows[k.value].stringid == s
    ensures k.Some? ==> forall j :: k.value < j < n ==> !(Selected(rows, q, j) && rows[j].stringid == s)
  {
    if n == 0 then None
    else if Selected(rows, q, n - 1) && rows[n - 1].stringid == s then Some(n - 1)
    else LastSelected(rows, q, s, n - 1)
  }

  /**
   * The snapshot holds string `s` exactly when some selected record is of
   * `s`, and then it is the one built from the selected record with the
   * highest id: among records of equal timestamp, the higher id wins.
   */
  lemma {:induction false} SnapshotIsLastSelected(rows: seq<Row>, q: Query, s: string, n: nat)
    requires n <= |rows|
    ensures s in SnapshotUpTo(rows, q, n) <==> LastSelected(rows, q, s, n).Some?
    ensures s in SnapshotUpTo(rows, q, n) ==> SnapshotUpTo(rows, q, n)[s] == StrOf(rows, LastSelected(rows, q, s, n).value, q.fullinfo)
  {
    if n > 0 {
      SnapshotIsLastSelected(rows, q, s, n - 1);
    }
  }

  /** Every string of a snapshot is stored under its own id. */
  lemma {:induction false} SnapshotKeysAreIds(rows: seq<Row>, q: Query, n: nat)
    requires n <= |rows|
    ensures forall s :: s in SnapshotUpTo(rows, q, n) ==> SnapshotUpTo(rows, q, n)[s].id == s
  {
    if n > 0 {
      SnapshotKeysAreIds(rows, q, n - 1);
    }
  }

  /**
   * A string of the snapshot carries the latest timestamp its id has in scope
   * (up to the snapshot time, when there is one): no such record is newer.
   */
  lemma SnapshotIsLatest(rows: seq<Row>, q: Query, s: string)
    requires s in Snapshot(rows, q)
    ensures forall j :: 0 <= j < |rows| && InInner(rows[j], q) && rows[j].stringid == s ==>
      rows[j].timemodified <= Snapshot(rows, q)[s].timemodified
    ensures Bounded(q.timestamp) ==> Snapshot(rows, q)[s].timemodified <= q.timestamp.value
    ensures IdAllowed(s, q)
  {
    SnapshotIsLastSelected(rows, q, s, |rows|);
    var k := LastSelected(rows, q, s, |rows|).value;
    assert Selected(rows, q, k);
  }

  /** Without deletion records asked for, a snapshot holds live strings only. */
  lemma SnapshotLive(rows: seq<Row>, q: Query, s: string)
    requires !q.deleted && s in Snapshot(rows, q)
    ensures !Snapshot(rows, q)[s].deleted
  {
    SnapshotIsLastSelected(rows, q, s, |rows|);
  }

  /**
   * A deletion hides older texts: when every record of the latest timestamp
   * of `s` is a deletion record, a snapshot without deletion records does
   * not hold `s` at all.
   */
  lemma DeletionHides(rows: seq<Row>, q: Query, s: string)
    requires !q.deleted
    requires forall j :: (0 <= j < |rows| && InInner(rows[j], q) && rows[j].stringid == s &&
      LatestTime(rows, q, s, |rows|) == Some(rows[j].timemodified)) ==> rows[j].deleted
    ensures s !in Snapshot(rows, q)
  {
    SnapshotIsLastSelected(rows, q, s, |rows|);
    forall j | 0 <= j < |rows| && Selected(rows, q, j)
      ensures InInner(rows[j], q)
    {
    }
  }

  /**
   * A record appended to the log is what the next snapshot returns for its
   * string, when it is in scope, allowed, within the snapshot time, live
   * unless deletion records are asked for, and not older than any record of
   * its string the query sees.
   */
  lemma SnapshotAfterAppend(rows: seq<Row>, r: Row, q: Query)
    requires InInner(r, q) && (q.deleted || !r.deleted)
    requires forall j :: 0 <= j < |rows| && InInner(rows[j], q) && rows[j].stringid == r.stringid ==>
      rows[j].timemodified <= r.timemodified
    ensures r.stringid in Snapshot(rows + [r], q)
    ensures Snapshot(rows + [r], q)[r.stringid] == StrOf(rows + [r], |rows|, q.fullinfo)
  {
    var rows' := rows + [r];
    var t := LatestTime(rows', q, r.stringid, |rows'|);
    assert t.Some? by {
      assert InInner(rows'[|rows|], q) && rows'[|rows|].stringid == r.stringid;
    }
    assert t == Some(r.timemodified) by {
      var j :| 0 <= j < |rows'| && InInner(rows'[j], q) && rows'[j].stringid == r.stringid && rows'[j].timemodified == t.value;
      if j < |rows| {
        assert rows'[j] == rows[j];
      }
      assert rows'[|rows|] == r;
    }
    assert Selected(rows', q, |rows|);
  }

  /** A snapshot of a component without any records in scope is empty. */
  lemma {:induction false} SnapshotOfNothing(rows: seq<Row>, q: Query, n: nat)
    requires n <= |rows|
    requires forall j :: 0 <= j < |rows| ==> !InScope(rows[j], q)
    ensures SnapshotUpTo(rows, q, n) == map[]
  {
    if n > 0 {
      SnapshotOfNothing(rows, q, n - 1);
    }
  }

  /**
   * Two records of one string with the same timestamp, a live one and then a
   * deletion record: a snapshot with deletion records returns the deletion
   * (higher id), one without returns the live text.
   */
  lemma TieBetweenLiveAndDeleted()
    ensures var live := Row(2000, "cs", "admin", "title", Some("Ahoj"), 5, false, "", map[]);
      var gone := live.(deleted := true);
      var rows := [live, gone];
      var q := Query("admin", "cs", 2000, None, true, false, []);
      Snapshot(rows, q) == map["title" := StrOf(rows, 1, false)]
      && Snapshot(rows, q.(deleted := false)) == map["title" := StrOf(rows, 0, false)]
  {
    var live := Row(2000, "cs", "admin", "title", Some("Ahoj"), 5, false, "", map[]);
    var gone := live.(deleted := true);
    var rows := [live, gone];
    var q := Query("admin", "cs", 2000, None, true, false, []);
    var q' := q.(deleted := false);
    assert LatestTime(rows, q, "title", 2) == Some(5);
    assert LatestTime(rows, q', "title", 2) == Some(5);
    assert Selected(rows, q, 0) && Selected(rows, q, 1);
    assert Selected(rows, q', 0) && !Selected(rows, q', 1);
    assert SnapshotUpTo(rows, q, 1) == map["title" := StrOf(rows, 0, false)];
    assert SnapshotUpTo(rows, q, 2) == map["title" := StrOf(rows, 1, false)];
    assert SnapshotUpTo(rows, q', 1) == map["title" := StrOf(rows, 0, false)];
    assert SnapshotUpTo(rows, q', 2) == map["title" := StrOf(rows, 0, false)];
  }

  // ----- components_tree -----

  /** The optional filters of components_tree; a filter that is empty() is not applied. */
  datatype Conditions = Conditions(branch: Option<int>, lang: Option<string>, component: Option<string>)

  /** PHP's !empty() on an integer filter. */
  predicate IntGiven(v: Option<int>) {
    v.Some? && v.value != 0
  }

  /** PHP's !empty() on a string filter: null, "" and "0" are empty. */
  predicate StrGiven(v: Option<string>) {
    v.Some? && v.value != "" && v.value != "0"
  }

  /** A row passes every condition that is given; a condition that is not given passes every row. */
  predicate MatchesConditions(r: Row, c: Conditions) {
    (IntGiven(c.branch) ==> r.branch == c.branch.value)
    && (StrGiven(c.lang) ==> r.lang == c.lang.value)
    && (StrGiven(c.component) ==> r.component == c.component.value)
  }

  /** Record `r` matches the conditions and has the triple (branch `b`, language `l`, component `k`). */
  predicate Names(r: Row, c: Conditions, b: int, l: string, k: string) {
    MatchesConditions(r, c) && r.branch == b && r.lang == l && r.component == k
  }

  /** Some record below `n` matches the conditions and has the triple. */
  predicate KnownBefore(rows: seq<Row>, c: Conditions, n: nat, b: int, l: string, k: string)
    requires n <= |rows|
  {
    exists j :: 0 <= j < n && Names(rows[j], c, b, l, k)
  }

  /** The tree holds the component under that branch and language. */
  predicate InTree(tree: map<int, map<string, set<string>>>, b: int, l: string, k: string) {
    b in tree && l in tree[b] && k in tree[b][l]
  }

  /** No branch of the tree is without languages, no language without components. */
  predicate NoEmptyNodes(tree: map<int, map<string, set<string>>>) {
    forall b :: b in tree ==> tree[b] != map[] && forall l :: l in tree[b] ==> tree[b][l] != {}
  }

  /**
   * mlang_tools::components_tree: the tree branch -> language -> components
   * of the records matching the conditions. The PHP leaves are null values
   * of an array; here the components of a language form a set.
   */
  method ComponentsTree(rows: seq<Row>, c: Conditions) returns (tree: map<int, map<string, set<string>>>)
    ensures forall b, l, k :: InTree(tree, b, l, k) <==> KnownBefore(rows, c, |rows|, b, l, k)
    ensures NoEmptyNodes(tree)
  {
    tree := map[];
    var i := 0;
    while i < |rows|
      invariant 0 <= i <= |rows|
      invariant forall b, l, k :: InTree(tree, b, l, k) <==> KnownBefore(rows, c, i, b, l, k)
      invariant NoEmptyNodes(tree)
    {
      var r := rows[i];
      if MatchesConditions(r, c) {
        var langs := if r.branch in tree then tree[r.branch] else map[];
        var comps := if r.lang in langs then langs[r.lang] else {};
        var tree' := tree[r.branch := langs[r.lang := comps + {r.component}]];
        forall b, l, k
          ensures InTree(tree', b, l, k) <==> KnownBefore(rows, c, i + 1, b, l, k)
        {
          assert InTree(tree', b, l, k) <==> InTree(tree, b, l, k) || Names(r, c, b, l, k);
          if Names(r, c, b, l, k) {
            assert KnownBefore(rows, c, i + 1, b, l, k);
          }
        }
        tree := tree';
      } else {
        forall b, l, k
          ensures KnownBefore(rows, c, i + 1, b, l, k) ==> KnownBefore(rows, c, i, b, l, k)
        {
        }
      }
      i := i + 1;
    }
  }
}

/**
 * mlang_component: the strings of one component, in one language, on one
 * branch, held in a map from string id to string that the methods update
 * in place.
 */
module Components {
  import opened Basics
  import opened Text
  import opened Syntax
  import opened Versions
  import opened Strings
  import opened Repository

  /**
   * The identity of a component: its name, language and branch code. The
   * source hashes the text name + "#" + lang + "@" + code with md5; the
   * tuple keeps apart triples whose joined texts coincide.
   */
  datatype Ident = Ident(name: string, lang: string, code: int)

  class Component {
    const name: string
    const lang: string
    const version: Version
    var strings: map<string, Str>

    /** Every string is stored under its own id. */
    ghost predicate Valid()
      reads this
    {
      forall id :: id in strings ==> strings[id].id == id
    }

    constructor(name: string, lang: string, version: Version)
      ensures this.name == name && this.lang == lang && this.version == version
      ensures strings == map[] && Valid()
    {
      this.name := name;
      this.lang := lang;
      this.version := version;
      strings := map[];
    }

    /** mlang_component::get_identifier. */
    function Key(): (k: Ident)
      ensures k.name == name && k.lang == lang && k.code == version.code
    {
      Ident(name, lang, version.code)
    }

    /** mlang_component::get_string: the string of the given id, None when there is none. */
    function GetString(id: string): (r: Option<Str>)
      reads this
      ensures r.Some? <==> id in strings
      ensures r.Some? ==> r.value == strings[id]
      ensures Valid() && r.Some? ==> r.value.id == id
    {
      if id in strings then Some(strings[id]) else None
    }

    /**
     * mlang_component::has_string: with no id (PHP's null), whether the
     * component holds any string; otherwise whether it holds that one.
     */
    function HasString(id: Option<string>): (b: bool)
      reads this
      ensures id.None? ==> (b <==> exists k :: k in strings)
      ensures id.Some? ==> (b <==> GetString(id.value).Some?)
    {
      if id.None? then strings != map[] else id.value in strings
    }

    /** mlang_component::get_string_keys, as a set: the ids in the component. */
    function GetStringKeys(): (ks: set<string>)
      reads this
      ensures forall k :: k in ks <==> HasString(Some(k))
    {
      strings.Keys
    }

    /**
     * mlang_component::add_string: adding a string whose id is already there
     * throws unless `force` is set, and then changes nothing; otherwise the
     * string is stored under its id, replacing any previous one.
     */
    method AddString(s: Str, force: bool) returns (r: Outcome)
      requires Valid()
      modifies this
      ensures Valid()
      ensures r.Fail? <==> !force && s.id in old(strings)
      ensures r.Fail? ==> r.error == DuplicateString && strings == old(strings)
      ensures r.Ok? ==> strings == old(strings)[s.id := s]
    {
      if !force && s.id in strings {
        return Fail(DuplicateString);
      }
      strings := strings[s.id := s];
      return Ok;
    }

    /** mlang_component::unlink_string: the string of the given id is removed, if there is one. */
    method UnlinkString(id: string)
      requires Valid()
      modifies this
      ensures Valid()
      ensures strings == old(strings) - {id}
    {
      if id in strings {
        strings := strings - {id};
      }
    }

    /** mlang_component::clear: every string is unlinked, one at a time. */
    method Clear()
      requires Valid()
      modifies this
      ensures Valid() && strings == map[]
    {
      var todo := strings.Keys;
      while todo != {}
        invariant Valid()
        invariant strings.Keys == todo
        decreases todo
      {
        var id :| id in todo;
        UnlinkString(id);
        todo := todo - {id};
      }
    }

    /**
     * mlang_component::intersect: the strings whose ids the mask does not
     * have are unlinked, and their number returned. The mask's ids are taken
     * before anything changes, and a string the mask has is kept whatever its
     * state there, deletion records included.
     */
    method Intersect(mask: Component) returns (removed: nat)
      requires Valid()
      modifies this
      ensures Valid()
      ensures strings == map id | id in old(strings) && id in old(mask.strings) :: old(strings)[id]
      ensures removed == |old(strings).Keys - old(mask.strings).Keys|
    {
      var masked := mask.strings.Keys;
      ghost var before := strings;
      ghost var dropped: set<string> := {};
      removed := 0;
      var todo := strings.Keys;
      while todo != {}
        invariant Valid()
        invariant todo <= before.Keys
        invariant forall id :: id in strings <==> id in before && (id in todo || id in masked)
        invariant forall id :: id in strings ==> strings[id] == before[id]
        invariant forall x :: x in dropped <==> x in before && x !in todo && x !in masked
        invariant removed == |dropped|
        decreases todo
      {
        var id :| id in todo;
        if id !in masked {
          UnlinkString(id);
          assert id !in dropped;
          dropped := dropped + {id};
          removed := removed + 1;
        }
        todo := todo - {id};
      }
      assert dropped == before.Keys - masked;
      SameStrings(strings, map id | id in before && id in masked :: before[id]);
    }

    /**
     * The loop of mlang_component::from_phpfile once the file has been read:
     * every declared text goes through fix_syntax for the component's branch
     * and is force-added as a live string with the given timestamp.
     */
    method ImportStrings(decls: map<string, string>, timemodified: int)
      requires Valid()
      modifies this
      ensures Valid()
      ensures strings == old(strings) + map id | id in decls :: Imported(version.code, id, decls[id], timemodified)
    {
      ghost var before := strings;
      var todo := decls.Keys;
      while todo != {}
        invariant Valid()
        invariant todo <= decls.Keys
        invariant forall id :: id in strings <==> id in before || (id in decls && id !in todo)
        invariant forall id :: id in strings ==> strings[id] == if id in decls && id !in todo then Imported(version.code, id, decls[id], timemodified) else before[id]
        decreases todo
      {
        var id :| id in todo;
        var _ := AddString(Imported(version.code, id, decls[id], timemodified), true);
        todo := todo - {id};
      }
      SameStrings(strings, before + map id | id in decls :: Imported(version.code, id, decls[id], timemodified));
    }
  }

  /** Two string maps that agree id by id are the same. */
  lemma SameStrings(a: map<string, Str>, b: map<string, Str>)
    requires forall id :: id in a <==> id in b
    requires forall id :: id in a ==> a[id] == b[id]
    ensures a == b
  {
  }

  /** The string from_phpfile makes of one declaration: live, with the normalised text. */
  function Imported(code: int, id: string, text: string, timemodified: int): (s: Str)
    ensures s.id == id && s.text == Some(ImportedText(code, text)) && s.timemodified == timemodified
    ensures !s.deleted && s.extra.None?
  {
    Str(id, Some(ImportedText(code, text)), timemodified, false, None)
  }

  /**
   * fix_syntax as from_phpfile applies it: on 1.x branches the text is
   * sanitised in the legacy format, on later branches it is migrated from
   * the legacy format, so either call succeeds.
   */
  function ImportedText(code: int, text: string): (r: string)
    ensures '\r' !in r
    ensures IsLegacy(code) ==> FixSyntax(text, 1, None) == Success(r) && QuotesEscaped(r) && RunsExactly(r, '%', 2)
    ensures !IsLegacy(code) ==> FixSyntax(text, 2, Some(1)) == Success(r) && '\\' !in r
  {
    if IsLegacy(code) then FixSyntax(text, 1, None).value else FixSyntax(text, 2, Some(1)).value
  }

  /**
   * mlang_component::from_snapshot: a new component filled by force-adding,
   * in id order, the strings of the records the snapshot query selects.
   */
  method FromSnapshot(rows: seq<Row>, name: string, lang: string, version: Version, timestamp: Option<int>,
                      deleted: bool, fullinfo: bool, stringids: seq<string>) returns (c: Component)
    ensures fresh(c) && c.Valid()
    ensures c.name == name && c.lang == lang && c.version == version
    ensures c.strings == Snapshot(rows, Query(name, lang, version.code, timestamp, deleted, fullinfo, stringids))
  {
    var q := Query(name, lang, version.code, timestamp, deleted, fullinfo, stringids);
    c := new Component(name, lang, version);
    var i := 0;
    while i < |rows|
      invariant 0 <= i <= |rows|
      invariant c.Valid() && c.name == name && c.lang == lang && c.version == version
      invariant c.strings == SnapshotUpTo(rows, q, i)
    {
      if Selected(rows, q, i) {
        var _ := c.AddString(StrOf(rows, i, fullinfo), true);
      }
      i := i + 1;
    }
  }
}

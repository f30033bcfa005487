/**
 * mlang_string: one translated string as a value, and the comparison that
 * decides whether two versions of a string are different.
 */
module Strings {
  import opened Basics
  import opened Text

  /**
   * The repository columns a full-information snapshot copies into a string's
   * extra information: everything but the string id, text, timestamp and
   * deletion flag. `meta` holds the columns that commit metadata fills in.
   */
  datatype Extra = Extra(id: nat, branch: int, lang: string, component: string, commitmsg: string, meta: map<string, string>)

  /**
   * A string: its identifier, its text (None is PHP's null), the time it was
   * saved, whether it is a deletion record, and extra repository information.
   */
  datatype Str = Str(id: string, text: Option<string>, timemodified: int, deleted: bool, extra: Option<Extra>)

  /**
   * mlang_string::differ: two deletion records never differ; a null text
   * differs from a non-null one; otherwise the texts are compared after trim().
   */
  function Differ(a: Str, b: Str): (d: bool)
    ensures a.text == b.text ==> !d
    ensures d ==> !(a.deleted && b.deleted)
  {
    if a.deleted && b.deleted then false
    else if a.text.None? || b.text.None? then !(a.text.None? && b.text.None?)
    else Trim(a.text.value) != Trim(b.text.value)
  }

  /** Two deletion records are the same, whatever their texts. */
  lemma DeletedNeverDiffer(a: Str, b: Str)
    requires a.deleted && b.deleted
    ensures !Differ(a, b)
  {
  }

  /** Unless both are deletion records, a null text differs exactly from a non-null one. */
  lemma NullTextDiffers(a: Str, b: Str)
    requires !(a.deleted && b.deleted) && (a.text.None? || b.text.None?)
    ensures Differ(a, b) <==> a.text.None? != b.text.None?
  {
  }

  /** Unless both are deletion records, two texts differ exactly when their trimmed forms do. */
  lemma TextsCompareTrimmed(a: Str, b: Str)
    requires !(a.deleted && b.deleted) && a.text.Some? && b.text.Some?
    ensures Differ(a, b) <==> Trim(a.text.value) != Trim(b.text.value)
  {
  }

  /** The comparison is symmetric. */
  lemma DifferSymmetric(a: Str, b: Str)
    ensures Differ(a, b) == Differ(b, a)
  {
  }

  /** A string never differs from itself. */
  lemma DifferIrreflexive(a: Str)
    ensures !Differ(a, a)
  {
  }

  /** Only the text and the deletion flag take part: the id, the timestamp and the extra information do not. */
  lemma DifferIgnoresMetadata(a: Str, b: Str, id: string, tm: int, e: Option<Extra>)
    ensures Differ(a.(id := id, timemodified := tm, extra := e), b) == Differ(a, b)
  {
  }

  /** Whitespace around a text does not make it differ from the bare text. */
  lemma DifferIgnoresSurroundingWhitespace(a: Str, pre: string, t: string, post: string)
    requires AllSpace(pre) && AllSpace(post)
    requires a.text == Some(t)
    ensures !Differ(a, a.(text := Some(pre + t + post)))
  {
    TrimSurrounded(pre, t, post);
  }

  /**
   * Deletion is not a difference on its own: a deletion record with the same
   * trimmed text as a live string does not differ from it.
   */
  lemma DeletionAloneIsNoDifference(a: Str)
    requires !a.deleted && a.text.Some?
    ensures !Differ(a.(deleted := true), a)
  {
  }

  /**
   * On live strings "not different" is an equivalence relation: it is also
   * transitive.
   */
  lemma SameIsTransitiveAmongLive(a: Str, b: Str, c: Str)
    requires !a.deleted && !b.deleted && !c.deleted
    requires !Differ(a, b) && !Differ(b, c)
    ensures !Differ(a, c)
  {
  }

  /**
   * With deletion records it is not: two deletion records with texts "x" and
   * "y" are the same, the second is the same as a live "y", yet that live "y"
   * differs from the first.
   */
  lemma SameNotTransitiveWithDeletions()
    ensures var a, b, c := Str("s", Some("x"), 0, true, None), Str("s", Some("y"), 0, true, None), Str("s", Some("y"), 0, false, None);
      !Differ(a, b) && !Differ(b, c) && Differ(a, c)
  {
    TrimOfTrimmed("x");
    TrimOfTrimmed("y");
  }
}

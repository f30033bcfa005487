/**
 * mlang_string::fix_syntax: the normaliser that prepares string text for the
 * repository, in the three supported (target format, source format) modes.
 * Format 1 is the placeholder syntax of Moodle 1.x (`$a`, `\$`, `%%`),
 * format 2 that of Moodle 2.x (`{$a}`).
 */
module Syntax {
  import opened Basics
  import opened Text

  /** The stand-in fix_syntax puts in place of an escaped dollar while it strips backslashes. */
  const Marker: string := "@@@___XXX_ESCAPED_DOLLAR__@@@"

  /** The characters of the escaped-dollar stand-in that the steps around it look for. */
  lemma MarkerChars()
    ensures '$' !in Marker && '\\' !in Marker && '&' !in Marker && '\r' !in Marker && '"' !in Marker
  {
    assert forall i :: 0 <= i < |Marker| ==> Marker[i] == '@' || Marker[i] == '_' || 'A' <= Marker[i] <= 'Z';
  }

  /** A character of the regular-expression class `\w`: [A-Za-z0-9_]. */
  predicate IsWordChar(c: char) {
    ('a' <= c <= 'z') || ('A' <= c <= 'Z') || ('0' <= c <= '9') || c == '_'
  }

  /** The number of word characters at the start of `s`. */
  function WordRun(s: string): (n: nat)
    ensures n <= |s|
    ensures forall i :: 0 <= i < n ==> IsWordChar(s[i])
    ensures n < |s| ==> !IsWordChar(s[n])
  {
    if |s| > 0 && IsWordChar(s[0]) then 1 + WordRun(s[1..]) else 0
  }

  /** `$a` stands at the start of `s` and is not followed by a word character (the pattern `\$a\b`). */
  predicate StartsWithA(s: string) {
    |s| >= 2 && s[0] == '$' && s[1] == 'a' && (|s| == 2 || !IsWordChar(s[2]))
  }

  /**
   * The length of the placeholder at the start of `s` as the pattern
   * `\$a\b(\->[a-zA-Z0-9_]+)?` matches it, 0 when it does not match.
   */
  function PlaceholderLen(s: string): (n: nat)
    ensures n <= |s|
    ensures n == 0 <==> !StartsWithA(s)
  {
    if StartsWithA(s) then
      if |s| >= 5 && s[2] == '-' && s[3] == '>' && IsWordChar(s[4]) then 4 + WordRun(s[4..]) else 2
    else 0
  }

  /**
   * preg_replace('/(^|[^{])\$a\b(\->[a-zA-Z0-9_]+)?/', '\1{$a\2}', s) scanned
   * from a position that is not the start of the subject: a match needs one
   * character other than `{` before the placeholder, and consumes it.
   */
  function WrapFrom(s: string): string
    decreases |s|
  {
    if |s| == 0 then []
    else
      var n := PlaceholderLen(s[1..]);
      if s[0] != '{' && n > 0 then [s[0]] + "{" + s[1..1 + n] + "}" + WrapFrom(s[1 + n..])
      else [s[0]] + WrapFrom(s[1..])
  }

  /** The placeholder wrapping of the 1.x to 2.x migration; at the start of the subject `^` stands for the preceding character. */
  function Wrap(s: string): string
  {
    var n := PlaceholderLen(s);
    if n > 0 then "{" + s[..n] + "}" + WrapFrom(s[n..]) else WrapFrom(s)
  }

  /** preg_replace('/\\\$a\b(\->[a-zA-Z0-9_]+)?/', '$a\1', s): `\$a` and `\$a->prop` lose their backslash. */
  function Unescape(s: string): string
    decreases |s|
  {
    if |s| == 0 then []
    else
      var n := PlaceholderLen(s[1..]);
      if s[0] == '\\' && n > 0 then s[1..1 + n] + Unescape(s[1 + n..])
      else [s[0]] + Unescape(s[1..])
  }

  /** The wrapping step brings in no character other than braces. */
  lemma {:induction false} WrapFromNoNewChar(s: string, c: char)
    requires c !in s && c != '{' && c != '}'
    ensures c !in WrapFrom(s)
    decreases |s|
  {
    if |s| > 0 {
      var n := PlaceholderLen(s[1..]);
      if s[0] != '{' && n > 0 {
        assert s == s[..1] + s[1..1 + n] + s[1 + n..];
        WrapFromNoNewChar(s[1 + n..], c);
      } else {
        WrapFromNoNewChar(s[1..], c);
      }
    }
  }

  /** Wrapping adds only braces: no other character appears that was not there. */
  lemma WrapNoNewChar(s: string, c: char)
    requires c !in s && c != '{' && c != '}'
    ensures c !in Wrap(s)
  {
    var n := PlaceholderLen(s);
    WrapFromNoNewChar(s[n..], c);
    WrapFromNoNewChar(s, c);
    if n > 0 {
      assert s == s[..n] + s[n..];
    }
  }

  /** Unescaping brings in no new character. */
  lemma {:induction false} UnescapeNoNewChar(s: string, c: char)
    requires c !in s
    ensures c !in Unescape(s)
    decreases |s|
  {
    if |s| > 0 {
      var n := PlaceholderLen(s[1..]);
      if s[0] == '\\' && n > 0 {
        assert s == s[..1] + s[1..1 + n] + s[1 + n..];
        UnescapeNoNewChar(s[1 + n..], c);
      } else {
        UnescapeNoNewChar(s[1..], c);
      }
    }
  }

  /** Every double quote in `s` comes right after a backslash. */
  predicate QuotesEscaped(s: string) {
    forall i :: 0 <= i < |s| && s[i] == '"' ==> 0 < i && s[i - 1] == '\\'
  }

  /**
   * Mode (2, 2), sanitising 2.x text: trim, drop carriage returns, drop
   * backslashes, collapse runs of three or more newlines to three.
   */
  function SanitiseModern(text: string): (r: string)
    ensures '\r' !in r && '\\' !in r
    ensures RunsAtMost(r, '\n', 3) && !HasRun(r, '\n', 4)
  {
    var s1 := Trim(text);
    var s2 := Replace(s1, "\r", "");
    var s3 := Replace(s2, "\\", "");
    var r := CollapseRuns(s3, '\n', 3, "\n\n\n");
    ReplaceNoNewChar(s2, "\\", "", '\r');
    CollapseNoNewChar(s3, '\n', 3, "\n\n\n", '\r');
    CollapseNoNewChar(s3, '\n', 3, "\n\n\n", '\\');
    CollapseBoundsRuns(s3, '\n', 3, "\n\n\n", 3);
    RunsAtMostNoLongerRun(r, '\n', 3);
    r
  }

  /**
   * Mode (2, 1), migrating 1.x text to 2.x: trim, drop carriage returns,
   * collapse newlines, collapse `%` runs, protect `\$`, drop backslashes,
   * wrap `$a` / `$a->prop` in braces, restore protected dollars, decode `&#36;`.
   */
  function Migrate(text: string): (r: string)
    ensures '\r' !in r && '\\' !in r
  {
    var s1 := Trim(text);
    var s2 := Replace(s1, "\r", "");
    var s3 := CollapseRuns(s2, '\n', 3, "\n\n\n");
    var s4 := CollapseRuns(s3, '%', 1, "%");
    var s5 := Replace(s4, "\\$", Marker);
    var s6 := Replace(s5, "\\", "");
    var s7 := Wrap(s6);
    var s8 := Replace(s7, Marker, "$");
    MigrateKeepsNoReturn(s2);
    MarkerChars();
    WrapNoNewChar(s6, '\\');
    ReplaceNoNewChar(s7, Marker, "$", '\\');
    ReplaceNoNewChar(s8, "&#36;", "$", '\\');
    Replace(s8, "&#36;", "$")
  }

  /** No carriage return comes back in steps 3 to 9 of the (2, 1) mode. */
  lemma MigrateKeepsNoReturn(s2: string)
    requires '\r' !in s2
    ensures '\r' !in Replace(Replace(Wrap(Replace(Replace(CollapseRuns(CollapseRuns(s2, '\n', 3, "\n\n\n"), '%', 1, "%"), "\\$", Marker), "\\", "")), Marker, "$"), "&#36;", "$")
  {
    var s3 := CollapseRuns(s2, '\n', 3, "\n\n\n");
    var s4 := CollapseRuns(s3, '%', 1, "%");
    var s5 := Replace(s4, "\\$", Marker);
    var s6 := Replace(s5, "\\", "");
    var s7 := Wrap(s6);
    var s8 := Replace(s7, Marker, "$");
    MarkerChars();
    CollapseNoNewChar(s2, '\n', 3, "\n\n\n", '\r');
    CollapseNoNewChar(s3, '%', 1, "%", '\r');
    ReplaceNoNewChar(s4, "\\$", Marker, '\r');
    ReplaceNoNewChar(s5, "\\", "", '\r');
    WrapNoNewChar(s6, '\r');
    ReplaceNoNewChar(s7, Marker, "$", '\r');
    ReplaceNoNewChar(s8, "&#36;", "$", '\r');
  }

  /**
   * Mode (1, 1), sanitising 1.x text: trim, drop carriage returns, collapse
   * runs of three or more newlines to two, protect `\$`, drop backslashes,
   * escape every `$`, unescape the `$a` placeholders, restore protected
   * dollars as `\$`, escape double quotes, collapse `%` runs and double them.
   */
  function SanitiseLegacy(text: string): (r: string)
    ensures '\r' !in r
    ensures QuotesEscaped(r)
    ensures RunsExactly(r, '%', 2)
  {
    var s1 := Trim(text);
    var s2 := Replace(s1, "\r", "");
    var s3 := CollapseRuns(s2, '\n', 3, "\n\n");
    var s4 := Replace(s3, "\\$", Marker);
    var s5 := Replace(s4, "\\", "");
    var s6 := Replace(s5, "$", "\\$");
    var s7 := Unescape(s6);
    var s8 := Replace(s7, Marker, "\\$");
    var s9 := Replace(s8, "\"", "\\\"");
    var s10 := CollapseRuns(s9, '%', 1, "%");
    assert '\r' !in s9 by { NoReturnSurvivesLegacy(s2); }
    CollapseNoNewChar(s9, '%', 1, "%", '\r');
    ReplaceNoNewChar(s10, "%", "%%", '\r');
    EscapedQuotesSurvivePercents(s8);
    Replace(s10, "%", "%%")
  }

  /** No carriage return comes back in steps 3 to 9 of the (1, 1) mode. */
  lemma NoReturnSurvivesLegacy(s2: string)
    requires '\r' !in s2
    ensures '\r' !in Replace(Replace(Unescape(Replace(Replace(Replace(CollapseRuns(s2, '\n', 3, "\n\n"), "\\$", Marker), "\\", ""), "$", "\\$")), Marker, "\\$"), "\"", "\\\"")
  {
    var s3 := CollapseRuns(s2, '\n', 3, "\n\n");
    var s4 := Replace(s3, "\\$", Marker);
    var s5 := Replace(s4, "\\", "");
    var s6 := Replace(s5, "$", "\\$");
    var s7 := Unescape(s6);
    var s8 := Replace(s7, Marker, "\\$");
    MarkerChars();
    CollapseNoNewChar(s2, '\n', 3, "\n\n", '\r');
    ReplaceNoNewChar(s3, "\\$", Marker, '\r');
    ReplaceNoNewChar(s4, "\\", "", '\r');
    ReplaceNoNewChar(s5, "$", "\\$", '\r');
    UnescapeNoNewChar(s6, '\r');
    ReplaceNoNewChar(s7, Marker, "\\$", '\r');
    ReplaceNoNewChar(s8, "\"", "\\\"", '\r');
  }

  /** The last three steps of the (1, 1) mode: quotes escaped, then `%` runs collapsed and doubled. */
  lemma EscapedQuotesSurvivePercents(s8: string)
    ensures var s10 := CollapseRuns(Replace(s8, "\"", "\\\""), '%', 1, "%");
      QuotesEscaped(Replace(s10, "%", "%%")) && RunsExactly(Replace(s10, "%", "%%"), '%', 2)
  {
    var s9 := Replace(s8, "\"", "\\\"");
    var s10 := CollapseRuns(s9, '%', 1, "%");
    EscapeQuotes(s8);
    CollapsingKeepsQuotes(s9);
    DoublingKeepsAllQuotes(s10);
    assert RunsExactly(Replace(s10, "%", "%%"), '%', 2) by {
      CollapseBoundsRuns(s9, '%', 1, "%", 1);
      DoublingMakesPairs(s10, '%');
    }
  }

  /**
   * mlang_string::fix_syntax($text, $format, $from): `from` None is PHP's
   * null, which means "the same as format". Any pair other than (2, 2),
   * (2, 1) and (1, 1) throws.
   */
  function FixSyntax(text: string, format: int, from: Option<int>): (r: Result<string>)
    ensures r.Success? <==> (format, from.GetOr(format)) in {(2, 2), (2, 1), (1, 1)}
    ensures r.Failure? ==> r.error == UnknownFormat
  {
    var f := from.GetOr(format);
    if format == 2 && f == 2 then Success(SanitiseModern(text))
    else if format == 2 && f == 1 then Success(Migrate(text))
    else if format == 1 && f == 1 then Success(SanitiseLegacy(text))
    else Failure(UnknownFormat)
  }

  // ----- Mode (2, 2): when the output is a fixpoint -----

  /**
   * Sanitising the output again changes it exactly when the output has
   * leading or trailing whitespace (which stripping backslashes can expose).
   */
  lemma SanitiseModernFixpoint(text: string)
    ensures SanitiseModern(SanitiseModern(text)) == SanitiseModern(text) <==> Trimmed(SanitiseModern(text))
  {
    var r := SanitiseModern(text);
    var s3 := Replace(Replace(Trim(text), "\r", ""), "\\", "");
    if Trimmed(r) {
      TrimOfTrimmed(r);
      ReplaceAbsent(r, "\r", "");
      ReplaceAbsent(r, "\\", "");
      NewlineBlock();
      CollapseIdempotent(s3, '\n', 3, "\n\n\n");
    } else {
      assert Trim(r) != r;
    }
  }

  /** The replacement for a long run of newlines is a block of newlines. */
  lemma NewlineBlock()
    ensures Block("\n\n\n", '\n')
  {
  }

  /** An input whose only backslash sits before a space and which has no carriage return or newline loses exactly that backslash. */
  lemma SanitiseModernDropsBackslash(t: string)
    requires Trimmed("\\" + t) && '\r' !in t && '\\' !in t && '\n' !in t
    ensures SanitiseModern("\\" + t) == t
  {
    var s := "\\" + t;
    TrimOfTrimmed(s);
    assert '\r' !in s;
    ReplaceAbsent(s, "\r", "");
    ReplaceAtHead(t, "\\", "");
    ReplaceAbsent(t, "\\", "");
    assert Replace(Replace(Trim(s), "\r", ""), "\\", "") == t;
    CollapseAbsent(t, '\n', 3, "\n\n\n");
  }

  /** The (2, 2) mode is not idempotent: a backslash can hide leading whitespace from trim(). */
  lemma SanitiseModernNotIdempotent()
    ensures SanitiseModern("\\ a") == " a"
    ensures SanitiseModern(" a") == "a"
  {
    assert "\\ a" == "\\" + " a";
    SanitiseModernDropsBackslash(" a");
    assert " a" == " " + "a" + "";
    TrimUnique(" a", " ", "a", "");
    assert Trim(" a") == "a";
    ReplaceAbsent("a", "\r", "");
    ReplaceAbsent("a", "\\", "");
    CollapseAbsent("a", '\n', 3, "\n\n\n");
  }

  // ----- Mode (2, 1): what the migration does to placeholders -----

  /** Text without a dollar sign has no placeholder to wrap. */
  lemma {:induction false} WrapFromPlain(s: string)
    requires '$' !in s
    ensures WrapFrom(s) == s
    decreases |s|
  {
    if |s| > 0 {
      assert !StartsWithA(s[1..]) by { assert |s[1..]| > 0 ==> s[1..][0] == s[1]; }
      WrapFromPlain(s[1..]);
      assert [s[0]] + s[1..] == s;
    }
  }

  /** A text without a dollar has no placeholder, so wrapping leaves it alone. */
  lemma WrapPlain(s: string)
    requires '$' !in s
    ensures Wrap(s) == s
  {
    assert !StartsWithA(s) by { assert |s| > 0 ==> s[0] in s; }
    WrapFromPlain(s);
  }

  /** Text without a backslash has nothing to unescape. */
  lemma {:induction false} UnescapePlain(s: string)
    requires '\\' !in s
    ensures Unescape(s) == s
    decreases |s|
  {
    if |s| > 0 {
      UnescapePlain(s[1..]);
      assert [s[0]] + s[1..] == s;
    }
  }

  /** `s` with every brace removed. */
  function Unbraced(s: string): string
  {
    if |s| == 0 then []
    else if s[0] == '{' || s[0] == '}' then Unbraced(s[1..])
    else [s[0]] + Unbraced(s[1..])
  }

  /** Removing braces distributes over concatenation. */
  lemma {:induction false} UnbracedConcat(a: string, b: string)
    ensures Unbraced(a + b) == Unbraced(a) + Unbraced(b)
    decreases |a|
  {
    if |a| == 0 {
      assert a + b == b;
    } else {
      assert (a + b)[1..] == a[1..] + b;
      UnbracedConcat(a[1..], b);
    }
  }

  /** The wrapping step only inserts braces: with all braces removed, the text is unchanged. */
  lemma {:induction false} WrapFromOnlyAddsBraces(s: string)
    ensures Unbraced(WrapFrom(s)) == Unbraced(s)
    decreases |s|
  {
    if |s| > 0 {
      var n := PlaceholderLen(s[1..]);
      if s[0] != '{' && n > 0 {
        var h, rest := s[1..1 + n], s[1 + n..];
        var w := WrapFrom(rest);
        assert WrapFrom(s) == [s[0]] + "{" + h + "}" + w;
        WrapFromOnlyAddsBraces(rest);
        assert Unbraced([s[0]] + "{" + h + "}" + w) == Unbraced([s[0]] + h) + Unbraced(w) by {
          UnbracedAfterBraced([s[0]], h, w);
          UnbracedConcat([s[0]] + h, w);
        }
        assert Unbraced(s) == Unbraced([s[0]] + h) + Unbraced(rest) by {
          UnbracedConcat([s[0]] + h, rest);
          HeadPieceRest(s, n);
        }
      } else {
        WrapFromOnlyAddsBraces(s[1..]);
        assert Unbraced(WrapFrom(s)) == Unbraced([s[0]]) + Unbraced(WrapFrom(s[1..])) by {
          UnbracedConcat([s[0]], WrapFrom(s[1..]));
        }
        assert Unbraced(s) == Unbraced([s[0]]) + Unbraced(s[1..]) by {
          UnbracedConcat([s[0]], s[1..]);
          assert [s[0]] + s[1..] == s;
        }
      }
    }
  }

  /** A text is its first character, the next `n` characters and the rest. */
  lemma HeadPieceRest(s: string, n: nat)
    requires 1 + n <= |s|
    ensures s == [s[0]] + s[1..1 + n] + s[1 + n..]
  {
    assert s[1..] == s[1..1 + n] + s[1 + n..];
    assert s == [s[0]] + s[1..];
  }

  /** Removing braces from a braced piece and what follows it. */
  lemma UnbracedAfterBraced(x: string, h: string, y: string)
    ensures Unbraced(x + "{" + h + "}" + y) == Unbraced(x + h + y)
  {
    UnbracedConcat(x + "{" + h + "}", y);
    UnbracedConcat(x + "{" + h, "}");
    UnbracedConcat(x + "{", h);
    UnbracedConcat(x, "{");
    UnbracedConcat(x + h, y);
    UnbracedConcat(x, h);
  }

  /** Wrapping only inserts braces: with the braces removed, the text is unchanged. */
  lemma WrapOnlyAddsBraces(s: string)
    ensures Unbraced(Wrap(s)) == Unbraced(s)
  {
    var n := PlaceholderLen(s);
    if n > 0 {
      var head, tail := s[..n], s[n..];
      WrapFromOnlyAddsBraces(tail);
      WrapOfPlaceholder(s);
      UnbracedBracedHead(head, WrapFrom(tail));
      SplitUnbraced(s, n);
    } else {
      WrapFromOnlyAddsBraces(s);
    }
  }

  /** Removing braces commutes with splitting the text at any point. */
  lemma SplitUnbraced(s: string, n: nat)
    requires n <= |s|
    ensures Unbraced(s) == Unbraced(s[..n]) + Unbraced(s[n..])
  {
    assert s == s[..n] + s[n..];
    UnbracedConcat(s[..n], s[n..]);
  }

  /** A placeholder at the start of the subject is wrapped, and the scan goes on after it. */
  lemma WrapOfPlaceholder(s: string)
    requires PlaceholderLen(s) > 0
    ensures Wrap(s) == "{" + s[..PlaceholderLen(s)] + "}" + WrapFrom(s[PlaceholderLen(s)..])
  {
  }

  /** Removing braces from a braced head and what follows it. */
  lemma UnbracedBracedHead(head: string, w: string)
    ensures Unbraced("{" + head + "}" + w) == Unbraced(head) + Unbraced(w)
  {
    assert "{" + head + "}" + w == [] + "{" + head + "}" + w;
    UnbracedAfterBraced([], head, w);
    assert [] + head + w == head + w;
    UnbracedConcat(head, w);
  }

  /** A placeholder at the start of the subject is wrapped. */
  lemma WrapLonePlaceholder()
    ensures Wrap("$a") == "{$a}"
  {
    assert PlaceholderLen("$a") == 2;
    assert "$a"[..2] == "$a" && "$a"[2..] == [];
  }

  /** A placeholder after a space is wrapped. */
  lemma WrapAfterSpace()
    ensures Wrap("x $a") == "x {$a}"
  {
    assert PlaceholderLen("$a" + "") == 2;
    WrapMidPlaceholder("x", "$a", "");
    assert "x" + " " + "$a" + "" == "x $a" && "x" + " {" + "$a" + "}" + "" == "x {$a}";
  }

  /** A placeholder already in braces is left alone. */
  lemma WrapSkipsBraced()
    ensures Wrap("{$a}") == "{$a}"
  {
    var b := "{$a}";
    assert !StartsWithA(b);
    assert b[1..] == "$a}" && "$a}"[1..] == "a}";
    assert PlaceholderLen("$a}") == 2;
    WrapFromPlain("a}");
    assert !StartsWithA("a}");
    assert WrapFrom("$a}") == "$a}";
  }

  /** A property access is wrapped together with the placeholder. */
  lemma WrapProperty()
    ensures Wrap("$a->name.") == "{$a->name}."
  {
    var m := "$a->name.";
    assert m[4..] == "name." && "name."[1..] == "ame." && "ame."[1..] == "me." && "me."[1..] == "e." && "e."[1..] == ".";
    assert WordRun(".") == 0;
    assert WordRun(m[4..]) == 4;
    assert PlaceholderLen(m) == 8;
    assert m[..8] == "$a->name" && m[8..] == ".";
    WrapFromPlain(".");
  }

  /** Of two adjacent placeholders only the first is wrapped: its match consumes the character the second would need. */
  lemma WrapAdjacentPlaceholders()
    ensures Wrap("$a$a") == "{$a}$a"
  {
    var d := "$a$a";
    assert PlaceholderLen(d) == 2 && d[..2] == "$a" && d[2..] == "$a";
    assert "$a"[1..] == "a";
    assert !StartsWithA("a");
    WrapFromPlain("a");
    assert WrapFrom("$a") == "$a";
  }

  // ----- Mode (2, 1): no placeholder is left bare -----

  /** Position `i` of `w` comes right after a brace. */
  predicate BraceBefore(w: string, i: nat) {
    0 < i <= |w| && (w[i - 1] == '{' || w[i - 1] == '}')
  }

  /** Every `$a` placeholder in `w` from position `from` on comes right after a brace. */
  predicate BracedFrom(w: string, from: nat) {
    forall i :: from <= i < |w| && StartsWithA(w[i..]) ==> BraceBefore(w, i)
  }

  /** A placeholder holds one dollar, at its start. */
  lemma PlaceholderOneDollar(s: string)
    ensures forall k :: 1 <= k < PlaceholderLen(s) ==> s[k] != '$'
  {
  }

  /** The wrapping step never shortens its input, keeps its first character, and changes the second only to open a brace before a dollar. */
  lemma {:induction false} WrapFromStart(s: string)
    ensures |WrapFrom(s)| >= |s|
    ensures |s| > 0 ==> WrapFrom(s)[0] == s[0]
    ensures |s| > 1 ==> WrapFrom(s)[1] == s[1] || (WrapFrom(s)[1] == '{' && s[1] == '$')
    decreases |s|
  {
    if |s| > 0 {
      var n := PlaceholderLen(s[1..]);
      if s[0] != '{' && n > 0 {
        WrapFromStart(s[1 + n..]);
      } else {
        WrapFromStart(s[1..]);
      }
    }
  }

  /** The wrapping step does not make a placeholder start its output: one there already stood at the start of its input. */
  lemma StartsWithAOfWrapFrom(t: string)
    ensures StartsWithA(WrapFrom(t)) ==> StartsWithA(t)
  {
    WrapFromStart(t);
    if |t| > 0 && t[0] == '$' {
      var u := t[1..];
      assert t == [t[0]] + u;
      if !StartsWithA(u) {
        WrapFromPassChar(t[0], u);
        WrapFromStart(u);
        if |t| > 2 {
          assert u[1] == t[2];
        }
      }
    }
  }

  /** Text whose placeholders after the first character follow braces, and which does not start with one. */
  lemma BracedFromStart(w: string)
    requires BracedFrom(w, 1) && !StartsWithA(w)
    ensures BracedFrom(w, 0)
  {
    assert w[0..] == w;
  }

  /**
   * A placeholder `h` wrapped in braces after `x`, followed by text whose
   * placeholders after its first character follow braces: from the brace on,
   * every placeholder follows a brace.
   */
  lemma BracedPiece(x: string, h: string, v: string)
    requires |h| > 0 && h[0] == '$' && forall k :: 1 <= k < |h| ==> h[k] != '$'
    requires BracedFrom(v, 1)
    ensures BracedFrom(x + "{" + h + "}" + v, |x|)
  {
    var w := x + "{" + h + "}" + v;
    var m := |x|;
    assert forall k :: m + 1 <= k < m + 1 + |h| ==> w[k] == h[k - m - 1];
    assert w[m] == '{' && w[m + 1 + |h|] == '}';
    forall i | m <= i < |w| && StartsWithA(w[i..])
      ensures BraceBefore(w, i)
    {
      assert w[i] == w[i..][0];
      if i >= m + 2 + |h| {
        var j := i - m - 2 - |h|;
        assert w[i..] == v[j..];
        assert j > 0 ==> w[i - 1] == v[j - 1];
      }
    }
  }

  /** One character before text whose placeholders after its first character follow braces. */
  lemma BracedAfterChar(c: char, v: string)
    requires BracedFrom(v, 1)
    requires StartsWithA(v) ==> c == '{'
    ensures BracedFrom([c] + v, 1)
  {
    var w := [c] + v;
    forall i | 1 <= i < |w| && StartsWithA(w[i..])
      ensures BraceBefore(w, i)
    {
      var j := i - 1;
      assert w[i..] == v[j..];
      assert j > 0 ==> w[i - 1] == v[j - 1];
    }
  }

  /** After its first character, the wrapping step leaves no placeholder that does not follow a brace. */
  lemma {:induction false} WrapFromBraced(s: string)
    ensures BracedFrom(WrapFrom(s), 1)
    decreases |s|
  {
    if |s| > 0 {
      var u := s[1..];
      var n := PlaceholderLen(u);
      if s[0] != '{' && n > 0 {
        var h, rest := s[1..1 + n], s[1 + n..];
        PlaceholderOneDollar(u);
        WrapFromBraced(rest);
        assert forall k :: 1 <= k < |h| ==> h[k] == u[k];
        WrapFromOpenAt(s);
        BracedPiece([s[0]], h, WrapFrom(rest));
      } else {
        WrapFromPassAt(s);
        WrapFromBraced(u);
        StartsWithAOfWrapFrom(u);
        BracedAfterChar(s[0], WrapFrom(u));
      }
    }
  }

  /** Every placeholder in the wrapped text comes right after a brace: the one a wrap opened, or the `}` of one it just closed. */
  lemma WrapBraced(s: string)
    ensures BracedFrom(Wrap(s), 0)
  {
    var n := PlaceholderLen(s);
    if n > 0 {
      var h, v := s[..n], WrapFrom(s[n..]);
      assert Wrap(s) == [] + "{" + h + "}" + v;
      PlaceholderOneDollar(s);
      assert forall k :: 1 <= k < |h| ==> h[k] == s[k];
      WrapFromBraced(s[n..]);
      BracedPiece([], h, v);
    } else {
      assert Wrap(s) == WrapFrom(s);
      WrapFromBraced(s);
      StartsWithAOfWrapFrom(s);
      BracedFromStart(WrapFrom(s));
    }
  }

  /** A character other than a newline or `%` that the text lacks is still absent after the first four migration steps. */
  lemma MigrateFrontLacks(text: string, d: char)
    requires d !in text && d != '\n' && d != '%'
    ensures d !in CollapseRuns(CollapseRuns(Replace(Trim(text), "\r", ""), '\n', 3, "\n\n\n"), '%', 1, "%")
  {
    var s1 := Trim(text);
    var s2 := Replace(s1, "\r", "");
    ReplaceNoNewChar(s1, "\r", "", d);
    CollapseNoNewChar(s2, '\n', 3, "\n\n\n", d);
    CollapseNoNewChar(CollapseRuns(s2, '\n', 3, "\n\n\n"), '%', 1, "%", d);
  }

  /**
   * On text without backslashes, `@` and `&`, the migration only adds braces
   * to the normalised text, and every `$a` placeholder left in its output
   * comes right after a brace.
   */
  lemma MigrateWrapsEveryPlaceholder(text: string)
    requires '\\' !in text && '@' !in text && '&' !in text
    ensures BracedFrom(Migrate(text), 0)
    ensures Unbraced(Migrate(text)) == Unbraced(CollapseRuns(CollapseRuns(Replace(Trim(text), "\r", ""), '\n', 3, "\n\n\n"), '%', 1, "%"))
  {
    var s4 := CollapseRuns(CollapseRuns(Replace(Trim(text), "\r", ""), '\n', 3, "\n\n\n"), '%', 1, "%");
    MigrateFrontLacks(text, '\\');
    MigrateFrontLacks(text, '@');
    MigrateFrontLacks(text, '&');
    ReplaceAbsent(s4, "\\$", Marker);
    ReplaceAbsent(s4, "\\", "");
    var s7 := Wrap(s4);
    WrapNoNewChar(s4, '@');
    WrapNoNewChar(s4, '&');
    ReplaceAbsent(s7, Marker, "$");
    ReplaceAbsent(s7, "&#36;", "$");
    assert Migrate(text) == s7;
    WrapBraced(s4);
    WrapOnlyAddsBraces(s4);
  }

  /** The entity `&#36;` stands at position `i` of `w`. */
  predicate EntityAt(w: string, i: nat) {
    i + 5 <= |w| && w[i] == '&' && w[i + 1] == '#' && w[i + 2] == '3' && w[i + 3] == '6' && w[i + 4] == ';'
  }

  /** The first `k` characters of `w` exist and none is a dollar. */
  predicate NoDollarBefore(w: string, k: nat) {
    k <= |w| && forall j :: 0 <= j < k ==> w[j] != '$'
  }

  /** A prefix of the decoded text that holds no dollar is a prefix of the text itself. */
  lemma {:induction false} DecodeKeepsPlainPrefix(t: string, k: nat)
    ensures NoDollarBefore(Replace(t, "&#36;", "$"), k) ==> k <= |t| && t[..k] == Replace(t, "&#36;", "$")[..k]
    decreases |t|
  {
    var r := Replace(t, "&#36;", "$");
    if NoDollarBefore(r, k) && |t| >= 5 {
      if t[..5] == "&#36;" {
        assert r[0] == '$';
      } else if k > 0 {
        var r' := Replace(t[1..], "&#36;", "$");
        assert r == [t[0]] + r';
        assert t == [t[0]] + t[1..];
        DecodeKeepsPlainPrefix(t[1..], k - 1);
        PlainPrefixStep(t[0], t[1..], r', k);
      }
    }
  }

  /** The step of the induction above: a shared first character extends a shared dollar-free prefix. */
  lemma PlainPrefixStep(c: char, u: string, v: string, k: nat)
    requires 0 < k && NoDollarBefore([c] + v, k)
    requires NoDollarBefore(v, k - 1) ==> k - 1 <= |u| && u[..k - 1] == v[..k - 1]
    ensures k <= |[c] + u| && ([c] + u)[..k] == ([c] + v)[..k]
  {
    assert NoDollarBefore(v, k - 1) by {
      forall j | 0 <= j < k - 1
        ensures v[j] != '$'
      {
        assert v[j] == ([c] + v)[j + 1];
      }
    }
    assert ([c] + u)[..k] == [c] + u[..k - 1];
    assert ([c] + v)[..k] == [c] + v[..k - 1];
  }

  /** A decoded text that starts with the tail `#36;` of the entity had that tail at its start already. */
  lemma DecodeKeepsEntityTail(t: string)
    ensures var r := Replace(t, "&#36;", "$");
      EntityAt(['&'] + r, 0) ==> EntityAt(['&'] + t, 0)
  {
    var r := Replace(t, "&#36;", "$");
    if EntityAt(['&'] + r, 0) {
      assert forall j :: 0 <= j < 4 ==> r[j] == (['&'] + r)[j + 1];
      assert NoDollarBefore(r, 4);
      DecodeKeepsPlainPrefix(t, 4);
      assert forall j :: 0 <= j < 4 ==> t[j] == r[..4][j];
    }
  }

  /** Decoding `&#36;` leaves no `&#36;` behind: the replacement cannot form a new one. */
  lemma {:induction false} DecodeLeavesNoEntity(s: string)
    ensures forall i: nat :: !EntityAt(Replace(s, "&#36;", "$"), i)
    decreases |s|
  {
    var r := Replace(s, "&#36;", "$");
    if |s| >= 5 {
      var d := if s[..5] == "&#36;" then 5 else 1;
      var r' := Replace(s[d..], "&#36;", "$");
      DecodeLeavesNoEntity(s[d..]);
      assert r == r[..1] + r' && |r[..1]| == 1;
      assert forall k :: 0 <= k < |r'| ==> r[k + 1] == r'[k];
      forall i: nat
        ensures !EntityAt(r, i)
      {
        if i > 0 {
          assert !EntityAt(r', i - 1);
        } else if d == 1 {
          assert s[0] != '&' || s[1] != '#' || s[2] != '3' || s[3] != '6' || s[4] != ';' by {
            assert s[..5] != "&#36;";
          }
          if s[0] == '&' {
            DecodeKeepsEntityTail(s[1..]);
            assert ['&'] + s[1..] == s && ['&'] + r' == r;
          }
        } else {
          assert r[0] == '$';
        }
      }
    }
  }

  /** No `&#36;` survives the migration: its last step decodes every one into a bare dollar. */
  lemma MigrateDecodesEveryEntity(text: string)
    ensures forall i: nat :: !EntityAt(Migrate(text), i)
  {
    var s8 := Replace(Wrap(Replace(Replace(CollapseRuns(CollapseRuns(Replace(Trim(text), "\r", ""), '\n', 3, "\n\n\n"), '%', 1, "%"), "\\$", Marker), "\\", "")), Marker, "$");
    assert Migrate(text) == Replace(s8, "&#36;", "$");
    DecodeLeavesNoEntity(s8);
  }

  /** Text the migration leaves alone: trimmed, and without any character that one of its steps acts on. */
  lemma MigratePlain(t: string)
    requires Trimmed(t)
    requires forall c :: c in t ==> c !in "\r\n%\\$@&"
    ensures Migrate(t) == t
  {
    assert '\r' !in t && '\n' !in t && '%' !in t && '\\' !in t && '$' !in t && '@' !in t;
    MigrateOnlyDecodes(t);
    ReplaceAbsent(t, "&#36;", "$");
  }

  /** A placeholder is made of `$a`, the arrow and word characters. */
  lemma PlaceholderChars(s: string)
    ensures forall k :: 0 <= k < PlaceholderLen(s) ==> s[k] in "$a->" || IsWordChar(s[k])
  {
    if PlaceholderLen(s) > 2 {
      forall k | 4 <= k < PlaceholderLen(s)
        ensures IsWordChar(s[k])
      {
        assert s[k] == s[4..][k - 4];
      }
    }
  }

  /** A placeholder holds none of the characters the migration steps act on, and no whitespace. */
  lemma PlaceholderPlain(h: string, q: string)
    requires PlaceholderLen(h + q) == |h|
    ensures forall c :: c in h ==> c !in "\r\n%\\@&" && !IsSpace(c)
  {
    PlaceholderChars(h + q);
    forall c | c in h
      ensures c !in "\r\n%\\@&" && !IsSpace(c)
    {
      var k :| 0 <= k < |h| && h[k] == c;
      assert (h + q)[k] == c;
    }
  }

  /** On trimmed text the steps around the wrapper leave alone, the migration is the wrapper. */
  lemma MigrateIsWrap(s: string, w: string)
    requires Trimmed(s) && '\r' !in s && '\n' !in s && '%' !in s && '\\' !in s
    requires Wrap(s) == w && '@' !in w && '&' !in w
    ensures Migrate(s) == w
  {
    calc {
      Migrate(s);
      { TrimOfTrimmed(s); }
      Replace(Replace(Wrap(Replace(Replace(CollapseRuns(CollapseRuns(Replace(s, "\r", ""), '\n', 3, "\n\n\n"), '%', 1, "%"), "\\$", Marker), "\\", "")), Marker, "$"), "&#36;", "$");
      { ReplaceAbsent(s, "\r", ""); CollapseAbsent(s, '\n', 3, "\n\n\n"); CollapseAbsent(s, '%', 1, "%"); }
      Replace(Replace(Wrap(Replace(Replace(s, "\\$", Marker), "\\", "")), Marker, "$"), "&#36;", "$");
      { ReplaceAbsent(s, "\\$", Marker); ReplaceAbsent(s, "\\", ""); }
      Replace(Replace(w, Marker, "$"), "&#36;", "$");
      { ReplaceAbsent(w, Marker, "$"); ReplaceAbsent(w, "&#36;", "$"); }
      w;
    }
  }

  /**
   * The migration wraps a placeholder `h` (`$a` or `$a->prop`) that follows
   * a space, wherever it stands in plain text; `q` must not extend it.
   */
  lemma MigrateWrapsPlaceholder(p: string, h: string, q: string)
    requires p != [] && !IsSpace(p[0]) && (q == [] || !IsSpace(q[|q| - 1]))
    requires forall c :: c in p ==> c !in "\r\n%\\$@&"
    requires forall c :: c in q ==> c !in "\r\n%\\$@&"
    requires PlaceholderLen(h + q) == |h| > 0
    ensures Migrate(p + " " + h + q) == p + " {" + h + "}" + q
  {
    PlaceholderPlain(h, q);
    var s := p + " " + h + q;
    var w := p + " {" + h + "}" + q;
    assert '\r' !in s && '\n' !in s && '%' !in s && '\\' !in s;
    assert '@' !in w && '&' !in w;
    assert Trimmed(s) by {
      if q == [] { assert s[|s| - 1] == h[|h| - 1]; } else { assert s[|s| - 1] == q[|q| - 1]; }
    }
    assert '$' !in p && '$' !in q;
    WrapMidPlaceholder(p, h, q);
    MigrateIsWrap(s, w);
  }

  /** A property placeholder in mid-text is wrapped whole: "Hi $a->name" becomes "Hi {$a->name}". */
  lemma MigrateWrapsMidProperty()
    ensures Migrate("Hi $a->name") == "Hi {$a->name}"
  {
    var h := "$a->name";
    assert "Hi" + " " + h + "" == "Hi $a->name";
    assert "Hi" + " {" + h + "}" + "" == "Hi {$a->name}";
    assert h[4..] == "name" && "name"[1..] == "ame" && "ame"[1..] == "me" && "me"[1..] == "e" && "e"[1..] == "";
    assert WordRun("") == 0;
    assert WordRun(h[4..]) == 4;
    assert h + "" == h;
    assert PlaceholderLen(h + "") == 8;
    MigrateWrapsPlaceholder("Hi", h, "");
  }

  /** A placeholder after a space in plain text is wrapped, and nothing around it changes. */
  lemma WrapFromMidPlaceholder(p: string, h: string, q: string)
    requires '$' !in p && '$' !in q && PlaceholderLen(h + q) == |h| > 0
    ensures WrapFrom(p + " " + h + q) == p + " {" + h + "}" + q
  {
    var t := " " + h + q;
    assert p + " " + h + q == p + t;
    assert !StartsWithA(t) by { assert t[0] == ' '; }
    WrapFromPlainPrefix(p, t);
    WrapFromSpacePlaceholder(h, q);
    ConcatAssoc(p, " {" + h + "}", q);
    ConcatAssoc(p, " {" + h, "}");
    ConcatAssoc(p, " {", h);
  }

  /** A prefix without a dollar passes the wrapping step unchanged, when what follows does not start with a placeholder. */
  lemma {:induction false} WrapFromPlainPrefix(p: string, t: string)
    requires '$' !in p && !StartsWithA(t)
    ensures WrapFrom(p + t) == p + WrapFrom(t)
    decreases |p|
  {
    if p != [] {
      var u := p[1..] + t;
      assert p + t == [p[0]] + u;
      assert !StartsWithA(u) by {
        if |p| > 1 { assert u[0] == p[1]; } else { assert u == t; }
      }
      assert '$' !in p[1..] by { assert forall c :: c in p[1..] ==> c in p; }
      WrapFromPassChar(p[0], u);
      WrapFromPlainPrefix(p[1..], t);
      assert [p[0]] + (p[1..] + WrapFrom(t)) == p + WrapFrom(t);
    } else {
      assert p + t == t && p + WrapFrom(t) == WrapFrom(t);
    }
  }

  /** A character before text that does not start with a placeholder passes the wrapping step unchanged. */
  lemma WrapFromPassChar(c: char, u: string)
    requires !StartsWithA(u)
    ensures WrapFrom([c] + u) == [c] + WrapFrom(u)
  {
    assert ([c] + u)[1..] == u;
  }

  /** The wrapping step opens a brace when the character after a first character other than `{` starts a placeholder. */
  lemma WrapFromOpenAt(s: string)
    requires |s| > 0 && s[0] != '{' && PlaceholderLen(s[1..]) > 0
    ensures WrapFrom(s) == [s[0]] + "{" + s[1..1 + PlaceholderLen(s[1..])] + "}" + WrapFrom(s[1 + PlaceholderLen(s[1..])..])
  {
  }

  /** Otherwise the wrapping step passes the first character unchanged. */
  lemma WrapFromPassAt(s: string)
    requires |s| > 0 && (s[0] == '{' || PlaceholderLen(s[1..]) == 0)
    ensures WrapFrom(s) == [s[0]] + WrapFrom(s[1..])
  {
  }

  /** The case of the placeholder right after the first character. */
  lemma WrapFromSpacePlaceholder(h: string, q: string)
    requires '$' !in q && PlaceholderLen(h + q) == |h| > 0
    ensures WrapFrom(" " + h + q) == " {" + h + "}" + q
  {
    var s := " " + h + q;
    assert PlaceholderLen(s[1..]) == |h| by { assert s[1..] == h + q; }
    WrapFromOpenAt(s);
    assert s[1..1 + |h|] == h;
    assert s[1 + |h|..] == q;
    WrapFromPlain(q);
    assert [' '] + "{" == " {";
  }

  /**
   * The same from the start of the subject: a placeholder `h`, `$a` or
   * `$a->prop`, after a space becomes "{" + h + "}", and the text around it
   * is unchanged.
   */
  lemma WrapMidPlaceholder(p: string, h: string, q: string)
    requires p != [] && '$' !in p && '$' !in q && PlaceholderLen(h + q) == |h| > 0
    ensures Wrap(p + " " + h + q) == p + " {" + h + "}" + q
  {
    assert !StartsWithA(p + " " + h + q) by { assert (p + " " + h + q)[0] == p[0]; }
    WrapFromMidPlaceholder(p, h, q);
  }

  /** The first migration step hides an escaped dollar behind the marker. */
  lemma ProtectEscapedDollar(p: string, q: string)
    requires '\\' !in p && '\\' !in q
    ensures Replace(p + "\\$a" + q, "\\$", Marker) == p + Marker + "a" + q
  {
    assert p + "\\$a" + q == p + "\\$" + ("a" + q);
    assert '\\' !in "a" + q;
    ReplaceBetween(p, "a" + q, "\\$", Marker);
    assert p + Marker + ("a" + q) == p + Marker + "a" + q;
  }

  /** The later steps keep the marker out of placeholder wrapping and turn it back into a bare dollar. */
  lemma RestoreEscapedDollar(p: string, q: string)
    requires '\\' !in p && '$' !in p && '@' !in p && '&' !in p
    requires '\\' !in q && '$' !in q && '@' !in q && '&' !in q
    ensures Replace(Replace(Wrap(Replace(p + Marker + "a" + q, "\\", "")), Marker, "$"), "&#36;", "$") == p + "$a" + q
  {
    var s5 := p + Marker + "a" + q;
    assert '\\' !in s5 && '$' !in s5 by {
      MarkerChars();
      assert forall c :: c in s5 ==> c in p || c in Marker || c == 'a' || c in q;
    }
    assert Replace(s5, "\\", "") == s5 by { ReplaceAbsent(s5, "\\", ""); }
    assert Wrap(s5) == s5 by { WrapPlain(s5); }
    assert Replace(s5, Marker, "$") == p + "$a" + q by { RestoreMarker(p, q); }
    assert Replace(p + "$a" + q, "&#36;", "$") == p + "$a" + q by {
      assert '&' !in p + "$a" + q;
      ReplaceAbsent(p + "$a" + q, "&#36;", "$");
    }
  }

  /** The stand-in between text without `@` becomes a dollar again. */
  lemma RestoreMarker(p: string, q: string)
    requires '@' !in p && '@' !in q
    ensures Replace(p + Marker + "a" + q, Marker, "$") == p + "$a" + q
  {
    assert p + Marker + "a" + q == p + Marker + ("a" + q);
    assert '@' !in "a" + q;
    ReplaceBetween(p, "a" + q, Marker, "$");
    assert p + "$" + ("a" + q) == p + "$a" + q;
  }

  /** The migration turns an escaped `\$a` into a plain, unwrapped `$a`, wherever it stands in plain text. */
  lemma MigrateKeepsEscapedDollar(p: string, q: string)
    requires p == [] || !IsSpace(p[0])
    requires q == [] || !IsSpace(q[|q| - 1])
    requires forall c :: c in p ==> c !in "\r\n%\\$@&"
    requires forall c :: c in q ==> c !in "\r\n%\\$@&"
    ensures Migrate(p + "\\$a" + q) == p + "$a" + q
  {
    var s := p + "\\$a" + q;
    assert '\r' !in s && '\n' !in s && '%' !in s;
    assert '\\' !in p && '$' !in p && '@' !in p && '&' !in p;
    assert '\\' !in q && '$' !in q && '@' !in q && '&' !in q;
    calc {
      Migrate(s);
      { assert Trimmed(s); TrimOfTrimmed(s); }
      Replace(Replace(Wrap(Replace(Replace(CollapseRuns(CollapseRuns(Replace(s, "\r", ""), '\n', 3, "\n\n\n"), '%', 1, "%"), "\\$", Marker), "\\", "")), Marker, "$"), "&#36;", "$");
      { ReplaceAbsent(s, "\r", ""); CollapseAbsent(s, '\n', 3, "\n\n\n"); CollapseAbsent(s, '%', 1, "%"); }
      Replace(Replace(Wrap(Replace(Replace(s, "\\$", Marker), "\\", "")), Marker, "$"), "&#36;", "$");
      { ProtectEscapedDollar(p, q); }
      Replace(Replace(Wrap(Replace(p + Marker + "a" + q, "\\", "")), Marker, "$"), "&#36;", "$");
      { RestoreEscapedDollar(p, q); }
      p + "$a" + q;
    }
  }

  /**
   * On trimmed text without `\r`, newlines, `%`, backslashes, dollars and
   * `@`, every step of the migration but the last changes nothing.
   */
  lemma MigrateOnlyDecodes(t: string)
    requires Trimmed(t)
    requires '\r' !in t && '\n' !in t && '%' !in t && '\\' !in t && '$' !in t && '@' !in t
    ensures Migrate(t) == Replace(t, "&#36;", "$")
  {
    TrimOfTrimmed(t);
    ReplaceAbsent(t, "\r", "");
    CollapseAbsent(t, '\n', 3, "\n\n\n");
    CollapseAbsent(t, '%', 1, "%");
    ReplaceAbsent(t, "\\$", Marker);
    ReplaceAbsent(t, "\\", "");
    WrapPlain(t);
    ReplaceAbsent(t, Marker, "$");
  }

  /** The migration decodes the HTML entity `&#36;` into a bare dollar, wherever it stands in plain text. */
  lemma MigrateDecodesEntity(p: string, q: string)
    requires p == [] || !IsSpace(p[0])
    requires q == [] || !IsSpace(q[|q| - 1])
    requires forall c :: c in p ==> c !in "\r\n%\\$@&"
    requires forall c :: c in q ==> c !in "\r\n%\\$@&"
    ensures Migrate(p + "&#36;" + q) == p + "$" + q
  {
    var s := p + "&#36;" + q;
    assert '\r' !in s && '\n' !in s && '%' !in s && '\\' !in s && '$' !in s && '@' !in s;
    assert Trimmed(s);
    MigrateOnlyDecodes(s);
    assert '&' !in p && '&' !in q;
    ReplaceBetween(p, q, "&#36;", "$");
  }

  // ----- Mode (1, 1): text it leaves alone -----

  /** Text the (1, 1) mode leaves alone: trimmed, and without any character that one of its steps acts on. */
  lemma SanitiseLegacyPlain(t: string)
    requires Trimmed(t)
    requires forall c :: c in t ==> c !in "\r\n%\\$@\""
    ensures SanitiseLegacy(t) == t
  {
    TrimOfTrimmed(t);
    ReplaceAbsent(t, "\r", "");
    CollapseAbsent(t, '\n', 3, "\n\n");
    ReplaceAbsent(t, "\\$", Marker);
    ReplaceAbsent(t, "\\", "");
    ReplaceAbsent(t, "$", "\\$");
    UnescapePlain(t);
    ReplaceAbsent(t, Marker, "\\$");
    ReplaceAbsent(t, "\"", "\\\"");
    CollapseAbsent(t, '%', 1, "%");
    ReplaceAbsent(t, "%", "%%");
  }

  // ----- Mode (1, 1): escaped quotes survive the percent handling -----

  lemma QuotesEscapedConcat(x: string, y: string)
    requires QuotesEscaped(x) && QuotesEscaped(y)
    ensures QuotesEscaped(x + y)
  {
    var s := x + y;
    forall i | 0 <= i < |s|
      ensures s[i] == '"' ==> 0 < i && s[i - 1] == '\\'
    {
      if i < |x| {
        assert s[i] == x[i];
        if 0 < i { assert s[i - 1] == x[i - 1]; }
      } else {
        assert s[i] == y[i - |x|];
        if i > |x| { assert s[i - 1] == y[i - 1 - |x|]; }
      }
    }
  }

  /** str_replace('"', '\"', s) leaves every double quote escaped. */
  lemma {:induction false} EscapeQuotes(s: string)
    ensures QuotesEscaped(Replace(s, "\"", "\\\""))
    ensures Replace(s, "\"", "\\\"") == [] || Replace(s, "\"", "\\\"")[0] != '"'
    decreases |s|
  {
    if |s| > 0 {
      var rest := Replace(s[1..], "\"", "\\\"");
      EscapeQuotes(s[1..]);
      assert s[..1] == "\"" <==> s[0] == '"';
      if s[0] == '"' {
        QuotesEscapedConcat("\\\"", rest);
      } else {
        QuotesEscapedConcat([s[0]], rest);
      }
    }
  }

  /** Exchanging one nonempty block of `%` for another keeps every quote escaped. */
  lemma PercentBlockSwap(p: string, a: string, b: string, q: string)
    requires Block(a, '%') && Block(b, '%') && |a| > 0 && |b| > 0
    requires QuotesEscaped(p + a + q)
    ensures QuotesEscaped(p + b + q)
  {
    var x, y := p + a + q, p + b + q;
    assert forall j :: |p| <= j < |p| + |b| ==> y[j] == b[j - |p|];
    assert x[|p| + |a| - 1] == a[|a| - 1];
    forall i | 0 <= i < |y| && y[i] == '"'
      ensures 0 < i && y[i - 1] == '\\'
    {
      if i < |p| {
        assert y[i] == x[i];
        if i > 0 { assert y[i - 1] == x[i - 1]; }
      } else if i >= |p| + |b| {
        var k := i - |p| - |b|;
        assert y[i] == q[k] == x[|p| + |a| + k];
        if k > 0 {
          assert y[i - 1] == q[k - 1] == x[|p| + |a| + k - 1];
        }
      }
    }
  }

  /** Collapsing `%` runs keeps every quote escaped. */
  lemma {:induction false} CollapseKeepsQuotes(p: string, t: string)
    requires QuotesEscaped(p + t)
    ensures QuotesEscaped(p + CollapseRuns(t, '%', 1, "%"))
    decreases |t|
  {
    if |t| == 0 {
    } else if t[0] == '%' {
      var n := LeadRun(t, '%');
      assert p + t == p + t[..n] + t[n..];
      PercentBlockSwap(p, t[..n], "%", t[n..]);
      CollapseKeepsQuotes(p + "%", t[n..]);
      assert p + "%" + CollapseRuns(t[n..], '%', 1, "%") == p + CollapseRuns(t, '%', 1, "%");
    } else {
      assert p + t == (p + [t[0]]) + t[1..];
      CollapseKeepsQuotes(p + [t[0]], t[1..]);
      assert (p + [t[0]]) + CollapseRuns(t[1..], '%', 1, "%") == p + CollapseRuns(t, '%', 1, "%");
    }
  }

  /** Collapsing `%` runs keeps every quote escaped. */
  lemma CollapsingKeepsQuotes(t: string)
    requires QuotesEscaped(t)
    ensures QuotesEscaped(CollapseRuns(t, '%', 1, "%"))
  {
    assert [] + t == t;
    CollapseKeepsQuotes([], t);
    assert [] + CollapseRuns(t, '%', 1, "%") == CollapseRuns(t, '%', 1, "%");
  }

  /** Doubling every `%` keeps every quote escaped. */
  lemma DoublingKeepsAllQuotes(t: string)
    requires QuotesEscaped(t)
    ensures QuotesEscaped(Replace(t, "%", "%%"))
  {
    assert [] + t == t;
    DoublingKeepsQuotes([], t);
    assert [] + Replace(t, "%", "%%") == Replace(t, "%", "%%");
  }

  /** Doubling every `%` of a text that follows an escaped prefix keeps every quote escaped. */
  lemma {:induction false} DoublingKeepsQuotes(p: string, t: string)
    requires QuotesEscaped(p + t)
    ensures QuotesEscaped(p + Replace(t, "%", "%%"))
    decreases |t|
  {
    if |t| == 0 {
    } else {
      assert t[..1] == "%" <==> t[0] == '%';
      if t[0] == '%' {
        assert p + t == p + t[..1] + t[1..];
        PercentBlockSwap(p, t[..1], "%%", t[1..]);
        DoublingKeepsQuotes(p + "%%", t[1..]);
        assert p + "%%" + Replace(t[1..], "%", "%%") == p + Replace(t, "%", "%%");
      } else {
        assert p + t == (p + [t[0]]) + t[1..];
        DoublingKeepsQuotes(p + [t[0]], t[1..]);
        assert (p + [t[0]]) + Replace(t[1..], "%", "%%") == p + Replace(t, "%", "%%");
      }
    }
  }
}

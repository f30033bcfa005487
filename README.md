# AMOS string store, modelled in Dafny

A model of `mlanglib.php`, the core library of AMOS, the Moodle translation
tool. AMOS keeps every version of every translated string as rows of a
repository table. Translators load strings into components, stage them,
rebase the stage on the repository and commit it, which appends new rows.

The model follows the library class by class, one module per concern:

- `basics.dfy` (`Basics`): `Option`, `Result`, the outcome of an operation that can
  throw (`Outcome`), and the errors the modelled operations throw.
- `text.dfy` (`Text`): the PHP string primitives the normaliser is built from.
  These are `trim()`, `str_replace()` and collapsing runs of one character
  (the regular expressions `/\n{3,}/` and `/%+/`), written as recursive functions.
- `syntax.dfy` (`Syntax`): `mlang_string::fix_syntax` in its three modes:
  - (2, 2): sanitise modern strings;
  - (2, 1): migrate legacy strings to the modern syntax, including the
    `$a` / `$a->prop` placeholder wrapper and the escaped-dollar marker;
  - (1, 1): sanitise legacy strings.
- `versions.dfy` (`Versions`): `mlang_version`, the fixed table of six branches
  (the constant `Known`, from mlanglib.php:864-915) and its lookups.
- `strings.dfy` (`Strings`): `mlang_string` as a value, and `differ`.
- `repository.dfy` (`Repository`):
  - the repository table as a `Log` object holding a sequence of rows, where a
    row's id is its position;
  - the snapshot query of `from_snapshot`, written as the SQL states it;
  - `mlang_tools::components_tree`.
- `components.dfy` (`Components`): `mlang_component` as a class whose methods
  update its map of strings in place. It also holds the import rule of
  `from_phpfile` and `from_snapshot`, which fills a new component row by row.
- `staging.dfy` (`Staging`): `mlang_stage` as a class over a map of component
  objects, with `add`, `clear`, `rebase`, `commit` and the lookups.
  - Rebase and commit are each proved against a value-level definition:
    `RebasedStage` for rebase, `Records` for commit. The columns commit sets
    itself (mlanglib.php:691-698) are the constant `CoreColumns`; metadata
    under those names is overwritten.
  - The lemmas beside them state the keep and drop rules of rebase, its
    idempotence, and what commit writes.

A component's identity is the triple (name, language, branch code). The
library identifies a component by the md5 hash of `name#lang@code`. That
joined text is not injective: ("a#b", "c", v) and ("a", "b#c", v) give the
same text, and so the same hash. The model keeps the tuple, which tells them
apart.

Behaviour of the code a reader might not expect, which the model follows:

- The (2, 2) mode is not idempotent. Removing backslashes can expose
  whitespace that `trim()` already ran past, so `"\ a"` becomes `" a"` and then
  `"a"` (`Syntax.SanitiseModernNotIdempotent`). The output is a fixpoint exactly
  when it has no surrounding whitespace (`Syntax.SanitiseModernFixpoint`).
- The placeholder expression consumes the character before `$a`, so of two
  adjacent placeholders only the first is wrapped: `"$a$a"` becomes
  `"{$a}$a"` (`Syntax.WrapAdjacentPlaceholders`).
- The snapshot drops deletion records only in the outer query, after the
  latest time is chosen. So a string whose latest record is a deletion is
  absent rather than falling back to an older live record. On a timestamp tie,
  a live record with a lower id survives when the higher-id record is a
  deletion (`Repository.TieBetweenLiveAndDeleted`).
- Rebase with delete-missing is not idempotent. A staged string that does not
  differ from the cap is dropped, and a second rebase then stages a deletion
  record for it (`Staging.RebaseWithDeleteMissingNotIdempotent`). Rebase
  without delete-missing is idempotent (`Staging.RebasedStageIdempotent`).

## Model

| member | source | states |
|---|---|---|
| Text.Trim | mlanglib.php:538 | trim() leaves text that neither starts nor ends with one of " \t\n\r\0\x0B"; it never lengthens the text, and it adds no character |
| Text.TrimSplit | mlanglib.php:505 | every text is leading whitespace, then its trimmed form, then trailing whitespace |
| Text.TrimUnique | mlanglib.php:505 | any split of a text into whitespace, a trimmed core and whitespace has trim() as its core |
| Text.TrimSurrounded | mlanglib.php:505 | whitespace added around a text does not change its trimmed form |
| Text.TrimOfTrimmed | mlanglib.php:538 | trim() leaves a trimmed text unchanged |
| Text.Replace | mlanglib.php:539-540 | str_replace() of a one-character pattern by text without that character removes it; a replacement no longer than the pattern never lengthens the text |
| Text.ReplaceAbsent | mlanglib.php:539-540 | str_replace() leaves text that does not contain the pattern's first character unchanged |
| Text.ReplaceSkip | mlanglib.php:549 | str_replace() passes over a prefix without the pattern's first character |
| Text.ReplaceAtHead | mlanglib.php:549 | str_replace() replaces an occurrence at the start and goes on after it |
| Text.ReplaceBetween | mlanglib.php:549 | str_replace() replaces the one occurrence between texts without the pattern's first character |
| Text.CollapseRuns | mlanglib.php:541 | collapsing runs never lengthens the text when the replacement is no longer than the minimum run; a text starting with another character keeps that start |
| Text.CollapseAbsent | mlanglib.php:541 | collapsing runs of a character the text lacks changes nothing |
| Text.CollapseBoundsRuns | mlanglib.php:541 | after /\n{3,}/ is replaced by three newlines, no run of newlines is longer than three |
| Text.RunsAtMostNoLongerRun | mlanglib.php:541 | runs of at most k copies mean no k + 1 consecutive copies anywhere |
| Text.CollapseIdempotent | mlanglib.php:541 | collapsing runs a second time changes nothing |
| Text.CollapseShortRuns | mlanglib.php:541 | text whose runs are all shorter than the minimum is left unchanged |
| Text.DoublingMakesPairs | mlanglib.php:567-568 | doubling every % of text whose % runs are single makes every % run exactly two long |
| Syntax.WordRun | mlanglib.php:551 | the length of the longest prefix of [a-zA-Z0-9_]: every character in it is a word character, and the next one is not |
| Syntax.WrapFrom | mlanglib.php:551 | definition: the placeholder expression scanned after the start of the subject, where a match consumes one character other than `{` before `$a` |
| Syntax.Wrap | mlanglib.php:551 | definition: the placeholder expression over the whole subject, where `^` stands for the character before a placeholder at the start |
| Syntax.Unescape | mlanglib.php:564 | definition: the unescaping expression, which drops the backslash before `$a` and `$a->prop` |
| Syntax.PlaceholderLen | mlanglib.php:551 | a placeholder starts the text exactly when it begins with `$a` followed by a word boundary |
| Syntax.MarkerChars | mlanglib.php:549 | the escaped-dollar marker contains no dollar, backslash, ampersand, carriage return or quote |
| Syntax.FixSyntax | mlanglib.php:531-574 | a missing `from` means the same as `format`; exactly (2, 2), (2, 1) and (1, 1) succeed, and every other pair fails with the unknown-format error |
| Syntax.SanitiseModern | mlanglib.php:536-541 | the (2, 2) output has no carriage return, no backslash and no run of four or more newlines |
| Syntax.SanitiseModernFixpoint | mlanglib.php:536-541 | sanitising the (2, 2) output again changes it exactly when that output has leading or trailing whitespace |
| Syntax.SanitiseModernDropsBackslash | mlanglib.php:538-540 | a leading backslash is removed after trim(), so the whitespace behind it stays |
| Syntax.SanitiseModernNotIdempotent | mlanglib.php:536-541 | "\ a" sanitises to " a", which sanitises to "a" |
| Syntax.Migrate | mlanglib.php:543-553 | the (2, 1) output has no carriage return and no backslash |
| Syntax.WrapFromStart | mlanglib.php:551 | the scan never shortens the text, keeps its first character, and changes the second only to open a brace before a dollar |
| Syntax.StartsWithAOfWrapFrom | mlanglib.php:551 | the scan's output starts with a placeholder only when its input does |
| Syntax.WrapFromBraced | mlanglib.php:551 | after the first character of the scan's output, every `$a` placeholder comes right after `{` or `}` |
| Syntax.WrapBraced | mlanglib.php:551 | every `$a` placeholder left in the wrapped text comes right after `{` or `}`: the brace the wrap opened, one already there, or the `}` of a placeholder just closed |
| Syntax.MigrateWrapsEveryPlaceholder | mlanglib.php:543-553 | on text without backslashes, `@` and `&`, every `$a` left in the (2, 1) output comes right after a brace, and with braces removed the output is the normalised text |
| Syntax.DecodeLeavesNoEntity | mlanglib.php:553 | no `&#36;` is left after str_replace decodes it |
| Syntax.MigrateDecodesEveryEntity | mlanglib.php:553 | no `&#36;` is left anywhere in the (2, 1) output |
| Syntax.WrapOnlyAddsBraces | mlanglib.php:551 | with braces removed, the wrapped text equals the text with braces removed: wrapping only inserts braces |
| Syntax.WrapPlain | mlanglib.php:551 | text without a dollar is not changed by the wrapper |
| Syntax.WrapNoNewChar | mlanglib.php:551 | the wrapper brings in no character except braces |
| Syntax.WrapLonePlaceholder | mlanglib.php:551 | "$a" becomes "{$a}" |
| Syntax.WrapAfterSpace | mlanglib.php:551 | "x $a" becomes "x {$a}" |
| Syntax.WrapSkipsBraced | mlanglib.php:551 | a placeholder already after `{` is left alone |
| Syntax.WrapProperty | mlanglib.php:551 | "$a->name." becomes "{$a->name}." |
| Syntax.WrapAdjacentPlaceholders | mlanglib.php:551 | "$a$a" becomes "{$a}$a": the expression consumes the character before a placeholder |
| Syntax.WrapMidPlaceholder | mlanglib.php:551 | "p h q", with h a placeholder (`$a` or `$a->prop`, matched whole so that q does not extend it), p non-empty and p and q without dollars, becomes "p {h} q": the placeholder is wrapped and the text around it is unchanged |
| Syntax.PlaceholderChars | mlanglib.php:551 | a placeholder is made only of `$`, `a`, `-`, `>` and word characters |
| Syntax.WrapFromPlainPrefix | mlanglib.php:551 | the scan copies a prefix without dollars when what follows does not start with a placeholder |
| Syntax.MigratePlain | mlanglib.php:543-553 | trimmed text without any character that a migration step acts on is unchanged |
| Syntax.MigrateOnlyDecodes | mlanglib.php:545-552 | on trimmed text without carriage returns, newlines, %, backslashes, dollars and @, the migration only decodes `&#36;` |
| Syntax.MigrateWrapsPlaceholder | mlanglib.php:543-553 | in "p h q", with h a placeholder (`$a` or `$a->prop`) that q does not extend, p and q plain text (none of `\r`, newline, `%`, `\`, `$`, `@`, `&`) and no surrounding whitespace, the migration turns h into "{h}" and changes nothing else |
| Syntax.MigrateWrapsMidProperty | mlanglib.php:543-553 | "Hi $a->name" migrates to "Hi {$a->name}" |
| Syntax.MigrateIsWrap | mlanglib.php:543-553 | on trimmed text without `\r`, newlines, `%` and backslashes, whose wrapped form has no `@` and `&`, the migration is exactly the placeholder wrapper |
| Syntax.MigrateKeepsEscapedDollar | mlanglib.php:549-552 | in "p\$a q", with p and q plain text as above and no surrounding whitespace, the migration turns the escaped `\$a` into a plain, unwrapped `$a` and changes nothing else |
| Syntax.MigrateDecodesEntity | mlanglib.php:553 | in "p&#36;q", with p and q plain text as above and no surrounding whitespace, the migration turns `&#36;` into a bare dollar and changes nothing else |
| Syntax.ProtectEscapedDollar | mlanglib.php:549 | an escaped dollar between texts without backslashes is replaced by the marker, and nothing else changes |
| Syntax.RestoreEscapedDollar | mlanglib.php:550-553 | between texts without backslashes, dollars, `@` and `&`, the marker passes the backslash removal and the wrapper unchanged, and is restored to a bare dollar |
| Syntax.SanitiseLegacy | mlanglib.php:555-568 | the (1, 1) output has no carriage return, every `"` in it directly follows a backslash, and every run of % in it is exactly two long |
| Syntax.SanitiseLegacyPlain | mlanglib.php:555-568 | trimmed text without any character that a (1, 1) step acts on is unchanged |
| Syntax.EscapedQuotesSurvivePercents | mlanglib.php:566-568 | escaping quotes, then collapsing and doubling % runs, leaves every quote escaped and every % run exactly two long |
| Syntax.EscapeQuotes | mlanglib.php:566 | after `"` is replaced by `\"`, every quote directly follows a backslash, and the text does not start with a quote |
| Syntax.CollapsingKeepsQuotes | mlanglib.php:567 | collapsing % runs keeps every quote escaped |
| Syntax.DoublingKeepsAllQuotes | mlanglib.php:568 | doubling % keeps every quote escaped |
| Syntax.UnescapePlain | mlanglib.php:564 | text without a backslash is not changed by unescaping placeholders |
| Versions.KnownKeysUnique | mlanglib.php:864-915 | no two versions in the table share a code or a branch name |
| Versions.ByCode | mlanglib.php:813-820 | a version is found exactly when the table has one with that code, and it is that version |
| Versions.ByBranch | mlanglib.php:828-835 | a version is found exactly when the table has one with that branch name, and it is that version |
| Versions.ListTranslatable | mlanglib.php:842-850 | the result maps the code of every translatable version to it and holds nothing else; the codes are 1.6 to 2.0 |
| Versions.CurrentVersions | mlanglib.php:864-915 | the current versions are 2.0 and 1.9, one modern and one legacy |
| Versions.IsLegacy | mlanglib.php:130 | definition: branches up to 1.9 keep the legacy string syntax |
| Strings.Differ | mlanglib.php:494-509 | strings with the same text never differ, and two that differ are not both deletion records |
| Strings.DeletedNeverDiffer | mlanglib.php:495-497 | two deletion records never differ |
| Strings.NullTextDiffers | mlanglib.php:498-504 | unless both are deletion records, a null text differs exactly from a non-null one |
| Strings.TextsCompareTrimmed | mlanglib.php:505-508 | unless both are deletion records, two texts differ exactly when their trimmed forms do |
| Strings.DifferSymmetric | mlanglib.php:494-509 | differ is symmetric |
| Strings.DifferIrreflexive | mlanglib.php:494-509 | a string never differs from itself |
| Strings.DifferIgnoresMetadata | mlanglib.php:494-509 | id, timestamp and extra information do not take part in the comparison |
| Strings.DifferIgnoresSurroundingWhitespace | mlanglib.php:505 | whitespace around a text does not make it differ |
| Strings.DeletionAloneIsNoDifference | mlanglib.php:494-509 | a deletion record with the same text as a live string does not differ from it |
| Strings.SameIsTransitiveAmongLive | mlanglib.php:494-509 | on live strings, "does not differ" is transitive |
| Strings.SameNotTransitiveWithDeletions | mlanglib.php:495-497 | with deletion records, "does not differ" is not transitive |
| Repository.Log.Append | mlanglib.php:712-715 | a record is appended and gets the next id; the earlier rows stay |
| Repository.InScope | mlanglib.php:176-178 | definition: the record belongs to the component's branch, language and name |
| Repository.IdAllowed | mlanglib.php:163-165 | definition: an empty id list, as PHP's empty() reads it, allows every id; otherwise the id must be listed |
| Repository.Bounded | mlanglib.php:182-185 | definition: only a snapshot time that is not empty() (neither missing nor 0) bounds the query |
| Repository.InInner | mlanglib.php:174-186 | definition: the records the inner query groups by string id: in scope, allowed, and not newer than the snapshot time |
| Repository.Selected | mlanglib.php:187-200 | definition: a record the join selects is in scope and has its string's latest inner time |
| Repository.SnapshotUpTo | mlanglib.php:201-217 | definition: force-adding the selected records among the first n rows in id order |
| Repository.Snapshot | mlanglib.php:155-221 | definition: force-adding every selected record in id order |
| Repository.LatestTime | mlanglib.php:174-186 | the inner query's MAX(timemodified) for a string: None exactly when no record of it is in the inner query, otherwise the time of one of them and no earlier than any |
| Repository.StrOf | mlanglib.php:204-216 | definition: the string made of a record has its id, text, time and deletion flag, and extra information exactly when full information is asked for |
| Repository.LastSelected | mlanglib.php:201-216 | the highest id of a selected record of a string, None when there is none |
| Repository.SnapshotIsLastSelected | mlanglib.php:201-217 | a string is in the snapshot exactly when some record of it is selected, and it is the one with the highest id: force-adding in id order lets the last one win |
| Repository.SnapshotKeysAreIds | mlanglib.php:216 | every string of a snapshot is stored under its own id |
| Repository.SnapshotIsLatest | mlanglib.php:174-191 | a string of the snapshot is no older than any record of it in scope, no newer than the snapshot time, and allowed by the id filter |
| Repository.SnapshotLive | mlanglib.php:195-197 | without deleted strings asked for, the snapshot holds no deletion record |
| Repository.DeletionHides | mlanglib.php:186-197 | a string whose every latest record is a deletion is absent, not replaced by an older live record |
| Repository.SnapshotAfterAppend | mlanglib.php:155-221 | after a record no older than any other of its string is appended, the snapshot holds exactly that record for the string |
| Repository.SnapshotOfNothing | mlanglib.php:203-220 | a component without records gives an empty snapshot, not an error |
| Repository.TieBetweenLiveAndDeleted | mlanglib.php:186-201 | with a live and a deleted record at the same time, the deleted one wins when deleted strings are asked for, and the live one otherwise |
| Repository.IntGiven | mlanglib.php:933 | definition: the branch filter is applied only when it is not empty(): a missing (null) branch and a branch of 0 are not applied |
| Repository.StrGiven | mlanglib.php:936-941 | definition: a language or component filter is applied only when it is not empty(): null, "" and "0" are not applied |
| Repository.MatchesConditions | mlanglib.php:932-941 | definition: a record passes every filter that is applied (branch, language, component); a filter that is null, 0, "" or "0" passes every record |
| Repository.ComponentsTree | mlanglib.php:929-966 | the tree has a triple exactly when some record matching the given conditions (an empty() filter is not applied) has it, and it has no empty branch or language node |
| Components.Component.constructor | mlanglib.php:86-90 | a new component has the given name, language and version and no strings |
| Components.Component.Key | mlanglib.php:229-243 | the identifier is made of the name, the language and the branch code |
| Components.Component.GetString | mlanglib.php:258-263 | the string of the id, None exactly when there is none |
| Components.Component.HasString | mlanglib.php:271-277 | without an id, whether the component holds any string; with one, whether it holds that one |
| Components.Component.GetStringKeys | mlanglib.php:284-286 | the keys are exactly the ids the component has a string for |
| Components.Component.AddString | mlanglib.php:296-302 | fails with a duplicate error exactly when not forced and the id is present, then changes nothing; otherwise stores the string under its id |
| Components.Component.UnlinkString | mlanglib.php:309-314 | removes the string of the id, and changes nothing when there is none |
| Components.Component.Clear | mlanglib.php:319-323 | no string is left |
| Components.Component.Intersect | mlanglib.php:431-441 | keeps exactly the strings whose ids the mask has, deletion records included, and returns the number removed |
| Components.Component.ImportStrings | mlanglib.php:128-137 | every declared text is normalised for the branch and force-added as a live string with the given time, over whatever was there |
| Components.Imported | mlanglib.php:136 | definition: the imported string is live, has the normalised text and the given time |
| Components.ImportedText | mlanglib.php:130-135 | branches up to 1.9 use the (1, 1) mode, later ones the (2, 1) mode; both succeed and the result has their properties |
| Components.FromSnapshot | mlanglib.php:155-221 | a new component holding exactly the snapshot of its name, language and branch |
| Staging.CapQuery | mlanglib.php:628 | definition: the snapshot query rebase makes, with the base timestamp and deletion records included |
| Staging.Cap | mlanglib.php:628 | definition: the snapshot rebase compares a component against |
| Staging.DeleteTime | mlanglib.php:630-632 | definition: the deletion time is the one given unless it is empty(), else the current time |
| Staging.Keep | mlanglib.php:643-663 | definition: the keep rule of rebase for one staged string |
| Staging.RebaseStrings | mlanglib.php:628-663 | definition: the strings of one component after rebase: deletion records added with delete-missing, then the keep rule applied |
| Staging.RebasedStage | mlanglib.php:623-670 | definition: every component rebased on its own cap, the empty ones unstaged |
| Staging.ComponentRecords | mlanglib.php:684-701 | definition: the records of one component's strings |
| Staging.RecordsOutside | mlanglib.php:683-702 | definition: the records of the strings of the components not yet written |
| Staging.Records | mlanglib.php:683-702 | definition: the records of every staged string |
| Staging.Tombstone | mlanglib.php:636-638 | definition: the deletion record made of a cap string is a copy of it, marked deleted and stamped with the deletion time |
| Staging.WithTombstones | mlanglib.php:629-642 | definition: every staged string stays; every cap id that is not staged gets a deletion record |
| Staging.Kept | mlanglib.php:643-663 | definition: the strings rebase keeps are exactly the staged ones that pass the keep rule, unchanged |
| Staging.RebasedComponents | mlanglib.php:627-669 | definition: every staged component is rebased on the cap of its own identity |
| Staging.NonEmpty | mlanglib.php:664-667 | definition: the components left with no string are removed, the others stay |
| Staging.RebaseDecision | mlanglib.php:643-663 | a staged string is kept when its id is not in the cap, or when it removes a live string; otherwise it is dropped when it does not differ or is older than the cap; a newer different string is kept |
| Staging.RebaseTombstones | mlanglib.php:629-663 | with delete-missing, a cap id not staged ends with a deletion record exactly when the cap string is live; staged ids are decided as without it |
| Staging.RebaseOnlyRemoves | mlanglib.php:643-663 | without delete-missing, rebase only removes strings, and leaves the rest as they are |
| Staging.RebasedStringsChangeSomething | mlanglib.php:643-663 | every string kept against a cap string either removes a live one, or differs from it and is not older |
| Staging.RebaseOnEmptyCap | mlanglib.php:645-648 | against an empty cap, nothing changes |
| Staging.RebaseIdempotent | mlanglib.php:643-663 | without delete-missing, rebasing the strings of a component twice is the same as once |
| Staging.RebaseWithDeleteMissingNotIdempotent | mlanglib.php:629-663 | with delete-missing, a dropped string comes back as a deletion record on the second rebase |
| Staging.RebasedStageHasNoEmptyComponent | mlanglib.php:664-667 | after rebase no component is empty, and every one was staged before |
| Staging.RebasedStageIdempotent | mlanglib.php:623-670 | without delete-missing, rebasing the whole stage twice is the same as once |
| Staging.MetaColumns | mlanglib.php:686-698 | definition: the metadata that reaches the record is the metadata outside the columns commit sets itself |
| Staging.Record | mlanglib.php:685-698 | definition: the row commit writes for a string has the component's branch, language and name, the string's id, text, time and deletion flag, the trimmed message and the surviving metadata |
| Staging.Stage.constructor | mlanglib.php:587 | a new stage has no components |
| Staging.Stage.GetComponent | mlanglib.php:732-738 | the component of the identity, None exactly when there is none |
| Staging.Stage.HasComponent | mlanglib.php:748-755 | with no arguments, whether the stage holds any component; with a version, whether it holds that identity |
| Staging.Stage.GetComponentIdentity | mlanglib.php:732-738 | the component found has the identity asked for |
| Staging.Stage.Add | mlanglib.php:596-604 | the component's own copy is created, as a new object, when missing; its strings are added to it, and without force this fails exactly when one of them is already staged; no other component changes |
| Staging.Stage.Clear | mlanglib.php:609-614 | every component is emptied and the stage holds none |
| Staging.Stage.Rebase | mlanglib.php:623-670 | a non-boolean delete-missing fails before any change; otherwise the staged contents become the rebased stage, the surviving components are the same objects, and the ones it unstages are left empty |
| Staging.Stage.RebaseStage | mlanglib.php:627-669 | the staged contents become the rebased stage; the components kept are the same objects, and the ones it unstages are left empty |
| Staging.Stage.Commit | mlanglib.php:679-704 | unless skipped, rebases first; then appends one record per staged string, as a multiset, after the existing rows, which stay as they were; every component staged before ends with no strings, and the stage ends empty |
| Staging.Stage.WriteRecords | mlanglib.php:683-702 | the rows appended are exactly the records of every staged string |
| Staging.AddStrings | mlanglib.php:601-603 | adds every string of the source, and without force fails exactly when one of them is already there; on failure the old strings stay and every new one comes from the source |
| Staging.RebaseAll | mlanglib.php:627-669 | every component is rebased on its own cap, and exactly the non-empty ones stay staged |
| Staging.RebaseComponent | mlanglib.php:628-668 | the component's strings become those of rebasing them on its cap |
| Staging.AddTombstones | mlanglib.php:629-642 | every cap string missing from the component is added to it as a deletion record |
| Staging.DropUnchanged | mlanglib.php:643-663 | exactly the strings that fail the keep rule are unlinked |
| Staging.CommitComponent | mlanglib.php:684-701 | the rows appended are exactly the records of the component's strings |

## Left out

- File import and export are left out, because they are file I/O: `from_phpfile` reading and including the file, `filemtime` and `debugging`, `export_phpfile`, `get_phpfile_location` and `name_from_filename`. What `from_phpfile` does with the declared strings is modelled, as `Components.Component.ImportStrings`.
- The database is an in-memory log: the SQL text, `get_in_or_equal`, `get_recordset_sql` and `insert_record` are not modelled. `Staging.Record` keeps in `Row.meta` every metadata key outside the core columns, while `insert_record` drops an `id` field and any field that is not a column of the repository table. Commit is not atomic in the source, since rows are inserted one at a time, and the model does not claim it is.
- Components.Component.Key: `calculate_identifier` hashes `name#lang@code` with md5; the model keys components by the (name, language, code) tuple instead. It therefore keeps apart ("a#b", "c", v) and ("a", "b#c", v), which the source merges into one staged component, and it has no md5 collisions.
- `mlang_iterator` and PHP array order are not modelled: loops pick the next key from a set.
- Staging.Stage.Add: when it fails without force, which strings were added before the duplicate depends on PHP array order. The contract states only that the old strings stay and that every new one comes from the component.
- Staging.Stage.Commit: the order of the appended rows depends on PHP array order, so the rows are stated as a multiset.
- `mlang_persistent_stage` is an empty subclass and is not modelled.
- The `time()` default of the string constructor and of rebase's deletion time are parameters (`now`, or the caller's timestamp).
- The back-pointer from a string to its component is left out. So are `clone` and the aliasing it avoids: strings are values, so a staged string cannot share state with the original.
- Versions.ByCode: PHP compares codes with `==`, which also matches numeric strings; the model takes an integer code.
- Staging.Stage.HasComponent: with some but not all arguments missing, PHP raises a type error on the missing version; the model answers false there.
- `tests/external_api_test.php` tests the web-service layer, with branches that are not in the version table, and is not part of this model; `Gruntfile.js` is build configuration and is not part of this model.
- Syntax.Migrate: that every `$a` placeholder left in the output follows a brace is proved only for text without backslashes, `@` and `&` (`Syntax.MigrateWrapsEveryPlaceholder`). Outside it the claim is false, since the escaped-dollar marker and `&#36;` turn into dollars after the wrap: "\$a" and "&#36;a" both become a bare "$a" (`Syntax.MigrateKeepsEscapedDollar`, `Syntax.MigrateDecodesEntity`). Text with `@` is left out because it can spell the marker.
- Syntax.MigrateWrapsPlaceholder: stated for one placeholder, `$a` or `$a->prop`, after a space between plain texts. For any text, `Syntax.WrapBraced` and `Syntax.WrapOnlyAddsBraces` state only that the wrapper adds braces and leaves no `$a` outside one. They do not fix where each brace goes: "Hi {}$a->name" satisfies both. The exact place of the braces is stated only for this single-placeholder case.
- Syntax.MigrateKeepsEscapedDollar: stated for one escaped `\$a` between plain texts, not for every escaped dollar in any text.
- Syntax.MigrateDecodesEntity: stated for one `&#36;` between plain texts; that no entity survives in any text is `Syntax.MigrateDecodesEveryEntity`.

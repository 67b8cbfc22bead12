# AutoPo catalog core in Dafny

AutoPo is a desktop editor for gettext catalogs. A project is a directory of
locales, each with one `LC_MESSAGES/messages.po` catalog. The editor keeps
the discovered languages in discovery order, one catalog per language, and a
reference key list (the msgids of the first language's catalog). On top of
that state it renames a msgid in every locale, computes which languages lack
a translation of a msgid, merges the answers of a machine-translation service
into the catalogs, runs that for every key with a cancel button, and purges
obsolete entries. A small locale library wraps single catalog files and the
list of discovered locales.

This project models that core as pure Dafny functions over immutable data
and proves what the code promises about it:

- `common.dfy` (`Common`): optional values, order-preserving filtering,
  subsequences, duplicate-free sequences.
- `text.dfy` (`Text`): Python's `str.strip()` with its exact whitespace set.
- `po.dfy` (`Po`): the part of the catalog library the code uses: entries,
  lookup by msgid, in-place msgstr update, append, `list.remove`.
- `locale_file.dfy` (`LocaleFiles`): `LocaleFile.get/set/save/untranslated`.
- `locale_manager.dfy` (`LocaleManager`): `LocaleManager.get/languages`.
- `editor.dfy` (`Editor`): the editor state, `load()`, and the
  missing-language computation.
- `rename.dfy` (`Rename`): `rename_msgid`.
- `refresh.dfy` (`Refresh`): the obsolete purge of `refresh_catalog`.
- `translation.dfy` (`AutoTranslate`): `_translate` and
  `auto_translate_current` as written, and the intended merge that also
  fills empty catalogs (see Findings).
- `batch.dfy` (`Batch`): `auto_translate_all`.

The translation service is an oracle parameter: a function from the source
text and the requested languages to a failure or a list of
(language, text) pairs. The cancel button is a parameter `cancelled(i)`: what
the poll before key `i` returns. The outcome of a disk write is a parameter
of `Save`.

The model follows the code in these respects:

- The source text sent to the service is the msgid itself, not the
  reference language's msgstr.
- `load()` with no catalog found clears the languages and catalogs but
  keeps the previous reference key list.
- The rename is in memory only; nothing is saved.

Assumptions about the catalog library, whose source is not part of this
model: lookup by msgid returns one of the non-obsolete entries with that
msgid, taken here as the first, and ignores message contexts; an entry is translated when it is neither
obsolete nor fuzzy and its msgstr is non-empty; a new entry has no flags and
is not obsolete; `remove` is Python's `list.remove`; a catalog is a list, so
an empty catalog is false in a condition. Which entry a lookup returns when
several live entries share a msgid matters only for catalogs outside the
synchronised state `Editor.WellKeyed`, which renaming and translating
preserve; inside it each msgid has at most one live entry. `Editor.Load`
does not establish that state: a catalog read from disk may hold two live
entries with one msgid (for instance differing only in their message
context), and the model then reads and updates the first of them, which the library need not do.

## Model

| member | source | states |
|---|---|---|
| Common.Filter | po_localizer_editor.py:336-339 | the kept elements are exactly those satisfying the predicate, in their original order and with their original multiplicities |
| Text.Strip | po_localizer_editor.py:245 | the result is a contiguous piece of the input with whitespace-only material cut on both sides, neither end of it is whitespace, and it is empty exactly when the input is all whitespace |
| Po.FindIndex | core/localemanager.py:15 | the position found is the first live entry with the msgid; nothing is found exactly when no live entry has it |
| Po.Lookup | po_localizer_editor.py:338 | a msgstr is returned exactly when some live entry has the msgid, and it is the msgstr of the first such entry |
| Po.SetMsgstr | core/localemanager.py:19-21 | only the found entry's msgstr changes; with no entry found the catalog is unchanged |
| Po.SetMsgstrLookup | core/localemanager.py:19-21 | after the assignment the msgid reads the new text and every other msgid reads as before |
| Po.FindIndexAppend | po_localizer_editor.py:329 | an appended entry is found only by a lookup that found nothing before |
| Po.IndexOf | po_localizer_editor.py:300 | the first position holding the entry, and none exactly when the catalog does not hold it |
| Po.RemoveFirst | po_localizer_editor.py:300 | removing an entry drops its first copy and nothing else; removing an absent entry is an error |
| LocaleFiles.Get | core/localemanager.py:14-16 | returns the msgstr of the first live entry with the msgid, and nothing exactly when there is none |
| LocaleFiles.Set | core/localemanager.py:18-22 | only the found entry's msgstr changes, to the new text, every other entry is equal, and the file is marked modified; other msgids read as before; a missing msgid leaves the file untouched |
| LocaleFiles.Save | core/localemanager.py:24-27 | writes only a modified file, clears the flag after a successful write, keeps it when the write fails, and never changes the entries |
| LocaleFiles.SaveTwiceWritesOnce | core/localemanager.py:24-27 | after a successful save a second save writes nothing |
| LocaleFiles.Untranslated | core/localemanager.py:29-33 | exactly the entries that are untranslated or fuzzy, obsolete ones included, in file order with multiplicities |
| LocaleManager.IndexOfCode | core/localemanager.py:90-93 | the position of the first locale with the code, none exactly when no locale has it |
| LocaleManager.Get | core/localemanager.py:89-93 | returns the first locale with the code, and nothing exactly when no locale has it |
| LocaleManager.Languages | core/localemanager.py:95-96 | one code per locale, in discovery order |
| LocaleManager.GetAgreesWithLanguages | core/localemanager.py:89-96 | a code is found exactly when it is listed, and what is found is the locale at its first listed position |
| Editor.Discovered | po_localizer_editor.py:207-211 | one catalog per discovered name, and each name maps to the catalog of its last occurrence |
| Editor.Load | po_localizer_editor.py:199-217 | languages are the discovered names in order and name exactly the catalogs; the reference keys are the msgids of the first language's catalog; with nothing found the catalogs are empty and the old keys stay |
| Editor.DiscoveredKeepsEach | po_localizer_editor.py:207-211 | with distinct directory names every catalog is kept under its own name |
| Editor.LoadReferenceOrder | po_localizer_editor.py:215-217 | after a load the reference keys are the msgids of the first discovered catalog, in file order, and each language maps to its own catalog |
| Editor.Missing | po_localizer_editor.py:336-339 | a language is listed exactly when it has no live entry for the msgid or that entry's msgstr is blank after stripping; order and multiplicity follow the language list |
| Editor.NoneMissing | po_localizer_editor.py:340-342 | when every language has a non-blank translation nothing is missing |
| Rename.RenameIn | po_localizer_editor.py:248-251 | in one catalog only the entry found for the old key gets the new msgid; a catalog without it is unchanged |
| Rename.RenameInLookup | po_localizer_editor.py:248-251 | in a catalog with no live entry for the new key, after the rename the new key reads what the old key read, and every other key reads as before |
| Rename.RenameMsgid | po_localizer_editor.py:242-254 | no selection, an empty old key, a blank new key, an unchanged key or a key already listed changes nothing; otherwise the stripped text replaces the key at the row and in every catalog, all else unchanged |
| Rename.RenamePreservesWellKeyed | po_localizer_editor.py:246-252 | an accepted rename keeps reference keys unique and every catalog's live keys unique and listed |
| Refresh.ObsoleteEntries | po_localizer_editor.py:299 | the obsolete entries of the catalog, in order, each as often as the catalog holds it |
| Refresh.RemoveEach | po_localizer_editor.py:299-300 | removing a list of entries one by one succeeds exactly when the catalog holds each of them as often as listed, and then leaves exactly the rest |
| Refresh.PurgeObsolete | po_localizer_editor.py:298-300 | no removal of the loop fails; afterwards no entry is obsolete and every live entry remains, in order and with its multiplicity |
| Refresh.PurgeIsFilter | po_localizer_editor.py:298-300 | removing the listed obsolete entries one by one equals keeping the live entries |
| Refresh.PurgeIdempotent | po_localizer_editor.py:298-300 | purging a purged catalog changes nothing |
| AutoTranslate.AppendLookup | po_localizer_editor.py:329 | an appended entry for a msgid the catalog lacked is what the lookup finds, other msgids read as before |
| AutoTranslate.Upsert | po_localizer_editor.py:325-329 | the msgid reads the new text afterwards, other msgids read as before; an existing entry is updated in place, otherwise one new entry is appended at the end |
| AutoTranslate.UpsertTwice | po_localizer_editor.py:325-329 | a second pair for the same msgid overwrites the first: the catalog ends up as after the second alone |
| AutoTranslate.UpsertAll | po_localizer_editor.py:322-329 | several texts for one catalog leave it as after the last text alone: the found entry updated in place or one entry appended, nothing else changed, other msgids untouched |
| AutoTranslate.TextsFor | po_localizer_editor.py:322-323 | every text listed is one the answer gives for the language, and none is listed exactly when the answer does not name it |
| AutoTranslate.TextsForIsFilter | po_localizer_editor.py:322-323 | the texts are those of exactly the answer's pairs for the language, one per pair, in answer order |
| AutoTranslate.ApplyOne | po_localizer_editor.py:323-329 | one answered pair changes only its own language's catalog, and only if that language has a catalog |
| AutoTranslate.Merge | po_localizer_editor.py:322-329 | each catalog receives, in order, all texts the answer gives for its language, including empty catalogs; languages and keys are unchanged |
| AutoTranslate.MergeFillsNamedCatalogs | po_localizer_editor.py:322-329 | a named language with a catalog reads the last text given for it; an unnamed one is unchanged; other msgids read as before |
| AutoTranslate.ApplyOneAsWritten | po_localizer_editor.py:323-324 | the guard as written: a pair for a language whose catalog is empty is ignored |
| AutoTranslate.MergeAsWritten | po_localizer_editor.py:322-329 | as written: empty catalogs stay empty, non-empty ones behave as in the intended merge |
| AutoTranslate.EmptyCatalogDropsTranslation | po_localizer_editor.py:324 | when the last text an answer gives for a language with an empty catalog is not blank, that language still lacks the msgid as written but not after the intended merge |
| AutoTranslate.Translate | po_localizer_editor.py:314-329 | an empty language list asks nothing and changes nothing; a failed request changes nothing and is reported with its message; an answer leaves empty catalogs empty and gives every other catalog the texts for its language in order; only the msgid changes |
| AutoTranslate.TranslateMissing | po_localizer_editor.py:336-343 | a msgid no language lacks is skipped without asking; otherwise the service is asked for exactly the missing languages, a failure changes nothing and is reported, and an answer is merged as written; other msgids read as before |
| AutoTranslate.TranslateCurrent | po_localizer_editor.py:331-343 | no selection does nothing; for the selected key, nothing missing means no request, a failure changes nothing and is reported, an answer fills the non-empty catalogs, and every other key reads as before |
| AutoTranslate.TranslateIntended | po_localizer_editor.py:322-343 | the intended step: as the missing-language step, but an answer gives every catalog, empty ones included, the texts for its language |
| AutoTranslate.LacksAfterMerge | po_localizer_editor.py:322-339 | after the intended merge a language lacks the msgid exactly when the last text given for it is blank, or, when none is given, exactly when it lacked it before |
| AutoTranslate.CoveringAnswerLeavesNothingMissing | po_localizer_editor.py:336-343 | after the intended merge, an answer naming every missing language with no blank text leaves nothing missing |
| AutoTranslate.CoveringAnswerAsWritten | po_localizer_editor.py:322-343 | the same for the merge as written when no missing language has an empty catalog |
| AutoTranslate.RetranslateIsNoOp | po_localizer_editor.py:336-343 | when no missing language has an empty catalog, after a covering answer a second attempt asks nothing and changes nothing, whatever the service would say |
| AutoTranslate.RetranslateIntendedIsNoOp | po_localizer_editor.py:336-343 | with the intended step the same holds for every catalog, empty ones included |
| Batch.RunKeys | po_localizer_editor.py:352-360 | the run over a key list keeps languages, keys and catalog names, with one report per key |
| Batch.TranslateAll | po_localizer_editor.py:347-360 | the keys processed are exactly those before the first cancelling poll, and the result is the run over them |
| Batch.ProcessKey | po_localizer_editor.py:355-360 | one loop iteration extends the run over the earlier keys by the next key |
| Batch.RunKeysSnoc | po_localizer_editor.py:352-360 | one more key is one more missing-language step on the project left by the earlier keys |
| Batch.RunKeysExtends | po_localizer_editor.py:352-354 | the reports of a shorter run are a prefix of those of a longer one: cancelling keeps earlier results |
| Batch.RunKeysLeavesOtherKeys | po_localizer_editor.py:352-360 | a key not in the run reads as before in every catalog |
| Batch.UnreachedKeysUntouched | po_localizer_editor.py:352-354 | with distinct keys, every key from the cancellation point on reads as before in every catalog |
| Batch.FailureIsolated | po_localizer_editor.py:317-321 | a failed request for a key changes nothing, is reported, and later keys run on the project the earlier keys left |
| Batch.RunKeysOnTranslatedIsNoOp | po_localizer_editor.py:355-359 | a run over fully translated keys changes nothing and reports every key as skipped |
| Batch.RunKeysPreservesWellKeyed | po_localizer_editor.py:352-360 | a run over reference keys keeps reference keys unique and every catalog's live keys unique and listed |
| Batch.TranslateMissingPreservesWellKeyed | po_localizer_editor.py:336-343 | one missing-language step keeps catalog keys unique and listed |
| Batch.UpsertAllKeepsKeys | po_localizer_editor.py:322-329 | merging texts for a reference key keeps a catalog's live keys unique and listed |
| Batch.UpsertKeepsKeys | po_localizer_editor.py:325-329 | updating or appending a reference key keeps a catalog's live keys unique and listed |

## Left out

- The Qt window, dialogs, status messages, the key list widget and the translation table: user interface.
- `show_trans` and `_write_to_po`: they copy between the table widget and the catalogs, which is user interface state.
- `save_all`: it copies the table of the current key into the catalogs (user interface state, see `_write_to_po`) and then calls the catalog library's own save on every catalog, a file write; `LocaleFiles.Save` models `LocaleFile.save`, which the editor does not call.
- `compile_catalog`: it runs external tools.
- The `pybabel` and `msgattrib` subprocesses of `refresh_catalog`: external programs; only the branch without `msgattrib` (the in-process purge) is modelled.
- The branch of `load()` for a missing or unset directory: it shows a warning and changes nothing, and whether a directory exists is file-system state.
- Reading and writing `.po` files and walking directories: file-system I/O; discovered catalogs are given to `Editor.Load` in discovery order.
- `lang_display`, `LocaleEntry.language` and `LocaleEntry.country`: display names from a language-data library.
- The translation service client and its configuration: network I/O, replaced by the oracle parameter.
- AutoTranslate.Translate and Batch.TranslateAll: an answer without a parsed body is not modelled. The client returns the parsed field of the reply, which may be absent (core/translator.py:32), and `_translate` reads its translations outside the `try` (po_localizer_editor.py:322), so the error escapes `_translate`, ends `auto_translate_current` and stops the `auto_translate_all` loop instead of moving to the next key; the oracle here always returns a failure or a list of pairs, and `Batch.FailureIsolated` covers only failures raised by the request itself.
- Message contexts, plural forms and comments of catalog entries: the code never uses them.
- The progress bar widget: user interface; `Batch.TranslateAll` returns the number of keys processed, which is what the bar was last given, if anything.
- Rename.RenameMsgid: requires the selected row to be below the number of keys, because the window only reports a valid row or none.
- AutoTranslate.RetranslateIsNoOp: requires that no missing language has an empty catalog, because as written such a language never receives its translation and is asked for again on every run (see Findings); `AutoTranslate.RetranslateIntendedIsNoOp` states the unconditional property of the intended step.
- Rename.RenameInLookup: requires that the catalog has no live entry for the new key. The guard of `rename_msgid` checks only the reference key list, so a catalog holding a key the reference catalog lacks accepts a rename onto it; it then has two live entries for the new key, and the lookup finds the earlier one, which can hide the renamed translation. `Rename.RenamePreservesWellKeyed` rules this out only for the synchronised state.
- Batch.UnreachedKeysUntouched: requires distinct reference keys, because a later duplicate of a processed key is rewritten with it.

## Findings

| source | as written | input that shows it | evidently intended | confidence | as-written member | corrected member |
|---|---|---|---|---|---|---|
| po_localizer_editor.py:324 | `if po:` tests the catalog's truth value; a catalog is a list, so a language whose catalog has no entries is skipped like one without a catalog | languages `en`, `fr`; `fr` catalog empty; answer `[("fr", "Bonjour")]` for msgid `Hello`: `fr` still lacks `Hello` afterwards and is asked again on every run | skip only languages with no catalog (`if po is not None:`) | medium; not executed | AutoTranslate.MergeAsWritten, AutoTranslate.EmptyCatalogDropsTranslation | AutoTranslate.Merge, AutoTranslate.MergeFillsNamedCatalogs, AutoTranslate.LacksAfterMerge, AutoTranslate.CoveringAnswerLeavesNothingMissing, AutoTranslate.TranslateIntended, AutoTranslate.RetranslateIntendedIsNoOp |

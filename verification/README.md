# happix string catalog — a Dafny model

This project models the string-level catalog of the Transifex `happix` application
(`transifex/happix/models.py`). It covers these parts:

- the `SourceEntity` and `Translation` tables, with their unique-together constraints;
- `Resource.merge_stringset`, which merges a parsed file into those tables inside one
  manually managed transaction;
- the read side of `Resource`: translated and untranslated entities, their counts, the
  integer percentages and the word count;
- `Translation.wordcount`;
- `StorageFile`: its storage path, `translatable` and `update_props`.

Layout:

- `wrappers.dfy`: `Option`.
- `words.dfy`: `Translation.wordcount`, which is `len(string.split(None))`. Whitespace
  follows Python 2.7's `unicode.isspace`.
- `schema.dfy`: the rows, their keys, the `get_or_create` filters, and the database
  constraints (`Valid`). A row's id is its index in its table.
- `merge_engine.dfy`: `merge_stringset` as functions over the tables. `Step` is one loop
  iteration (two `get_or_create` calls, then the overwrite branch). `Run` is the loop,
  which stops at the first exception. `Merge` adds the commit or the rollback.
  Two variants exist:
  - `AsWritten` is the code as it stands.
  - `Intended` is the code as evidently meant (see Findings). Only the lemmas that name
    it use it.
- `stats.dfy`: `translated_strings` … `untrans_percent`, and `Resource.wordcount`.
- `happix.dfy`: class `Catalog`. It holds the two tables as fields. `MergeStringset` is
  the imperative loop with a saved snapshot, restored on an exception. `Wordcount` is the
  summing loop.
- `storage.dfy`: `StorageFile`, the path layout, the first-match parser choice and
  `UpdateProps`.

The code disagrees with its evident intent in three places. The model follows the code:

- The overwrite branch of `merge_stringset` reads `ts`, which is never bound. Every entry
  that meets an existing translation with overwrite on raises `NameError`, and the whole
  merge rolls back with (0, 0). The `strings_updated += 1` and the comparison with
  `j.translation` (models.py:288-292) show that a counted, in-place update was meant.
- The translation lookup filters by (source entity, language, resource, number) only,
  without the text, although the unique constraint includes the text. Several rows can
  therefore share a slot, and a lookup that meets several raises
  `MultipleObjectsReturned`.
- Even the intended branch never saves the modified row. `Intended` models the update
  as persisted.

## Model

| member | source | states |
|---|---|---|
| Words.TokensFrom | transifex/happix/models.py:451-457 | every token of `split(None)` is non-empty and holds no whitespace |
| Words.WordCountIsRunCount | transifex/happix/models.py:451-457 | the word count equals the number of maximal non-whitespace runs, so a run of several blanks separates words like one blank |
| Words.WordCount | transifex/happix/models.py:451-457 | `len(self.string.split(None))`: 0 exactly when the text is empty or all whitespace |
| Schema.EntityMatchesSpec | transifex/happix/models.py:265-273 | the entity lookup finds exactly the rows with the (string, context, resource, number) key, each once, in id order, and finds none exactly when no row has the key |
| Schema.TranslationMatchesSpec | transifex/happix/models.py:274-283 | the translation lookup finds exactly the rows in the (source entity, language, resource, number) slot, each once, in id order |
| Schema.UniqueKeysMatchAtMostOnce | transifex/happix/models.py:360-361 | under the entity unique-together constraint a key matches at most one row, so the entity `get_or_create` never raises |
| Schema.InsertKeepsEntityKeysUnique | transifex/happix/models.py:360-361 | inserting an entity whose key is absent keeps the entity keys unique |
| Schema.InsertKeepsTranslationKeysUnique | transifex/happix/models.py:440-442 | inserting a translation into an empty slot keeps the translation constraint |
| Schema.UpdateKeepsTranslationKeysUnique | transifex/happix/models.py:440-442 | rewriting the text of the only row in its slot keeps the translation constraint |
| MergeEngine.NormalizeContext | transifex/happix/models.py:267 | `j.context or "None"`: the stored context is never empty; it is "None" exactly for an absent, empty or literal "None" context; any other context is kept |
| MergeEngine.NewEntity | transifex/happix/models.py:265-273 | a created entity carries the looked-up key and position 1 |
| MergeEngine.GetOrCreateEntity | transifex/happix/models.py:265-273 | the entity `get_or_create` raises exactly when the key matches several rows; otherwise the returned id names a row with the key, and at most one row was added |
| MergeEngine.GetOrCreateEntitySpec | transifex/happix/models.py:265-273 | raises exactly when the key matches several rows; otherwise keeps every row, appends the new entity only when nothing matched, and leaves the key matching exactly the returned id |
| MergeEngine.NewTranslation | transifex/happix/models.py:274-283 | a created translation is in the looked-up slot with the entry's text and the user |
| MergeEngine.ResolveTranslation | transifex/happix/models.py:274-292 | the translation `get_or_create` and overwrite branch: the unbound `ts` is raised only as written with overwrite on; an update happens only in the intended variant with overwrite on; never both a creation and an update; the table grows by one row exactly on a creation |
| MergeEngine.ResolveTranslationSpec | transifex/happix/models.py:274-292 | raises exactly on several rows in the slot or, as written, on one row with overwrite on; a creation appends one row with the entry's text and user; only the intended variant rewrites a text, and only when it differs; afterwards the slot holds exactly one row |
| MergeEngine.Step | transifex/happix/models.py:263-292 | one iteration creates or updates at most one translation, grows the translations by one row exactly on a creation and the entities by at most one, and raises the unbound `ts` only as written with overwrite on |
| MergeEngine.Run | transifex/happix/models.py:260-292 | the completed loop counts at most one creation or update per entry, has grown the translations by exactly `strings_added` rows and the entities by at most one per entry, and as written counts no update; the unbound `ts` is only raised as written with overwrite on |
| MergeEngine.Merge | transifex/happix/models.py:258-298 | as written: a commit returns at most one creation per entry and never an update, the translations growing by `strings_added`; a `NameError` rollback needs `overwrite_translations` on |
| MergeEngine.MergeIntended | transifex/happix/models.py:258-298 | as intended: only `MultipleObjectsReturned` rolls back, and a commit counts at most one creation or update per entry |
| MergeEngine.RunStepRaises | transifex/happix/models.py:260-295 | an exception in an entry's iteration ends the loop aborted |
| MergeEngine.RunStepApplies | transifex/happix/models.py:263-292 | a completed iteration moves the loop to its tables and adds one to `strings_added` exactly on a creation (and, intended, to `strings_updated` on a rewrite) |
| MergeEngine.AbortPersists | transifex/happix/models.py:260-295 | once an exception is raised, the remaining entries change nothing |
| MergeEngine.StepAsWritten | transifex/happix/models.py:263-292 | a completed iteration only appends rows, never counts an update, always creates with overwrite on, and a created row is the entry's translation under its entity |
| MergeEngine.StepLooksUpBySlot | transifex/happix/models.py:274-283 | the translation text plays no part in the lookup: entries differing only in text raise alike, create alike and leave the same entities |
| MergeEngine.RunAsWritten | transifex/happix/models.py:258-298 | a completed loop keeps every earlier row, counts no update, adds at most one translation per entry and exactly `strings_added` rows, and with overwrite on one per entry |
| MergeEngine.RunCreatesFromEntries | transifex/happix/models.py:274-286 | every row the loop inserts is the translation of some entry, in the target language, resource and user, under that entry's entity |
| MergeEngine.MergeCounts | transifex/happix/models.py:258-298 | on commit the returned counts are (rows inserted, 0), at most the number of entries, and every earlier row is kept |
| MergeEngine.OverwriteCommitsOnlyNewTranslations | transifex/happix/models.py:285-292 | with overwrite on, a commit means every entry created a translation: `strings_added` equals the entry count |
| MergeEngine.MergeCreatesFromEntries | transifex/happix/models.py:274-286 | every translation a committed merge adds comes from an entry of the stringset |
| MergeEngine.StepFreshKey | transifex/happix/models.py:263-286 | in a valid catalog, an entry whose key is in no row creates its entity and then, its slot being empty, its translation |
| MergeEngine.RunFreshKeys | transifex/happix/models.py:260-292 | entries with pairwise distinct keys absent from a valid catalog complete the loop with one creation each and no update, appending their entities in entry order |
| MergeEngine.MergeFreshKeys | transifex/happix/models.py:258-298 | k entries with pairwise distinct keys absent from a valid catalog commit with (k, 0) and add k entities and k translations, whatever `overwrite_translations` is |
| MergeEngine.MergeAppendsInLanguage | transifex/happix/models.py:274-283 | a committed merge appends translations in the target language only, after unchanged old rows |
| MergeEngine.GetOrCreateKeepsEntityKeysUnique | transifex/happix/models.py:265-273 | the entity lookup-or-create keeps the entity unique-together constraint |
| MergeEngine.ResolveKeepsTranslationKeysUnique | transifex/happix/models.py:274-292 | the translation lookup-or-create (and the intended rewrite) keeps the translation constraint |
| MergeEngine.ResolveKeepsReferences | transifex/happix/models.py:274-283 | every stored translation references an existing source entity afterwards |
| MergeEngine.StepPreservesValid | transifex/happix/models.py:263-292 | one iteration, in either variant, keeps both constraints and the foreign keys |
| MergeEngine.RunPreservesValid | transifex/happix/models.py:263-292 | the whole loop keeps both constraints and the foreign keys |
| MergeEngine.MergePreservesValid | transifex/happix/models.py:258-298 | a committed merge leaves a valid catalog |
| MergeEngine.StoredTranslation | transifex/happix/models.py:274-283 | the row an entry resolves to is stored, in the slot of the entity its key names, the target language, the resource and the entry's number |
| MergeEngine.StepResolves | transifex/happix/models.py:263-283 | after an entry's iteration its key names exactly one entity with exactly one translation in the slot |
| MergeEngine.StepKeepsResolved | transifex/happix/models.py:263-292 | later iterations keep earlier entries resolved and their texts unchanged, except that the intended overwrite of the same key stores the new text |
| MergeEngine.RunResolves | transifex/happix/models.py:263-292 | after a completed loop every entry is resolved |
| MergeEngine.MergeResolvesEntries | transifex/happix/models.py:258-298 | after a commit every entry's key names exactly one entity with exactly one translation in the target language |
| MergeEngine.ResolvedRunIsNoOp | transifex/happix/models.py:263-292 | with overwrite off, entries that are all resolved change nothing and count nothing |
| MergeEngine.MergeIdempotent | transifex/happix/models.py:258-298 | with overwrite off, merging the same stringset again returns (0, 0) and leaves the catalog as it was |
| MergeEngine.RepeatWithOverwriteRollsBack | transifex/happix/models.py:285-295 | with overwrite on, merging a committed non-empty stringset again always rolls back on the unbound `ts` |
| MergeEngine.RunIntendedStoresTexts | transifex/happix/models.py:285-292 | intended, overwrite on: after the loop each key stores the text of its last entry in the file |
| MergeEngine.StepStoresText | transifex/happix/models.py:285-292 | intended, overwrite on: the entry's slot holds the entry's text after its iteration |
| MergeEngine.FirstMergeCreates | transifex/happix/models.py:258-298 | "Hello" translated "Bonjour" into an empty catalog commits with (1, 0) and one entity and one translation |
| MergeEngine.SecondMergeAbortsAsWritten | transifex/happix/models.py:288-295 | as written, merging "Salut" for the same string with overwrite on rolls back |
| MergeEngine.SecondMergeUpdatesIntended | transifex/happix/models.py:288-292 | intended, the same merge commits (0, 1) and the stored text becomes "Salut" |
| Stats.TranslatedStrings | transifex/happix/models.py:188-197 | `translated_strings` is a subset of the resource's entities |
| Stats.UntranslatedStrings | transifex/happix/models.py:199-209 | `untranslated_strings` is a subset of the resource's entities, disjoint from `translated_strings` |
| Stats.NumTranslated | transifex/happix/models.py:211-215 | `num_translated` is at most `total_entities` |
| Stats.NumUntranslated | transifex/happix/models.py:217-221 | `num_untranslated` is at most `total_entities` |
| Stats.TotalEntities | transifex/happix/models.py:223-227 | `total_entities` is 0 exactly when no source entity belongs to the resource |
| Stats.TranslatedMeans | transifex/happix/models.py:188-197 | an entity is translated exactly when it belongs to the resource and some translation of the resource in the language references it |
| Stats.TranslatedPartition | transifex/happix/models.py:188-221 | translated and untranslated entities are disjoint and together form the resource's entities, so the counts sum to `total_entities` |
| Stats.TransPercent | transifex/happix/models.py:239-245 | the floor of translated/total in percent, between 0 and 100, and 100 for a resource with no entities |
| Stats.UntransPercent | transifex/happix/models.py:247-250 | `untrans_percent + trans_percent == 100`; between 0 and 100, 0 when the resource is empty, and the untranslated share rounded up |
| Stats.SourceWordcount | transifex/happix/models.py:136-149 | `Resource.wordcount` recomputed: translations of other resources or languages and blank ones add nothing, so without a source-language text that has a word the count is 0 |
| Stats.SourceWordcountIncludes | transifex/happix/models.py:136-149 | every translation of the resource in its source language has all its words in the count |
| Stats.SourceWordcountConcat | transifex/happix/models.py:136-149 | the word count of two lists of translations is the sum of their word counts |
| Stats.SourceWordcountAppendOther | transifex/happix/models.py:136-149 | appending translations of other languages leaves the word count unchanged |
| Stats.MergedEntriesAreTranslated | transifex/happix/models.py:258-298 | after a commit every entry's entity is among the translated strings of the target language |
| Stats.MergeKeepsTranslated | transifex/happix/models.py:258-298 | a committed merge never makes a translated entity untranslated, in any language |
| Stats.MergeKeepsSourceWordcount | transifex/happix/models.py:136-149 | merging a file in another language than the source leaves the resource's word count unchanged |
| Happix.Catalog.constructor | transifex/happix/models.py:304-442 | an empty catalog is valid |
| Happix.Catalog.MergeStringset | transifex/happix/models.py:258-298 | the loop in place: on commit the tables and counts are the merge's; on an exception the tables are restored and (0, 0) returned; a valid catalog stays valid; `strings_updated` is always 0 |
| Happix.Catalog.Wordcount | transifex/happix/models.py:136-149 | the summing loop returns the words of the resource's source-language translations |
| Storage.StoragePath | transifex/happix/models.py:550-551 | the path is "/tmp/", the uuid, "-", the name, in that layout |
| Storage.StoragePathInjective | transifex/happix/models.py:550-551 | for uuids of one length, two files share a path exactly when they share uuid and name |
| Storage.StoragePathAmbiguous | transifex/happix/models.py:550-551 | uuid "a-b" with name "c" and uuid "a" with name "b-c" both map to "/tmp/a-b-c", since `uuid` is free text |
| Storage.Translatable | transifex/happix/models.py:553-557 | `total_strings > 0` under Python 2: a missing count (None) is not translatable; a count is translatable exactly when it is at least 1 |
| Storage.FirstAccepting | transifex/happix/models.py:563-567 | the chosen parser accepts the name and no earlier one does; none is chosen exactly when no parser accepts |
| Storage.StorageFile.constructor | transifex/happix/models.py:514-557 | a new file has no language and no string count, and is not translatable |
| Storage.StorageFile.UpdateProps | transifex/happix/models.py:559-585 | no accepting parser: nothing changes; else the MIME type is the first accepting parser's; an empty parse stops there; otherwise the count is the number of strings (translatable exactly when there are some) and a declared language that the lookup finds replaces the language |

## Left out

- The Django ORM is not modelled. Tables are sequences, ids are indices and ids are never reused. Querysets, ordering options and `order_with_respect_to` are left out.
- Concurrency is not modelled: `get_or_create` races, transaction isolation and database errors such as `IntegrityError` or the 255-character limit on `string`. The bare `except` is modelled only for the two exceptions the modelled code raises.
- Lookups compare strings exactly. Under a case-insensitive database collation the source's `get_or_create` would match keys and slots that the model keeps apart.
- `transaction.commit_manually` is modelled as a snapshot of the two tables that is restored on rollback.
- `translated_strings`, `untranslated_strings` and the percentages take a language id. The `Language.objects.by_code_or_alias` call they start with is not part of this model.
- `Resource.wordcount`: the process-wide cache is left out (a cache hit returns the cached value); only the recomputing path is modelled. `source_strings` is folded into it.
- `merge_translation_file` is not modelled separately. It looks up `PARSER_MAPPING`, parses the file and calls `merge_stringset` with overwrite on, the default, which `Merge` with `overwrite` set covers. A file language of `None` is not modelled, because target languages are ids.
- The parsers, their `parse_file` reading from disk, the `PARSERS` registry and `by_code_or_alias` are parameters of `UpdateProps`. A parse result of `None` stands for a false stringset; the parser's stringset class is not part of this model.
- `last_committer`, `last_translation`, `available_languages`, `total_source_strings`, `get_absolute_url`, `reset`, `ResourceGroup`, `SearchStringManager` and `TranslationSuggestion` are outside the merge-and-statistics core.
- Columns that no modelled operation reads are left out: occurrences, flags, developer comment, singular, timestamps, size, bound and owner.
- `projects/handlers/types/intltool.py` (`set_stats`) is not part of this model.
- The intended variant stores the rewritten text directly. The source has no `save()` call in that branch, even on `tr`.

## Findings

| source | as written | input that shows it | evidently intended | confidence | as-written member | corrected member |
|---|---|---|---|---|---|---|
| transifex/happix/models.py:288-292 | the overwrite branch reads `ts.string`, but the loop binds `tr`; `ts` is unbound, so `NameError` is raised and the whole merge rolls back with (0, 0) | merge "Hello"→"Bonjour" into an empty catalog, then merge "Hello"→"Salut" with `overwrite_translations` on | compare and rewrite `tr.string`, save it, count one update | high; not executed | MergeEngine.SecondMergeAbortsAsWritten | MergeEngine.SecondMergeUpdatesIntended |

/**
 * The resource catalog as the database holds it: the source-entity table and
 * the translation table, both updated in place by `Resource.merge_stringset`
 * inside one manually managed transaction.
 */
module Happix {
  import opened Wrappers
  import opened Schema
  import opened MergeEngine
  import opened Words
  import opened Stats

  class Catalog {
    var entities: seq<SourceEntity>
    var translations: seq<Translation>

    /** The two tables as one value, the state the merge functions work on. */
    function Snapshot(): Tables
      reads this
    {
      Tables(entities, translations)
    }

    /** The database's unique constraints and foreign keys hold. */
    ghost predicate Valid()
      reads this
    {
      Schema.Valid(Snapshot())
    }

    /** An empty database. */
    constructor ()
      ensures Snapshot() == Tables([], [])
      ensures Valid()
    {
      entities := [];
      translations := [];
    }

    /**
     * `Resource.merge_stringset` as written: one get_or_create of the entity and
     * one of the translation per entry, in file order. The first exception rolls
     * the transaction back and the method returns (0, 0); otherwise it commits
     * and returns the creation and update counts.
     */
    method MergeStringset(resource: ResourceId, stringset: StringSet, targetLanguage: LanguageId,
                          user: Option<UserId>, overwriteTranslations: bool)
      returns (stringsAdded: nat, stringsUpdated: nat)
      modifies this
      ensures var o := Merge(old(Snapshot()), Params(resource, targetLanguage, user, overwriteTranslations),
                             stringset.strings);
        && (o.Committed? ==> Snapshot() == o.tables && stringsAdded == o.added && stringsUpdated == o.updated)
        && (o.RolledBack? ==> Snapshot() == old(Snapshot()) && stringsAdded == 0 && stringsUpdated == 0)
      ensures old(Valid()) ==> Valid()
      ensures stringsUpdated == 0
    {
      var saved := Snapshot();
      var p := Params(resource, targetLanguage, user, overwriteTranslations);
      var strings := stringset.strings;
      stringsAdded, stringsUpdated := 0, 0;
      var i := 0;
      while i < |strings|
        invariant 0 <= i <= |strings|
        invariant Run(AsWritten, saved, p, strings[..i]) == Running(Snapshot(), stringsAdded, stringsUpdated)
      {
        var e := strings[i];
        ghost var before := Snapshot();
        var err: MergeError;
        match GetOrCreateEntity(entities, EntryKey(e, resource)) {
          case None =>
            err := MultipleObjectsReturned;
          case Some((es, se)) =>
            entities := es;
            match ResolveTranslation(AsWritten, translations, Slot(se, targetLanguage, resource, e.number),
                                     e.translation, user, overwriteTranslations) {
              case Threw(x) =>
                err := x;
              case Put(ts, created, changed) =>
                RunStepApplies(AsWritten, saved, p, strings, i, before, stringsAdded, stringsUpdated,
                               Tables(es, ts), created, changed);
                translations := ts;
                stringsAdded := stringsAdded + (if created then 1 else 0);
                stringsUpdated := stringsUpdated + (if changed then 1 else 0);
                assert Snapshot() == Tables(es, ts);
                i := i + 1;
                continue;
            }
        }
        // The exception leaves the loop: roll the transaction back.
        RunStepRaises(AsWritten, saved, p, strings, i, before, stringsAdded, stringsUpdated, err);
        AbortPersists(AsWritten, saved, p, strings, i + 1);
        entities, translations := saved.entities, saved.translations;
        stringsAdded, stringsUpdated := 0, 0;
        return;
      }
      assert strings[..i] == strings;
      MergeCounts(saved, p, strings);
      if old(Valid()) {
        MergePreservesValid(saved, p, strings);
      }
    }

    /**
     * `Resource.wordcount` on a cache miss: the words of the resource's
     * translations in its source language, summed one translation at a time.
     */
    method Wordcount(resource: ResourceId, sourceLanguage: LanguageId) returns (wc: nat)
      ensures wc == SourceWordcount(translations, resource, sourceLanguage)
    {
      wc := 0;
      var k := 0;
      while k < |translations|
        invariant 0 <= k <= |translations|
        invariant wc == SourceWordcount(translations[..k], resource, sourceLanguage)
      {
        var tr := translations[k];
        assert translations[..k + 1][..k] == translations[..k];
        if tr.resource == resource && tr.language == sourceLanguage {
          wc := wc + WordCount(tr.text);
        }
        k := k + 1;
      }
      assert translations[..k] == translations;
    }
  }
}

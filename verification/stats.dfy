/**
 * The read side of `Resource` (transifex/happix/models.py:136-149, 188-256):
 * translated and untranslated entities per language, their counts, the integer
 * percentages, and the word count of the source-language translations.
 */
module Stats {
  import opened Schema
  import opened Words
  import opened MergeEngine

  /** `SourceEntity.objects.filter(resource=self)`, as a set of entity ids. */
  function ResourceEntities(t: Tables, resource: ResourceId): set<nat> {
    set i | 0 <= i < |t.entities| && t.entities[i].resource == resource
  }

  /**
   * `Translation.objects.filter(language=..., resource=self).values_list('source_entity')`:
   * the entities that have at least one translation in the language.
   */
  function TranslatedIds(ts: seq<Translation>, resource: ResourceId, language: LanguageId): set<nat> {
    set k | 0 <= k < |ts| && ts[k].language == language && ts[k].resource == resource :: ts[k].sourceEntity
  }

  /** `translated_strings`: the resource's entities with a translation in the language. */
  function TranslatedStrings(t: Tables, resource: ResourceId, language: LanguageId): (r: set<nat>)
    ensures r <= ResourceEntities(t, resource)
  {
    ResourceEntities(t, resource) * TranslatedIds(t.translations, resource, language)
  }

  /** `untranslated_strings`: the resource's entities with no translation in the language. */
  function UntranslatedStrings(t: Tables, resource: ResourceId, language: LanguageId): (r: set<nat>)
    ensures r <= ResourceEntities(t, resource)
    ensures r !! TranslatedStrings(t, resource, language)
  {
    ResourceEntities(t, resource) - TranslatedIds(t.translations, resource, language)
  }

  /** `num_translated`: never more than the resource's entities. */
  function NumTranslated(t: Tables, resource: ResourceId, language: LanguageId): (n: nat)
    ensures n <= TotalEntities(t, resource)
  {
    var a, b := TranslatedStrings(t, resource, language), UntranslatedStrings(t, resource, language);
    assert a + b == ResourceEntities(t, resource);
    assert |a + b| == |a| + |b|;
    |a|
  }

  /** `num_untranslated`: never more than the resource's entities. */
  function NumUntranslated(t: Tables, resource: ResourceId, language: LanguageId): (n: nat)
    ensures n <= TotalEntities(t, resource)
  {
    var a, b := TranslatedStrings(t, resource, language), UntranslatedStrings(t, resource, language);
    assert a + b == ResourceEntities(t, resource);
    assert |a + b| == |a| + |b|;
    |b|
  }

  /** `total_entities`: 0 exactly when no entity belongs to the resource. */
  function TotalEntities(t: Tables, resource: ResourceId): (n: nat)
    ensures n == 0 <==> forall i :: 0 <= i < |t.entities| ==> t.entities[i].resource != resource
  {
    var r := ResourceEntities(t, resource);
    assert forall i :: 0 <= i < |t.entities| && t.entities[i].resource == resource ==> i in r;
    |r|
  }

  /** An entity is translated exactly when it belongs to the resource and some row translates it. */
  lemma TranslatedMeans(t: Tables, resource: ResourceId, language: LanguageId, i: nat)
    ensures i in TranslatedStrings(t, resource, language) <==>
      && i < |t.entities| && t.entities[i].resource == resource
      && exists k :: 0 <= k < |t.translations| && t.translations[k].sourceEntity == i
                     && t.translations[k].language == language && t.translations[k].resource == resource
  {
    if i in TranslatedIds(t.translations, resource, language) {
      var k :| 0 <= k < |t.translations| && t.translations[k].language == language
               && t.translations[k].resource == resource && t.translations[k].sourceEntity == i;
    }
  }

  /**
   * The translated and untranslated entities partition the resource's entities,
   * so `num_translated + num_untranslated == total_entities`.
   */
  lemma TranslatedPartition(t: Tables, resource: ResourceId, language: LanguageId)
    ensures TranslatedStrings(t, resource, language) !! UntranslatedStrings(t, resource, language)
    ensures TranslatedStrings(t, resource, language) + UntranslatedStrings(t, resource, language)
         == ResourceEntities(t, resource)
    ensures NumTranslated(t, resource, language) + NumUntranslated(t, resource, language)
         == TotalEntities(t, resource)
  {
    var a, b := TranslatedStrings(t, resource, language), UntranslatedStrings(t, resource, language);
    assert a + b == ResourceEntities(t, resource);
    assert |a + b| == |a| + |b|;
  }

  /**
   * `trans_percent`: the translated share, floor-divided (Python 2 integer `/`),
   * and 100 when the resource has no entities (the ZeroDivisionError branch).
   */
  function TransPercent(t: Tables, resource: ResourceId, language: LanguageId): (pct: nat)
    ensures pct <= 100
    ensures TotalEntities(t, resource) == 0 ==> pct == 100
    ensures var total, n := TotalEntities(t, resource), NumTranslated(t, resource, language);
      total > 0 ==> pct * total <= n * 100 < pct * total + total
  {
    TranslatedPartition(t, resource, language);
    FloorPercent(NumTranslated(t, resource, language), TotalEntities(t, resource))
  }

  /** `n * 100 / total`, or 100 when total is 0. */
  function FloorPercent(n: nat, total: nat): (pct: nat)
    requires n <= total
    ensures pct <= 100
    ensures total == 0 ==> pct == 100
    ensures total > 0 ==> pct * total <= n * 100 < pct * total + total
  {
    if total == 0 then 100
    else
      DivBounds(n * 100, total);
      QuotientAtMost(n * 100, total, 100);
      n * 100 / total
  }

  lemma DivBounds(x: nat, d: nat)
    requires d > 0
    ensures (x / d) * d <= x < (x / d) * d + d
  {
    assert x == (x / d) * d + x % d;
  }

  lemma QuotientAtMost(x: nat, d: nat, m: nat)
    requires d > 0 && x <= m * d
    ensures x / d <= m
  {
    DivBounds(x, d);
    var q := x / d;
    assert (q - m) * d == q * d - m * d <= 0;
  }

  /**
   * `untrans_percent = 100 - trans_percent`, which is the untranslated share
   * rounded UP: truncating the translated share moves the lost fraction here.
   */
  function UntransPercent(t: Tables, resource: ResourceId, language: LanguageId): (pct: int)
    ensures 0 <= pct <= 100
    ensures pct + TransPercent(t, resource, language) == 100
    ensures TotalEntities(t, resource) == 0 ==> pct == 0
    ensures var total, u := TotalEntities(t, resource), NumUntranslated(t, resource, language);
      total > 0 ==> pct * total - total < u * 100 <= pct * total
  {
    TranslatedPartition(t, resource, language);
    var q := TransPercent(t, resource, language);
    if TotalEntities(t, resource) == 0 then 100 - q
    else
      CeilingComplement(NumTranslated(t, resource, language), NumUntranslated(t, resource, language),
                        TotalEntities(t, resource), q);
      100 - q
  }

  /** If q is the floor of the share n/total in percent, 100 - q is the ceiling of the rest. */
  lemma CeilingComplement(n: nat, u: nat, total: nat, q: nat)
    requires n + u == total && total > 0 && q <= 100
    requires q * total <= n * 100 < q * total + total
    ensures (100 - q) * total - total < u * 100 <= (100 - q) * total
  {
    assert (100 - q) * total == 100 * total - q * total;
    assert u * 100 == 100 * total - n * 100;
  }

  // ---------------------------------------------------------------------------
  // Word counts

  /**
   * `Resource.wordcount`: the words of the resource's translations in its source
   * language. Translations of other resources or languages, and blank ones, add
   * nothing, so without a source text that has a word the count is 0.
   */
  function SourceWordcount(ts: seq<Translation>, resource: ResourceId, sourceLanguage: LanguageId): (wc: nat)
    ensures (forall k {:trigger WordCount(ts[k].text)} ::
               0 <= k < |ts| && ts[k].resource == resource && ts[k].language == sourceLanguage
               ==> WordCount(ts[k].text) == 0) ==> wc == 0
  {
    if ts == [] then 0
    else
      var last := ts[|ts| - 1];
      SourceWordcount(ts[..|ts| - 1], resource, sourceLanguage)
        + (if last.resource == resource && last.language == sourceLanguage then WordCount(last.text) else 0)
  }

  lemma {:induction false} SourceWordcountConcat(a: seq<Translation>, b: seq<Translation>,
                                                 resource: ResourceId, sourceLanguage: LanguageId)
    ensures SourceWordcount(a + b, resource, sourceLanguage)
         == SourceWordcount(a, resource, sourceLanguage) + SourceWordcount(b, resource, sourceLanguage)
    decreases |b|
  {
    if b == [] {
      assert a + b == a;
    } else {
      assert (a + b)[..|a + b| - 1] == a + b[..|b| - 1];
      SourceWordcountConcat(a, b[..|b| - 1], resource, sourceLanguage);
    }
  }

  /** Every source-language translation of the resource has all its words counted. */
  lemma {:induction false} SourceWordcountIncludes(ts: seq<Translation>, resource: ResourceId,
                                                   sourceLanguage: LanguageId, k: nat)
    requires k < |ts| && ts[k].resource == resource && ts[k].language == sourceLanguage
    ensures SourceWordcount(ts, resource, sourceLanguage) >= WordCount(ts[k].text)
    decreases |ts|
  {
    if k < |ts| - 1 {
      assert ts[..|ts| - 1][k] == ts[k];
      SourceWordcountIncludes(ts[..|ts| - 1], resource, sourceLanguage, k);
    }
  }

  // ---------------------------------------------------------------------------
  // How a committed merge moves these figures

  /** After a committed merge, every entry's entity counts as translated in the target language. */
  lemma MergedEntriesAreTranslated(t0: Tables, p: Params, es: seq<Entry>)
    requires Merge(t0, p, es).Committed?
    ensures var t := Merge(t0, p, es).tables;
      forall e :: e in es ==>
        EntityMatches(t.entities, EntryKey(e, p.resource)) != []
        && EntityMatches(t.entities, EntryKey(e, p.resource))[0] in TranslatedStrings(t, p.resource, p.language)
  {
    MergeResolvesEntries(t0, p, es);
    var t := Merge(t0, p, es).tables;
    forall e | e in es
      ensures EntityMatches(t.entities, EntryKey(e, p.resource))[0] in TranslatedStrings(t, p.resource, p.language)
    {
      var m := EntityMatches(t.entities, EntryKey(e, p.resource));
      EntityMatchesSpec(t.entities, EntryKey(e, p.resource));
      assert m[0] in ResourceEntities(t, p.resource);
      TranslationMatchesSpec(t.translations, Slot(m[0], p.language, p.resource, e.number));
      var h := TranslationMatches(t.translations, Slot(m[0], p.language, p.resource, e.number))[0];
      assert t.translations[h].sourceEntity == m[0];
      assert m[0] in TranslatedIds(t.translations, p.resource, p.language);
    }
  }

  /** A committed merge never makes a translated entity untranslated, in any language. */
  lemma MergeKeepsTranslated(t0: Tables, p: Params, es: seq<Entry>, resource: ResourceId, language: LanguageId)
    requires Merge(t0, p, es).Committed?
    ensures TranslatedStrings(t0, resource, language)
         <= TranslatedStrings(Merge(t0, p, es).tables, resource, language)
  {
    MergeCounts(t0, p, es);
    var t := Merge(t0, p, es).tables;
    forall i | i in TranslatedStrings(t0, resource, language)
      ensures i in TranslatedStrings(t, resource, language)
    {
      var k :| 0 <= k < |t0.translations| && t0.translations[k].language == language
               && t0.translations[k].resource == resource && t0.translations[k].sourceEntity == i;
      assert t.translations[k] == t0.translations[k];
      assert t.entities[i] == t0.entities[i];
    }
  }

  /** Appending translations of other languages leaves the word count unchanged. */
  lemma SourceWordcountAppendOther(a: seq<Translation>, b: seq<Translation>,
                                   resource: ResourceId, sourceLanguage: LanguageId)
    requires forall k :: 0 <= k < |b| ==> b[k].language != sourceLanguage
    ensures SourceWordcount(a + b, resource, sourceLanguage) == SourceWordcount(a, resource, sourceLanguage)
  {
    SourceWordcountConcat(a, b, resource, sourceLanguage);
  }

  /** Merging a file of another language leaves the resource's word count unchanged. */
  lemma MergeKeepsSourceWordcount(t0: Tables, p: Params, es: seq<Entry>, sourceLanguage: LanguageId)
    requires p.language != sourceLanguage
    requires Merge(t0, p, es).Committed?
    ensures SourceWordcount(Merge(t0, p, es).tables.translations, p.resource, sourceLanguage)
         == SourceWordcount(t0.translations, p.resource, sourceLanguage)
  {
    var ts := Merge(t0, p, es).tables.translations;
    var before := t0.translations;
    MergeAppendsInLanguage(t0, p, es);
    var added := ts[|before|..];
    assert ts == before + added;
    assert forall k :: 0 <= k < |added| ==> added[k].language != sourceLanguage by {
      forall k | 0 <= k < |added| ensures added[k].language != sourceLanguage {
        assert added[k] == ts[|before| + k];
      }
    }
    SourceWordcountAppendOther(before, added, p.resource, sourceLanguage);
  }
}

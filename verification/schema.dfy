/**
 * The two tables of the string-level catalog (transifex/happix/models.py):
 * source entities and translations, their unique-together constraints and the
 * filters that `get_or_create` runs against them.
 *
 * A row's id is its index in its table (ids are allocated in insertion order).
 */
module Schema {
  import opened Wrappers

  type ResourceId = nat
  type LanguageId = nat
  type UserId = nat

  /**
   * The unique-together key of a source entity: (string, context, resource, number).
   * The `string` column of both tables is called `text` here.
   */
  datatype EntityKey = EntityKey(text: string, context: string, resource: ResourceId, number: int)

  datatype SourceEntity = SourceEntity(
    text: string,
    context: string,
    resource: ResourceId,
    number: int,
    position: Option<int>)
  {
    function Key(): EntityKey {
      EntityKey(text, context, resource, number)
    }
  }

  /** What `merge_stringset` looks a translation up by: (source_entity, language, resource, number). */
  datatype Slot = Slot(sourceEntity: nat, language: LanguageId, resource: ResourceId, number: int)

  datatype Translation = Translation(
    sourceEntity: nat,
    language: LanguageId,
    resource: ResourceId,
    number: int,
    text: string,
    user: Option<UserId>)
  {
    function SlotOf(): Slot {
      Slot(sourceEntity, language, resource, number)
    }
  }

  /** The catalog's contents: the SourceEntity table and the Translation table. */
  datatype Tables = Tables(entities: seq<SourceEntity>, translations: seq<Translation>)

  /** The ids of the entities whose key is k, in increasing order. */
  function EntityMatches(es: seq<SourceEntity>, k: EntityKey): seq<nat> {
    if es == [] then []
    else
      var r0 := EntityMatches(es[..|es| - 1], k);
      if es[|es| - 1].Key() == k then r0 + [|es| - 1] else r0
  }

  /** EntityMatches lists exactly the ids whose key is k, each once, in increasing order. */
  lemma {:induction false} EntityMatchesSpec(es: seq<SourceEntity>, k: EntityKey)
    ensures var r := EntityMatches(es, k);
      && (forall n :: 0 <= n < |r| ==> r[n] < |es| && es[r[n]].Key() == k)
      && (forall i :: 0 <= i < |es| && es[i].Key() == k ==> i in r)
      && (forall m, n :: 0 <= m < n < |r| ==> r[m] < r[n])
      && (r == [] <==> forall i :: 0 <= i < |es| ==> es[i].Key() != k)
  {
    if es != [] {
      EntityMatchesSpec(es[..|es| - 1], k);
    }
  }

  /** The ids of the translations that occupy slot sl, in increasing order. */
  function TranslationMatches(ts: seq<Translation>, sl: Slot): seq<nat> {
    if ts == [] then []
    else
      var r0 := TranslationMatches(ts[..|ts| - 1], sl);
      if ts[|ts| - 1].SlotOf() == sl then r0 + [|ts| - 1] else r0
  }

  /** TranslationMatches lists exactly the ids in slot sl, each once, in increasing order. */
  lemma {:induction false} TranslationMatchesSpec(ts: seq<Translation>, sl: Slot)
    ensures var r := TranslationMatches(ts, sl);
      && (forall n :: 0 <= n < |r| ==> r[n] < |ts| && ts[r[n]].SlotOf() == sl)
      && (forall i :: 0 <= i < |ts| && ts[i].SlotOf() == sl ==> i in r)
      && (forall m, n :: 0 <= m < n < |r| ==> r[m] < r[n])
      && (r == [] <==> forall i :: 0 <= i < |ts| ==> ts[i].SlotOf() != sl)
  {
    if ts != [] {
      TranslationMatchesSpec(ts[..|ts| - 1], sl);
    }
  }

  /** Inserting one entity adds its id to the matches of its own key and to no other. */
  lemma EntityMatchesAppend(es: seq<SourceEntity>, x: SourceEntity, k: EntityKey)
    ensures EntityMatches(es + [x], k)
         == EntityMatches(es, k) + (if x.Key() == k then [|es|] else [])
  {
    assert (es + [x])[..|es|] == es;
  }

  /** Inserting one translation adds its id to the matches of its own slot and to no other. */
  lemma TranslationMatchesAppend(ts: seq<Translation>, x: Translation, sl: Slot)
    ensures TranslationMatches(ts + [x], sl)
         == TranslationMatches(ts, sl) + (if x.SlotOf() == sl then [|ts|] else [])
  {
    assert (ts + [x])[..|ts|] == ts;
  }

  /** Replacing the text of a translation changes no slot's matches. */
  lemma TranslationMatchesUpdateText(ts: seq<Translation>, h: nat, text: string, sl: Slot)
    requires h < |ts|
    ensures TranslationMatches(ts[h := ts[h].(text := text)], sl) == TranslationMatches(ts, sl)
  {
    var ts' := ts[h := ts[h].(text := text)];
    var a, b := TranslationMatches(ts', sl), TranslationMatches(ts, sl);
    if a != b {
      TranslationMatchesSame(ts', ts, sl);
    }
  }

  lemma {:induction false} TranslationMatchesSame(ts: seq<Translation>, us: seq<Translation>, sl: Slot)
    requires |ts| == |us|
    requires forall i :: 0 <= i < |ts| ==> ts[i].SlotOf() == us[i].SlotOf()
    ensures TranslationMatches(ts, sl) == TranslationMatches(us, sl)
  {
    if ts != [] {
      TranslationMatchesSame(ts[..|ts| - 1], us[..|us| - 1], sl);
    }
  }

  /** Unique together (string, context, resource, number): transifex/happix/models.py:361. */
  predicate EntityKeysUnique(es: seq<SourceEntity>) {
    forall i, j :: 0 <= i < |es| && 0 <= j < |es| && i != j ==> es[i].Key() != es[j].Key()
  }

  /** Unique together (source_entity, string, language, resource, number): models.py:441-442. */
  predicate TranslationKeysUnique(ts: seq<Translation>) {
    forall i, j :: 0 <= i < |ts| && 0 <= j < |ts| && i != j ==>
      ts[i].SlotOf() != ts[j].SlotOf() || ts[i].text != ts[j].text
  }

  /** Every translation's source_entity foreign key names an existing entity. */
  predicate ReferencesExist(t: Tables) {
    forall i :: 0 <= i < |t.translations| ==> t.translations[i].sourceEntity < |t.entities|
  }

  /** The constraints the database enforces on the two tables. */
  predicate Valid(t: Tables) {
    EntityKeysUnique(t.entities) && TranslationKeysUnique(t.translations) && ReferencesExist(t)
  }

  /** Under the entity constraint, a key is found at most once. */
  lemma {:induction false} UniqueKeysMatchAtMostOnce(es: seq<SourceEntity>, k: EntityKey)
    requires EntityKeysUnique(es)
    ensures |EntityMatches(es, k)| <= 1
  {
    if es != [] {
      var init := es[..|es| - 1];
      UniqueKeysMatchAtMostOnce(init, k);
      if es[|es| - 1].Key() == k {
        EntityMatchesSpec(init, k);
        assert forall i :: 0 <= i < |init| ==> init[i].Key() != k;
      }
    }
  }

  lemma InsertKeepsEntityKeysUnique(es: seq<SourceEntity>, x: SourceEntity)
    requires EntityKeysUnique(es)
    requires EntityMatches(es, x.Key()) == []
    ensures EntityKeysUnique(es + [x])
  {
    EntityMatchesSpec(es, x.Key());
  }

  lemma InsertKeepsTranslationKeysUnique(ts: seq<Translation>, x: Translation)
    requires TranslationKeysUnique(ts)
    requires TranslationMatches(ts, x.SlotOf()) == []
    ensures TranslationKeysUnique(ts + [x])
  {
    TranslationMatchesSpec(ts, x.SlotOf());
  }

  lemma UpdateKeepsTranslationKeysUnique(ts: seq<Translation>, h: nat, text: string)
    requires TranslationKeysUnique(ts)
    requires h < |ts| && TranslationMatches(ts, ts[h].SlotOf()) == [h]
    ensures TranslationKeysUnique(ts[h := ts[h].(text := text)])
  {
    TranslationMatchesSpec(ts, ts[h].SlotOf());
    assert forall i :: 0 <= i < |ts| && i != h ==> ts[i].SlotOf() != ts[h].SlotOf();
  }
}

/**
 * `Resource.merge_stringset` (transifex/happix/models.py:258-298) as a pure
 * specification over the catalog's tables: one step per stringset entry, a run
 * over the entries that stops at the first exception, and the outcome of the
 * surrounding manual transaction (commit, or rollback returning (0, 0)).
 *
 * Two variants of the step are defined. `AsWritten` is the code as it stands:
 * the overwrite branch reads the unbound name `ts`, so reaching it raises and
 * the whole merge rolls back. `Intended` is the evidently intended code, which
 * rewrites the existing translation's text and counts it as updated; it is kept
 * apart and used only where a lemma says so.
 */
module MergeEngine {
  import opened Wrappers
  import opened Schema

  /** One entry of a parsed stringset: `source_entity`, `context`, `number`, `translation`. */
  datatype Entry = Entry(sourceEntity: string, context: Option<string>, number: int, translation: string)

  /** A parsed file: its entries in file order and the target language it declares, if any. */
  datatype StringSet = StringSet(strings: seq<Entry>, targetLanguage: Option<string>)

  /** The arguments of `merge_stringset` besides the stringset, and the resource it runs on. */
  datatype Params = Params(resource: ResourceId, language: LanguageId, user: Option<UserId>, overwrite: bool)

  /** The exceptions the loop can raise. */
  datatype MergeError =
    | MultipleObjectsReturned  // a `get_or_create` lookup matched more than one row
    | UnboundName              // the overwrite branch reads `ts`, which is never bound

  datatype Variant = AsWritten | Intended

  /** `j.context or "None"`: an absent or empty context is stored as the text "None". */
  function NormalizeContext(c: Option<string>): (r: string)
    ensures r != []
    ensures r == "None" <==> c.None? || c.value == [] || c.value == "None"
    ensures c.Some? && c.value != [] ==> r == c.value
  {
    if c.Some? && c.value != [] then c.value else "None"
  }

  /** The key under which an entry's source entity is looked up in a resource. */
  function EntryKey(e: Entry, resource: ResourceId): EntityKey {
    EntityKey(e.sourceEntity, NormalizeContext(e.context), resource, e.number)
  }

  /** The row `get_or_create` inserts for a missing entity: the key, and position 1. */
  function NewEntity(k: EntityKey): (x: SourceEntity)
    ensures x.Key() == k && x.position == Some(1)
  {
    SourceEntity(k.text, k.context, k.resource, k.number, Some(1))
  }

  /**
   * `SourceEntity.objects.get_or_create(...)` for key, with `position` 1 as the
   * creation default: the entity table afterwards and the entity's id, or None
   * when the lookup matches several rows (MultipleObjectsReturned).
   */
  function GetOrCreateEntity(es: seq<SourceEntity>, key: EntityKey): (r: Option<(seq<SourceEntity>, nat)>)
    ensures r.None? <==> |EntityMatches(es, key)| > 1
    ensures r.Some? ==> r.value.1 < |r.value.0| && r.value.0[r.value.1].Key() == key
    ensures r.Some? ==> |es| <= |r.value.0| <= |es| + 1
  {
    EntityMatchesSpec(es, key);
    var found := EntityMatches(es, key);
    if |found| > 1 then None
    else if found == [] then Some((es + [NewEntity(key)], |es|))
    else Some((es, found[0]))
  }

  /**
   * get_or_create raises exactly when the key matches several rows; otherwise the
   * table afterwards is the old one, or the old one plus the new entity when
   * nothing matched, and the key then matches exactly the returned id.
   */
  lemma GetOrCreateEntitySpec(es: seq<SourceEntity>, key: EntityKey)
    ensures var r := GetOrCreateEntity(es, key);
      && (r.None? <==> |EntityMatches(es, key)| > 1)
      && (r.Some? ==>
        var (es', se) := r.value;
        && |es| <= |es'| <= |es| + 1 && es'[..|es|] == es
        && se < |es'| && es'[se].Key() == key
        && EntityMatches(es', key) == [se]
        && (|es'| == |es| + 1 <==> EntityMatches(es, key) == [])
        && (|es'| == |es| + 1 ==> es'[|es|] == NewEntity(key)))
  {
    var found := EntityMatches(es, key);
    EntityMatchesSpec(es, key);
    if found == [] {
      EntityMatchesAppend(es, NewEntity(key), key);
      assert (es + [NewEntity(key)])[..|es|] == es;
    } else {
      assert es[..|es|] == es;
    }
  }

  /** The row `get_or_create` inserts for a missing translation: the slot, the text and the user. */
  function NewTranslation(sl: Slot, text: string, user: Option<UserId>): (tr: Translation)
    ensures tr.SlotOf() == sl && tr.text == text && tr.user == user
  {
    Translation(sl.sourceEntity, sl.language, sl.resource, sl.number, text, user)
  }

  datatype TranslationResult =
    | Put(translations: seq<Translation>, created: bool, changed: bool)
    | Threw(error: MergeError)

  /**
   * `Translation.objects.get_or_create(...)` for slot sl, with the entry's text and
   * the user as creation defaults, followed by the overwrite branch.
   */
  function ResolveTranslation(v: Variant, ts: seq<Translation>, sl: Slot, text: string,
                              user: Option<UserId>, overwrite: bool): (r: TranslationResult)
    ensures r.Threw? && r.error == UnboundName ==> v == AsWritten && overwrite
    ensures r.Put? ==> !(r.created && r.changed)
    ensures r.Put? ==> |r.translations| == |ts| + (if r.created then 1 else 0)
    ensures r.Put? && r.changed ==> v == Intended && overwrite
  {
    var hits := TranslationMatches(ts, sl);
    if |hits| > 1 then Threw(MultipleObjectsReturned)
    else if hits == [] then Put(ts + [NewTranslation(sl, text, user)], true, false)
    else if !overwrite then Put(ts, false, false)
    else
      match v
      case AsWritten => Threw(UnboundName)  // `ts.string` raises NameError
      case Intended =>
        TranslationMatchesSpec(ts, sl);
        var h := hits[0];
        if ts[h].text != text then Put(ts[h := ts[h].(text := text)], false, true)
        else Put(ts, false, false)
  }

  /**
   * The translation lookup raises when the slot matches several rows, and, as
   * written, whenever it matches one row with overwrite on. Otherwise the slot
   * ends up with exactly one row: a new one holding the entry's text and the
   * user, or the existing one, rewritten only by the intended variant.
   */
  lemma ResolveTranslationSpec(v: Variant, ts: seq<Translation>, sl: Slot, text: string,
                               user: Option<UserId>, overwrite: bool)
    ensures var r := ResolveTranslation(v, ts, sl, text, user, overwrite);
      && (r.Threw? <==> |TranslationMatches(ts, sl)| > 1
                        || (|TranslationMatches(ts, sl)| == 1 && overwrite && v == AsWritten))
      && (r.Put? ==> |TranslationMatches(r.translations, sl)| == 1)
      && (r.Put? && r.created ==>
        TranslationMatches(ts, sl) == [] && !r.changed && r.translations == ts + [NewTranslation(sl, text, user)])
      && (r.Put? && !r.created ==>
        |TranslationMatches(ts, sl)| == 1 && TranslationMatches(r.translations, sl) == TranslationMatches(ts, sl)
        && TranslationMatches(ts, sl)[0] < |ts|)
      && (r.Put? && !r.created && !r.changed ==> r.translations == ts)
      && (r.Put? && r.changed ==>
        v == Intended && overwrite && !r.created &&
        var h := TranslationMatches(ts, sl)[0];
        ts[h].text != text && r.translations == ts[h := ts[h].(text := text)])
      && (r.Put? && v == Intended && overwrite ==>
        TranslationMatches(r.translations, sl)[0] < |r.translations|
        && r.translations[TranslationMatches(r.translations, sl)[0]].text == text)
  {
    var hits := TranslationMatches(ts, sl);
    TranslationMatchesSpec(ts, sl);
    if hits == [] {
      TranslationMatchesAppend(ts, NewTranslation(sl, text, user), sl);
    } else if |hits| == 1 && overwrite && v == Intended && ts[hits[0]].text != text {
      TranslationMatchesUpdateText(ts, hits[0], text, sl);
    }
  }

  datatype StepResult =
    | Applied(tables: Tables, created: bool, changed: bool)
    | Raised(error: MergeError)

  /**
   * One iteration of the loop body, for entry e. It creates or updates at most
   * one translation, only a creation adds a row, at most one entity is added,
   * and the unbound `ts` can only be reached as written with overwrite on.
   */
  function Step(v: Variant, t: Tables, p: Params, e: Entry): (r: StepResult)
    ensures r.Raised? && r.error == UnboundName ==> v == AsWritten && p.overwrite
    ensures r.Applied? ==> !(r.created && r.changed)
    ensures r.Applied? ==> |r.tables.translations| == |t.translations| + (if r.created then 1 else 0)
    ensures r.Applied? ==> |t.entities| <= |r.tables.entities| <= |t.entities| + 1
    ensures r.Applied? && r.changed ==> v == Intended && p.overwrite
  {
    match GetOrCreateEntity(t.entities, EntryKey(e, p.resource))
    case None => Raised(MultipleObjectsReturned)
    case Some((entities, se)) =>
      match ResolveTranslation(v, t.translations, Slot(se, p.language, p.resource, e.number),
                               e.translation, p.user, p.overwrite)
      case Threw(err) => Raised(err)
      case Put(translations, created, changed) => Applied(Tables(entities, translations), created, changed)
  }

  datatype Progress =
    | Running(tables: Tables, added: nat, updated: nat)
    | Aborted(error: MergeError)

  /**
   * The loop over `stringset.strings`, left to right, stopping at the first
   * exception. A completed loop counts at most one creation or update per entry,
   * has grown the translations by exactly `strings_added` rows and the entities
   * by at most one per entry, and as written counts no update; the unbound `ts`
   * is only ever raised as written with overwrite on.
   */
  function Run(v: Variant, t0: Tables, p: Params, es: seq<Entry>): (r: Progress)
    ensures r.Running? ==> r.added + r.updated <= |es|
    ensures r.Running? ==> |r.tables.translations| == |t0.translations| + r.added
    ensures r.Running? ==> |t0.entities| <= |r.tables.entities| <= |t0.entities| + |es|
    ensures r.Running? && v == AsWritten ==> r.updated == 0
    ensures r.Aborted? && r.error == UnboundName ==> v == AsWritten && p.overwrite
    decreases |es|
  {
    if es == [] then Running(t0, 0, 0)
    else Advance(v, Run(v, t0, p, es[..|es| - 1]), p, es[|es| - 1])
  }

  /** One iteration of the loop: the entry's step, counted, unless an exception was already raised. */
  function Advance(v: Variant, pr: Progress, p: Params, e: Entry): (r: Progress)
    ensures pr.Aborted? ==> r == pr
    ensures r.Running? ==> pr.Running?
    ensures r.Running? ==> pr.added <= r.added && r.added + r.updated <= pr.added + pr.updated + 1
    ensures r.Running? ==> |r.tables.translations| == |pr.tables.translations| + r.added - pr.added
    ensures r.Running? ==> |pr.tables.entities| <= |r.tables.entities| <= |pr.tables.entities| + 1
    ensures r.Running? && r.updated != pr.updated ==> v == Intended && p.overwrite
    ensures r.Aborted? && r.error == UnboundName && pr.Running? ==> v == AsWritten && p.overwrite
  {
    match pr
    case Aborted(err) => Aborted(err)
    case Running(t, a, u) =>
      match Step(v, t, p, e)
      case Raised(err) => Aborted(err)
      case Applied(t', c, ch) => Running(t', if c then a + 1 else a, if ch then u + 1 else u)
  }

  /** An exception in entry i's step ends the run over the first i + 1 entries. */
  lemma RunStepRaises(v: Variant, t0: Tables, p: Params, es: seq<Entry>, i: nat,
                      t: Tables, a: nat, u: nat, err: MergeError)
    requires i < |es|
    requires Run(v, t0, p, es[..i]) == Running(t, a, u)
    requires Step(v, t, p, es[i]) == Raised(err)
    ensures Run(v, t0, p, es[..i + 1]) == Aborted(err)
  {
    assert es[..i + 1][..i] == es[..i];
  }

  /** A completed step for entry i moves the run on to its tables and counts. */
  lemma RunStepApplies(v: Variant, t0: Tables, p: Params, es: seq<Entry>, i: nat,
                       t: Tables, a: nat, u: nat, t': Tables, created: bool, changed: bool)
    requires i < |es|
    requires Run(v, t0, p, es[..i]) == Running(t, a, u)
    requires Step(v, t, p, es[i]) == Applied(t', created, changed)
    ensures Run(v, t0, p, es[..i + 1])
         == Running(t', if created then a + 1 else a, if changed then u + 1 else u)
  {
    assert es[..i + 1][..i] == es[..i];
  }

  datatype Outcome =
    | Committed(tables: Tables, added: nat, updated: nat)
    | RolledBack(error: MergeError)

  function Finish(pr: Progress): Outcome {
    match pr
    case Running(t, a, u) => Committed(t, a, u)
    case Aborted(err) => RolledBack(err)
  }

  /**
   * `merge_stringset` as written: a commit reports at most one creation per
   * entry and never an update; a NameError rollback needs overwrite on.
   */
  function Merge(t0: Tables, p: Params, es: seq<Entry>): (r: Outcome)
    ensures r.Committed? ==> r.added <= |es| && r.updated == 0
    ensures r.Committed? ==> |r.tables.translations| == |t0.translations| + r.added
    ensures r.RolledBack? && r.error == UnboundName ==> p.overwrite
  {
    Finish(Run(AsWritten, t0, p, es))
  }

  /**
   * `merge_stringset` as evidently intended (overwrite through `tr`, persisted):
   * only a lookup that meets several rows rolls it back, and a commit counts at
   * most one creation or update per entry.
   */
  function MergeIntended(t0: Tables, p: Params, es: seq<Entry>): (r: Outcome)
    ensures r.RolledBack? ==> r.error == MultipleObjectsReturned
    ensures r.Committed? ==> r.added + r.updated <= |es|
  {
    Finish(Run(Intended, t0, p, es))
  }

  // ---------------------------------------------------------------------------
  // The run stops at the first exception

  lemma {:induction false} AbortPersists(v: Variant, t0: Tables, p: Params, es: seq<Entry>, i: nat)
    requires i <= |es|
    requires Run(v, t0, p, es[..i]).Aborted?
    ensures Run(v, t0, p, es) == Run(v, t0, p, es[..i])
    decreases |es| - i
  {
    if i < |es| {
      var init := es[..|es| - 1];
      assert init[..i] == es[..i];
      AbortPersists(v, t0, p, init, i);
    } else {
      assert es[..i] == es;
    }
  }

  // ---------------------------------------------------------------------------
  // What one step of the code as written does

  /** Every row before the step is still there, unchanged, after it. */
  predicate Extends(t: Tables, t': Tables) {
    |t.entities| <= |t'.entities| && t'.entities[..|t.entities|] == t.entities
    && |t.translations| <= |t'.translations| && t'.translations[..|t.translations|] == t.translations
  }

  /** tr is the translation that merging e with p creates, given the entity table es. */
  predicate CreatedFor(es: seq<SourceEntity>, p: Params, e: Entry, tr: Translation) {
    && tr.language == p.language && tr.resource == p.resource && tr.user == p.user
    && tr.number == e.number && tr.text == e.translation
    && tr.sourceEntity < |es| && es[tr.sourceEntity].Key() == EntryKey(e, p.resource)
  }

  /** Every translation from position n on was created for some entry of es. */
  predicate CreatedFromEntries(n: nat, t: Tables, p: Params, es: seq<Entry>) {
    forall k :: n <= k < |t.translations| ==> exists e :: e in es && CreatedFor(t.entities, p, e, t.translations[k])
  }

  lemma StepAsWritten(t: Tables, p: Params, e: Entry)
    requires Step(AsWritten, t, p, e).Applied?
    ensures var r := Step(AsWritten, t, p, e);
      && Extends(t, r.tables)
      && !r.changed
      && (p.overwrite ==> r.created)
      && (r.created ==> |r.tables.translations| == |t.translations| + 1
                        && CreatedFor(r.tables.entities, p, e, r.tables.translations[|t.translations|]))
      && (!r.created ==> r.tables.translations == t.translations)
  {
    var key := EntryKey(e, p.resource);
    var (entities, se) := GetOrCreateEntity(t.entities, key).value;
    var sl := Slot(se, p.language, p.resource, e.number);
    var r := ResolveTranslation(AsWritten, t.translations, sl, e.translation, p.user, p.overwrite);
    GetOrCreateEntitySpec(t.entities, key);
    ResolveTranslationSpec(AsWritten, t.translations, sl, e.translation, p.user, p.overwrite);
    if r.created {
      assert r.translations[..|t.translations|] == t.translations;
      assert r.translations[|t.translations|] == NewTranslation(sl, e.translation, p.user);
    } else {
      assert r.translations[..|t.translations|] == t.translations;
    }
  }

  /**
   * The translation is looked up by (source entity, language, resource, number)
   * only: two entries that differ in their translated text meet the same row,
   * raise alike, create alike and leave the same entity table.
   */
  lemma StepLooksUpBySlot(v: Variant, t: Tables, p: Params, e: Entry, text: string)
    ensures var r, r' := Step(v, t, p, e), Step(v, t, p, e.(translation := text));
      && (r.Raised? <==> r'.Raised?)
      && (r.Applied? ==> r.created == r'.created && r.tables.entities == r'.tables.entities)
  {
    var key := EntryKey(e, p.resource);
    assert EntryKey(e.(translation := text), p.resource) == key;
    var g := GetOrCreateEntity(t.entities, key);
    if g.Some? {
      var sl := Slot(g.value.1, p.language, p.resource, e.number);
      ResolveTranslationSpec(v, t.translations, sl, e.translation, p.user, p.overwrite);
      ResolveTranslationSpec(v, t.translations, sl, text, p.user, p.overwrite);
    }
  }

  // ---------------------------------------------------------------------------
  // What a committed run of the code as written has done

  lemma ExtendsTransitive(t1: Tables, t2: Tables, t3: Tables)
    requires Extends(t1, t2) && Extends(t2, t3)
    ensures Extends(t1, t3)
  {
    assert t3.entities[..|t1.entities|] == t3.entities[..|t2.entities|][..|t1.entities|];
    assert t3.translations[..|t1.translations|] == t3.translations[..|t2.translations|][..|t1.translations|];
  }

  /** The last step of a run that is still going. */
  lemma RunSnoc(v: Variant, t0: Tables, p: Params, es: seq<Entry>)
    requires es != []
    requires Run(v, t0, p, es).Running?
    ensures var prev := Run(v, t0, p, es[..|es| - 1]);
      && prev.Running?
      && var s := Step(v, prev.tables, p, es[|es| - 1]);
      && s.Applied?
      && Run(v, t0, p, es)
         == Running(s.tables, if s.created then prev.added + 1 else prev.added,
                    if s.changed then prev.updated + 1 else prev.updated)
  {
  }

  /**
   * A committed merge only inserts rows; it never updates one. It inserts exactly
   * `added` translations and reports no update. With overwrite on, it commits
   * only if every entry created a translation.
   */
  lemma {:induction false} RunAsWritten(t0: Tables, p: Params, es: seq<Entry>)
    requires Run(AsWritten, t0, p, es).Running?
    ensures var r := Run(AsWritten, t0, p, es);
      && Extends(t0, r.tables)
      && r.updated == 0 && r.added <= |es|
      && |r.tables.translations| == |t0.translations| + r.added
      && (p.overwrite ==> r.added == |es|)
  {
    if es != [] {
      var init, last := es[..|es| - 1], es[|es| - 1];
      RunSnoc(AsWritten, t0, p, es);
      RunAsWritten(t0, p, init);
      var prev := Run(AsWritten, t0, p, init);
      StepAsWritten(prev.tables, p, last);
      ExtendsTransitive(t0, prev.tables, Run(AsWritten, t0, p, es).tables);
    } else {
      assert t0.entities[..|t0.entities|] == t0.entities;
      assert t0.translations[..|t0.translations|] == t0.translations;
    }
  }

  /**
   * Each translation a committed run inserts carries the target language, the
   * resource, the committing user and the text and number of an entry whose key
   * its source entity has.
   */
  lemma {:induction false} RunCreatesFromEntries(t0: Tables, p: Params, es: seq<Entry>)
    requires Run(AsWritten, t0, p, es).Running?
    ensures CreatedFromEntries(|t0.translations|, Run(AsWritten, t0, p, es).tables, p, es)
  {
    if es != [] {
      var init, last := es[..|es| - 1], es[|es| - 1];
      RunSnoc(AsWritten, t0, p, es);
      RunCreatesFromEntries(t0, p, init);
      var t := Run(AsWritten, t0, p, init).tables;
      StepAsWritten(t, p, last);
      var t' := Run(AsWritten, t0, p, es).tables;
      forall k | |t0.translations| <= k < |t'.translations|
        ensures exists e :: e in es && CreatedFor(t'.entities, p, e, t'.translations[k])
      {
        if k < |t.translations| {
          var e :| e in init && CreatedFor(t.entities, p, e, t.translations[k]);
          assert t'.translations[k] == t.translations[k];
          assert t'.entities[t.translations[k].sourceEntity] == t.entities[t.translations[k].sourceEntity];
          assert e in es && CreatedFor(t'.entities, p, e, t'.translations[k]);
        } else {
          assert last in es && CreatedFor(t'.entities, p, last, t'.translations[k]);
        }
      }
    }
  }

  /** On commit, `strings_added` counts the new translations and `strings_updated` is 0. */
  lemma MergeCounts(t0: Tables, p: Params, es: seq<Entry>)
    requires Merge(t0, p, es).Committed?
    ensures var r := Merge(t0, p, es);
      && Extends(t0, r.tables)
      && r.updated == 0
      && r.added <= |es|
      && |r.tables.translations| == |t0.translations| + r.added
  {
    RunAsWritten(t0, p, es);
  }

  /**
   * With `overwrite_translations` on, the code as written commits only when no
   * entry met an existing translation: every entry created one.
   */
  lemma OverwriteCommitsOnlyNewTranslations(t0: Tables, p: Params, es: seq<Entry>)
    requires p.overwrite
    requires Merge(t0, p, es).Committed?
    ensures Merge(t0, p, es).added == |es|
    ensures Merge(t0, p, es).updated == 0
  {
    RunAsWritten(t0, p, es);
  }

  /** Each translation a committed merge creates comes from an entry of the stringset. */
  lemma MergeCreatesFromEntries(t0: Tables, p: Params, es: seq<Entry>)
    requires Merge(t0, p, es).Committed?
    ensures CreatedFromEntries(|t0.translations|, Merge(t0, p, es).tables, p, es)
  {
    RunCreatesFromEntries(t0, p, es);
  }

  /** The entries' keys are pairwise distinct and none of them is in the entity table yet. */
  predicate FreshKeys(t: Tables, p: Params, es: seq<Entry>) {
    && (forall i, j :: 0 <= i < j < |es| ==> EntryKey(es[i], p.resource) != EntryKey(es[j], p.resource))
    && (forall i :: 0 <= i < |es| ==> EntityMatches(t.entities, EntryKey(es[i], p.resource)) == [])
  }

  /**
   * An entry whose key is not in a valid catalog creates its entity, and the new
   * entity's slot is empty, so it creates its translation too.
   */
  lemma StepFreshKey(t: Tables, p: Params, e: Entry)
    requires Valid(t)
    requires forall m :: 0 <= m < |t.entities| ==> t.entities[m].Key() != EntryKey(e, p.resource)
    ensures var sl := Slot(|t.entities|, p.language, p.resource, e.number);
      Step(AsWritten, t, p, e)
      == Applied(Tables(t.entities + [NewEntity(EntryKey(e, p.resource))],
                        t.translations + [NewTranslation(sl, e.translation, p.user)]), true, false)
  {
    var key := EntryKey(e, p.resource);
    EntityMatchesSpec(t.entities, key);
    var sl := Slot(|t.entities|, p.language, p.resource, e.number);
    TranslationMatchesSpec(t.translations, sl);
  }

  /** t's entity table is t0's followed by one new entity per entry of es, in order. */
  predicate AppendsFresh(t0: Tables, t: Tables, p: Params, es: seq<Entry>) {
    && |t.entities| == |t0.entities| + |es|
    && t.entities[..|t0.entities|] == t0.entities
    && forall j :: 0 <= j < |es| ==> t.entities[|t0.entities| + j] == NewEntity(EntryKey(es[j], p.resource))
  }

  lemma FreshKeysPrefix(t0: Tables, p: Params, es: seq<Entry>)
    requires es != [] && FreshKeys(t0, p, es)
    ensures FreshKeys(t0, p, es[..|es| - 1])
  {
  }

  /** After the fresh entries before it, the next fresh entry's key is still in no row. */
  lemma FreshKeyAbsent(t0: Tables, t: Tables, p: Params, es: seq<Entry>)
    requires es != [] && FreshKeys(t0, p, es)
    requires AppendsFresh(t0, t, p, es[..|es| - 1])
    ensures forall m :: 0 <= m < |t.entities| ==> t.entities[m].Key() != EntryKey(es[|es| - 1], p.resource)
  {
    var key := EntryKey(es[|es| - 1], p.resource);
    EntityMatchesSpec(t0.entities, key);
    forall m | 0 <= m < |t.entities|
      ensures t.entities[m].Key() != key
    {
      if m < |t0.entities| {
        assert t.entities[m] == t.entities[..|t0.entities|][m] == t0.entities[m];
      } else {
        var j := m - |t0.entities|;
        assert t.entities[m] == NewEntity(EntryKey(es[..|es| - 1][j], p.resource));
        assert es[..|es| - 1][j] == es[j];
      }
    }
  }

  lemma AppendsFreshSnoc(t0: Tables, t: Tables, t': Tables, p: Params, es: seq<Entry>)
    requires es != []
    requires AppendsFresh(t0, t, p, es[..|es| - 1])
    requires t'.entities == t.entities + [NewEntity(EntryKey(es[|es| - 1], p.resource))]
    ensures AppendsFresh(t0, t', p, es)
  {
    assert t'.entities[..|t0.entities|] == t.entities[..|t0.entities|];
    forall j | 0 <= j < |es|
      ensures t'.entities[|t0.entities| + j] == NewEntity(EntryKey(es[j], p.resource))
    {
      if j < |es| - 1 {
        assert es[..|es| - 1][j] == es[j];
      }
    }
  }

  /**
   * Entries with fresh keys each create one entity and one translation: the run
   * completes with `strings_added` equal to the entry count, whatever the
   * overwrite flag, and appends the entities in entry order.
   */
  lemma {:induction false} RunFreshKeys(t0: Tables, p: Params, es: seq<Entry>)
    requires Valid(t0)
    requires FreshKeys(t0, p, es)
    ensures var r := Run(AsWritten, t0, p, es);
      r.Running? && r.added == |es| && r.updated == 0 && AppendsFresh(t0, r.tables, p, es)
  {
    if es == [] {
      assert t0.entities[..|t0.entities|] == t0.entities;
    } else {
      var init := es[..|es| - 1];
      FreshKeysPrefix(t0, p, es);
      RunFreshKeys(t0, p, init);
      var t := Run(AsWritten, t0, p, init).tables;
      RunPreservesValid(AsWritten, t0, p, init);
      FreshKeyAbsent(t0, t, p, es);
      StepFreshKey(t, p, es[|es| - 1]);
      AppendsFreshSnoc(t0, t, Run(AsWritten, t0, p, es).tables, p, es);
    }
  }

  /**
   * k entries whose keys are distinct and new to the resource commit with (k, 0)
   * and add k entities and k translations, for either overwrite value.
   */
  lemma MergeFreshKeys(t0: Tables, p: Params, es: seq<Entry>)
    requires Valid(t0)
    requires FreshKeys(t0, p, es)
    ensures var r := Merge(t0, p, es);
      && r.Committed? && r.added == |es| && r.updated == 0
      && |r.tables.entities| == |t0.entities| + |es|
      && |r.tables.translations| == |t0.translations| + |es|
  {
    RunFreshKeys(t0, p, es);
    RunAsWritten(t0, p, es);
  }

  /** A committed merge appends translations in the target language only. */
  lemma MergeAppendsInLanguage(t0: Tables, p: Params, es: seq<Entry>)
    requires Merge(t0, p, es).Committed?
    ensures var ts := Merge(t0, p, es).tables.translations;
      && |t0.translations| <= |ts| && ts[..|t0.translations|] == t0.translations
      && forall k :: |t0.translations| <= k < |ts| ==> ts[k].language == p.language
  {
    MergeCounts(t0, p, es);
    MergeCreatesFromEntries(t0, p, es);
  }

  // ---------------------------------------------------------------------------
  // The database constraints survive every step, in both variants

  lemma GetOrCreateKeepsEntityKeysUnique(es: seq<SourceEntity>, key: EntityKey)
    requires EntityKeysUnique(es)
    requires GetOrCreateEntity(es, key).Some?
    ensures EntityKeysUnique(GetOrCreateEntity(es, key).value.0)
  {
    if EntityMatches(es, key) == [] {
      InsertKeepsEntityKeysUnique(es, NewEntity(key));
    }
  }

  lemma ResolveKeepsTranslationKeysUnique(v: Variant, ts: seq<Translation>, sl: Slot, text: string,
                                          user: Option<UserId>, overwrite: bool)
    requires TranslationKeysUnique(ts)
    requires ResolveTranslation(v, ts, sl, text, user, overwrite).Put?
    ensures TranslationKeysUnique(ResolveTranslation(v, ts, sl, text, user, overwrite).translations)
  {
    var r := ResolveTranslation(v, ts, sl, text, user, overwrite);
    ResolveTranslationSpec(v, ts, sl, text, user, overwrite);
    if r.created {
      InsertKeepsTranslationKeysUnique(ts, NewTranslation(sl, text, user));
    } else if r.changed {
      var h := TranslationMatches(ts, sl)[0];
      TranslationMatchesSpec(ts, sl);
      assert TranslationMatches(ts, sl) == [h];
      UpdateKeepsTranslationKeysUnique(ts, h, text);
    }
  }

  /** The translation step only stores references to the slot's entity and those already stored. */
  lemma ResolveKeepsReferences(v: Variant, ts: seq<Translation>, sl: Slot, text: string,
                               user: Option<UserId>, overwrite: bool, n: nat)
    requires forall i :: 0 <= i < |ts| ==> ts[i].sourceEntity < n
    requires sl.sourceEntity < n
    requires ResolveTranslation(v, ts, sl, text, user, overwrite).Put?
    ensures var ts' := ResolveTranslation(v, ts, sl, text, user, overwrite).translations;
      forall i :: 0 <= i < |ts'| ==> ts'[i].sourceEntity < n
  {
    var r := ResolveTranslation(v, ts, sl, text, user, overwrite);
    ResolveTranslationSpec(v, ts, sl, text, user, overwrite);
    forall i | 0 <= i < |r.translations|
      ensures r.translations[i].sourceEntity < n
    {
      if i < |ts| {
        assert r.translations[i].sourceEntity == ts[i].sourceEntity;
      }
    }
  }

  lemma StepPreservesValid(v: Variant, t: Tables, p: Params, e: Entry)
    requires Valid(t)
    requires Step(v, t, p, e).Applied?
    ensures Valid(Step(v, t, p, e).tables)
  {
    var key := EntryKey(e, p.resource);
    var (entities, se) := GetOrCreateEntity(t.entities, key).value;
    var sl := Slot(se, p.language, p.resource, e.number);
    GetOrCreateEntitySpec(t.entities, key);
    GetOrCreateKeepsEntityKeysUnique(t.entities, key);
    ResolveKeepsTranslationKeysUnique(v, t.translations, sl, e.translation, p.user, p.overwrite);
    ResolveKeepsReferences(v, t.translations, sl, e.translation, p.user, p.overwrite, |entities|);
  }

  lemma {:induction false} RunPreservesValid(v: Variant, t0: Tables, p: Params, es: seq<Entry>)
    requires Valid(t0)
    requires Run(v, t0, p, es).Running?
    ensures Valid(Run(v, t0, p, es).tables)
  {
    if es != [] {
      RunSnoc(v, t0, p, es);
      RunPreservesValid(v, t0, p, es[..|es| - 1]);
      StepPreservesValid(v, Run(v, t0, p, es[..|es| - 1]).tables, p, es[|es| - 1]);
    }
  }

  /** A committed merge leaves both unique-together constraints and the foreign keys intact. */
  lemma MergePreservesValid(t0: Tables, p: Params, es: seq<Entry>)
    requires Valid(t0)
    requires Merge(t0, p, es).Committed?
    ensures Valid(Merge(t0, p, es).tables)
  {
    RunPreservesValid(AsWritten, t0, p, es);
  }

  // ---------------------------------------------------------------------------
  // After a committed merge every entry has exactly one entity and one translation

  /** e's key names exactly one entity, and that entity has exactly one translation in e's slot. */
  predicate Resolved(t: Tables, p: Params, e: Entry) {
    var m := EntityMatches(t.entities, EntryKey(e, p.resource));
    |m| == 1 && |TranslationMatches(t.translations, Slot(m[0], p.language, p.resource, e.number))| == 1
  }

  /** The translation that holds e's text once e is resolved. */
  function StoredTranslation(t: Tables, p: Params, e: Entry): (tr: Translation)
    requires Resolved(t, p, e)
    ensures tr in t.translations
    ensures tr.SlotOf() == Slot(EntityMatches(t.entities, EntryKey(e, p.resource))[0], p.language, p.resource, e.number)
  {
    var m := EntityMatches(t.entities, EntryKey(e, p.resource));
    TranslationMatchesSpec(t.translations, Slot(m[0], p.language, p.resource, e.number));
    t.translations[TranslationMatches(t.translations, Slot(m[0], p.language, p.resource, e.number))[0]]
  }

  lemma StepResolves(v: Variant, t: Tables, p: Params, e: Entry)
    requires Step(v, t, p, e).Applied?
    ensures Resolved(Step(v, t, p, e).tables, p, e)
  {
    var key := EntryKey(e, p.resource);
    var (entities, se) := GetOrCreateEntity(t.entities, key).value;
    GetOrCreateEntitySpec(t.entities, key);
    ResolveTranslationSpec(v, t.translations, Slot(se, p.language, p.resource, e.number),
                           e.translation, p.user, p.overwrite);
    assert EntityMatches(entities, key) == [se];
  }

  lemma StepKeepsResolved(v: Variant, t: Tables, p: Params, e: Entry, e0: Entry)
    requires Resolved(t, p, e0)
    requires Step(v, t, p, e).Applied?
    ensures Resolved(Step(v, t, p, e).tables, p, e0)
    ensures StoredTranslation(Step(v, t, p, e).tables, p, e0).text
         == if EntryKey(e, p.resource) == EntryKey(e0, p.resource) && v == Intended && p.overwrite
            then e.translation else StoredTranslation(t, p, e0).text
  {
    var key, key0 := EntryKey(e, p.resource), EntryKey(e0, p.resource);
    var (entities, se) := GetOrCreateEntity(t.entities, key).value;
    var sl := Slot(se, p.language, p.resource, e.number);
    var r := ResolveTranslation(v, t.translations, sl, e.translation, p.user, p.overwrite);
    var m0 := EntityMatches(t.entities, key0);
    var sl0 := Slot(m0[0], p.language, p.resource, e0.number);
    var h0 := TranslationMatches(t.translations, sl0)[0];
    GetOrCreateEntitySpec(t.entities, key);
    ResolveTranslationSpec(v, t.translations, sl, e.translation, p.user, p.overwrite);
    EntityMatchesSpec(t.entities, key0);
    TranslationMatchesSpec(t.translations, sl0);
    if |entities| > |t.entities| {
      EntityMatchesAppend(t.entities, NewEntity(key), key0);
    } else {
      assert entities == t.entities[..|t.entities|] == t.entities;
    }
    assert EntityMatches(entities, key0) == m0;
    if key == key0 {
      assert sl == sl0;
    } else {
      assert entities[se].Key() != entities[m0[0]].Key();
      assert sl != sl0;
      if r.created {
        TranslationMatchesAppend(t.translations, NewTranslation(sl, e.translation, p.user), sl0);
        assert r.translations[h0] == t.translations[h0];
      } else if r.changed {
        var h := TranslationMatches(t.translations, sl)[0];
        TranslationMatchesUpdateText(t.translations, h, e.translation, sl0);
        TranslationMatchesSpec(t.translations, sl);
        assert h != h0;
      }
    }
  }

  lemma {:induction false} RunResolves(v: Variant, t0: Tables, p: Params, es: seq<Entry>)
    requires Run(v, t0, p, es).Running?
    ensures forall e :: e in es ==> Resolved(Run(v, t0, p, es).tables, p, e)
  {
    if es != [] {
      var init, last := es[..|es| - 1], es[|es| - 1];
      RunSnoc(v, t0, p, es);
      RunResolves(v, t0, p, init);
      var t := Run(v, t0, p, init).tables;
      forall e | e in es
        ensures Resolved(Run(v, t0, p, es).tables, p, e)
      {
        if e == last {
          StepResolves(v, t, p, last);
        } else {
          assert e in init;
          StepKeepsResolved(v, t, p, last, e);
        }
      }
    }
  }

  /**
   * After a committed merge, every entry's key (its string, its context or "None",
   * the resource and its number) names exactly one source entity, which has exactly
   * one translation in the target language at that number.
   */
  lemma MergeResolvesEntries(t0: Tables, p: Params, es: seq<Entry>)
    requires Merge(t0, p, es).Committed?
    ensures forall e :: e in es ==> Resolved(Merge(t0, p, es).tables, p, e)
  {
    RunResolves(AsWritten, t0, p, es);
  }

  // ---------------------------------------------------------------------------
  // Merging again

  /** When every entry is already resolved and overwrite is off, the run changes nothing. */
  lemma {:induction false} ResolvedRunIsNoOp(v: Variant, t: Tables, p: Params, es: seq<Entry>)
    requires !p.overwrite
    requires forall e :: e in es ==> Resolved(t, p, e)
    ensures Run(v, t, p, es) == Running(t, 0, 0)
  {
    if es != [] {
      var init := es[..|es| - 1];
      assert forall e :: e in init ==> e in es;
      ResolvedRunIsNoOp(v, t, p, init);
      assert Resolved(t, p, es[|es| - 1]);
    }
  }

  /**
   * With overwrite off, merging the same stringset a second time returns (0, 0)
   * and leaves the catalog exactly as the first merge left it.
   */
  lemma MergeIdempotent(t0: Tables, p: Params, es: seq<Entry>)
    requires !p.overwrite
    requires Merge(t0, p, es).Committed?
    ensures var t1 := Merge(t0, p, es).tables;
      Merge(t1, p, es) == Committed(t1, 0, 0)
  {
    RunResolves(AsWritten, t0, p, es);
    ResolvedRunIsNoOp(AsWritten, Run(AsWritten, t0, p, es).tables, p, es);
  }

  /**
   * With overwrite on (the default, and what `merge_translation_file` uses), merging
   * the same non-empty stringset a second time always rolls back on the unbound `ts`.
   */
  lemma RepeatWithOverwriteRollsBack(t0: Tables, p: Params, es: seq<Entry>)
    requires p.overwrite && es != []
    requires Merge(t0, p, es).Committed?
    ensures var t1 := Merge(t0, p, es).tables;
      Merge(t1, p, es) == RolledBack(UnboundName)
  {
    RunResolves(AsWritten, t0, p, es);
    var t1 := Run(AsWritten, t0, p, es).tables;
    assert Resolved(t1, p, es[0]);
    assert es[..1][..0] == [];
    assert Run(AsWritten, t1, p, es[..1]) == Aborted(UnboundName);
    AbortPersists(AsWritten, t1, p, es, 1);
  }

  // ---------------------------------------------------------------------------
  // The intended variant

  /** The last entry of es with the same key as es[i] is es[i] itself. */
  predicate LastOfItsKey(es: seq<Entry>, i: nat, resource: ResourceId)
    requires i < |es|
  {
    forall j :: i < j < |es| ==> EntryKey(es[j], resource) != EntryKey(es[i], resource)
  }

  /**
   * Intended, with overwrite on: after a committed merge the stored text of every
   * entry is the text of the last entry carrying the same key, whether it was
   * created or overwritten.
   */
  lemma {:induction false} RunIntendedStoresTexts(t0: Tables, p: Params, es: seq<Entry>)
    requires p.overwrite
    requires Run(Intended, t0, p, es).Running?
    ensures forall i :: 0 <= i < |es| && LastOfItsKey(es, i, p.resource) ==>
      Resolved(Run(Intended, t0, p, es).tables, p, es[i])
      && StoredTranslation(Run(Intended, t0, p, es).tables, p, es[i]).text == es[i].translation
  {
    if es != [] {
      var init, last := es[..|es| - 1], es[|es| - 1];
      RunSnoc(Intended, t0, p, es);
      RunIntendedStoresTexts(t0, p, init);
      RunResolves(Intended, t0, p, init);
      var t := Run(Intended, t0, p, init).tables;
      var t' := Run(Intended, t0, p, es).tables;
      forall i | 0 <= i < |es| && LastOfItsKey(es, i, p.resource)
        ensures Resolved(t', p, es[i]) && StoredTranslation(t', p, es[i]).text == es[i].translation
      {
        if i == |es| - 1 {
          StepResolves(Intended, t, p, last);
          StepStoresText(t, p, last);
        } else {
          assert init[i] == es[i] && es[i] in init;
          assert LastOfItsKey(init, i, p.resource);
          StepKeepsResolved(Intended, t, p, last, es[i]);
        }
      }
    }
  }

  /** Intended, with overwrite on: the stepped entry's slot holds the entry's text. */
  lemma StepStoresText(t: Tables, p: Params, e: Entry)
    requires p.overwrite
    requires Step(Intended, t, p, e).Applied?
    ensures Resolved(Step(Intended, t, p, e).tables, p, e)
    ensures StoredTranslation(Step(Intended, t, p, e).tables, p, e).text == e.translation
  {
    StepResolves(Intended, t, p, e);
    var (entities, se) := GetOrCreateEntity(t.entities, EntryKey(e, p.resource)).value;
    ResolveTranslationSpec(Intended, t.translations, Slot(se, p.language, p.resource, e.number),
                           e.translation, p.user, p.overwrite);
  }

  // ---------------------------------------------------------------------------
  // One file merged twice: "Hello" translated "Bonjour", then "Salut", overwrite on

  function Hello(text: string): Entry {
    Entry("Hello", None, 0, text)
  }

  /** The catalog after merging "Bonjour" into an empty catalog, as resource 1, language 2. */
  function BonjourTables(): Tables {
    Tables([SourceEntity("Hello", "None", 1, 0, Some(1))], [Translation(0, 2, 1, 0, "Bonjour", None)])
  }

  lemma {:induction false} FirstMergeCreates()
    ensures Merge(Tables([], []), Params(1, 2, None, true), [Hello("Bonjour")])
         == Committed(BonjourTables(), 1, 0)
  {
    var p := Params(1, 2, None, true);
    var key, sl := EntryKey(Hello("Bonjour"), 1), Slot(0, 2, 1, 0);
    var t := BonjourTables();
    assert GetOrCreateEntity([], key) == Some((t.entities, 0)) by {
      assert EntityMatches([], key) == [];
      assert [] + [NewEntity(key)] == t.entities;
    }
    assert ResolveTranslation(AsWritten, [], sl, "Bonjour", None, true) == Put(t.translations, true, false) by {
      assert TranslationMatches([], sl) == [];
    }
    assert Step(AsWritten, Tables([], []), p, Hello("Bonjour")) == Applied(t, true, false);
    assert [Hello("Bonjour")][..0] == [];
  }

  /** As written: the second merge reaches the unbound `ts` and rolls back. */
  lemma {:induction false} SecondMergeAbortsAsWritten()
    ensures Merge(BonjourTables(), Params(1, 2, None, true), [Hello("Salut")]) == RolledBack(UnboundName)
  {
    var t := BonjourTables();
    var p := Params(1, 2, None, true);
    var key, sl := EntryKey(Hello("Salut"), 1), Slot(0, 2, 1, 0);
    assert GetOrCreateEntity(t.entities, key) == Some((t.entities, 0)) by {
      assert t.entities[..0] == [];
      assert EntityMatches(t.entities, key) == [0];
    }
    assert ResolveTranslation(AsWritten, t.translations, sl, "Salut", None, true) == Threw(UnboundName) by {
      assert t.translations[..0] == [];
      assert TranslationMatches(t.translations, sl) == [0];
    }
    assert Step(AsWritten, t, p, Hello("Salut")) == Raised(UnboundName);
    assert [Hello("Salut")][..0] == [];
  }

  /** Intended: the second merge rewrites the stored text and reports one update. */
  lemma {:induction false} SecondMergeUpdatesIntended()
    ensures MergeIntended(BonjourTables(), Params(1, 2, None, true), [Hello("Salut")])
         == Committed(Tables(BonjourTables().entities, [Translation(0, 2, 1, 0, "Salut", None)]), 0, 1)
  {
    var t := BonjourTables();
    var p := Params(1, 2, None, true);
    var key, sl := EntryKey(Hello("Salut"), 1), Slot(0, 2, 1, 0);
    var ts' := [Translation(0, 2, 1, 0, "Salut", None)];
    assert GetOrCreateEntity(t.entities, key) == Some((t.entities, 0)) by {
      assert t.entities[..0] == [];
      assert EntityMatches(t.entities, key) == [0];
    }
    assert ResolveTranslation(Intended, t.translations, sl, "Salut", None, true) == Put(ts', false, true) by {
      assert t.translations[..0] == [];
      assert TranslationMatches(t.translations, sl) == [0];
      assert t.translations[0 := t.translations[0].(text := "Salut")] == ts';
    }
    assert Step(Intended, t, p, Hello("Salut")) == Applied(Tables(t.entities, ts'), false, true);
    assert [Hello("Salut")][..0] == [];
  }
}

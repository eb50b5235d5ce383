/**
 * `StorageFile` (transifex/happix/models.py:513-585): an uploaded file, where it
 * is stored, whether strings could be extracted from it, and `update_props`,
 * which picks the first parser accepting the file name and fills in the MIME
 * type, the language and the number of strings from what that parser reads.
 *
 * The parser registry, the parsers' file reading and the language lookup are
 * passed in as values: the registry as a sequence, `parse_file` and
 * `Language.objects.by_code_or_alias` as functions (None standing for an empty
 * parse result and for `Language.DoesNotExist`).
 */
module Storage {
  import opened Wrappers
  import opened Schema
  import opened MergeEngine

  /** A registered parser: its MIME type and its `accept(filename)` test. */
  datatype Parser = Parser(mimeType: string, accepts: string -> bool)

  /** `get_storage_path`: "/tmp/<uuid>-<name>". */
  function StoragePath(uuid: string, name: string): (path: string)
    ensures |path| == 6 + |uuid| + |name|
    ensures path[..5] == "/tmp/"
    ensures path[5..5 + |uuid|] == uuid && path[5 + |uuid|] == '-' && path[6 + |uuid|..] == name
  {
    "/tmp/" + uuid + "-" + name
  }

  /**
   * For uuids of one length, distinct files get distinct paths and the path
   * gives back the uuid and the name. Without that hypothesis the layout is
   * ambiguous: see StoragePathAmbiguous.
   */
  lemma StoragePathInjective(u1: string, n1: string, u2: string, n2: string)
    requires |u1| == |u2|
    ensures StoragePath(u1, n1) == StoragePath(u2, n2) <==> u1 == u2 && n1 == n2
  {
    var p1, p2 := StoragePath(u1, n1), StoragePath(u2, n2);
    if p1 == p2 {
      assert u1 == p1[5..5 + |u1|] == p2[5..5 + |u2|] == u2;
      assert n1 == p1[6 + |u1|..] == p2[6 + |u2|..] == n2;
    }
  }

  /**
   * `translatable`: whether strings could be extracted. Python 2 compares None
   * below every integer, so a file with no recorded count is not translatable.
   */
  function Translatable(totalStrings: Option<int>): (r: bool)
    ensures totalStrings.None? ==> !r
    ensures totalStrings.Some? ==> (r <==> totalStrings.value >= 1)
  {
    totalStrings.Some? && totalStrings.value > 0
  }

  /**
   * `uuid` is free text, so two different files can share a path: uuid "a-b"
   * with name "c" and uuid "a" with name "b-c" are both stored at "/tmp/a-b-c".
   */
  lemma StoragePathAmbiguous()
    ensures StoragePath("a-b", "c") == StoragePath("a", "b-c") == "/tmp/a-b-c"
  {
  }

  /** The index of the first parser in the registry that accepts the file name, if any. */
  function FirstAccepting(parsers: seq<Parser>, name: string): (r: Option<nat>)
    ensures r.Some? ==> r.value < |parsers| && parsers[r.value].accepts(name)
    ensures r.Some? ==> forall j :: 0 <= j < r.value ==> !parsers[j].accepts(name)
    ensures r.None? <==> forall j :: 0 <= j < |parsers| ==> !parsers[j].accepts(name)
  {
    if parsers == [] then None
    else if parsers[0].accepts(name) then Some(0)
    else
      match FirstAccepting(parsers[1..], name)
      case None => None
      case Some(i) => Some(i + 1)
  }

  class StorageFile {
    var name: string
    var uuid: string
    var mimeType: string
    var language: Option<LanguageId>
    var totalStrings: Option<int>

    /** A freshly uploaded file: nothing is known about its contents yet. */
    constructor (name: string, uuid: string, mimeType: string)
      ensures this.name == name && this.uuid == uuid && this.mimeType == mimeType
      ensures language.None? && totalStrings.None?
      ensures !Translatable(totalStrings)
    {
      this.name := name;
      this.uuid := uuid;
      this.mimeType := mimeType;
      language := None;
      totalStrings := None;
    }

    function Path(): string
      reads this
    {
      StoragePath(uuid, name)
    }

    /**
     * `update_props`: the first accepting parser sets the MIME type; if it reads
     * a stringset from the stored file, the declared target language is looked up
     * (a failed lookup keeps the old language) and the number of strings is
     * recorded, so the file is translatable exactly when it has strings. Without
     * an accepting parser, or with an empty parse result, nothing further changes.
     */
    method UpdateProps(parsers: seq<Parser>, parseFile: (Parser, string) -> Option<StringSet>,
                       byCodeOrAlias: string -> Option<LanguageId>)
      modifies this
      ensures name == old(name) && uuid == old(uuid)
      ensures FirstAccepting(parsers, name).None? ==>
        mimeType == old(mimeType) && language == old(language) && totalStrings == old(totalStrings)
      ensures FirstAccepting(parsers, name).Some? ==>
        var parser := parsers[FirstAccepting(parsers, name).value];
        && mimeType == parser.mimeType
        && match parseFile(parser, Path())
           case None => language == old(language) && totalStrings == old(totalStrings)
           case Some(ss) =>
             && totalStrings == Some(|ss.strings|)
             && (Translatable(totalStrings) <==> ss.strings != [])
             && language == (if ss.targetLanguage.Some? && ss.targetLanguage.value != []
                                && byCodeOrAlias(ss.targetLanguage.value).Some?
                             then byCodeOrAlias(ss.targetLanguage.value) else old(language))
    {
      var chosen: Option<nat> := None;
      var k := 0;
      while k < |parsers|
        invariant 0 <= k <= |parsers|
        invariant forall j :: 0 <= j < k ==> !parsers[j].accepts(name)
      {
        if parsers[k].accepts(name) {
          chosen := Some(k);
          break;
        }
        k := k + 1;
      }
      if chosen.None? {
        return;
      }
      var parser := parsers[chosen.value];
      mimeType := parser.mimeType;
      var stringset := parseFile(parser, Path());
      if stringset.None? {
        return;
      }
      var ss := stringset.value;
      if ss.targetLanguage.Some? && ss.targetLanguage.value != [] {
        var found := byCodeOrAlias(ss.targetLanguage.value);
        if found.Some? {
          language := found;
        }
      }
      totalStrings := Some(|ss.strings|);
    }
  }
}

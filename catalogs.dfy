/**
 * Catalogue building: for one locale and one bundle, the map from each
 * required id to the text that locale shows for it.
 */
module Catalogs {
  import opened Wrappers
  import opened Requirements

  /** One row of a locale's translation table. */
  datatype Row = Row(identifier: MessageId, translation: string)

  /** The Intl code of the source locale, whose catalogues come from the default texts. */
  const English: string := "en"

  /** Index of the first row for `id`, in table order. */
  function FirstIndex(rows: seq<Row>, id: MessageId): (r: Option<nat>)
    ensures r.Some? ==> r.value < |rows| && rows[r.value].identifier == id
    ensures r.Some? ==> forall j :: 0 <= j < r.value ==> rows[j].identifier != id
    ensures r.None? ==> forall j :: 0 <= j < |rows| ==> rows[j].identifier != id
  {
    if rows == [] then None
    else if rows[0].identifier == id then Some(0)
    else
      match FirstIndex(rows[1..], id)
      case None => None
      case Some(k) => Some(k + 1)
  }

  /** `rows.find(o => o.Identifier === id)`: the first matching row, if any. */
  function Lookup(rows: seq<Row>, id: MessageId): Option<Row>
  {
    match FirstIndex(rows, id)
    case None => None
    case Some(k) => Some(rows[k])
  }

  /** The linear scan behind `find`. */
  method Find(rows: seq<Row>, id: MessageId) returns (definition: Option<Row>)
    ensures definition == Lookup(rows, id)
  {
    var i := 0;
    while i < |rows|
      invariant i <= |rows|
      invariant forall j :: 0 <= j < i ==> rows[j].identifier != id
    {
      if rows[i].identifier == id {
        return Some(rows[i]);
      }
      i := i + 1;
    }
    return None;
  }

  /** Every id in `ids` has a default text. */
  predicate HasDefaults(ids: seq<MessageId>, defaults: map<MessageId, string>)
  {
    forall id :: id in ids ==> id in defaults
  }

  /**
   * The catalogue the per-id loop builds: ids are visited in order; the
   * source locale takes the default text, any other locale the translation
   * of the first matching row, and an id without a row is skipped.
   */
  function CatalogOf(intlCode: string, ids: seq<MessageId>, defaults: map<MessageId, string>, rows: seq<Row>): map<MessageId, string>
    requires intlCode == English ==> HasDefaults(ids, defaults)
  {
    if ids == [] then map[]
    else
      var init, id := ids[..|ids| - 1], ids[|ids| - 1];
      assert forall m :: m in init ==> m in ids;
      var messages := CatalogOf(intlCode, init, defaults, rows);
      if intlCode == English then messages[id := defaults[id]]
      else
        match Lookup(rows, id)
        case Some(definition) => messages[id := definition.translation]
        case None => messages
  }

  /** No id outside the bundle's required ids is ever added. */
  lemma {:induction false} CatalogWithinRequired(intlCode: string, ids: seq<MessageId>, defaults: map<MessageId, string>, rows: seq<Row>)
    requires intlCode == English ==> HasDefaults(ids, defaults)
    ensures forall id :: id in CatalogOf(intlCode, ids, defaults, rows) ==> id in ids
  {
    if ids != [] {
      var init := ids[..|ids| - 1];
      assert forall m :: m in init ==> m in ids;
      CatalogWithinRequired(intlCode, init, defaults, rows);
    }
  }

  /** For the source locale every required id is present with its default text. */
  lemma {:induction false} EnglishCatalogComplete(ids: seq<MessageId>, defaults: map<MessageId, string>, rows: seq<Row>)
    requires HasDefaults(ids, defaults)
    ensures forall id :: id in CatalogOf(English, ids, defaults, rows) <==> id in ids
    ensures forall id :: id in ids ==> CatalogOf(English, ids, defaults, rows)[id] == defaults[id]
  {
    if ids != [] {
      var init := ids[..|ids| - 1];
      assert forall m :: m in init ==> m in ids;
      assert ids == init + [ids[|ids| - 1]];
      EnglishCatalogComplete(init, defaults, rows);
    }
  }

  /**
   * For any other locale an id is present exactly when it is required and
   * some row carries it, and its value is the translation of the first such
   * row, an empty translation included.
   */
  lemma {:induction false} TranslatedCatalogFirstMatch(intlCode: string, ids: seq<MessageId>, defaults: map<MessageId, string>, rows: seq<Row>)
    requires intlCode != English
    ensures forall id :: id in CatalogOf(intlCode, ids, defaults, rows) <==>
      id in ids && exists k :: 0 <= k < |rows| && rows[k].identifier == id
    ensures forall id :: id in CatalogOf(intlCode, ids, defaults, rows) ==>
      FirstIndex(rows, id).Some? &&
      CatalogOf(intlCode, ids, defaults, rows)[id] == rows[FirstIndex(rows, id).value].translation
  {
    if ids != [] {
      var init := ids[..|ids| - 1];
      assert ids == init + [ids[|ids| - 1]];
      TranslatedCatalogFirstMatch(intlCode, init, defaults, rows);
    }
  }

  /**
   * One bundle requiring `ns.a` and `ns.b`: the source locale gets both
   * default texts; a table with only `ns.a` yields `ns.a` alone; and when the
   * first row for `ns.a` has an empty translation, that empty text is what
   * the catalogue holds.
   */
  lemma {:induction false} TwoMessageScenario()
    ensures
      var ids, defaults := ["ns.a", "ns.b"], map["ns.a" := "Hello", "ns.b" := "Bye"];
      && CatalogOf(English, ids, defaults, []) == defaults
      && CatalogOf("fr", ids, defaults, [Row("ns.a", "Bonjour")]) == map["ns.a" := "Bonjour"]
      && CatalogOf("fr", ids, defaults, [Row("ns.a", ""), Row("ns.a", "Salut")]) == map["ns.a" := ""]
  {
    var ids, defaults := ["ns.a", "ns.b"], map["ns.a" := "Hello", "ns.b" := "Bye"];
    assert ids[..1] == ["ns.a"] && ids[..1][..0] == [];
    assert "ns.a" != "ns.b" by { assert "ns.a"[3] != "ns.b"[3]; }
    assert FirstIndex([Row("ns.a", "Bonjour")], "ns.b") == None;
    assert FirstIndex([Row("ns.a", ""), Row("ns.a", "Salut")], "ns.b") == None;
  }

  /**
   * The per-bundle loop: builds the catalogue and collects the ids for
   * which an error is logged because no row carries them.
   */
  method BuildCatalog(intlCode: string, ids: seq<MessageId>, defaults: map<MessageId, string>, rows: seq<Row>)
    returns (messages: map<MessageId, string>, missing: seq<MessageId>)
    requires intlCode == English ==> HasDefaults(ids, defaults)
    ensures messages == CatalogOf(intlCode, ids, defaults, rows)
    ensures forall id :: id in missing <==> intlCode != English && id in ids && Lookup(rows, id).None?
  {
    messages := map[];
    missing := [];
    for i := 0 to |ids|
      invariant messages == CatalogOf(intlCode, ids[..i], defaults, rows)
      invariant forall id :: id in missing <==> intlCode != English && id in ids[..i] && Lookup(rows, id).None?
    {
      var msg := ids[i];
      assert ids[..i + 1] == ids[..i] + [msg];
      var definition := Find(rows, msg);
      if intlCode == English {
        messages := messages[msg := defaults[msg]];
        continue;
      }
      if definition.Some? {
        messages := messages[msg := definition.value.translation];
      } else {
        missing := missing + [msg];
      }
    }
    assert ids[..|ids|] == ids;
  }
}

/**
 * Requirement collection: one pass over the bundle descriptors that records,
 * per bundle, the message ids it needs, and merges every bundle's default
 * (English) texts into one table.
 */
module Requirements {
  import opened Wrappers

  type BundleName = string
  type MessageId = string

  /** One extracted message: its id (`namespace.key`) and its default text. */
  datatype Message = Message(id: MessageId, text: string)

  /**
   * What an extractor returns for a bundle: the entries of an object keyed by
   * message id, in the object's key order.
   */
  type Messages = seq<Message>

  /** A bundle descriptor: `entry` is present for an entry-point bundle. */
  datatype PathInfo = PathInfo(name: BundleName, moduleFilePath: string, entry: Option<string>)

  /**
   * The two message extractors, with the ignore patterns and the verbosity
   * flag already applied: one walks the module graph from an entry point, the
   * other reads a single module file.
   */
  datatype Extractor = Extractor(
    fromEntryFiles: (string, string) -> Messages,
    fromFilePath: string -> Messages)

  /** A bundle together with what was extracted for it. */
  datatype Bundle = Bundle(name: BundleName, messages: Messages)

  /**
   * The outcome of collection: `required` maps each bundle name to its
   * required ids, `names` lists those bundle names in the order the mapping
   * first received them, `defaults` is the merged default-text table.
   */
  datatype Collection = Collection(
    names: seq<BundleName>,
    required: map<BundleName, seq<MessageId>>,
    defaults: map<MessageId, string>)
  {
    /** `names` enumerates the keys of `required`, each once. */
    predicate WellFormed() {
      && (forall i, j :: 0 <= i < j < |names| ==> names[i] != names[j])
      && (forall n :: n in names ==> n in required)
      && (forall n :: n in required ==> n in names)
    }

    /** Every required id of every bundle has a default text. */
    predicate Complete() {
      forall n, id :: n in required && id in required[n] ==> id in defaults
    }
  }

  /** Chooses the extractor the way the descriptor asks for. */
  function Extract(x: Extractor, p: PathInfo): Messages
  {
    if p.entry.Some? then x.fromEntryFiles(p.entry.value, p.moduleFilePath)
    else x.fromFilePath(p.moduleFilePath)
  }

  /** The descriptors paired with their extraction results, in order. */
  function Extracted(x: Extractor, paths: seq<PathInfo>): (bundles: seq<Bundle>)
    ensures |bundles| == |paths|
    ensures forall i :: 0 <= i < |paths| ==> bundles[i] == Bundle(paths[i].name, Extract(x, paths[i]))
  {
    if paths == [] then []
    else
      var last := paths[|paths| - 1];
      Extracted(x, paths[..|paths| - 1]) + [Bundle(last.name, Extract(x, last))]
  }

  /** `Object.keys` of an extraction result. */
  function Ids(msgs: Messages): seq<MessageId>
  {
    seq(|msgs|, i requires 0 <= i < |msgs| => msgs[i].id)
  }

  /** `Object.assign(target, object)`: the object's entries overwrite `target` in order. */
  function Assign(target: map<MessageId, string>, msgs: Messages): map<MessageId, string>
  {
    if msgs == [] then target
    else
      var last := msgs[|msgs| - 1];
      Assign(target, msgs[..|msgs| - 1])[last.id := last.text]
  }

  /** An extraction result read as a map from id to default text. */
  function Table(msgs: Messages): map<MessageId, string>
  {
    Assign(map[], msgs)
  }

  /** Merging an object into a table is a map override: the object's values win. */
  lemma {:induction false} AssignOverrides(target: map<MessageId, string>, msgs: Messages)
    ensures Assign(target, msgs) == target + Table(msgs)
  {
    if msgs != [] {
      var init, last := msgs[..|msgs| - 1], msgs[|msgs| - 1];
      AssignOverrides(target, init);
      AssignOverrides(map[], init);
    }
  }

  /** The ids of an extraction result are exactly the keys of its table. */
  lemma {:induction false} TableKeys(msgs: Messages)
    ensures forall id :: id in Table(msgs) <==> id in Ids(msgs)
  {
    if msgs != [] {
      var init := msgs[..|msgs| - 1];
      TableKeys(init);
      assert Ids(msgs) == Ids(init) + [msgs[|msgs| - 1].id];
    }
  }

  /** The table holds the text of the last entry for each id. */
  lemma {:induction false} TableValue(msgs: Messages, i: nat)
    requires i < |msgs|
    requires forall j :: i < j < |msgs| ==> msgs[j].id != msgs[i].id
    ensures msgs[i].id in Table(msgs) && Table(msgs)[msgs[i].id] == msgs[i].text
  {
    if i < |msgs| - 1 {
      TableValue(msgs[..|msgs| - 1], i);
    }
  }

  /** `requiredMessages`: each bundle name mapped to the keys of its extraction result. */
  function RequiredOf(bundles: seq<Bundle>): map<BundleName, seq<MessageId>>
  {
    if bundles == [] then map[]
    else
      var last := bundles[|bundles| - 1];
      RequiredOf(bundles[..|bundles| - 1])[last.name := Ids(last.messages)]
  }

  /** The key order of `requiredMessages`: a name takes its place when first assigned. */
  function NamesOf(bundles: seq<Bundle>): seq<BundleName>
  {
    if bundles == [] then []
    else
      var names, last := NamesOf(bundles[..|bundles| - 1]), bundles[|bundles| - 1];
      if last.name in names then names else names + [last.name]
  }

  /** `allDefaultMessages`: every extraction result assigned in bundle order. */
  function DefaultsOf(bundles: seq<Bundle>): map<MessageId, string>
  {
    if bundles == [] then map[]
    else Assign(DefaultsOf(bundles[..|bundles| - 1]), bundles[|bundles| - 1].messages)
  }

  /** The bundle names are listed once each, and they are exactly the keys of `requiredMessages`. */
  lemma {:induction false} NamesEnumerateRequired(bundles: seq<Bundle>)
    ensures Collection(NamesOf(bundles), RequiredOf(bundles), map[]).WellFormed()
    ensures forall n :: n in RequiredOf(bundles) <==> exists i :: 0 <= i < |bundles| && bundles[i].name == n
  {
    if bundles != [] {
      var init := bundles[..|bundles| - 1];
      NamesEnumerateRequired(init);
      assert forall i :: 0 <= i < |init| ==> init[i] == bundles[i];
    }
  }

  /**
   * A bundle's required ids are the keys of its own extraction result, taken
   * from the last descriptor with that name.
   */
  lemma {:induction false} RequiredIsExtractionKeys(bundles: seq<Bundle>, k: nat)
    requires k < |bundles|
    requires forall j :: k < j < |bundles| ==> bundles[j].name != bundles[k].name
    ensures bundles[k].name in RequiredOf(bundles)
    ensures RequiredOf(bundles)[bundles[k].name] == Ids(bundles[k].messages)
    ensures forall id :: id in RequiredOf(bundles)[bundles[k].name] <==> id in Table(bundles[k].messages)
  {
    if k < |bundles| - 1 {
      var init := bundles[..|bundles| - 1];
      RequiredIsExtractionKeys(init, k);
    }
    TableKeys(bundles[k].messages);
  }

  /** The default table holds exactly the ids some bundle extracted. */
  lemma {:induction false} DefaultsKeys(bundles: seq<Bundle>)
    ensures forall id :: id in DefaultsOf(bundles) <==>
      exists i :: 0 <= i < |bundles| && id in Ids(bundles[i].messages)
  {
    if bundles != [] {
      var init, last := bundles[..|bundles| - 1], bundles[|bundles| - 1];
      DefaultsKeys(init);
      AssignOverrides(DefaultsOf(init), last.messages);
      TableKeys(last.messages);
      assert forall i :: 0 <= i < |init| ==> init[i] == bundles[i];
    }
  }

  /**
   * Last write wins: an id takes the text from the last bundle that extracted
   * it, whatever earlier bundles said.
   */
  lemma {:induction false} DefaultsLastWriteWins(bundles: seq<Bundle>, k: nat, id: MessageId)
    requires k < |bundles| && id in Table(bundles[k].messages)
    requires forall j :: k < j < |bundles| ==> id !in Table(bundles[j].messages)
    ensures id in DefaultsOf(bundles)
    ensures DefaultsOf(bundles)[id] == Table(bundles[k].messages)[id]
  {
    var init, last := bundles[..|bundles| - 1], bundles[|bundles| - 1];
    AssignOverrides(DefaultsOf(init), last.messages);
    if k < |bundles| - 1 {
      DefaultsLastWriteWins(init, k, id);
    }
  }

  /** Every id a bundle requires has a default text. */
  lemma {:induction false} RequiredHaveDefaults(bundles: seq<Bundle>)
    ensures Collection([], RequiredOf(bundles), DefaultsOf(bundles)).Complete()
  {
    if bundles != [] {
      var init, last := bundles[..|bundles| - 1], bundles[|bundles| - 1];
      RequiredHaveDefaults(init);
      AssignOverrides(DefaultsOf(init), last.messages);
      TableKeys(last.messages);
    }
  }

  /** The full outcome of collection over extracted bundles. */
  function Collected(bundles: seq<Bundle>): (c: Collection)
    ensures c.WellFormed() && c.Complete()
  {
    NamesEnumerateRequired(bundles);
    RequiredHaveDefaults(bundles);
    Collection(NamesOf(bundles), RequiredOf(bundles), DefaultsOf(bundles))
  }

  /** One more descriptor in the collection loop. */
  lemma CollectStep(x: Extractor, paths: seq<PathInfo>, i: nat)
    requires i < |paths|
    ensures
      var done, b := Extracted(x, paths[..i]), Bundle(paths[i].name, Extract(x, paths[i]));
      && Extracted(x, paths[..i + 1]) == done + [b]
      && NamesOf(done + [b]) == (if b.name in RequiredOf(done) then NamesOf(done) else NamesOf(done) + [b.name])
      && RequiredOf(done + [b]) == RequiredOf(done)[b.name := Ids(b.messages)]
      && DefaultsOf(done + [b]) == Assign(DefaultsOf(done), b.messages)
  {
    var done, b := Extracted(x, paths[..i]), Bundle(paths[i].name, Extract(x, paths[i]));
    assert paths[..i + 1][..i] == paths[..i];
    assert (done + [b])[..|done|] == done;
    NamesEnumerateRequired(done);
  }

  /** The loop over the bundle descriptors that fills `requiredMessages` and `allDefaultMessages`. */
  method CollectRequirements(paths: seq<PathInfo>, x: Extractor) returns (c: Collection)
    ensures c == Collected(Extracted(x, paths))
    ensures c.WellFormed() && c.Complete()
  {
    var names: seq<BundleName> := [];
    var required: map<BundleName, seq<MessageId>> := map[];
    var defaults: map<MessageId, string> := map[];
    for i := 0 to |paths|
      invariant names == NamesOf(Extracted(x, paths[..i]))
      invariant required == RequiredOf(Extracted(x, paths[..i]))
      invariant defaults == DefaultsOf(Extracted(x, paths[..i]))
    {
      var pathData := paths[i];
      var messages: Messages;
      if pathData.entry.Some? {
        messages := x.fromEntryFiles(pathData.entry.value, pathData.moduleFilePath);
      } else {
        messages := x.fromFilePath(pathData.moduleFilePath);
      }
      CollectStep(x, paths, i);
      if pathData.name !in required {
        names := names + [pathData.name];
      }
      required := required[pathData.name := Ids(messages)];
      defaults := Assign(defaults, messages);
    }
    assert paths[..|paths|] == paths;
    c := Collection(names, required, defaults);
  }
}

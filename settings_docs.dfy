/** The settings collection as a sequence of documents, and the lookups and
    updates the store sends to it by the fixed name "settings". */
module SettingsDocs {
  import opened Records

  const SettingsName: string := "settings"

  /** The record `setDefaultSettings` inserts. */
  const DefaultDoc: SettingsDoc := SettingsDoc(SettingsName, Some(true), None)

  /** Position of the first document named "settings", if any. */
  function SettingsIndex(docs: seq<SettingsDoc>): (r: Option<nat>)
    ensures r.Some? ==> r.value < |docs| && docs[r.value].name == SettingsName
    ensures r.Some? ==> forall j :: 0 <= j < r.value ==> docs[j].name != SettingsName
    ensures r.None? ==> forall j :: 0 <= j < |docs| ==> docs[j].name != SettingsName
  {
    if docs == [] then None
    else if docs[0].name == SettingsName then Some(0)
    else match SettingsIndex(docs[1..])
      case None => None
      case Some(i) => Some(i + 1)
  }

  /** Number of documents named "settings"; zero exactly when the lookup finds
      nothing. */
  function NamedCount(docs: seq<SettingsDoc>): (r: nat)
    ensures r <= |docs|
    ensures r == 0 <==> SettingsIndex(docs).None?
  {
    if docs == [] then 0
    else (if docs[0].name == SettingsName then 1 else 0) + NamedCount(docs[1..])
  }

  lemma {:induction false} NamedCountAppend(docs: seq<SettingsDoc>, d: SettingsDoc)
    ensures NamedCount(docs + [d]) == NamedCount(docs) + (if d.name == SettingsName then 1 else 0)
  {
    if docs != [] {
      assert (docs + [d])[1..] == docs[1..] + [d];
      NamedCountAppend(docs[1..], d);
    }
  }

  /** The collection after `setDefaultSettings` inserted its record (when the
      lookup found none): a settings record is always there afterwards, and the
      documents before are kept, with at most one added after them. */
  function WithDefault(docs: seq<SettingsDoc>): (r: seq<SettingsDoc>)
    ensures SettingsIndex(r).Some?
    ensures |docs| <= |r| <= |docs| + 1 && r[..|docs|] == docs
  {
    if SettingsIndex(docs).None? then
      assert (docs + [DefaultDoc])[|docs|] == DefaultDoc;
      docs + [DefaultDoc]
    else docs
  }

  /** From a collection with at most one settings record, defaulting leaves
      exactly one. */
  lemma DefaultGivesSingleton(docs: seq<SettingsDoc>)
    requires NamedCount(docs) <= 1
    ensures NamedCount(WithDefault(docs)) == 1
  {
    NamedCountAppend(docs, DefaultDoc);
  }

  /** Without a record, defaulting creates one with `notyet` set and nothing
      else; with one, the collection is left exactly as it was. */
  lemma DefaultCreatesOrKeeps(docs: seq<SettingsDoc>)
    ensures SettingsIndex(docs).None? ==>
      var r := WithDefault(docs);
      |r| == |docs| + 1 && r[..|docs|] == docs && r[|docs|] == DefaultDoc
      && SettingsIndex(r) == Some(|docs|) && r[|docs|] == SettingsDoc(SettingsName, Some(true), None)
    ensures SettingsIndex(docs).Some? ==> WithDefault(docs) == docs
  {
    if SettingsIndex(docs).None? {
      var r := docs + [DefaultDoc];
      assert r[|docs|].name == SettingsName;
      assert r[..|docs|] == docs;
    }
  }

  /** Defaulting twice is defaulting once. */
  lemma DefaultIdempotent(docs: seq<SettingsDoc>)
    ensures WithDefault(WithDefault(docs)) == WithDefault(docs)
  {
    if SettingsIndex(docs).None? {
      var r := docs + [DefaultDoc];
      assert r[|docs|].name == SettingsName;
    }
  }

  /** A `$set` of one of the two flags. */
  datatype Patch = NotYetFlag(notyet: bool) | FullscreenFlag(fullscreen: bool)

  /** A record after a patch: the flag it names holds the new value; the name
      and the other flag are kept. */
  function Apply(d: SettingsDoc, p: Patch): (r: SettingsDoc)
    ensures r.name == d.name
    ensures p.NotYetFlag? ==> r.notyet == Some(p.notyet) && r.fullscreen == d.fullscreen
    ensures p.FullscreenFlag? ==> r.fullscreen == Some(p.fullscreen) && r.notyet == d.notyet
  {
    match p
    case NotYetFlag(b) => d.(notyet := Some(b))
    case FullscreenFlag(b) => d.(fullscreen := Some(b))
  }

  /** The collection after an update of the first settings record; with no such
      record the update matches nothing. */
  function Patched(docs: seq<SettingsDoc>, p: Patch): (r: seq<SettingsDoc>)
    ensures |r| == |docs|
    ensures forall j :: 0 <= j < |docs| ==> r[j].name == docs[j].name
    ensures forall j :: 0 <= j < |docs| && SettingsIndex(docs) != Some(j) ==> r[j] == docs[j]
  {
    match SettingsIndex(docs)
    case None => docs
    case Some(i) => docs[i := Apply(docs[i], p)]
  }

  /** An update changes no names, so it neither adds nor removes settings records. */
  lemma {:induction false} PatchedKeepsCount(docs: seq<SettingsDoc>, p: Patch)
    ensures NamedCount(Patched(docs, p)) == NamedCount(docs)
  {
    SameNamesSameCount(docs, Patched(docs, p));
  }

  lemma {:induction false} SameNamesSameCount(a: seq<SettingsDoc>, b: seq<SettingsDoc>)
    requires |a| == |b| && forall j :: 0 <= j < |a| ==> a[j].name == b[j].name
    ensures NamedCount(a) == NamedCount(b)
  {
    if a != [] {
      SameNamesSameCount(a[1..], b[1..]);
    }
  }

  /** After an update of a flag on an existing record, the lookup reads back the
      value just written, and the other flag is untouched. */
  lemma PatchedReadsBack(docs: seq<SettingsDoc>, p: Patch)
    requires SettingsIndex(docs).Some?
    ensures SettingsIndex(Patched(docs, p)) == SettingsIndex(docs)
    ensures var i := SettingsIndex(docs).value;
            var d := Patched(docs, p)[i];
            match p
            case NotYetFlag(b) => d.notyet == Some(b) && d.fullscreen == docs[i].fullscreen
            case FullscreenFlag(b) => d.fullscreen == Some(b) && d.notyet == docs[i].notyet
  {
    var r := Patched(docs, p);
    SameNamesSameIndex(docs, r);
  }

  lemma {:induction false} SameNamesSameIndex(a: seq<SettingsDoc>, b: seq<SettingsDoc>)
    requires |a| == |b| && forall j :: 0 <= j < |a| ==> a[j].name == b[j].name
    ensures SettingsIndex(a) == SettingsIndex(b)
  {
    if a != [] {
      SameNamesSameIndex(a[1..], b[1..]);
    }
  }
}

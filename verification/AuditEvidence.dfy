/**
 What a completion audit says about its proofs: the evidence URIs, the proof event IDs and the
 provenance that a snapshot seals.

 A proof is named by its audit item and metadata key.
 */
module AuditEvidence {

  import opened Wrappers
  import Text
  import MarkerScan
  import opened Sorting
  import opened CompletionAudit

  datatype Ref = Ref(item: string, key: string)

  // The audit items, the metadata keys that must be there and those the hash leaves out, by item.
  datatype Profile = Profile(
    items: seq<string>, uriKeys: map<string, seq<string>>, eventKeys: map<string, seq<string>>,
    provenanceKeys: map<string, seq<string>>, volatileKeys: map<string, seq<string>>)

  function KeysFor(keys: map<string, seq<string>>, item: string): seq<string> {
    if item in keys then keys[item] else []
  }

  // The required proofs, item by item.
  function Required(keys: map<string, seq<string>>, items: seq<string>): seq<Ref> {
    if items == [] then []
    else
      var item := items[|items| - 1];
      var names := KeysFor(keys, item);
      Required(keys, items[..|items| - 1]) + seq(|names|, i requires 0 <= i < |names| => Ref(item, names[i]))
  }

  // ---------- values ----------

  function NonBlank(texts: seq<string>): seq<string> {
    if texts == [] then []
    else
      var rest := NonBlank(texts[..|texts| - 1]);
      var t := Text.TrimSpace(texts[|texts| - 1]);
      if t == "" then rest else rest + [t]
  }

  // completionAuditSnapshotEvidenceURIValues.
  function Values(v: Value): seq<string> {
    match v
    case Words(t) => NonBlank([t])
    case List(ts) => NonBlank(ts)
    case _ => []
  }

  function ValuesOf(item: Item, key: string): seq<string> {
    if key in item.metadata then Values(item.metadata[key]) else []
  }

  function NumberOf(item: Item, key: string): int {
    if key in item.metadata && item.metadata[key].Number? then item.metadata[key].number else 0
  }

  function TextOf(item: Item, key: string): string {
    if key in item.metadata && item.metadata[key].Words? then item.metadata[key].text else ""
  }

  predicate Contains(s: string, part: string) {
    exists i | 0 <= i <= |s| :: MarkerScan.OccursAt(s, part, i)
  }

  predicate NamesUri(key: string) {
    Contains(Text.Lower(key), "evidence_uri")
  }

  predicate NamesEvent(key: string) {
    Contains(key, "proof_event_id")
  }

  predicate Clean(u: string) {
    u != "" && Text.TrimSpace(u) == u
  }

  // Values are trimmed and not blank, so reading a list of them again gives the same list.
  lemma {:induction false} NonBlankIsClean(texts: seq<string>)
    ensures forall u | u in NonBlank(texts) :: Clean(u)
  {
    if texts != [] {
      NonBlankIsClean(texts[..|texts| - 1]);
      Text.TrimIsTrimmed(texts[|texts| - 1]);
    }
  }

  lemma {:induction false} NonBlankOfClean(texts: seq<string>)
    requires forall u | u in texts :: Clean(u)
    ensures NonBlank(texts) == texts
  {
    if texts != [] {
      assert forall u | u in texts[..|texts| - 1] :: u in texts;
      assert texts[|texts| - 1] in texts;
      NonBlankOfClean(texts[..|texts| - 1]);
    }
  }

  // ---------- the URIs ----------

  function Uris(items: seq<Item>): set<string> {
    set i, k, u | 0 <= i < |items| && k in items[i].metadata && NamesUri(k) && u in Values(items[i].metadata[k]) :: u
  }

  lemma UrisAreClean(items: seq<Item>)
    ensures forall u | u in Uris(items) :: Clean(u)
  {
    forall u | u in Uris(items) ensures Clean(u) {
      var i, k :| 0 <= i < |items| && k in items[i].metadata && NamesUri(k) && u in Values(items[i].metadata[k]);
      match items[i].metadata[k]
      case Words(t) => NonBlankIsClean([t]);
      case List(ts) => NonBlankIsClean(ts);
      case _ =>
    }
  }

  function ItemUris(item: Item): set<string> {
    set k, u | k in item.metadata && NamesUri(k) && u in Values(item.metadata[k]) :: u
  }

  method ItemUriValues(item: Item) returns (values: seq<string>)
    ensures forall u :: u in values <==> u in ItemUris(item)
  {
    values := [];
    var keys := item.metadata.Keys;
    while keys != {}
      invariant keys <= item.metadata.Keys
      invariant forall u :: u in values <==>
                  exists k :: k in item.metadata && k !in keys && NamesUri(k) && u in Values(item.metadata[k])
      decreases |keys|
    {
      var key :| key in keys;
      if NamesUri(key) {
        values := values + Values(item.metadata[key]);
      }
      keys := keys - {key};
    }
  }

  // Maps are walked in no particular order, and the result does not depend on it.
  method CollectUris(items: seq<Item>) returns (list: seq<string>)
    ensures ListOf(list, Uris(items))
  {
    var values: seq<string> := [];
    for i := 0 to |items|
      invariant forall u :: u in values <==> exists j | 0 <= j < i :: u in ItemUris(items[j])
    {
      var more := ItemUriValues(items[i]);
      values := values + more;
    }
    assert forall u :: u in values <==> u in Uris(items) by {
      forall u ensures u in values <==> u in Uris(items) {
        if u in values {
          var j :| 0 <= j < |items| && u in ItemUris(items[j]);
        }
        if u in Uris(items) {
          var j, k :| 0 <= j < |items| && k in items[j].metadata && NamesUri(k) && u in Values(items[j].metadata[k]);
          assert u in ItemUris(items[j]);
        }
      }
    }
    UrisAreClean(items);
    var unique := Unique(values);
    list := SortStrings(unique);
  }

  // ---------- the maps ----------

  // The first value under each of the keys that has one.
  function FirstValues(item: Item, keys: seq<string>): map<Ref, string> {
    if keys == [] then map[]
    else
      var done, key := FirstValues(item, keys[..|keys| - 1]), keys[|keys| - 1];
      if ValuesOf(item, key) == [] then done else done[Ref(item.key, key) := ValuesOf(item, key)[0]]
  }

  function UriMap(p: Profile, items: seq<Item>): map<Ref, string> {
    if items == [] then map[]
    else
      var item := items[|items| - 1];
      UriMap(p, items[..|items| - 1]) + FirstValues(item, KeysFor(p.uriKeys, item.key))
  }

  function ItemEventIds(item: Item): map<Ref, int> {
    map k | k in item.metadata && NamesEvent(k) && NumberOf(item, k) != 0 :: Ref(item.key, k) := NumberOf(item, k)
  }

  function EventIds(items: seq<Item>): map<Ref, int> {
    if items == [] then map[] else EventIds(items[..|items| - 1]) + ItemEventIds(items[|items| - 1])
  }

  // The trimmed text under each of the keys that has one.
  function Marks(item: Item, keys: seq<string>): map<Ref, string> {
    if keys == [] then map[]
    else
      var done, key := Marks(item, keys[..|keys| - 1]), keys[|keys| - 1];
      var mark := Text.TrimSpace(TextOf(item, key));
      if mark == "" then done else done[Ref(item.key, key) := mark]
  }

  function Provenance(p: Profile, items: seq<Item>): map<Ref, string> {
    if items == [] then map[]
    else
      var item := items[|items| - 1];
      Provenance(p, items[..|items| - 1]) + Marks(item, KeysFor(p.provenanceKeys, item.key))
  }

  method CollectFirstValues(item: Item, keys: seq<string>) returns (out: map<Ref, string>)
    ensures out == FirstValues(item, keys)
  {
    out := map[];
    for j := 0 to |keys|
      invariant out == FirstValues(item, keys[..j])
    {
      assert keys[..j + 1][..j] == keys[..j];
      var values := ValuesOf(item, keys[j]);
      if values != [] {
        out := out[Ref(item.key, keys[j]) := values[0]];
      }
    }
    assert keys[..|keys|] == keys;
  }

  method CollectUriMap(p: Profile, items: seq<Item>) returns (out: map<Ref, string>)
    ensures out == UriMap(p, items)
  {
    out := map[];
    for i := 0 to |items|
      invariant out == UriMap(p, items[..i])
    {
      assert items[..i + 1][..i] == items[..i];
      var more := CollectFirstValues(items[i], KeysFor(p.uriKeys, items[i].key));
      out := out + more;
    }
    assert items[..|items|] == items;
  }

  method CollectMarks(item: Item, keys: seq<string>) returns (out: map<Ref, string>)
    ensures out == Marks(item, keys)
  {
    out := map[];
    for j := 0 to |keys|
      invariant out == Marks(item, keys[..j])
    {
      assert keys[..j + 1][..j] == keys[..j];
      var mark := Text.TrimSpace(TextOf(item, keys[j]));
      if mark != "" {
        out := out[Ref(item.key, keys[j]) := mark];
      }
    }
    assert keys[..|keys|] == keys;
  }

  method CollectProvenance(p: Profile, items: seq<Item>) returns (out: map<Ref, string>)
    ensures out == Provenance(p, items)
  {
    out := map[];
    for i := 0 to |items|
      invariant out == Provenance(p, items[..i])
    {
      assert items[..i + 1][..i] == items[..i];
      var more := CollectMarks(items[i], KeysFor(p.provenanceKeys, items[i].key));
      out := out + more;
    }
    assert items[..|items|] == items;
  }

  predicate HasEventId(item: Item, k: string) {
    k in item.metadata && NamesEvent(k) && NumberOf(item, k) != 0
  }

  method CollectItemEventIds(item: Item) returns (out: map<Ref, int>)
    ensures out == ItemEventIds(item)
  {
    out := map[];
    var keys := item.metadata.Keys;
    while keys != {}
      invariant keys <= item.metadata.Keys
      invariant forall k | HasEventId(item, k) && k !in keys :: Ref(item.key, k) in out
      invariant forall r | r in out ::
                r.item == item.key && r.key !in keys && HasEventId(item, r.key) && out[r] == NumberOf(item, r.key)
      decreases |keys|
    {
      var key :| key in keys;
      if NamesEvent(key) && NumberOf(item, key) != 0 {
        out := out[Ref(item.key, key) := NumberOf(item, key)];
      }
      keys := keys - {key};
    }
    assert out.Keys == ItemEventIds(item).Keys by {
      forall r | r in ItemEventIds(item) ensures r in out {
        assert HasEventId(item, r.key);
      }
    }
  }

  // completionAuditProofEventIDs.
  method CollectEventIds(items: seq<Item>) returns (out: map<Ref, int>)
    ensures out == EventIds(items)
  {
    out := map[];
    for i := 0 to |items|
      invariant out == EventIds(items[..i])
    {
      assert items[..i + 1][..i] == items[..i];
      var more := CollectItemEventIds(items[i]);
      out := out + more;
    }
    assert items[..|items|] == items;
  }

  // No required key lacks a value, and every required item is there.
  predicate NothingMissing(p: Profile, items: seq<Item>) {
    && (forall i, k | 0 <= i < |items| && k in KeysFor(p.uriKeys, items[i].key) :: ValuesOf(items[i], k) != [])
    && (forall name | name in p.items ::
          KeysFor(p.uriKeys, name) != [] && exists i | 0 <= i < |items| :: items[i].key == name)
  }

  // ---------- what the hash covers ----------

  function StableItem(p: Profile, item: Item): Item {
    item.(metadata := map k | k in item.metadata && k !in KeysFor(p.volatileKeys, item.key) :: item.metadata[k])
  }

  // completionAuditHash digests the audit without its time, its guardrail and the volatile values.
  function Stable(p: Profile, audit: Audit): Audit {
    audit.(generatedAt := 0, guardrail := "",
           items := seq(|audit.items|, i requires 0 <= i < |audit.items| => StableItem(p, audit.items[i])))
  }

  // The items say the same under this key, or both nothing.
  predicate SameValue(x: Item, y: Item, k: string) {
    (k in x.metadata <==> k in y.metadata) && (k in x.metadata ==> x.metadata[k] == y.metadata[k])
  }

  /** The audits agree on everything but their time, their guardrail and the values that are
      volatile in the given sense. */
  ghost predicate SameUpTo(volatile: (string, string) -> bool, a: Audit, b: Audit) {
    && a.status == b.status && a.scope == b.scope && a.mode == b.mode && a.detail == b.detail
    && |a.items| == |b.items|
    && (forall i | 0 <= i < |a.items| ::
          && a.items[i].key == b.items[i].key && a.items[i].status == b.items[i].status
          && a.items[i].detail == b.items[i].detail)
    && (forall i, k | 0 <= i < |a.items| && !volatile(a.items[i].key, k) :: SameValue(a.items[i], b.items[i], k))
  }

  lemma SameEitherWay(v: (string, string) -> bool, w: (string, string) -> bool, a: Audit, b: Audit)
    requires forall item, k :: v(item, k) == w(item, k)
    ensures SameUpTo(v, a, b) <==> SameUpTo(w, a, b)
  {
  }

  function VolatileIn(p: Profile): (string, string) -> bool {
    (item, k) => k in KeysFor(p.volatileKeys, item)
  }

  ghost predicate SameAudit(p: Profile, a: Audit, b: Audit) {
    SameUpTo(VolatileIn(p), a, b)
  }

  lemma StableItemExactly(p: Profile, x: Item, y: Item)
    ensures StableItem(p, x) == StableItem(p, y) <==>
              && x.key == y.key && x.status == y.status && x.detail == y.detail
              && forall k | k !in KeysFor(p.volatileKeys, x.key) :: SameValue(x, y, k)
  {
    var sx, sy := StableItem(p, x), StableItem(p, y);
    if sx == sy {
      forall k | k !in KeysFor(p.volatileKeys, x.key) ensures SameValue(x, y, k) {
        assert k in sx.metadata <==> k in sy.metadata;
      }
    }
    if x.key == y.key && forall k | k !in KeysFor(p.volatileKeys, x.key) :: SameValue(x, y, k) {
      forall k | k in sx.metadata || k in sy.metadata
        ensures k in sx.metadata && k in sy.metadata && sx.metadata[k] == sy.metadata[k]
      {
        assert SameValue(x, y, k);
      }
      assert sx.metadata == sy.metadata;
    }
  }

  /** What the hash covers, field by field: two audits have the same one exactly when they agree
      on everything that is not volatile. */
  lemma HashExactly(p: Profile, a: Audit, b: Audit)
    ensures Stable(p, a) == Stable(p, b) <==> SameAudit(p, a, b)
  {
    var x, y := Stable(p, a), Stable(p, b);
    if x == y {
      forall i | 0 <= i < |a.items| ensures StableItem(p, a.items[i]) == StableItem(p, b.items[i]) {
        assert x.items[i] == y.items[i];
      }
      forall i | 0 <= i < |a.items|
        ensures a.items[i].key == b.items[i].key && a.items[i].status == b.items[i].status
        ensures a.items[i].detail == b.items[i].detail
        ensures forall k | k !in KeysFor(p.volatileKeys, a.items[i].key) :: SameValue(a.items[i], b.items[i], k)
      {
        StableItemExactly(p, a.items[i], b.items[i]);
      }
    }
    if SameAudit(p, a, b) {
      forall i | 0 <= i < |a.items| ensures x.items[i] == y.items[i] {
        StableItemExactly(p, a.items[i], b.items[i]);
      }
      assert x.items == y.items;
    }
  }

  predicate Harmless(p: Profile, item: string, k: string) {
    k !in KeysFor(p.uriKeys, item) && k !in KeysFor(p.provenanceKeys, item) && !NamesUri(k) && !NamesEvent(k)
  }

  // No volatile key is a required one, an evidence URI or a proof event.
  ghost predicate Steady(p: Profile) {
    forall item, k | k in KeysFor(p.volatileKeys, item) :: Harmless(p, item, k)
  }

  lemma {:induction false} FirstValuesStable(p: Profile, item: Item, keys: seq<string>)
    requires forall k | k in keys :: k !in KeysFor(p.volatileKeys, item.key)
    ensures FirstValues(StableItem(p, item), keys) == FirstValues(item, keys)
  {
    if keys != [] {
      var n := |keys| - 1;
      assert forall k | k in keys[..n] :: k in keys;
      assert keys[n] in keys;
      FirstValuesStable(p, item, keys[..n]);
    }
  }

  lemma {:induction false} MarksStable(p: Profile, item: Item, keys: seq<string>)
    requires forall k | k in keys :: k !in KeysFor(p.volatileKeys, item.key)
    ensures Marks(StableItem(p, item), keys) == Marks(item, keys)
  {
    if keys != [] {
      var n := |keys| - 1;
      assert forall k | k in keys[..n] :: k in keys;
      assert keys[n] in keys;
      MarksStable(p, item, keys[..n]);
    }
  }

  lemma ItemUrisStable(p: Profile, item: Item)
    requires Steady(p)
    ensures ItemUris(StableItem(p, item)) == ItemUris(item)
  {
    var stable := StableItem(p, item);
    forall k | k in item.metadata && NamesUri(k)
      ensures k in stable.metadata && stable.metadata[k] == item.metadata[k]
    {
      assert k in KeysFor(p.volatileKeys, item.key) ==> Harmless(p, item.key, k);
    }
    forall u | u in ItemUris(item) ensures u in ItemUris(stable) {
      var k :| k in item.metadata && NamesUri(k) && u in Values(item.metadata[k]);
      assert k in stable.metadata && u in Values(stable.metadata[k]);
    }
  }

  lemma ItemKeysStable(p: Profile, item: Item)
    requires Steady(p)
    ensures var keys := KeysFor(p.uriKeys, item.key); FirstValues(StableItem(p, item), keys) == FirstValues(item, keys)
    ensures var keys := KeysFor(p.provenanceKeys, item.key); Marks(StableItem(p, item), keys) == Marks(item, keys)
  {
    forall k | k in KeysFor(p.volatileKeys, item.key) ensures Harmless(p, item.key, k) {
    }
    FirstValuesStable(p, item, KeysFor(p.uriKeys, item.key));
    MarksStable(p, item, KeysFor(p.provenanceKeys, item.key));
  }

  lemma ItemEventsStable(p: Profile, item: Item)
    requires Steady(p)
    ensures ItemEventIds(StableItem(p, item)) == ItemEventIds(item)
  {
    var stable := StableItem(p, item);
    forall k | k in item.metadata && NamesEvent(k)
      ensures k in stable.metadata && NumberOf(stable, k) == NumberOf(item, k)
    {
      assert k in KeysFor(p.volatileKeys, item.key) ==> Harmless(p, item.key, k);
    }
    forall k | k in stable.metadata ensures k in item.metadata && NumberOf(stable, k) == NumberOf(item, k) {
    }
    assert ItemEventIds(stable).Keys == ItemEventIds(item).Keys;
  }

  predicate SameStable(p: Profile, xs: seq<Item>, ys: seq<Item>) {
    |xs| == |ys| && forall i | 0 <= i < |xs| :: StableItem(p, xs[i]) == StableItem(p, ys[i])
  }

  lemma {:induction false} SameUriMap(p: Profile, xs: seq<Item>, ys: seq<Item>)
    requires Steady(p) && SameStable(p, xs, ys)
    ensures UriMap(p, xs) == UriMap(p, ys)
    decreases |xs|
  {
    if xs != [] {
      var n := |xs| - 1;
      assert forall i | 0 <= i < n :: StableItem(p, xs[..n][i]) == StableItem(p, ys[..n][i]);
      SameUriMap(p, xs[..n], ys[..n]);
      ItemKeysStable(p, xs[n]);
      ItemKeysStable(p, ys[n]);
    }
  }

  lemma {:induction false} SameProvenance(p: Profile, xs: seq<Item>, ys: seq<Item>)
    requires Steady(p) && SameStable(p, xs, ys)
    ensures Provenance(p, xs) == Provenance(p, ys)
    decreases |xs|
  {
    if xs != [] {
      var n := |xs| - 1;
      assert forall i | 0 <= i < n :: StableItem(p, xs[..n][i]) == StableItem(p, ys[..n][i]);
      SameProvenance(p, xs[..n], ys[..n]);
      ItemKeysStable(p, xs[n]);
      ItemKeysStable(p, ys[n]);
    }
  }

  lemma SameItemEvents(p: Profile, x: Item, y: Item)
    requires Steady(p) && StableItem(p, x) == StableItem(p, y)
    ensures ItemEventIds(x) == ItemEventIds(y)
  {
    ItemEventsStable(p, x);
    ItemEventsStable(p, y);
  }

  lemma {:induction false} SameEvents(p: Profile, xs: seq<Item>, ys: seq<Item>)
    requires Steady(p) && SameStable(p, xs, ys)
    ensures EventIds(xs) == EventIds(ys)
    decreases |xs|
  {
    if xs != [] {
      var n := |xs| - 1;
      assert forall i | 0 <= i < n :: StableItem(p, xs[..n][i]) == StableItem(p, ys[..n][i]);
      SameEvents(p, xs[..n], ys[..n]);
      SameItemEvents(p, xs[n], ys[n]);
    }
  }

  lemma SameUris(p: Profile, xs: seq<Item>, ys: seq<Item>)
    requires Steady(p) && SameStable(p, xs, ys)
    ensures Uris(xs) <= Uris(ys)
  {
    forall u | u in Uris(xs) ensures u in Uris(ys) {
      var i, k :| 0 <= i < |xs| && k in xs[i].metadata && NamesUri(k) && u in Values(xs[i].metadata[k]);
      assert u in ItemUris(xs[i]);
      assert StableItem(p, xs[i]) == StableItem(p, ys[i]);
      ItemUrisStable(p, xs[i]);
      ItemUrisStable(p, ys[i]);
      assert u in ItemUris(ys[i]);
    }
  }

  // Audits with the same hash agree on every URI, event ID and provenance that a snapshot binds.
  lemma SameHashSameProofs(p: Profile, a: Audit, b: Audit)
    requires Steady(p) && Stable(p, a) == Stable(p, b)
    ensures Uris(a.items) == Uris(b.items) && UriMap(p, a.items) == UriMap(p, b.items)
    ensures EventIds(a.items) == EventIds(b.items) && Provenance(p, a.items) == Provenance(p, b.items)
  {
    forall i | 0 <= i < |a.items| ensures StableItem(p, a.items[i]) == StableItem(p, b.items[i]) {
      assert Stable(p, a).items[i] == Stable(p, b).items[i];
    }
    SameUriMap(p, a.items, b.items);
    SameProvenance(p, a.items, b.items);
    SameEvents(p, a.items, b.items);
    SameUris(p, a.items, b.items);
    SameUris(p, b.items, a.items);
  }
}

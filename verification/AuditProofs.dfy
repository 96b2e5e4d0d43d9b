/**
 What the collected proofs are: for each required key, what the latest audit item says that says
 anything.
 */
module AuditProofs {

  import opened Wrappers
  import Text
  import opened CompletionAudit
  import opened AuditEvidence
  import opened AuditSnapshot
  import opened AuditSealing

  // ---------- the latest word ----------

  // What the last item with this name says under this key, among those that say something.
  function Latest<T>(items: seq<Item>, r: Ref, read: (Item, string) -> Option<T>): Option<T> {
    if items == [] then None
    else
      var item := items[|items| - 1];
      if item.key == r.item && read(item, r.key).Some? then read(item, r.key)
      else Latest(items[..|items| - 1], r, read)
  }

  function Found<T>(m: map<Ref, T>, r: Ref): Option<T> {
    if r in m then Some(m[r]) else None
  }

  function FirstText(item: Item, key: string): Option<string> {
    if ValuesOf(item, key) == [] then None else Some(ValuesOf(item, key)[0])
  }

  function EventNumber(item: Item, key: string): Option<int> {
    if NamesEvent(key) && NumberOf(item, key) != 0 then Some(NumberOf(item, key)) else None
  }

  function Mark(item: Item, key: string): Option<string> {
    var mark := Text.TrimSpace(TextOf(item, key));
    if mark == "" then None else Some(mark)
  }

  lemma {:induction false} FirstValuesFound(item: Item, keys: seq<string>, r: Ref)
    ensures Found(FirstValues(item, keys), r) ==
            if r.item == item.key && r.key in keys then FirstText(item, r.key) else None
  {
    if keys != [] {
      var n := |keys| - 1;
      FirstValuesFound(item, keys[..n], r);
      assert r.key in keys <==> r.key in keys[..n] || r.key == keys[n];
    }
  }

  lemma {:induction false} MarksFound(item: Item, keys: seq<string>, r: Ref)
    ensures Found(Marks(item, keys), r) == if r.item == item.key && r.key in keys then Mark(item, r.key) else None
  {
    if keys != [] {
      var n := |keys| - 1;
      MarksFound(item, keys[..n], r);
      assert r.key in keys <==> r.key in keys[..n] || r.key == keys[n];
    }
  }

  /** The URI bound to a required proof is the first value of the latest item that has one, and no
      other key is bound. */
  lemma {:induction false} UriMapIsLatest(p: Profile, items: seq<Item>, r: Ref)
    ensures Found(UriMap(p, items), r) ==
            if r.key in KeysFor(p.uriKeys, r.item) then Latest(items, r, FirstText) else None
  {
    if items != [] {
      var n := |items| - 1;
      UriMapIsLatest(p, items[..n], r);
      FirstValuesFound(items[n], KeysFor(p.uriKeys, items[n].key), r);
    }
  }

  // Likewise the provenance, which is the trimmed text.
  lemma {:induction false} ProvenanceIsLatest(p: Profile, items: seq<Item>, r: Ref)
    ensures Found(Provenance(p, items), r) ==
            if r.key in KeysFor(p.provenanceKeys, r.item) then Latest(items, r, Mark) else None
  {
    if items != [] {
      var n := |items| - 1;
      ProvenanceIsLatest(p, items[..n], r);
      MarksFound(items[n], KeysFor(p.provenanceKeys, items[n].key), r);
    }
  }

  // And the event IDs, which are collected for every key that names a proof event.
  lemma {:induction false} EventIdsAreLatest(items: seq<Item>, r: Ref)
    ensures Found(EventIds(items), r) == Latest(items, r, EventNumber)
  {
    if items != [] {
      EventIdsAreLatest(items[..|items| - 1], r);
    }
  }

  // ---------- values ----------

  predicate Among(texts: seq<string>, u: string) {
    exists i | 0 <= i < |texts| :: Text.TrimSpace(texts[i]) == u
  }

  lemma AmongMore(texts: seq<string>, u: string)
    requires texts != []
    ensures Among(texts, u) <==> Among(texts[..|texts| - 1], u) || Text.TrimSpace(texts[|texts| - 1]) == u
  {
    var n := |texts| - 1;
    if i :| 0 <= i < n && Text.TrimSpace(texts[..n][i]) == u {
      assert Text.TrimSpace(texts[i]) == u;
    }
    if i :| 0 <= i < |texts| && Text.TrimSpace(texts[i]) == u {
      assert i < n ==> Text.TrimSpace(texts[..n][i]) == u;
    }
  }

  // The values are the texts that are not blank, trimmed.
  lemma {:induction false} NonBlankExactly(texts: seq<string>, u: string)
    ensures u in NonBlank(texts) <==> u != "" && Among(texts, u)
  {
    if texts != [] {
      NonBlankExactly(texts[..|texts| - 1], u);
      AmongMore(texts, u);
    }
  }

  predicate AllBlank(texts: seq<string>) {
    forall i | 0 <= i < |texts| :: Text.TrimSpace(texts[i]) == ""
  }

  // In order: the first of them is the first text that is not blank.
  lemma {:induction false} FirstNonBlank(texts: seq<string>) returns (i: nat)
    requires NonBlank(texts) != []
    ensures i < |texts| && AllBlank(texts[..i]) && Text.TrimSpace(texts[i]) == NonBlank(texts)[0] != ""
  {
    var n := |texts| - 1;
    if NonBlank(texts[..n]) != [] {
      i := FirstNonBlank(texts[..n]);
      assert texts[..n][..i] == texts[..i];
    } else {
      i := n;
      BlanksAreBlank(texts[..n]);
    }
  }

  lemma {:induction false} BlanksAreBlank(texts: seq<string>)
    requires NonBlank(texts) == []
    ensures AllBlank(texts)
  {
    if texts != [] {
      var n := |texts| - 1;
      BlanksAreBlank(texts[..n]);
      assert forall i | 0 <= i < n :: texts[i] == texts[..n][i];
    }
  }

  // A text or a list of texts has values; nothing else has any.
  lemma ValuesExactly(v: Value, u: string)
    ensures u in Values(v) <==>
              match v
              case Words(t) => u != "" && Text.TrimSpace(t) == u
              case List(ts) => u != "" && Among(ts, u)
              case _ => false
  {
    match v
    case Words(t) =>
      NonBlankExactly([t], u);
      assert Among([t], u) <==> Text.TrimSpace([t][0]) == u;
    case List(ts) => NonBlankExactly(ts, u);
    case _ =>
  }

  /** The last word counts: what an item says under a required key is what is bound once it is the
      last to say something - a URI, an event, a provenance. */
  lemma LastWordCounts(p: Profile, items: seq<Item>, item: Item, key: string, text: string, n: int)
    requires key in item.metadata && text != "" && Text.Trimmed(text) && n != 0
    ensures var r := Ref(item.key, key);
            && (item.metadata[key] == Words(text) && key in KeysFor(p.uriKeys, item.key) ==>
                  Found(UriMap(p, items + [item]), r) == Some(text))
            && (item.metadata[key] == Words(text) && key in KeysFor(p.provenanceKeys, item.key) ==>
                  Found(Provenance(p, items + [item]), r) == Some(text))
            && (item.metadata[key] == Number(n) && NamesEvent(key) ==>
                  Found(EventIds(items + [item]), r) == Some(n))
  {
    var r, all := Ref(item.key, key), items + [item];
    assert all[..|all| - 1] == items && Text.TrimSpace(text) == text;
    assert [text][..0] == [] && NonBlank([text]) == [text];
    UriMapIsLatest(p, all, r);
    ProvenanceIsLatest(p, all, r);
    EventIdsAreLatest(all, r);
  }

  // ---------- one proof, one URI and one event ----------

  function Looks(refs: seq<Ref>, m: map<Ref, string>): seq<string> {
    seq(|refs|, i requires 0 <= i < |refs| => Look(m, refs[i]))
  }

  lemma {:induction false} ValuesAreLooks(refs: seq<Ref>, m: map<Ref, string>)
    ensures RequiredValues(refs, m) <= Elements(Looks(refs, m))
  {
    if refs != [] {
      var n := |refs| - 1;
      ValuesAreLooks(refs[..n], m);
      assert Looks(refs, m) == Looks(refs[..n], m) + [Look(m, refs[n])];
    }
  }

  /** Counting distinct values is enough: when the URIs are bound, every required proof has a
      fitting one, and no two share one. */
  lemma BoundUrisAreDistinct(p: Profile, rules: Rules, values: seq<string>, m: map<Ref, string>, i: nat, j: nat)
    requires UrisBound(p, rules, values, m) && i < j < |Required(p.uriKeys, p.items)|
    ensures var refs := Required(p.uriKeys, p.items);
            && Look(m, refs[i]) != "" && Look(m, refs[i]) in values && Look(m, refs[i]) != Look(m, refs[j])
            && !rules.marked(Look(m, refs[i])) && !rules.mechanism(Look(m, refs[i]))
            && rules.candidate(Look(m, refs[i]))
  {
    var refs := Required(p.uriKeys, p.items);
    ValuesAreLooks(refs, m);
    SubsetNotLarger(RequiredValues(refs, m), Elements(Looks(refs, m)));
    ElementsCount(Looks(refs, m));
    assert Looks(refs, m)[i] != Looks(refs, m)[j];
    assert UriFits(rules, values, Look(m, refs[i]));
  }

  // Likewise every required proof has an event of its own.
  lemma BoundEventsAreDistinct(p: Profile, ids: map<Ref, int>, i: nat, j: nat)
    requires EventsBound(p, ids) && i < j < |Required(p.eventKeys, p.items)|
    ensures var refs := Required(p.eventKeys, p.items);
            Id(ids, refs[i]) > 0 && Id(ids, refs[j]) > 0 && Id(ids, refs[i]) != Id(ids, refs[j])
  {
    var refs := Required(p.eventKeys, p.items);
    var list := seq(|refs|, n requires 0 <= n < |refs| => Id(ids, refs[n]));
    forall v | v in RequiredIds(refs, ids) ensures v in Elements(list) {
      var n :| 0 <= n < |refs| && Id(ids, refs[n]) > 0 && Id(ids, refs[n]) == v;
      assert list[n] == v;
    }
    SubsetNotLarger(RequiredIds(refs, ids), Elements(list));
    ElementsCount(list);
    assert list[i] != list[j];
  }

  // ---------- what is checked, and that all of it is ----------

  /** A stored snapshot that is found ready is a release candidate of a complete v1.0 audit without
      side effects, described and reviewed: approved, signed and dated. */
  lemma ReadyIsReviewed(p: Profile, k: Keys, rules: Rules, record: Record, latest: Option<Snapshot>, bundle: Bundle,
                        c: Current, files: Files)
    requires Readiness(p, k, rules, record, latest, bundle, c, files) == Ready
    ensures rules.target(record) && rules.genuine(record) && latest.Some?
    ensures var s := latest.value;
            && s.evidenceClass == ReleaseCandidate && s.status == Complete && s.scope == "v1.0" && s.hash.Some?
            && s.unsafe == 0 && s.uri != "" && s.summary != ""
            && !rules.marked(s.title) && !rules.marked(s.uri) && !rules.marked(s.summary)
            && !rules.mechanism(s.uri) && rules.candidate(s.uri)
            && Text.Lower(Text.TrimSpace(s.review.decision)) == "approved"
            && Text.TrimSpace(s.review.signedBy) != "" && rules.isTime(Text.TrimSpace(s.review.at))
  {
    HeaderExactly(rules, latest.value, c.hash);
  }

  // And its release bundle is ready now, with each required item, and a genuine inventory.
  lemma ReadyHasBundle(p: Profile, k: Keys, rules: Rules, record: Record, latest: Option<Snapshot>, bundle: Bundle,
                       c: Current, files: Files, i: nat)
    requires Readiness(p, k, rules, record, latest, bundle, c, files) == Ready && i < |k.bundle|
    ensures Text.TrimSpace(bundle.hash) != "" && bundle.ready && bundle.readOnly
    ensures exists n | 0 <= n < |bundle.items| :: bundle.items[n].key == k.bundle[i] && bundle.items[n].ready
    ensures exists n | 0 <= n < |bundle.items| ::
              bundle.items[n].key == k.inventory && rules.genuine(bundle.items[n].record)
  {
    PresentExactly(p, k, rules, latest.value, bundle, c, files);
    assert ReadyItem(bundle.items, k.bundle[i]);
    var n :| 0 <= n < |bundle.items| && FirstWith(bundle.items, k.bundle[i], n) && bundle.items[n].ready;
    var m :| 0 <= m < |bundle.items| && FirstWith(bundle.items, k.inventory, m)
             && rules.genuine(bundle.items[m].record);
  }

  /** And its proofs are sound: every required one has a URI and an event of its own, the URI fits,
      and every required provenance is there and carries no marker. */
  lemma ReadyHasProofs(p: Profile, k: Keys, rules: Rules, record: Record, latest: Option<Snapshot>, bundle: Bundle,
                       c: Current, files: Files)
    requires Readiness(p, k, rules, record, latest, bundle, c, files) == Ready
    ensures latest.Some?
    ensures var refs := Required(p.uriKeys, p.items);
            forall i, j | 0 <= i < j < |refs| ::
              && Look(latest.value.uriMap, refs[i]) != ""
              && Look(latest.value.uriMap, refs[i]) != Look(latest.value.uriMap, refs[j])
    ensures var refs := Required(p.eventKeys, p.items);
            forall i, j | 0 <= i < j < |refs| ::
              && Id(latest.value.eventIds, refs[i]) > 0
              && Id(latest.value.eventIds, refs[i]) != Id(latest.value.eventIds, refs[j])
    ensures var refs := Required(p.provenanceKeys, p.items);
            forall i | 0 <= i < |refs| ::
              Look(latest.value.provenance, refs[i]) != "" && !rules.marked(Look(latest.value.provenance, refs[i]))
    ensures forall u | u in NonBlank(latest.value.uris) :: !rules.marked(u) && !rules.mechanism(u)
  {
    var s := latest.value;
    ProofsExactly(p, rules, s);
    forall i, j | 0 <= i < j < |Required(p.uriKeys, p.items)|
      ensures var refs := Required(p.uriKeys, p.items);
              Look(s.uriMap, refs[i]) != "" && Look(s.uriMap, refs[i]) != Look(s.uriMap, refs[j])
    {
      BoundUrisAreDistinct(p, rules, NonBlank(s.uris), s.uriMap, i, j);
    }
    forall i, j | 0 <= i < j < |Required(p.eventKeys, p.items)|
      ensures var refs := Required(p.eventKeys, p.items);
              Id(s.eventIds, refs[i]) > 0 && Id(s.eventIds, refs[i]) != Id(s.eventIds, refs[j])
    {
      BoundEventsAreDistinct(p, s.eventIds, i, j);
    }
  }

  // A fixture snapshot is recorded for the mechanism's sake and never found ready.
  lemma FixtureIsNeverReady(p: Profile, k: Keys, rules: Rules, record: Record, audit: Audit, o: Options,
                            uris: seq<string>, bundle: Bundle, c: Current, files: Files)
    requires o.evidenceClass == Fixture
    ensures Readiness(p, k, rules, record, Some(FixtureSnapshot(p, audit, o, uris)), bundle, c, files) ==
            if !rules.target(record) then ProjectMismatch
            else if !rules.genuine(record) then IdentityMissing else FixtureOnly
  {
  }

  /** One fault, one name: whatever is changed about one part of a sound snapshot is reported as
      just that - its identity, ... */
  lemma IdentityFaults(rules: Rules, s: Snapshot, kind: Class, status: Status, scope: string, hash: Option<Audit>,
                       unsafe: nat, current: Option<Audit>)
    requires HeaderSound(rules, s)
    ensures var changed := s.(evidenceClass := kind, status := status, scope := scope, hash := hash, unsafe := unsafe);
            HeaderVerdict(rules, changed, current) ==
            if kind != ReleaseCandidate then FixtureOnly
            else if status != Complete || scope != "v1.0" || hash == None then AuditIdentityInvalid
            else if current != None && hash != current then AuditHashMismatch
            else if unsafe > 0 then UnsafeSideEffects else Ready
  {
  }

  // ... its description, ...
  lemma DescriptionFaults(rules: Rules, s: Snapshot, hash: Option<Audit>, title: string, summary: string)
    requires HeaderSound(rules, s) && (hash == None || s.hash == hash)
    ensures HeaderVerdict(rules, s.(title := title, summary := summary), hash) ==
            if summary == "" then SummaryMissing
            else if rules.marked(title) || rules.marked(summary) then FixtureLabeled else Ready
  {
  }

  // ... its URI ...
  lemma UriFaults(rules: Rules, s: Snapshot, hash: Option<Audit>, text: string)
    requires HeaderSound(rules, s) && (hash == None || s.hash == hash)
    ensures HeaderVerdict(rules, s.(uri := text), hash) ==
            if text == "" then EvidenceUriMissing
            else if rules.marked(text) then FixtureLabeled
            else if rules.mechanism(text) then MechanismUri
            else if !rules.candidate(text) then GenericUri else Ready
  {
  }

  // ... and its review.
  lemma ReviewFaults(rules: Rules, s: Snapshot, hash: Option<Audit>, review: Review)
    requires HeaderSound(rules, s) && (hash == None || s.hash == hash)
    ensures HeaderVerdict(rules, s.(review := review), hash) ==
            if Text.Lower(Text.TrimSpace(review.decision)) == "approved" && Text.TrimSpace(review.signedBy) != ""
               && Text.TrimSpace(review.at) != "" && rules.isTime(Text.TrimSpace(review.at))
            then Ready else ReviewMissing
  {
  }

  // Likewise the proofs it stores.
  lemma UriMapFaults(p: Profile, rules: Rules, s: Snapshot, count: int, m: map<Ref, string>)
    requires ProofsSound(p, rules, s)
    ensures ProofVerdict(p, rules, s.(uriMap := m, uriCount := count)) ==
            if count == |NonBlank(s.uris)| && UrisBound(p, rules, NonBlank(s.uris), m) then Ready else ProofUriMissing
  {
  }

  lemma EventFaults(p: Profile, rules: Rules, s: Snapshot, ids: map<Ref, int>)
    requires ProofsSound(p, rules, s)
    ensures ProofVerdict(p, rules, s.(eventIds := ids, metadataEventIds := ids)) ==
            if EventsBound(p, ids) then Ready else ProofEventMissing
  {
  }

  lemma ProvenanceFaults(p: Profile, rules: Rules, s: Snapshot, m: map<Ref, string>)
    requires ProofsSound(p, rules, s)
    ensures ProofVerdict(p, rules, s.(provenance := m)) ==
            if ProvenanceBound(p, rules, m) then Ready else ProofProvenanceMissing
  {
  }
}

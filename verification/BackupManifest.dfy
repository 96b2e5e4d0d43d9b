/**
 The hash of a backup manifest, computed over sorted copies of its lists.

 The hash stands for the shape it digests.
 */
module BackupManifest {

  import Text
  import opened Sorting

  datatype TableCount = TableCount(table: string, rows: int)

  // `rest` stands for the other columns of the summary.
  datatype Artifact = Artifact(id: int, rest: string)

  // A project of the manifest; its artifacts are a slice that callers share.
  datatype Project = Project(key: string, inventory: string, count: int, artifacts: array<Artifact>)

  datatype Manifest = Manifest(schema: int, generatedAt: int, tables: array<TableCount>, projects: seq<Project>)

  datatype ProjectShape = ProjectShape(key: string, inventory: string, count: int, artifacts: seq<Artifact>)

  datatype Shape = Shape(schema: int, tables: seq<TableCount>, projects: seq<ProjectShape>)

  // The lists as they are, before sorting.
  datatype Lists = Lists(schema: int, tables: seq<TableCount>, projects: seq<ProjectShape>)

  function ShapeOf(p: Project): ProjectShape
    reads p.artifacts
  {
    ProjectShape(p.key, p.inventory, p.count, p.artifacts[..])
  }

  function ShapesOf(ps: seq<Project>): seq<ProjectShape>
    reads set p | p in ps :: p.artifacts
  {
    if ps == [] then [] else ShapesOf(ps[..|ps| - 1]) + [ShapeOf(ps[|ps| - 1])]
  }

  function Contents(m: Manifest): Lists
    reads m.tables, set p | p in m.projects :: p.artifacts
  {
    Lists(m.schema, m.tables[..], ShapesOf(m.projects))
  }

  // ---------- orders ----------

  function ByTable(a: TableCount, b: TableCount): bool {
    Text.Less(a.table, b.table)
  }

  function ById(a: Artifact, b: Artifact): bool {
    a.id < b.id
  }

  function ByKey(a: ProjectShape, b: ProjectShape): bool {
    Text.Less(a.key, b.key)
  }

  lemma Orders()
    ensures Order(ByTable) && Order(ById) && Order(ByKey)
  {
    StringsOrder((t: TableCount) => t.table, ByTable);
    StringsOrder((p: ProjectShape) => p.key, ByKey);
  }

  // ---------- the hash ----------

  // The project with its artifacts in order.
  predicate Sorts(p: ProjectShape, q: ProjectShape) {
    && q.key == p.key && q.inventory == p.inventory && q.count == p.count
    && Sorted(q.artifacts, ById) && multiset(q.artifacts) == multiset(p.artifacts)
  }

  predicate SortsEach(ps: seq<ProjectShape>, qs: seq<ProjectShape>) {
    |qs| == |ps| && forall i | 0 <= i < |ps| :: Sorts(ps[i], qs[i])
  }

  // What is digested for these lists.
  ghost predicate IsShape(l: Lists, s: Shape) {
    && s.schema == l.schema
    && Sorted(s.tables, ByTable) && multiset(s.tables) == multiset(l.tables)
    && Sorted(s.projects, ByKey)
    && exists mid :: SortsEach(l.projects, mid) && multiset(s.projects) == multiset(mid)
  }

  lemma {:induction false} ShapesAt(ps: seq<Project>, i: nat)
    requires i < |ps|
    ensures |ShapesOf(ps)| == |ps| && ShapesOf(ps)[i] == ShapeOf(ps[i])
  {
    var n := |ps| - 1;
    if i < n {
      ShapesAt(ps[..n], i);
    } else if n > 0 {
      ShapesAt(ps[..n], n - 1);
    }
  }

  // backupManifestHash. It has no modifies clause: the manifest's own slices are not touched.
  method Hash(m: Manifest) returns (shape: Shape)
    ensures IsShape(Contents(m), shape)
  {
    Orders();
    var tables := SortedCopy(m.tables[..], ByTable);
    var mid: seq<ProjectShape> := [];
    for i := 0 to |m.projects|
      invariant |mid| == i
      invariant forall j | 0 <= j < i :: Sorts(ShapeOf(m.projects[j]), mid[j])
    {
      var p := m.projects[i];
      var artifacts := SortedCopy(p.artifacts[..], ById);
      mid := mid + [ProjectShape(p.key, p.inventory, p.count, artifacts)];
    }
    var projects := SortedCopy(mid, ByKey);
    ghost var ps := ShapesOf(m.projects);
    forall i | 0 <= i < |m.projects| ensures |ps| == |m.projects| && Sorts(ps[i], mid[i]) {
      ShapesAt(m.projects, i);
    }
    assert SortsEach(ps, mid);
    shape := Shape(m.schema, tables, projects);
  }

  // ---------- order does not matter, and nothing else is lost ----------

  // Table names, project keys and artifact ids are not repeated.
  predicate KeysDistinct(l: Lists) {
    && (forall i, j | 0 <= i < j < |l.tables| :: l.tables[i].table != l.tables[j].table)
    && (forall i, j | 0 <= i < j < |l.projects| :: l.projects[i].key != l.projects[j].key)
    && (forall k | 0 <= k < |l.projects| :: DistinctIds(l.projects[k].artifacts))
  }

  predicate DistinctIds(xs: seq<Artifact>) {
    forall i, j | 0 <= i < j < |xs| :: xs[i].id != xs[j].id
  }

  predicate Matches(p: ProjectShape, q: ProjectShape) {
    p.key == q.key && p.inventory == q.inventory && p.count == q.count && multiset(p.artifacts) == multiset(q.artifacts)
  }

  predicate Matched(p: ProjectShape, qs: seq<ProjectShape>) {
    exists j | 0 <= j < |qs| :: Matches(p, qs[j])
  }

  predicate EachMatched(ps: seq<ProjectShape>, qs: seq<ProjectShape>) {
    forall i | 0 <= i < |ps| :: Matched(ps[i], qs)
  }

  // The same manifest, up to the order of its tables, its projects and each project's artifacts.
  predicate SameUpToOrder(a: Lists, b: Lists) {
    a.schema == b.schema && multiset(a.tables) == multiset(b.tables) && EachMatched(a.projects, b.projects) &&
        EachMatched(b.projects, a.projects)
  }

  lemma TablesComparable(l: Lists)
    requires KeysDistinct(l)
    ensures Comparable(l.tables, ByTable)
  {
    forall i, j | 0 <= i < j < |l.tables|
      ensures ByTable(l.tables[i], l.tables[j]) || ByTable(l.tables[j], l.tables[i])
    {
      Text.LessTotal(l.tables[i].table, l.tables[j].table);
    }
  }

  lemma ProjectsComparable(l: Lists, mid: seq<ProjectShape>)
    requires KeysDistinct(l) && SortsEach(l.projects, mid)
    ensures Comparable(mid, ByKey)
  {
    forall i, j | 0 <= i < j < |mid| ensures ByKey(mid[i], mid[j]) || ByKey(mid[j], mid[i]) {
      assert Sorts(l.projects[i], mid[i]) && Sorts(l.projects[j], mid[j]);
      Text.LessTotal(mid[i].key, mid[j].key);
    }
  }

  lemma ShapeAscends(l: Lists, s: Shape, mid: seq<ProjectShape>)
    requires KeysDistinct(l) && IsShape(l, s) && SortsEach(l.projects, mid) && multiset(s.projects) == multiset(mid)
    ensures Ascending(s.tables, ByTable) && Ascending(s.projects, ByKey)
  {
    Orders();
    TablesComparable(l);
    SortedIsAscending(s.tables, l.tables, ByTable);
    ProjectsComparable(l, mid);
    SortedIsAscending(s.projects, mid, ByKey);
  }

  // Sorting the artifacts forgets their order and nothing else.
  lemma SortsSame(p: ProjectShape, q: ProjectShape, x: ProjectShape, y: ProjectShape)
    requires DistinctIds(p.artifacts) && Matches(p, q) && Sorts(p, x) && Sorts(q, y)
    ensures x == y
  {
    Orders();
    assert Comparable(p.artifacts, ById);
    SortedIsAscending(x.artifacts, p.artifacts, ById);
    SortedIsAscending(y.artifacts, p.artifacts, ById);
    EqualBags(x.artifacts, y.artifacts);
    AscendingIsUnique(x.artifacts, y.artifacts, ById);
  }

  lemma MatchedShapes(a: Lists, b: Lists, xs: seq<ProjectShape>, ys: seq<ProjectShape>)
    requires KeysDistinct(a) && EachMatched(a.projects, b.projects) && SortsEach(a.projects, xs) &&
              SortsEach(b.projects, ys)
    ensures Within(xs, ys)
  {
    forall x | x in xs ensures x in ys {
      var i :| 0 <= i < |xs| && xs[i] == x;
      assert Matched(a.projects[i], b.projects);
      var j :| 0 <= j < |b.projects| && Matches(a.projects[i], b.projects[j]);
      assert Sorts(a.projects[i], xs[i]) && Sorts(b.projects[j], ys[j]);
      SortsSame(a.projects[i], b.projects[j], xs[i], ys[j]);
    }
  }

  lemma ShapesMatch(a: Lists, b: Lists, xs: seq<ProjectShape>, ys: seq<ProjectShape>)
    requires SortsEach(a.projects, xs) && SortsEach(b.projects, ys) && multiset(xs) == multiset(ys)
    ensures EachMatched(a.projects, b.projects)
  {
    EqualBags(xs, ys);
    forall i | 0 <= i < |a.projects| ensures Matched(a.projects[i], b.projects) {
      assert Sorts(a.projects[i], xs[i]);
      assert xs[i] in xs;
      var j :| 0 <= j < |ys| && ys[j] == xs[i];
      assert Sorts(b.projects[j], ys[j]);
      assert Matches(a.projects[i], b.projects[j]);
    }
  }

  /** Two manifests whose names, keys and ids are not repeated have the same hash exactly when
      they are the same up to the order of their lists. */
  lemma HashExactly(a: Lists, b: Lists, s: Shape, t: Shape)
    requires KeysDistinct(a) && KeysDistinct(b) && IsShape(a, s) && IsShape(b, t)
    ensures s == t <==> SameUpToOrder(a, b)
  {
    var xs :| SortsEach(a.projects, xs) && multiset(s.projects) == multiset(xs);
    var ys :| SortsEach(b.projects, ys) && multiset(t.projects) == multiset(ys);
    if s == t {
      ShapesMatch(a, b, xs, ys);
      ShapesMatch(b, a, ys, xs);
    }
    if SameUpToOrder(a, b) {
      Orders();
      ShapeAscends(a, s, xs);
      ShapeAscends(b, t, ys);
      EqualBags(s.tables, t.tables);
      AscendingIsUnique(s.tables, t.tables, ByTable);
      MatchedShapes(a, b, xs, ys);
      MatchedShapes(b, a, ys, xs);
      EqualBags(s.projects, xs);
      EqualBags(t.projects, ys);
      assert SameEntries(s.projects, t.projects);
      AscendingIsUnique(s.projects, t.projects, ByKey);
    }
  }

  // A project of the other manifest says the same, with its artifacts in whatever order.
  ghost predicate SameProject(p: Project, q: Project)
    reads p.artifacts, q.artifacts
  {
    && p.key == q.key && p.inventory == q.inventory && p.count == q.count
    && multiset(p.artifacts[..]) == multiset(q.artifacts[..])
  }

  ghost predicate Covered(ps: seq<Project>, qs: seq<Project>)
    reads set p | p in ps :: p.artifacts
    reads set q | q in qs :: q.artifacts
  {
    forall i | 0 <= i < |ps| :: exists j | 0 <= j < |qs| :: SameProject(ps[i], qs[j])
  }

  lemma CoveredExactly(ps: seq<Project>, qs: seq<Project>)
    ensures EachMatched(ShapesOf(ps), ShapesOf(qs)) <==> Covered(ps, qs)
  {
    forall i | 0 <= i < |ps| ensures |ShapesOf(ps)| == |ps| && ShapesOf(ps)[i] == ShapeOf(ps[i]) {
      ShapesAt(ps, i);
    }
    forall j | 0 <= j < |qs| ensures |ShapesOf(qs)| == |qs| && ShapesOf(qs)[j] == ShapeOf(qs[j]) {
      ShapesAt(qs, j);
    }
    if EachMatched(ShapesOf(ps), ShapesOf(qs)) {
      forall i | 0 <= i < |ps| ensures exists j | 0 <= j < |qs| :: SameProject(ps[i], qs[j]) {
        assert Matched(ShapesOf(ps)[i], ShapesOf(qs));
        var j :| 0 <= j < |ShapesOf(qs)| && Matches(ShapesOf(ps)[i], ShapesOf(qs)[j]);
        assert SameProject(ps[i], qs[j]);
      }
    }
    if Covered(ps, qs) {
      forall i | 0 <= i < |ShapesOf(ps)| ensures Matched(ShapesOf(ps)[i], ShapesOf(qs)) {
        var j :| 0 <= j < |qs| && SameProject(ps[i], qs[j]);
        assert Matches(ShapesOf(ps)[i], ShapesOf(qs)[j]);
      }
    }
  }

  /** On the manifests themselves: the hash covers the schema, every table count, and of every
      project its key, inventory, artifact count and artifacts - all but the generation time. */
  lemma ManifestHashExactly(m: Manifest, n: Manifest, s: Shape, t: Shape)
    requires KeysDistinct(Contents(m)) && IsShape(Contents(m), s)
    requires KeysDistinct(Contents(n)) && IsShape(Contents(n), t)
    ensures s == t <==>
              && m.schema == n.schema && multiset(m.tables[..]) == multiset(n.tables[..])
              && Covered(m.projects, n.projects) && Covered(n.projects, m.projects)
  {
    HashExactly(Contents(m), Contents(n), s, t);
    CoveredExactly(m.projects, n.projects);
    CoveredExactly(n.projects, m.projects);
  }

  // In particular the hash is determined by the manifest, and its generation time plays no part.
  lemma HashIgnoresTime(m: Manifest, at: int, s: Shape, t: Shape)
    requires KeysDistinct(Contents(m)) && IsShape(Contents(m), s) && IsShape(Contents(m.(generatedAt := at)), t)
    ensures s == t
  {
    var l := Contents(m);
    assert Contents(m.(generatedAt := at)) == l;
    forall i | 0 <= i < |l.projects| ensures Matched(l.projects[i], l.projects) {
      assert Matches(l.projects[i], l.projects[i]);
    }
    HashExactly(l, l, s, t);
  }
}

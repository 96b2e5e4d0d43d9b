/**
 Sorting in place, and what a sorted list without repetition is determined by.
 */
module Sorting {

  import Text

  // ---------- orders ----------

  // A strict weak order, which is what sorting asks for.
  ghost predicate Order<T(!new)>(less: (T, T) -> bool) {
    && (forall x :: !less(x, x))
    && (forall x, y, z | less(x, y) && less(y, z) :: less(x, z))
    && (forall x, y, z | !less(x, y) && !less(y, z) :: !less(x, z))
  }

  // No entry comes before a smaller one.
  predicate Sorted<T>(s: seq<T>, less: (T, T) -> bool) {
    forall i, j | 0 <= i < j < |s| :: !less(s[j], s[i])
  }

  predicate Ascending<T>(s: seq<T>, less: (T, T) -> bool) {
    forall i, j | 0 <= i < j < |s| :: less(s[i], s[j])
  }

  lemma NotLess(x: string, y: string, z: string)
    requires !Text.Less(x, y) && !Text.Less(y, z)
    ensures !Text.Less(x, z)
  {
    Text.LessTotal(x, y);
    Text.LessTotal(y, z);
    if Text.Less(y, x) && Text.Less(z, y) {
      Text.LessTransitive(z, y, x);
    }
    if Text.Less(z, x) && Text.Less(x, z) {
      Text.LessTransitive(x, z, x);
    }
    Text.LessIrreflexive(x);
  }

  lemma StringsOrder<T(!new)>(key: T -> string, less: (T, T) -> bool)
    requires forall x, y :: less(x, y) == Text.Less(key(x), key(y))
    ensures Order(less)
  {
    forall x ensures !less(x, x) {
      Text.LessIrreflexive(key(x));
    }
    forall x, y, z | less(x, y) && less(y, z) ensures less(x, z) {
      Text.LessTransitive(key(x), key(y), key(z));
    }
    forall x, y, z | !less(x, y) && !less(y, z) ensures !less(x, z) {
      NotLess(key(x), key(y), key(z));
    }
  }

  // ---------- one ascending list for each set of entries ----------

  predicate Within<T(==)>(a: seq<T>, b: seq<T>) {
    forall x | x in a :: x in b
  }

  predicate SameEntries<T(==)>(a: seq<T>, b: seq<T>) {
    Within(a, b) && Within(b, a)
  }

  lemma LastIsLargest<T(!new)>(s: seq<T>, less: (T, T) -> bool, x: T)
    requires Ascending(s, less) && x in s
    ensures x == s[|s| - 1] || less(x, s[|s| - 1])
  {
    var i :| 0 <= i < |s| && s[i] == x;
  }

  lemma DropLast<T(!new)>(a: seq<T>, b: seq<T>, less: (T, T) -> bool)
    requires Order(less) && Ascending(a, less) && Ascending(b, less) && SameEntries(a, b)
    requires a != [] && b != [] && a[|a| - 1] == b[|b| - 1]
    ensures Within(a[..|a| - 1], b[..|b| - 1])
  {
    var n := |a| - 1;
    forall x | x in a[..n] ensures x in b[..|b| - 1] {
      var i :| 0 <= i < n && a[i] == x;
      assert less(x, a[n]);
      assert x in a;
      var j :| 0 <= j < |b| && b[j] == x;
      assert j != |b| - 1;
      assert b[..|b| - 1][j] == x;
    }
  }

  lemma {:induction false} AscendingIsUnique<T(!new)>(a: seq<T>, b: seq<T>, less: (T, T) -> bool)
    requires Order(less) && Ascending(a, less) && Ascending(b, less) && SameEntries(a, b)
    ensures a == b
    decreases |a|
  {
    EmptyTogether(a, b);
    if a != [] {
      var x, y := a[|a| - 1], b[|b| - 1];
      LastIsLargest(b, less, x);
      LastIsLargest(a, less, y);
      assert x == y;
      DropLast(a, b, less);
      DropLast(b, a, less);
      AscendingIsUnique(a[..|a| - 1], b[..|b| - 1], less);
      assert a == a[..|a| - 1] + [x] && b == b[..|b| - 1] + [y];
    }
  }

  lemma EmptyTogether<T(!new)>(a: seq<T>, b: seq<T>)
    requires SameEntries(a, b)
    ensures a == [] <==> b == []
  {
    if a != [] {
      assert a[0] in a;
    }
    if b != [] {
      assert b[0] in b;
    }
  }

  // ---------- sorting in place ----------

  lemma SwapKeepsEntries<T(!new)>(s: seq<T>, k: nat)
    requires 0 < k < |s|
    ensures multiset(s[k := s[k - 1]][k - 1 := s[k]]) == multiset(s)
  {
  }

  // Sorted up to i but for the entry at j, which is on its way down.
  predicate Sinking<T>(s: seq<T>, i: nat, j: nat, less: (T, T) -> bool) {
    && j <= i < |s|
    && (forall p, q | 0 <= p < q <= i && p != j && q != j :: !less(s[q], s[p]))
    && (forall q | j < q <= i :: less(s[j], s[q]))
  }

  lemma SinkStart<T(!new)>(s: seq<T>, i: nat, less: (T, T) -> bool)
    requires i < |s| && Sorted(s[..i], less)
    ensures Sinking(s, i, i, less)
  {
    forall p, q | 0 <= p < q <= i && p != i && q != i ensures !less(s[q], s[p]) {
      assert s[..i][p] == s[p] && s[..i][q] == s[q];
    }
  }

  lemma SinkStep<T(!new)>(s: seq<T>, i: nat, j: nat, less: (T, T) -> bool)
    requires 0 < j && Sinking(s, i, j, less) && less(s[j], s[j - 1])
    ensures Sinking(s[j := s[j - 1]][j - 1 := s[j]], i, j - 1, less)
  {
  }

  lemma SinkEnd<T(!new)>(s: seq<T>, i: nat, j: nat, less: (T, T) -> bool)
    requires Order(less) && Sinking(s, i, j, less) && (j > 0 ==> !less(s[j], s[j - 1]))
    ensures Sorted(s[..i + 1], less)
  {
    forall p | 0 <= p < j ensures !less(s[j], s[p]) {
      if p < j - 1 {
        assert !less(s[j - 1], s[p]);
      }
    }
    forall q | j < q <= i ensures !less(s[q], s[j]) {
      assert less(s[j], s[q]);
    }
  }

  method Sink<T(!new)>(a: array<T>, i: nat, less: (T, T) -> bool)
    requires Order(less) && Sinking(a[..], i, i, less)
    modifies a
    ensures Sorted(a[..i + 1], less) && multiset(a[..]) == multiset(old(a[..]))
  {
    var j := i;
    while j > 0 && less(a[j], a[j - 1])
      invariant 0 <= j <= i < a.Length
      invariant Sinking(a[..], i, j, less)
      invariant multiset(a[..]) == multiset(old(a[..]))
    {
      ghost var s := a[..];
      SinkStep(s, i, j, less);
      SwapKeepsEntries(s, j);
      a[j], a[j - 1] := a[j - 1], a[j];
      assert a[..] == s[j := s[j - 1]][j - 1 := s[j]];
      j := j - 1;
    }
    SinkEnd(a[..], i, j, less);
    assert a[..][..i + 1] == a[..i + 1];
  }

  // sort.Slice: a permutation of the entries, in order.
  method SortSlice<T(!new)>(a: array<T>, less: (T, T) -> bool)
    requires Order(less)
    modifies a
    ensures Sorted(a[..], less) && multiset(a[..]) == multiset(old(a[..]))
  {
    var i := 0;
    while i < a.Length
      invariant 0 <= i <= a.Length
      invariant Sorted(a[..i], less)
      invariant multiset(a[..]) == multiset(old(a[..]))
    {
      assert a[..][..i] == a[..i];
      SinkStart(a[..], i, less);
      Sink(a, i, less);
      i := i + 1;
    }
    assert a[..i] == a[..];
  }

  // Sorting a copy leaves the source alone.
  method SortedCopy<T(!new)>(s: seq<T>, less: (T, T) -> bool) returns (out: seq<T>)
    requires Order(less)
    ensures Sorted(out, less) && multiset(out) == multiset(s)
  {
    if s == [] {
      return s;
    }
    var a := new T[|s|](i requires 0 <= i < |s| => s[i]);
    assert a[..] == s;
    SortSlice(a, less);
    out := a[..];
  }

  // Any two entries are ordered, as they are when their keys differ.
  predicate Comparable<T>(s: seq<T>, less: (T, T) -> bool) {
    forall i, j | 0 <= i < j < |s| :: less(s[i], s[j]) || less(s[j], s[i])
  }

  lemma ComparedAt<T(!new)>(s: seq<T>, less: (T, T) -> bool, p: nat, q: nat)
    requires Comparable(s, less) && p < |s| && q < |s| && p != q
    ensures less(s[p], s[q]) || less(s[q], s[p])
  {
  }

  lemma {:induction false} Once<T(!new)>(s: seq<T>, less: (T, T) -> bool, x: T)
    requires Order(less) && Comparable(s, less)
    ensures multiset(s)[x] <= 1
  {
    if s != [] {
      var n := |s| - 1;
      Once(s[..n], less, x);
      assert s == s[..n] + [s[n]];
      if x == s[n] {
        assert forall i | 0 <= i < n :: s[i] != x;
        assert x !in s[..n];
      }
    }
  }

  lemma Twice<T(!new)>(s: seq<T>, i: nat, j: nat)
    requires i < j < |s|
    ensures s[i] == s[j] ==> multiset(s)[s[i]] >= 2
  {
    assert s == s[..j] + s[j..];
    assert s[..j][i] in s[..j] && s[j..][0] in s[j..];
  }

  // A permutation of entries that are all comparable is, once sorted, ascending.
  lemma SortedIsAscending<T(!new)>(s: seq<T>, l: seq<T>, less: (T, T) -> bool)
    requires Order(less) && Comparable(l, less) && Sorted(s, less) && multiset(s) == multiset(l)
    ensures Ascending(s, less)
  {
    forall i, j | 0 <= i < j < |s| ensures less(s[i], s[j]) {
      var x, y := s[i], s[j];
      Once(l, less, x);
      Twice(s, i, j);
      assert x in multiset(s) && y in multiset(s);
      assert x in multiset(l) && y in multiset(l);
      var p :| 0 <= p < |l| && l[p] == x;
      var q :| 0 <= q < |l| && l[q] == y;
      assert p != q;
      ComparedAt(l, less, p, q);
    }
  }

  lemma EqualBags<T(!new)>(a: seq<T>, b: seq<T>)
    requires multiset(a) == multiset(b)
    ensures SameEntries(a, b)
  {
    forall x | x in a ensures x in b {
      assert x in multiset(a);
    }
    forall x | x in b ensures x in a {
      assert x in multiset(b);
    }
  }

  // ---------- strings ----------

  lemma StringsAreOrdered()
    ensures Order(Text.Less)
  {
    StringsOrder((s: string) => s, Text.Less);
  }

  // The sorted list, without repetition, of a set of strings.
  predicate ListOf(list: seq<string>, s: set<string>) {
    Ascending(list, Text.Less) && (forall u | u in list :: u in s) && (forall u | u in s :: u in list)
  }

  // A set has one such list: the order in which its elements were met does not matter.
  lemma ListUnique(a: seq<string>, b: seq<string>, s: set<string>)
    requires ListOf(a, s) && ListOf(b, s)
    ensures a == b
  {
    StringsAreOrdered();
    AscendingIsUnique(a, b, Text.Less);
  }

  // uniqueStrings: the first occurrences, blanks left out.
  method Unique(values: seq<string>) returns (out: seq<string>)
    ensures forall i, j | 0 <= i < j < |out| :: out[i] != out[j]
    ensures forall u :: u in out <==> u in values && u != ""
  {
    out := [];
    for k := 0 to |values|
      invariant forall i, j | 0 <= i < j < |out| :: out[i] != out[j]
      invariant forall u :: u in out <==> u in values[..k] && u != ""
    {
      assert forall u :: u in values[..k + 1] <==> u in values[..k] || u == values[k];
      if values[k] != "" && values[k] !in out {
        out := out + [values[k]];
      }
    }
    assert values[..|values|] == values;
  }

  // sort.Strings on values without repetition.
  method SortStrings(values: seq<string>) returns (out: seq<string>)
    requires forall i, j | 0 <= i < j < |values| :: values[i] != values[j]
    ensures Ascending(out, Text.Less)
    ensures forall u :: u in out <==> u in values
  {
    StringsAreOrdered();
    out := SortedCopy(values, Text.Less);
    forall i, j | 0 <= i < j < |values| ensures Text.Less(values[i], values[j]) || Text.Less(values[j], values[i]) {
      Text.LessTotal(values[i], values[j]);
    }
    SortedIsAscending(out, values, Text.Less);
    EqualBags(out, values);
  }
}

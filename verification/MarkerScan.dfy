/**
 Looking for words that give evidence away as a fixture: a marker counts where it stands
 alone, with no letter or digit on either side.
 */
module MarkerScan {

  import Text

  predicate AlphaNumeric(c: char) {
    'a' <= c <= 'z' || '0' <= c <= '9'
  }

  // The position lies outside the value or holds neither a letter nor a digit.
  predicate Boundary(value: string, i: int) {
    i < 0 || i >= |value| || !AlphaNumeric(value[i])
  }

  predicate OccursAt(value: string, marker: string, i: nat) {
    i + |marker| <= |value| && value[i..i + |marker|] == marker
  }

  predicate StandsAt(value: string, marker: string, i: nat) {
    OccursAt(value, marker, i) && Boundary(value, i - 1) && Boundary(value, i + |marker|)
  }

  predicate Stands(value: string, marker: string) {
    exists i | 0 <= i <= |value| :: StandsAt(value, marker, i)
  }

  predicate Word(marker: string) {
    marker != "" && forall c | c in marker :: AlphaNumeric(c)
  }

  // strings.Index on the part of the value that begins at `from`.
  method Index(value: string, from: nat, marker: string) returns (found: bool, i: nat)
    requires from <= |value|
    ensures found ==> from <= i && OccursAt(value, marker, i) && forall j | from <= j < i :: !OccursAt(value, marker, j)
    ensures !found ==> forall j | from <= j :: !OccursAt(value, marker, j)
  {
    i := from;
    while i + |marker| <= |value|
      invariant from <= i
      invariant forall j | from <= j < i :: !OccursAt(value, marker, j)
    {
      if value[i..i + |marker|] == marker {
        return true, i;
      }
      i := i + 1;
    }
    return false, i;
  }

  // ---------- the scan ----------

  // The first occurrence at or after `from`, or past the end if there is none.
  function FirstFrom(value: string, marker: string, from: nat): (i: nat)
    ensures from <= i && forall j | from <= j < i :: !OccursAt(value, marker, j)
    ensures !OccursAt(value, marker, i) ==> forall j | from <= j :: !OccursAt(value, marker, j)
    decreases |value| - from
  {
    if from + |marker| > |value| || OccursAt(value, marker, from) then from
    else FirstFrom(value, marker, from + 1)
  }

  // What the scan answers: it jumps past every occurrence that does not stand alone.
  predicate Scan(value: string, marker: string, from: nat)
    requires marker != ""
    decreases |value| - from
  {
    var i := FirstFrom(value, marker, from);
    OccursAt(value, marker, i) && (StandsAt(value, marker, i) || Scan(value, marker, i + |marker|))
  }

  method HasMarkerToken(value: string, marker: string) returns (found: bool)
    requires marker != ""
    ensures found <==> Scan(value, marker, 0)
  {
    var from := 0;
    while from < |value|
      invariant from <= |value|
      invariant Scan(value, marker, from) <==> Scan(value, marker, 0)
    {
      var some, i := Index(value, from, marker);
      ScanStep(value, marker, from, some, i);
      if !some {
        return false;
      }
      if Boundary(value, i - 1) && Boundary(value, i + |marker|) {
        return true;
      }
      from := i + |marker|;
    }
    ScanEnds(value, marker, from);
    return false;
  }

  lemma FirstIs(value: string, marker: string, from: nat, some: bool, i: nat)
    requires some ==> from <= i && OccursAt(value, marker, i) && forall j | from <= j < i :: !OccursAt(value, marker, j)
    requires !some ==> forall j | from <= j :: !OccursAt(value, marker, j)
    ensures some <==> OccursAt(value, marker, FirstFrom(value, marker, from))
    ensures some ==> FirstFrom(value, marker, from) == i
  {
  }

  lemma ScanStep(value: string, marker: string, from: nat, some: bool, i: nat)
    requires marker != ""
    requires some ==> from <= i && OccursAt(value, marker, i) && forall j | from <= j < i :: !OccursAt(value, marker, j)
    requires !some ==> forall j | from <= j :: !OccursAt(value, marker, j)
    ensures !some ==> !Scan(value, marker, from)
    ensures some ==>
              (Scan(value, marker, from) <==>
                 (Boundary(value, i - 1) && Boundary(value, i + |marker|)) || Scan(value, marker, i + |marker|))
  {
    FirstIs(value, marker, from, some, i);
  }

  lemma ScanEnds(value: string, marker: string, from: nat)
    requires marker != "" && from >= |value|
    ensures !Scan(value, marker, from)
  {
  }

  // ---------- when it misses nothing ----------

  // The marker can begin again k characters into itself, after a character that is a boundary.
  predicate Splits(marker: string, k: nat) {
    0 < k < |marker| && marker[k..] == marker[..|marker| - k] && !AlphaNumeric(marker[k - 1])
  }

  predicate Solid(marker: string) {
    forall k | 0 <= k < |marker| :: !Splits(marker, k)
  }

  // Two overlapping occurrences, the later of which stands alone, split the marker.
  lemma OverlapSplits(value: string, marker: string, i: nat, j: nat)
    requires OccursAt(value, marker, i) && i < j < i + |marker| && StandsAt(value, marker, j)
    ensures Splits(marker, j - i)
  {
    var k, n := j - i, |marker|;
    assert marker[k - 1] == value[i..i + n][k - 1] == value[j - 1];
    forall x | 0 <= x < n - k ensures marker[k..][x] == marker[..n - k][x] {
      assert marker[k + x] == value[i..i + n][k + x] == value[j + x];
      assert marker[x] == value[j..j + n][x] == value[j + x];
    }
    assert marker[k..] == marker[..n - k];
  }

  lemma {:induction false} ScanFinds(value: string, marker: string, from: nat, j: nat)
    requires marker != "" && Solid(marker) && from <= j && StandsAt(value, marker, j)
    ensures Scan(value, marker, from)
    decreases |value| - from
  {
    var i := FirstFrom(value, marker, from);
    if !StandsAt(value, marker, i) {
      if j < i + |marker| {
        OverlapSplits(value, marker, i, j);
        assert false;
      }
      ScanFinds(value, marker, i + |marker|, j);
    }
  }

  lemma {:induction false} ScanIsSound(value: string, marker: string, from: nat)
    requires marker != "" && Scan(value, marker, from)
    ensures Stands(value, marker)
    decreases |value| - from
  {
    var i := FirstFrom(value, marker, from);
    if StandsAt(value, marker, i) {
      assert 0 <= i <= |value|;
    } else {
      ScanIsSound(value, marker, i + |marker|);
    }
  }

  // A letter the marker does not begin with.
  function OtherLetter(marker: string): (c: char)
    requires marker != ""
    ensures AlphaNumeric(c) && c != marker[0]
  {
    if marker[0] == 'a' then 'b' else 'a'
  }

  // A value in which the occurrence that stands alone overlaps one that does not.
  function Hidden(marker: string, k: nat): string
    requires 0 < k < |marker|
  {
    [OtherLetter(marker)] + marker + marker[|marker| - k..]
  }

  lemma HiddenStands(marker: string, k: nat)
    requires Splits(marker, k)
    ensures StandsAt(Hidden(marker, k), marker, 1 + k)
  {
    var v, n := Hidden(marker, k), |marker|;
    assert v[k] == marker[k - 1];
    forall x | 0 <= x < n ensures v[1 + k..1 + k + n][x] == marker[x] {
      if x < n - k {
        assert v[1 + k + x] == marker[k + x] == marker[k..][x] == marker[..n - k][x];
      } else {
        assert v[1 + k + x] == marker[n - k..][x - (n - k)];
      }
    }
    assert v[1 + k..1 + k + n] == marker;
  }

  lemma HiddenIsMissed(marker: string, k: nat)
    requires 0 < k < |marker|
    ensures !Scan(Hidden(marker, k), marker, 0)
  {
    var v, n := Hidden(marker, k), |marker|;
    assert !OccursAt(v, marker, 0) by {
      assert v[0..n][0] == OtherLetter(marker);
    }
    assert v[1..1 + n] == marker;
    FirstIs(v, marker, 0, true, 1);
    assert !OccursAt(v, marker, FirstFrom(v, marker, 1 + n));
  }

  /** What the scan reports is always there. It finds every marker that stands alone, in every
      value, exactly when the marker does not overlap itself after a character that is neither
      a letter nor a digit. */
  lemma ScanExactly(marker: string)
    requires marker != ""
    ensures forall value | Scan(value, marker, 0) :: Stands(value, marker)
    ensures (forall value :: Scan(value, marker, 0) <==> Stands(value, marker)) <==> Solid(marker)
  {
    forall value | Scan(value, marker, 0) ensures Stands(value, marker) {
      ScanIsSound(value, marker, 0);
    }
    if Solid(marker) {
      forall value | Stands(value, marker) ensures Scan(value, marker, 0) {
        var j :| 0 <= j <= |value| && StandsAt(value, marker, j);
        ScanFinds(value, marker, 0, j);
      }
    } else {
      var k :| 0 <= k < |marker| && Splits(marker, k);
      HiddenStands(marker, k);
      HiddenIsMissed(marker, k);
      assert Stands(Hidden(marker, k), marker);
    }
  }

  // Markers made of letters and digits are never missed.
  lemma WordsAreFound(value: string, marker: string)
    requires Word(marker)
    ensures Scan(value, marker, 0) <==> Stands(value, marker)
  {
    forall k | 0 <= k < |marker| ensures !Splits(marker, k) {
      assert k > 0 ==> marker[k - 1] in marker;
    }
    ScanExactly(marker);
  }

  const MARKERS: seq<string> :=
    ["fixture", "mock", "demo", "sample", "synthetic", "testdata", "placeholder", "dummy", "example"]

  lemma MarkersAreWords(k: nat)
    requires k < |MARKERS|
    ensures Word(MARKERS[k])
  {
  }

  // completionAuditSnapshotContainsNonReleaseMarker.
  predicate NonRelease(value: string) {
    exists k | 0 <= k < |MARKERS| :: Stands(Text.Lower(Text.TrimSpace(value)), MARKERS[k])
  }

  method ContainsNonReleaseMarker(value: string) returns (found: bool)
    ensures found <==> NonRelease(value)
  {
    var normalized := Text.Lower(Text.TrimSpace(value));
    for k := 0 to |MARKERS|
      invariant forall j | 0 <= j < k :: !Stands(normalized, MARKERS[j])
    {
      MarkersAreWords(k);
      WordsAreFound(normalized, MARKERS[k]);
      var here := HasMarkerToken(normalized, MARKERS[k]);
      if here {
        return true;
      }
    }
    return false;
  }

  // A letter or digit next to a marker keeps it from standing alone; anything else does not.
  lemma NeighboursDecide(value: string, marker: string, i: nat)
    requires OccursAt(value, marker, i)
    ensures var j := i + |marker|;
            StandsAt(value, marker, i) <==>
              && (i > 0 ==> !('a' <= value[i - 1] <= 'z') && !('0' <= value[i - 1] <= '9'))
              && (j < |value| ==> !('a' <= value[j] <= 'z') && !('0' <= value[j] <= '9'))
  {
  }

  // The words, by name.
  lemma NonReleaseWords(value: string)
    ensures var v := Text.Lower(Text.TrimSpace(value));
            NonRelease(value) <==>
              || Stands(v, "fixture") || Stands(v, "mock") || Stands(v, "demo") || Stands(v, "sample")
              || Stands(v, "synthetic") || Stands(v, "testdata") || Stands(v, "placeholder") || Stands(v, "dummy")
              || Stands(v, "example")
  {
    var v := Text.Lower(Text.TrimSpace(value));
    assert |MARKERS| == 9;
    assert Stands(v, MARKERS[0]) ==> NonRelease(value);
    assert Stands(v, MARKERS[1]) ==> NonRelease(value);
    assert Stands(v, MARKERS[2]) ==> NonRelease(value);
    assert Stands(v, MARKERS[3]) ==> NonRelease(value);
    assert Stands(v, MARKERS[4]) ==> NonRelease(value);
    assert Stands(v, MARKERS[5]) ==> NonRelease(value);
    assert Stands(v, MARKERS[6]) ==> NonRelease(value);
    assert Stands(v, MARKERS[7]) ==> NonRelease(value);
    assert Stands(v, MARKERS[8]) ==> NonRelease(value);
  }
}

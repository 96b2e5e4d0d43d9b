/**
 Go strings as sequences of characters: byte-wise order, white space trimming and
 ASCII lower casing.
 */
module Text {

  // ---------- order ----------

  predicate Less(a: string, b: string) {
    && b != []
    && (a == [] || a[0] < b[0] || (a[0] == b[0] && Less(a[1..], b[1..])))
  }

  lemma {:induction false} LessIrreflexive(a: string)
    ensures !Less(a, a)
  {
    if a != [] {
      LessIrreflexive(a[1..]);
    }
  }

  lemma {:induction false} LessTransitive(a: string, b: string, c: string)
    requires Less(a, b) && Less(b, c)
    ensures Less(a, c)
  {
    if a != [] && a[0] == b[0] == c[0] {
      LessTransitive(a[1..], b[1..], c[1..]);
    }
  }

  lemma {:induction false} LessTotal(a: string, b: string)
    ensures Less(a, b) || a == b || Less(b, a)
  {
    if a != [] && b != [] && a[0] == b[0] {
      LessTotal(a[1..], b[1..]);
      assert a == [a[0]] + a[1..] && b == [b[0]] + b[1..];
    }
  }

  // The order is decided by the first difference.
  lemma {:induction false} LessAt(a: string, b: string, k: nat)
    requires k < |a| && k < |b| && a[..k] == b[..k] && a[k] < b[k]
    ensures Less(a, b)
    decreases k
  {
    if k > 0 {
      assert a[0] == a[..k][0] && b[0] == b[..k][0];
      assert a[1..][..k - 1] == a[..k][1..] && b[1..][..k - 1] == b[..k][1..];
      LessAt(a[1..], b[1..], k - 1);
    }
  }

  // ---------- white space ----------

  // The Unicode white space characters.
  predicate IsSpace(c: char) {
    || '\t' <= c <= '\r' || c == ' ' || c == '\U{0085}' || c == '\U{00A0}' || c == '\U{1680}'
    || '\U{2000}' <= c <= '\U{200A}' || c == '\U{2028}' || c == '\U{2029}' || c == '\U{202F}'
    || c == '\U{205F}' || c == '\U{3000}'
  }

  function TrimLeft(s: string): string {
    if s != [] && IsSpace(s[0]) then TrimLeft(s[1..]) else s
  }

  function TrimRight(s: string): string {
    if s != [] && IsSpace(s[|s| - 1]) then TrimRight(s[..|s| - 1]) else s
  }

  function TrimSpace(s: string): string {
    TrimRight(TrimLeft(s))
  }

  predicate Trimmed(s: string) {
    s != [] ==> !IsSpace(s[0]) && !IsSpace(s[|s| - 1])
  }

  lemma {:induction false} TrimLeftEnds(s: string)
    ensures TrimLeft(s) != [] ==> !IsSpace(TrimLeft(s)[0])
  {
    if s != [] && IsSpace(s[0]) {
      TrimLeftEnds(s[1..]);
    }
  }

  lemma {:induction false} TrimRightEnds(s: string)
    requires s != [] ==> !IsSpace(s[0])
    ensures Trimmed(TrimRight(s))
  {
    if s != [] && IsSpace(s[|s| - 1]) {
      TrimRightEnds(s[..|s| - 1]);
    }
  }

  // Trimming yields a trimmed string, and changes no string that already is one.
  lemma TrimIsTrimmed(s: string)
    ensures Trimmed(TrimSpace(s))
    ensures TrimSpace(TrimSpace(s)) == TrimSpace(s)
  {
    TrimLeftEnds(s);
    TrimRightEnds(TrimLeft(s));
  }

  predicate Blank(s: string) {
    forall c | c in s :: IsSpace(c)
  }

  lemma {:induction false} TrimLeftSplits(s: string) returns (left: string)
    ensures Blank(left) && s == left + TrimLeft(s)
  {
    left := "";
    if s != [] && IsSpace(s[0]) {
      var rest := TrimLeftSplits(s[1..]);
      left := [s[0]] + rest;
      assert s == [s[0]] + s[1..];
    }
  }

  lemma {:induction false} TrimRightSplits(s: string) returns (right: string)
    ensures Blank(right) && s == TrimRight(s) + right
  {
    right := "";
    if s != [] && IsSpace(s[|s| - 1]) {
      var rest := TrimRightSplits(s[..|s| - 1]);
      right := rest + [s[|s| - 1]];
      assert s == s[..|s| - 1] + [s[|s| - 1]];
    }
  }

  // What trimming takes away is white space at the ends, and nothing else.
  lemma TrimTakesBlanks(s: string) returns (left: string, right: string)
    ensures Blank(left) && Blank(right) && s == left + TrimSpace(s) + right && Trimmed(TrimSpace(s))
  {
    left := TrimLeftSplits(s);
    right := TrimRightSplits(TrimLeft(s));
    TrimIsTrimmed(s);
  }

  // ---------- dashes ----------

  // The words with single dashes in between.
  function Dashed(words: seq<string>): string {
    if words == [] then ""
    else if |words| == 1 then words[0]
    else Dashed(words[..|words| - 1]) + "-" + words[|words| - 1]
  }

  lemma DashedMore(words: seq<string>, c: char)
    requires words != []
    ensures Dashed(words[..|words| - 1] + [words[|words| - 1] + [c]]) == Dashed(words) + [c]
  {
    var n := |words| - 1;
    var longer := words[..n] + [words[n] + [c]];
    assert longer[..n] == words[..n] && longer[n] == words[n] + [c];
    if n > 0 {
      LongerEnd(Dashed(words[..n]) + "-", words[n], c);
    }
  }

  lemma LongerEnd(a: string, b: string, c: char)
    ensures a + (b + [c]) == a + b + [c]
  {
  }

  lemma DashedAnother(words: seq<string>, w: string)
    ensures Dashed(words + [w]) == if words == [] then w else Dashed(words) + "-" + w
  {
    assert (words + [w])[..|words|] == words;
  }

  // Words that hold no dash leave none at the ends.
  lemma {:induction false} DashedEnds(words: seq<string>)
    requires words != [] && forall w | w in words :: w != "" && '-' !in w
    ensures Dashed(words) != "" && Dashed(words)[0] != '-' && Dashed(words)[|Dashed(words)| - 1] != '-'
  {
    var n := |words| - 1;
    assert words[n] in words && words[n][|words[n]| - 1] in words[n] && words[n][0] in words[n];
    if n > 0 {
      assert forall w | w in words[..n] :: w in words;
      DashedEnds(words[..n]);
    }
  }

  // ---------- case ----------

  function LowerChar(c: char): char {
    if 'A' <= c <= 'Z' then 'a' + (c - 'A') else c
  }

  const CAPITALS := "ABCDEFGHIJKLMNOPQRSTUVWXYZ"
  const SMALLS := "abcdefghijklmnopqrstuvwxyz"

  // Capital letters become small ones, and nothing else changes.
  lemma LowersCapitals(n: nat, c: char)
    requires n < 26
    ensures |CAPITALS| == |SMALLS| == 26 && LowerChar(CAPITALS[n]) == SMALLS[n]
    ensures LowerChar(c) == c || c in CAPITALS
    ensures LowerChar(LowerChar(c)) == LowerChar(c)
  {
    if LowerChar(c) != c {
      var i := (c - 'A') as nat;
      assert CAPITALS[i] == c;
    }
  }

  function Lower(s: string): (r: string)
    ensures |r| == |s|
  {
    seq(|s|, i requires 0 <= i < |s| => LowerChar(s[i]))
  }

  // Lower case keeps white space where it is, so trimming and lowering twice changes nothing more.
  lemma LowerTrimTwice(s: string)
    ensures Lower(TrimSpace(Lower(TrimSpace(s)))) == Lower(TrimSpace(s))
  {
    var t := TrimSpace(s);
    TrimIsTrimmed(s);
    assert Trimmed(Lower(t));
    assert TrimSpace(Lower(t)) == Lower(t);
    assert Lower(Lower(t)) == Lower(t);
  }
}

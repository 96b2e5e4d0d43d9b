/**
 Normalising the label of an approved artifact to something fit for a file name.
 */
module ArtifactLabel {

  import Text

  // Characters kept as they are; a dash is handled apart.
  predicate Kept(c: char) {
    'a' <= c <= 'z' || 'A' <= c <= 'Z' || '0' <= c <= '9' || c == '_' || c == '.'
  }

  predicate EndsInDash(s: string) {
    s != "" && s[|s| - 1] == '-'
  }

  // Every run of other characters, dashes included, becomes one dash.
  function Collapse(s: string): string {
    if s == "" then ""
    else
      var done, c := Collapse(s[..|s| - 1]), s[|s| - 1];
      if Kept(c) then done + [c] else if EndsInDash(done) then done else done + ['-']
  }

  predicate Edge(c: char) {
    c == '-' || c == '.'
  }

  function TrimFront(s: string): string {
    if s != "" && Edge(s[0]) then TrimFront(s[1..]) else s
  }

  function TrimBack(s: string): string {
    if s != "" && Edge(s[|s| - 1]) then TrimBack(s[..|s| - 1]) else s
  }

  // strings.Trim with the cutset "-.".
  function TrimEdges(s: string): string {
    TrimBack(TrimFront(s))
  }

  const DEFAULT := "approved-artifact"
  const LIMIT := 80

  function Cut(s: string): string {
    if |s| > LIMIT then TrimEdges(s[..LIMIT]) else s
  }

  function OrDefault(s: string): string {
    if s == "" then DEFAULT else s
  }

  function Normal(s: string): string {
    OrDefault(Cut(OrDefault(TrimEdges(Collapse(Text.TrimSpace(s))))))
  }

  // What a label may look like.
  predicate Fit(s: string) {
    && (forall i | 0 <= i < |s| :: Kept(s[i]) || s[i] == '-')
    && (forall i | 0 <= i < |s| - 1 :: !(s[i] == '-' && s[i + 1] == '-'))
  }

  predicate WellFormed(s: string) {
    && Fit(s) && 0 < |s| <= LIMIT
    && !Edge(s[0]) && !Edge(s[|s| - 1])
  }

  // normalizeApprovedArtifactLabel.
  method Normalize(s: string) returns (r: string)
    ensures r == Normal(s)
  {
    var trimmed := Text.TrimSpace(s);
    if trimmed == "" {
      return DEFAULT;
    }
    var out, lastDash := "", false;
    for i := 0 to |trimmed|
      invariant out == Collapse(trimmed[..i])
      invariant lastDash <==> EndsInDash(out)
    {
      assert trimmed[..i + 1][..i] == trimmed[..i];
      var c := trimmed[i];
      if Kept(c) {
        out, lastDash := out + [c], false;
      } else if !lastDash {
        out, lastDash := out + ['-'], true;
      }
    }
    assert trimmed[..|trimmed|] == trimmed;
    r := TrimEdges(out);
    if r == "" {
      return DEFAULT;
    }
    if |r| > LIMIT {
      r := TrimEdges(r[..LIMIT]);
    }
    if r == "" {
      return DEFAULT;
    }
  }

  // ---------- the result is well formed ----------

  lemma {:induction false} CollapseIsFit(s: string)
    ensures Fit(Collapse(s))
  {
    if s != "" {
      CollapseIsFit(s[..|s| - 1]);
    }
  }

  lemma {:induction false} FrontIsFit(s: string)
    requires Fit(s)
    ensures Fit(TrimFront(s)) && |TrimFront(s)| <= |s| && (TrimFront(s) != "" ==> !Edge(TrimFront(s)[0]))
  {
    if s != "" && Edge(s[0]) {
      FrontIsFit(s[1..]);
    }
  }

  lemma {:induction false} BackIsFit(s: string)
    requires Fit(s)
    ensures Fit(TrimBack(s)) && TrimBack(s) <= s && (TrimBack(s) != "" ==> !Edge(TrimBack(s)[|TrimBack(s)| - 1]))
    ensures s != "" && !Edge(s[0]) ==> TrimBack(s) != ""
  {
    if s != "" && Edge(s[|s| - 1]) {
      BackIsFit(s[..|s| - 1]);
    }
  }

  lemma EdgesAreFit(s: string)
    requires Fit(s)
    ensures var t := TrimEdges(s);
            Fit(t) && |t| <= |s| && (t != "" ==> !Edge(t[0]) && !Edge(t[|t| - 1])) &&
                (s != "" && !Edge(s[0]) ==> t != "")
  {
    FrontIsFit(s);
    BackIsFit(TrimFront(s));
  }

  lemma DefaultIsWellFormed()
    ensures WellFormed(DEFAULT)
  {
  }

  /** Whatever the label: the result is not empty, at most 80 characters long, made of letters,
      digits, underscores, dots and single dashes, and has no dash or dot at either end. */
  lemma NormalIsWellFormed(s: string)
    ensures WellFormed(Normal(s))
  {
    DefaultIsWellFormed();
    var out := Collapse(Text.TrimSpace(s));
    CollapseIsFit(Text.TrimSpace(s));
    EdgesAreFit(out);
    var t := OrDefault(TrimEdges(out));
    if |t| > LIMIT {
      EdgesAreFit(t[..LIMIT]);
    }
  }

  // ---------- well-formed labels, and only they, stay ----------

  lemma {:induction false} CollapseKeepsFit(s: string)
    requires Fit(s)
    ensures Collapse(s) == s
  {
    if s != "" {
      CollapseKeepsFit(s[..|s| - 1]);
    }
  }

  // A label is left alone exactly when it is well formed.
  lemma NormalStaysExactly(s: string)
    ensures Normal(s) == s <==> WellFormed(s)
  {
    if WellFormed(s) {
      assert !Text.IsSpace(s[0]) && !Text.IsSpace(s[|s| - 1]);
      assert Text.TrimSpace(s) == s;
      CollapseKeepsFit(s);
      assert TrimEdges(s) == s;
    }
    NormalIsWellFormed(s);
  }

  lemma NormalIsIdempotent(s: string)
    ensures Normal(Normal(s)) == Normal(s)
  {
    NormalIsWellFormed(s);
    NormalStaysExactly(Normal(s));
  }

  // ---------- words and dashes ----------

  // The longest runs of kept characters, in order.
  function Words(s: string): seq<string> {
    if s == "" then []
    else
      var n := |s| - 1;
      var before, c := Words(s[..n]), s[n];
      if !Kept(c) then before
      else if before != [] && n > 0 && Kept(s[n - 1]) then
        before[..|before| - 1] + [before[|before| - 1] + [c]]
      else before + [[c]]
  }

  lemma {:induction false} WordAtEnd(s: string)
    requires s != "" && Kept(s[|s| - 1])
    ensures Words(s) != []
  {
    if |s| > 1 && Kept(s[|s| - 2]) {
      assert s[..|s| - 1][|s[..|s| - 1]| - 1] == s[|s| - 2];
      WordAtEnd(s[..|s| - 1]);
    }
  }

  function Lead(s: string): string {
    if s != "" && !Kept(s[0]) then "-" else ""
  }

  function Trail(s: string): string {
    if s != "" && !Kept(s[|s| - 1]) && Words(s) != [] then "-" else ""
  }

  lemma {:induction false} NoWordsNoKept(s: string)
    requires Words(s) == []
    ensures forall c | c in s :: !Kept(c)
  {
    if s != "" {
      NoWordsNoKept(s[..|s| - 1]);
      assert s == s[..|s| - 1] + [s[|s| - 1]];
    }
  }

  // What lies between two words becomes one dash.
  lemma {:induction false} CollapseJoins(s: string)
    ensures Collapse(s) == Lead(s) + Text.Dashed(Words(s)) + Trail(s)
    ensures EndsInDash(Collapse(s)) <==> s != "" && !Kept(s[|s| - 1])
  {
    if s != "" {
      var n := |s| - 1;
      var front, c := s[..n], s[n];
      CollapseJoins(front);
      if Words(front) == [] {
        NoWordsNoKept(front);
      }
      if Kept(c) {
        CollapseKept(s);
      } else if front == "" {
        assert Text.Dashed(Words(front)) == "";
      }
    }
  }

  lemma Regroup(a: string, b: string, c: string, d: string)
    ensures a + b + c + d == a + (b + c + d)
  {
  }

  lemma CollapseKept(s: string)
    requires s != "" && Kept(s[|s| - 1])
    requires var front := s[..|s| - 1];
             && Collapse(front) == Lead(front) + Text.Dashed(Words(front)) + Trail(front)
             && (Words(front) == [] ==> forall c | c in front :: !Kept(c))
    ensures Collapse(s) == Lead(s) + Text.Dashed(Words(s)) + Trail(s)
  {
    var n := |s| - 1;
    var front, c := s[..n], s[n];
    Regroup(Lead(front), Text.Dashed(Words(front)), Trail(front), [c]);
    assert Trail(s) == "";
    assert Collapse(s) == Collapse(front) + [c];
    if n > 0 {
      assert front[n - 1] == s[n - 1] && front[n - 1] in front && front[0] == s[0];
      KeptJoins(s);
    } else {
      assert front == "" && Text.Dashed([[c]]) == [c];
    }
  }

  lemma KeptJoins(s: string)
    requires |s| > 1 && Kept(s[|s| - 1])
    ensures var front := s[..|s| - 1];
            Words(front) != [] ==> Text.Dashed(Words(s)) == Text.Dashed(Words(front)) + Trail(front) + [s[|s| - 1]]
    ensures Words(s[..|s| - 1]) == [] && !Kept(s[|s| - 2]) ==> Text.Dashed(Words(s)) == [s[|s| - 1]]
  {
    var n := |s| - 1;
    var front, c := s[..n], s[n];
    assert front[|front| - 1] == s[n - 1];
    if Words(front) != [] && Kept(s[n - 1]) {
      Text.DashedMore(Words(front), c);
    } else {
      Text.DashedAnother(Words(front), [c]);
    }
  }

  lemma {:induction false} FrontOfLonger(s: string)
    ensures TrimFront(s + "-") == if TrimFront(s) == "" then "" else TrimFront(s) + "-"
  {
    if s == "" {
      assert s + "-" == "-" && "-"[1..] == "";
    } else if Edge(s[0]) {
      FrontOfLonger(s[1..]);
      assert (s + "-")[1..] == s[1..] + "-";
    }
  }

  // Dashes at the ends make no difference to what is left.
  lemma EdgesDrop(lead: string, s: string, trail: string)
    requires (lead == "" || lead == "-") && (trail == "" || trail == "-")
    ensures TrimEdges(lead + s + trail) == TrimEdges(s)
  {
    var t := s + trail;
    assert lead + s + trail == lead + t;
    if lead == "-" {
      assert (lead + t)[1..] == t;
    } else {
      assert lead + t == t;
    }
    if trail == "-" {
      FrontOfLonger(s);
      var f := TrimFront(s);
      assert (f + "-")[..|f + "-"| - 1] == f;
    } else {
      assert t == s;
    }
  }

  lemma {:induction false} WordsAfterBlank(left: string, s: string)
    requires forall c | c in left :: !Kept(c)
    ensures Words(left + s) == Words(s)
    decreases |s|
  {
    if s == "" {
      assert left + s == left;
      NoKeptNoWords(left);
    } else {
      var n := |s| - 1;
      assert (left + s)[..|left + s| - 1] == left + s[..n];
      WordsAfterBlank(left, s[..n]);
      if n == 0 && left != "" {
        assert left[|left| - 1] in left;
      }
      if n == 0 {
        assert s[..n] == "";
      }
    }
  }

  lemma {:induction false} NoKeptNoWords(s: string)
    requires forall c | c in s :: !Kept(c)
    ensures Words(s) == []
  {
    if s != "" {
      assert s[|s| - 1] in s;
      NoKeptNoWords(s[..|s| - 1]);
    }
  }

  lemma {:induction false} WordsBeforeBlank(s: string, right: string)
    requires forall c | c in right :: !Kept(c)
    ensures Words(s + right) == Words(s)
    decreases |right|
  {
    if right == "" {
      assert s + right == s;
    } else {
      var n := |right| - 1;
      assert right[n] in right;
      assert (s + right)[..|s + right| - 1] == s + right[..n];
      WordsBeforeBlank(s, right[..n]);
    }
  }

  /** Whatever the label: its words, joined by single dashes, with dashes and dots trimmed off the
      ends; cut after 80 characters and trimmed again; and the default where nothing is left. */
  lemma NormalSpellsWords(s: string)
    ensures var spelled := TrimEdges(Text.Dashed(Words(s)));
            Normal(s) == if spelled == "" then "approved-artifact"
                         else if |spelled| <= 80 then spelled else TrimEdges(spelled[..80])
  {
    var left, right := Text.TrimTakesBlanks(s);
    var trimmed := Text.TrimSpace(s);
    assert left + trimmed + right == left + (trimmed + right);
    WordsAfterBlank(left, trimmed + right);
    WordsBeforeBlank(trimmed, right);
    CollapseJoins(trimmed);
    EdgesDrop(Lead(trimmed), Text.Dashed(Words(trimmed)), Trail(trimmed));
    var spelled := TrimEdges(Text.Dashed(Words(s)));
    CollapseIsFit(trimmed);
    EdgesAreFit(Collapse(trimmed));
    if |spelled| > 80 {
      EdgesAreFit(spelled[..80]);
    }
  }

  // ---------- no letter is lost or reordered ----------

  predicate Letter(c: char) {
    Kept(c) && c != '.'
  }

  // The letters, digits and underscores of a label, in order.
  function Letters(s: string): string {
    if s == "" then ""
    else Letters(s[..|s| - 1]) + if Letter(s[|s| - 1]) then [s[|s| - 1]] else []
  }

  lemma {:induction false} LettersConcat(a: string, b: string)
    ensures Letters(a + b) == Letters(a) + Letters(b)
  {
    if b == "" {
      assert a + b == a;
    } else {
      var n := |b| - 1;
      LettersConcat(a, b[..n]);
      assert (a + b)[..|a + b| - 1] == a + b[..n];
    }
  }

  lemma DropFirst(s: string)
    requires s != "" && !Letter(s[0])
    ensures Letters(s[1..]) == Letters(s)
  {
    LettersConcat([s[0]], s[1..]);
    assert s == [s[0]] + s[1..];
    assert [s[0]][..0] == "";
  }

  lemma {:induction false} CollapseKeepsLetters(s: string)
    ensures Letters(Collapse(s)) == Letters(s)
  {
    if s != "" {
      var done := Collapse(s[..|s| - 1]);
      CollapseKeepsLetters(s[..|s| - 1]);
      assert forall c :: (done + [c])[..|done|] == done;
    }
  }

  lemma {:induction false} FrontKeepsLetters(s: string)
    ensures Letters(TrimFront(s)) == Letters(s)
  {
    if s != "" && Edge(s[0]) {
      DropFirst(s);
      FrontKeepsLetters(s[1..]);
    }
  }

  lemma {:induction false} BackKeepsLetters(s: string)
    ensures Letters(TrimBack(s)) == Letters(s)
  {
    if s != "" && Edge(s[|s| - 1]) {
      BackKeepsLetters(s[..|s| - 1]);
    }
  }

  lemma {:induction false} TrimLeftKeepsLetters(s: string)
    ensures Letters(Text.TrimLeft(s)) == Letters(s)
  {
    if s != "" && Text.IsSpace(s[0]) {
      DropFirst(s);
      TrimLeftKeepsLetters(s[1..]);
    }
  }

  lemma {:induction false} TrimRightKeepsLetters(s: string)
    ensures Letters(Text.TrimRight(s)) == Letters(s)
  {
    if s != "" && Text.IsSpace(s[|s| - 1]) {
      TrimRightKeepsLetters(s[..|s| - 1]);
    }
  }

  lemma LastIsLetter(s: string)
    requires Fit(s)
    ensures s != "" && !Edge(s[|s| - 1]) ==> Letters(s) != ""
  {
  }

  lemma NoLettersCollapse(s: string)
    requires Fit(s) && Letters(s) == ""
    ensures TrimEdges(s) == ""
  {
    EdgesAreFit(s);
    FrontKeepsLetters(s);
    BackKeepsLetters(TrimFront(s));
    LastIsLetter(TrimEdges(s));
  }

  /** A label without letters becomes the default. Otherwise the result spells the same letters,
      cut short only by the limit. */
  lemma LettersSurvive(s: string)
    ensures Letters(s) == "" ==> Normal(s) == DEFAULT
    ensures Letters(s) != "" ==> Letters(Normal(s)) <= Letters(s)
    ensures Letters(s) != "" && |TrimEdges(Collapse(Text.TrimSpace(s)))| <= LIMIT ==> Letters(Normal(s)) == Letters(s)
  {
    var trimmed := Text.TrimSpace(s);
    TrimLeftKeepsLetters(s);
    TrimRightKeepsLetters(Text.TrimLeft(s));
    var out := Collapse(trimmed);
    CollapseKeepsLetters(trimmed);
    CollapseIsFit(trimmed);
    var t := TrimEdges(out);
    FrontKeepsLetters(out);
    BackKeepsLetters(TrimFront(out));
    if Letters(s) == "" {
      NoLettersCollapse(out);
      DefaultIsWellFormed();
    } else if |t| > LIMIT {
      EdgesAreFit(out);
      EdgesAreFit(t[..LIMIT]);
      FrontKeepsLetters(t[..LIMIT]);
      BackKeepsLetters(TrimFront(t[..LIMIT]));
      LettersConcat(t[..LIMIT], t[LIMIT..]);
      assert t == t[..LIMIT] + t[LIMIT..];
    }
  }
}

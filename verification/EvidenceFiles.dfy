/**
 Auditing one evidence reference: its path and anchor, the markdown file behind it, and the
 heading the anchor names.

 What the platform says about paths and letters is a parameter, and so are the files; the hash
 of a file stands for its content.
 */
module EvidenceFiles {

  import opened Wrappers
  import Text
  import opened AuditSnapshot
  import opened AuditSealing

  // filepath.Clean with forward slashes, unicode letters and digits, and the release-candidate rule.
  datatype Platform = Platform(clean: string -> string, letter: char -> bool, candidate: string -> bool)

  // The content of a file below the evidence root, if it can be read.
  type Contents = string -> Option<string>

  // ---------- paths and anchors ----------

  function Until(s: string, c: char): string {
    if s == "" || s[0] == c then "" else [s[0]] + Until(s[1..], c)
  }

  predicate HasAnchor(uri: string) {
    '#' in Text.TrimSpace(uri)
  }

  function PathOf(p: Platform, uri: string): string {
    p.clean(Text.TrimSpace(Until(Until(Text.TrimSpace(uri), '#'), '?')))
  }

  function AnchorOf(uri: string): string {
    var u := Text.TrimSpace(uri);
    var n := |Until(u, '#')|;
    if n < |u| then Text.TrimSpace(u[n + 1..]) else ""
  }

  predicate StartsWith(s: string, prefix: string) {
    |prefix| <= |s| && s[..|prefix|] == prefix
  }

  predicate EndsWith(s: string, suffix: string) {
    |suffix| <= |s| && s[|s| - |suffix|..] == suffix
  }

  // A markdown document under docs, named in a way that is allowed for release candidates.
  predicate PathFits(p: Platform, ref: Reference) {
    var path := PathOf(p, ref.uri);
    && Text.TrimSpace(Until(Until(Text.TrimSpace(ref.uri), '#'), '?')) != "" && path != "."
    && !StartsWith(path, "/") && !StartsWith(path, "../") && path != ".."
    && StartsWith(path, "docs/") && EndsWith(Text.Lower(path), ".md")
    && p.candidate(Text.TrimSpace(ref.uri))
    && (ref.anchored ==> HasAnchor(ref.uri))
  }

  // ---------- headings ----------

  // What is left of a heading line: the text between its leading and trailing number signs.
  function TrimSigns(s: string): string {
    if s != "" && s[0] == '#' then TrimSigns(s[1..]) else s
  }

  function TrimEndSigns(s: string): string {
    if s != "" && s[|s| - 1] == '#' then TrimEndSigns(s[..|s| - 1]) else s
  }

  // A dash is neither letter nor digit, on any platform.
  predicate IsLetter(p: Platform, c: char) {
    c != '-' && p.letter(c)
  }

  predicate EndsInDash(s: string) {
    s != "" && s[|s| - 1] == '-'
  }

  // Letters and digits stay, spaces and dashes become single dashes, the rest goes.
  function Slug(p: Platform, s: string): string {
    if s == "" then ""
    else
      var done, c := Slug(p, s[..|s| - 1]), s[|s| - 1];
      if IsLetter(p, c) then done + [c]
      else if (Text.IsSpace(c) || c == '-') && done != "" && !EndsInDash(done) then done + ['-']
      else done
  }

  function TrimDashes(s: string): string {
    if s != "" && s[0] == '-' then TrimDashes(s[1..])
    else if EndsInDash(s) then TrimDashes(s[..|s| - 1])
    else s
  }

  function Title(line: string): string {
    Text.TrimSpace(TrimEndSigns(Text.TrimSpace(TrimSigns(Text.TrimSpace(line)))))
  }

  // The anchor of a heading line, if it is one.
  function Heading(p: Platform, line: string): Option<string> {
    if !StartsWith(Text.TrimSpace(line), "#") || Title(line) == "" then None
    else
      var slug := Slug(p, Text.Lower(Title(line)));
      if slug == "" then None else Some(TrimDashes(slug))
  }

  // completionAuditSnapshotMarkdownHeadingAnchor.
  method HeadingAnchor(p: Platform, line: string) returns (anchor: Option<string>)
    ensures anchor == Heading(p, line)
  {
    if !StartsWith(Text.TrimSpace(line), "#") || Title(line) == "" {
      return None;
    }
    var title := Text.Lower(Title(line));
    var out, lastDash := "", false;
    for i := 0 to |title|
      invariant out == Slug(p, title[..i])
      invariant lastDash <==> EndsInDash(out)
    {
      assert title[..i + 1][..i] == title[..i];
      var c := title[i];
      if IsLetter(p, c) {
        out, lastDash := out + [c], false;
      } else if Text.IsSpace(c) || c == '-' {
        if out != "" && !lastDash {
          out, lastDash := out + ['-'], true;
        }
      }
    }
    assert title[..|title|] == title;
    anchor := if out == "" then None else Some(TrimDashes(out));
  }

  // The lines of a document.
  function Lines(content: string): seq<string> {
    if '\n' !in content then [content]
    else
      var first := Until(content, '\n');
      UntilIsBefore(content, '\n');
      [first] + Lines(content[|first| + 1..])
  }

  lemma {:induction false} UntilIsBefore(s: string, c: char)
    ensures |Until(s, c)| <= |s| && (c in s ==> |Until(s, c)| < |s|)
  {
    if s != "" && s[0] != c {
      UntilIsBefore(s[1..], c);
    }
  }

  function Wanted(anchor: string): string {
    var a := Text.Lower(Text.TrimSpace(anchor));
    if StartsWith(a, "#") then a[1..] else a
  }

  predicate Headed(p: Platform, content: string, anchor: string) {
    exists line | line in Lines(content) :: Heading(p, line) == Some(Wanted(anchor))
  }

  method FindHeading(p: Platform, content: string, anchor: string) returns (found: bool)
    ensures found <==> Headed(p, content, anchor)
  {
    var lines := Lines(content);
    for i := 0 to |lines|
      invariant forall j | 0 <= j < i :: Heading(p, lines[j]) != Some(Wanted(anchor))
    {
      var got := HeadingAnchor(p, lines[i]);
      if got == Some(Wanted(anchor)) {
        return true;
      }
    }
    return false;
  }

  // ---------- what an anchor spells ----------

  // The letters and digits between spaces and dashes; other characters neither part nor count.
  function Fields(p: Platform, s: string): (fs: seq<string>)
    ensures fs != []
  {
    if s == "" then [""]
    else
      var fs, c := Fields(p, s[..|s| - 1]), s[|s| - 1];
      if IsLetter(p, c) then fs[..|fs| - 1] + [fs[|fs| - 1] + [c]]
      else if Text.IsSpace(c) || c == '-' then fs + [""]
      else fs
  }

  function NonEmpty(fs: seq<string>): seq<string> {
    if fs == [] then []
    else
      var front, f := NonEmpty(fs[..|fs| - 1]), fs[|fs| - 1];
      if f == "" then front else front + [f]
  }

  function Spelled(p: Platform, s: string): seq<string> {
    NonEmpty(Fields(p, s))
  }

  predicate Plain(words: seq<string>) {
    forall w | w in words :: w != "" && '-' !in w
  }

  lemma {:induction false} NonEmptyIsPlain(fs: seq<string>)
    requires forall f | f in fs :: '-' !in f
    ensures Plain(NonEmpty(fs))
  {
    if fs != [] {
      assert fs[|fs| - 1] in fs;
      assert forall f | f in fs[..|fs| - 1] :: f in fs;
      NonEmptyIsPlain(fs[..|fs| - 1]);
    }
  }

  lemma {:induction false} FieldsHaveNoDash(p: Platform, s: string)
    ensures forall f | f in Fields(p, s) :: '-' !in f
  {
    if s != "" {
      var fs := Fields(p, s[..|s| - 1]);
      FieldsHaveNoDash(p, s[..|s| - 1]);
      assert fs[|fs| - 1] in fs;
      assert forall f | f in fs[..|fs| - 1] :: f in fs;
    }
  }

  lemma SpelledIsPlain(p: Platform, s: string)
    ensures Plain(Spelled(p, s))
  {
    FieldsHaveNoDash(p, s);
    NonEmptyIsPlain(Fields(p, s));
  }

  // A letter lengthens the last word, or begins a new one after a gap.
  lemma LetterSpells(p: Platform, s: string, c: char)
    requires IsLetter(p, c)
    ensures var fs, words := Fields(p, s), Spelled(p, s);
            Spelled(p, s + [c]) == if fs[|fs| - 1] == "" then words + [[c]]
                                   else words[..|words| - 1] + [words[|words| - 1] + [c]]
  {
    var fs := Fields(p, s);
    var init, last := fs[..|fs| - 1], fs[|fs| - 1];
    assert (s + [c])[..|s|] == s;
    assert fs == init + [last];
    NonEmptySnoc(init, last);
    NonEmptySnoc(init, last + [c]);
    assert "" + [c] == [c];
    if last != "" {
      assert (NonEmpty(init) + [last])[..|NonEmpty(init)|] == NonEmpty(init);
    }
  }

  lemma NonEmptySnoc(fs: seq<string>, f: string)
    ensures NonEmpty(fs + [f]) == if f == "" then NonEmpty(fs) else NonEmpty(fs) + [f]
  {
    assert (fs + [f])[..|fs|] == fs;
  }

  lemma GapSpells(p: Platform, s: string, c: char)
    requires !IsLetter(p, c)
    ensures Spelled(p, s + [c]) == Spelled(p, s)
    ensures var fs := Fields(p, s + [c]);
            fs[|fs| - 1] == if Text.IsSpace(c) || c == '-' then "" else Fields(p, s)[|Fields(p, s)| - 1]
  {
    assert (s + [c])[..|s|] == s;
    assert (Fields(p, s) + [""])[..|Fields(p, s)|] == Fields(p, s);
  }

  function Tail(p: Platform, s: string): string {
    if Spelled(p, s) != [] && Fields(p, s)[|Fields(p, s)| - 1] == "" then "-" else ""
  }

  lemma {:induction false} SlugSpells(p: Platform, s: string)
    ensures Slug(p, s) == Text.Dashed(Spelled(p, s)) + Tail(p, s)
  {
    if s != "" {
      var front, c := s[..|s| - 1], s[|s| - 1];
      assert s == front + [c];
      SlugSpells(p, front);
      SpelledIsPlain(p, front);
      if Spelled(p, front) != [] {
        Text.DashedEnds(Spelled(p, front));
      }
      if IsLetter(p, c) {
        LetterStep(p, front, c);
      } else {
        GapStep(p, front, c);
      }
    } else {
      assert Fields(p, s) == [""] && NonEmpty([""][..0]) == [] && NonEmpty([""]) == [];
    }
  }

  lemma GapStep(p: Platform, s: string, c: char)
    requires !IsLetter(p, c) && Slug(p, s) == Text.Dashed(Spelled(p, s)) + Tail(p, s)
    requires var words := Spelled(p, s);
             words != [] ==> Text.Dashed(words) != "" && !EndsInDash(Text.Dashed(words))
    ensures Slug(p, s + [c]) == Text.Dashed(Spelled(p, s + [c])) + Tail(p, s + [c])
  {
    GapSpells(p, s, c);
    assert (s + [c])[..|s|] == s;
    var words := Spelled(p, s);
    if words == [] {
      assert Slug(p, s) == "";
    } else if Tail(p, s) == "" {
      assert Slug(p, s) == Text.Dashed(words);
    }
  }

  lemma LetterStep(p: Platform, s: string, c: char)
    requires IsLetter(p, c)
    ensures Text.Dashed(Spelled(p, s)) + Tail(p, s) + [c] == Text.Dashed(Spelled(p, s + [c])) && Tail(p, s + [c]) == ""
  {
    LetterSpells(p, s, c);
    assert (s + [c])[..|s|] == s;
    var fs, words := Fields(p, s), Spelled(p, s);
    if fs[|fs| - 1] == "" {
      Text.DashedAnother(words, [c]);
    } else {
      Text.DashedMore(words, c);
    }
  }

  lemma TrimsTail(s: string, tail: string)
    requires s != "" && s[0] != '-' && s[|s| - 1] != '-' && (tail == "" || tail == "-")
    ensures TrimDashes(s + tail) == s
  {
    if tail == "-" {
      assert (s + tail)[..|s + tail| - 1] == s;
    } else {
      assert s + tail == s;
    }
  }

  /** The anchor of a heading: the words of its title in lower case, without anything but letters
      and digits, and single dashes in between. A line that is no heading, or a heading without
      letters and digits, has none. */
  lemma HeadingSpells(p: Platform, line: string)
    ensures var words := Spelled(p, Text.Lower(Title(line)));
            Heading(p, line) == if !StartsWith(Text.TrimSpace(line), "#") || words == [] then None
                                else Some(Text.Dashed(words))
  {
    var title := Text.Lower(Title(line));
    var words := Spelled(p, title);
    SlugSpells(p, title);
    SpelledIsPlain(p, title);
    if words != [] {
      Text.DashedEnds(words);
      TrimsTail(Text.Dashed(words), Tail(p, title));
    }
    if Title(line) == "" {
      assert title == "" && Fields(p, title) == [""] && NonEmpty([""]) == [];
    }
  }

  predicate Signs(s: string) {
    forall c | c in s :: c == '#'
  }

  lemma {:induction false} TrimSignsSplits(s: string) returns (signs: string)
    ensures Signs(signs) && s == signs + TrimSigns(s) && (TrimSigns(s) != "" ==> TrimSigns(s)[0] != '#')
  {
    signs := "";
    if s != "" && s[0] == '#' {
      var rest := TrimSignsSplits(s[1..]);
      signs := [s[0]] + rest;
      assert s == [s[0]] + s[1..];
    }
  }

  lemma {:induction false} TrimEndSignsSplits(s: string) returns (signs: string)
    ensures Signs(signs) && s == TrimEndSigns(s) + signs
    ensures TrimEndSigns(s) != "" ==> TrimEndSigns(s)[|TrimEndSigns(s)| - 1] != '#'
  {
    signs := "";
    if s != "" && s[|s| - 1] == '#' {
      var rest := TrimEndSignsSplits(s[..|s| - 1]);
      signs := rest + [s[|s| - 1]];
      assert s == s[..|s| - 1] + [s[|s| - 1]];
    }
  }

  /** The title of a heading line is the line without the number signs around it, and without the
      white space around those and around the title. */
  lemma TitleIsInside(line: string) returns (before: string, after: string)
    ensures line == before + Title(line) + after && Text.Trimmed(Title(line))
    ensures forall c | c in before + after :: c == '#' || Text.IsSpace(c)
  {
    var l1, r1 := Text.TrimTakesBlanks(line);
    var s1 := Text.TrimSpace(line);
    var l2 := TrimSignsSplits(s1);
    var s2 := TrimSigns(s1);
    var l3, r3 := Text.TrimTakesBlanks(s2);
    var s3 := Text.TrimSpace(s2);
    var r4 := TrimEndSignsSplits(s3);
    var s4 := TrimEndSigns(s3);
    var l5, r5 := Text.TrimTakesBlanks(s4);
    before, after := l1 + l2 + l3 + l5, r5 + r4 + r3 + r1;
    Unwrap(line, l1, s1, r1, l2, s2, l3, s3, r3, s4, r4, l5, Title(line), r5);
  }

  lemma Unwrap(line: string, l1: string, s1: string, r1: string, l2: string, s2: string, l3: string, s3: string,
               r3: string, s4: string, r4: string, l5: string, t: string, r5: string)
    requires line == l1 + s1 + r1 && s1 == l2 + s2 && s2 == l3 + s3 + r3 && s3 == s4 + r4 && s4 == l5 + t + r5
    ensures line == (l1 + l2 + l3 + l5) + t + (r5 + r4 + r3 + r1)
  {
  }

  function JoinLines(lines: seq<string>): string {
    if lines == [] then ""
    else if |lines| == 1 then lines[0]
    else lines[0] + "\n" + JoinLines(lines[1..])
  }

  lemma {:induction false} UntilSplits(s: string, c: char)
    ensures Until(s, c) <= s && c !in Until(s, c) && (c in s ==> |Until(s, c)| < |s| && s[|Until(s, c)|] == c)
    ensures c !in s ==> Until(s, c) == s
  {
    if s != "" && s[0] != c {
      UntilSplits(s[1..], c);
      assert s == [s[0]] + s[1..];
    }
  }

  // The lines are the document, cut at its line feeds.
  lemma {:induction false} LinesExactly(content: string)
    ensures JoinLines(Lines(content)) == content && forall line | line in Lines(content) :: '\n' !in line
    decreases |content|
  {
    if '\n' in content {
      UntilSplits(content, '\n');
      UntilIsBefore(content, '\n');
      var first := Until(content, '\n');
      var rest := content[|first| + 1..];
      LinesExactly(rest);
      assert ([first] + Lines(rest))[1..] == Lines(rest);
      assert content == first + "\n" + rest;
    }
  }

  // ---------- the parts of a reference ----------

  lemma {:induction false} UntilOf(a: string, c: char, b: string)
    requires c !in a && (b == "" || b[0] == c)
    ensures Until(a + b, c) == a
  {
    if a == "" {
      assert a + b == b;
    } else {
      assert a[0] in a && forall d | d in a[1..] :: d in a;
      UntilOf(a[1..], c, b);
      assert (a + b)[1..] == a[1..] + b && a == [a[0]] + a[1..];
    }
  }

  /** A reference is a path, then a question mark and a query if there is one, then a number sign and
      the anchor. */
  lemma ReferenceParts(p: Platform, path: string, query: string, anchor: string)
    requires '#' !in path && '?' !in path && '#' !in query && (query == "" || query[0] == '?')
    requires Text.Trimmed(path + query + "#" + anchor)
    ensures var uri := path + query + "#" + anchor;
            && HasAnchor(uri) && AnchorOf(uri) == Text.TrimSpace(anchor)
            && PathOf(p, uri) == p.clean(Text.TrimSpace(path))
  {
    var uri := path + query + "#" + anchor;
    assert Text.TrimSpace(uri) == uri;
    assert uri == (path + query) + ("#" + anchor);
    UntilOf(path + query, '#', "#" + anchor);
    UntilOf(path, '?', query);
    assert uri[|path + query|] == '#';
    assert uri[|path + query| + 1..] == anchor;
  }

  // An anchor is looked for in lower case, with or without its number sign.
  lemma WantedExactly(anchor: string)
    requires Text.Trimmed(anchor) && anchor != "" && anchor[0] != '#'
    ensures Wanted(anchor) == Text.Lower(anchor) && Wanted("#" + anchor) == Text.Lower(anchor)
  {
    assert Text.TrimSpace(anchor) == anchor;
    var signed := "#" + anchor;
    assert Text.TrimSpace(signed) == signed;
    assert Text.Lower(signed)[1..] == Text.Lower(anchor);
    assert Text.Lower(signed)[..1] == "#";
    assert Text.Lower(anchor)[..1][0] == Text.Lower(anchor)[0] != '#';
  }

  // ---------- one reference ----------

  function StripSign(anchor: string): string {
    if StartsWith(anchor, "#") then anchor[1..] else anchor
  }

  function AuditReference(p: Platform, files: Contents, ref: Reference): Option<Entry> {
    var path, anchor := PathOf(p, ref.uri), AnchorOf(ref.uri);
    if !PathFits(p, ref) || files(path).None? then None
    else if HasAnchor(ref.uri) && (anchor == "" || !Headed(p, files(path).value, anchor)) then None
    else
      var content := files(path).value;
      var named := if HasAnchor(ref.uri) then StripSign(anchor) else "";
      Some(Entry(Text.TrimSpace(ref.uri), path, named, content, |content|))
  }

  // completionAuditSnapshotAuditEvidenceURIRef.
  method Audit(p: Platform, files: Contents, ref: Reference) returns (entry: Option<Entry>)
    ensures entry == AuditReference(p, files, ref)
  {
    var path, anchor := PathOf(p, ref.uri), AnchorOf(ref.uri);
    if !PathFits(p, ref) {
      return None;
    }
    match files(path) {
      case None => return None;
      case Some(content) =>
        if HasAnchor(ref.uri) {
          if anchor == "" {
            return None;
          }
          var found := FindHeading(p, content, anchor);
          if !found {
            return None;
          }
        }
        var named := if HasAnchor(ref.uri) then StripSign(anchor) else "";
        return Some(Entry(Text.TrimSpace(ref.uri), path, named, content, |content|));
    }
  }

  /** When a reference passes, and what is recorded of it: its path is that of a readable markdown
      document under docs, named as a release candidate; an anchor that is asked for is there, and
      one that is there names a heading of the document. */
  lemma ReferenceExactly(p: Platform, files: Contents, ref: Reference)
    ensures var path, anchor := PathOf(p, ref.uri), AnchorOf(ref.uri);
            && (AuditReference(p, files, ref).Some? <==>
                  && path != "." && !StartsWith(path, "/") && StartsWith(path, "docs/")
                  && Text.TrimSpace(Until(Until(Text.TrimSpace(ref.uri), '#'), '?')) != ""
                  && EndsWith(Text.Lower(path), ".md") && p.candidate(Text.TrimSpace(ref.uri)) && files(path).Some?
                  && (ref.anchored ==> HasAnchor(ref.uri))
                  && (HasAnchor(ref.uri) ==> anchor != "" && exists line | line in Lines(files(path).value) ::
                        Heading(p, line) == Some(Wanted(anchor))))
            && (AuditReference(p, files, ref).Some? ==>
                  var e := AuditReference(p, files, ref).value;
                  && e.uri == Text.TrimSpace(ref.uri) && e.path == path && e.sha == files(path).value
                  && e.size == |files(path).value|
                  && e.anchor == if HasAnchor(ref.uri) then StripSign(anchor) else "")
  {
    var path := PathOf(p, ref.uri);
    if StartsWith(path, "docs/") {
      assert path[..5] == "docs/" && path[0] == path[..5][0] == 'd';
      assert path[..3][0] == path[0] && "../"[0] == '.';
      assert path != ".." && path != "." && !StartsWith(path, "/");
    }
  }

  lemma AnchoredReference(p: Platform, files: Contents, uri: string)
    requires AuditReference(p, files, Reference(uri, true)).Some?
    ensures var path := PathOf(p, uri);
            && StartsWith(path, "docs/") && EndsWith(Text.Lower(path), ".md") && files(path).Some? && HasAnchor(uri)
            && Headed(p, files(path).value, AnchorOf(uri))
  {
  }

  function FilesOf(p: Platform, files: Contents): Files {
    ref => AuditReference(p, files, ref)
  }

  // ---------- what an unchanged file audit means ----------

  // The document behind every reference has the content it had.
  ghost predicate SameContents(p: Platform, before: Contents, after: Contents, refs: seq<Reference>) {
    forall i | FirstUse(refs, i) :: after(PathOf(p, refs[i].uri)) == before(PathOf(p, refs[i].uri))
  }

  /** When every reference passed, the file audits agree exactly when the content of every
      referenced document is the same: nothing about it can change unnoticed, and nothing else
      in the file system matters. */
  lemma ContentDecides(p: Platform, before: Contents, after: Contents, refs: seq<Reference>)
    requires Passed(FilesOf(p, before), refs)
    ensures FilesUnchanged(FilesOf(p, before), FilesOf(p, after), refs) <==> SameContents(p, before, after, refs)
  {
    var x, y := FilesOf(p, before), FilesOf(p, after);
    forall i | FirstUse(refs, i)
      ensures x(refs[i]).Some?
      ensures (y(refs[i]).Some? && SameFile(x(refs[i]).value, y(refs[i]).value)) <==>
                after(PathOf(p, refs[i].uri)) == before(PathOf(p, refs[i].uri))
    {
      assert x(refs[i]).Some?;
    }
  }
}

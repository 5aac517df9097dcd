/** The image-tag rewriter of _posts/fix_img.py: every `{% img PARAMS %}` tag
    becomes a markdown image `![ALT](PATH)`, preceded by an HTML comment line
    when PARAMS starts with an alignment keyword.  The regular expression
    `{% img\s+(.*?)\s*%}` (without DOTALL) is modelled by a dedicated matcher,
    ImgMatchAt, and the left-to-right scan of re.sub / re.findall by
    ConvertFrom / FindAllFrom. */
module ImageTags {
  import opened Text

  const ImgOpen := "{% img"
  const AlignmentKeywords: seq<string> := ["left", "center", "centre", "right"]

  // ---------------------------------------------------------------------------
  // The pattern {% img\s+(.*?)\s*%}
  // ---------------------------------------------------------------------------

  /** Where the lazy group `(.*?)` started at `i` ends: the first position at
      or after `i` at which `\s*%}` matches.  Without DOTALL the group cannot
      run over a newline, so the search gives up at the first '\n'. */
  function ImgParamsEnd(s: string, i: nat): (r: Option<nat>)
    requires i <= |s|
    ensures r.Some? ==> i <= r.value <= |s| && ClosesAt(s, r.value)
    ensures r.Some? ==> forall t :: i <= t < r.value ==> s[t] != '\n'
    ensures r.Some? ==> forall t :: i <= t < r.value ==> !ClosesAt(s, t)
    decreases |s| - i
  {
    if ClosesAt(s, i) then Some(i)
    else if i < |s| && s[i] != '\n' then ImgParamsEnd(s, i + 1)
    else None
  }

  /** One match: group 1 is s[paramsStart..paramsEnd], group 0 ends at `end`. */
  datatype ImgMatch = ImgMatch(paramsStart: nat, paramsEnd: nat, end: nat)

  /** The match of `{% img\s+(.*?)\s*%}` that starts at `p`, if any.  The
      greedy `\s+` takes the whole whitespace run: giving some of it back to
      the group only offers the same closing positions again, so when the
      longest run fails every shorter one fails too. */
  function ImgMatchAt(s: string, p: nat): (r: Option<ImgMatch>)
    requires p <= |s|
    ensures r.Some? ==> p + 6 < r.value.paramsStart <= r.value.paramsEnd < r.value.end <= |s|
  {
    if !OccursAt(s, ImgOpen, p) then None
    else
      var g := SkipSpace(s, p + 6);
      if g == p + 6 then None
      else match ImgParamsEnd(s, g)
        case None => None
        case Some(k) => Some(ImgMatch(g, k, SkipSpace(s, k) + 2))
  }

  /** A way of reading s[p..j+2] as the pattern: "{% img", the whitespace
      s[p+6..g] (at least one character), the group s[g..k] (no newline), the
      whitespace s[k..j], then "%}" at j. */
  ghost predicate ImgParse(s: string, p: nat, g: nat, k: nat, j: nat) {
    OccursAt(s, ImgOpen, p) && p + 6 < g <= k <= j && j + 2 <= |s|
    && AllSpace(s, p + 6, g)
    && (forall t :: g <= t < k ==> s[t] != '\n')
    && AllSpace(s, k, j) && s[j] == '%' && s[j + 1] == '}'
  }

  lemma {:induction false} ImgParamsEndFinds(s: string, i: nat, k: nat)
    requires i <= k <= |s| && ClosesAt(s, k)
    requires forall t :: i <= t < k ==> s[t] != '\n'
    ensures ImgParamsEnd(s, i).Some? && ImgParamsEnd(s, i).value <= k
    decreases k - i
  {
    if !ClosesAt(s, i) {
      ImgParamsEndFinds(s, i + 1, k);
    }
  }

  /** The group ends at the first position where `\s*%}` matches. */
  lemma {:induction false} ImgParamsEndExact(s: string, i: nat, k: nat)
    requires i <= k <= |s| && ClosesAt(s, k)
    requires forall t :: i <= t < k ==> s[t] != '\n' && !ClosesAt(s, t)
    ensures ImgParamsEnd(s, i) == Some(k)
    decreases k - i
  {
    if i < k {
      ImgParamsEndExact(s, i + 1, k);
    }
  }

  /** The matcher agrees with the regular expression: what it returns is a
      parse of the pattern, a parse exists only if it returns one, and the one
      it returns is the engine's preferred parse (longest leading whitespace,
      then shortest group, then longest trailing whitespace). */
  lemma ImgMatchAtSound(s: string, p: nat)
    requires p <= |s| && ImgMatchAt(s, p).Some?
    ensures var m := ImgMatchAt(s, p).value;
            ImgParse(s, p, m.paramsStart, m.paramsEnd, m.end - 2)
  {
  }

  lemma ImgMatchAtPreferred(s: string, p: nat, g: nat, k: nat, j: nat)
    requires p <= |s| && ImgParse(s, p, g, k, j)
    ensures ImgMatchAt(s, p).Some?
    ensures var m := ImgMatchAt(s, p).value;
            g <= m.paramsStart
            && (g == m.paramsStart ==> m.paramsEnd <= k)
            && (k == m.paramsEnd ==> j + 2 == m.end)
            && m.end <= j + 2
  {
    var g0 := SkipSpace(s, p + 6);
    assert p + 6 < g0;
    assert g <= g0;
    if k < g0 {
      assert j == g0 by {
        assert !IsSpace(s[j]);
        assert g0 < |s| && !IsSpace(s[g0]);
      }
      assert ClosesAt(s, g0);
      assert ImgParamsEnd(s, g0) == Some(g0);
    } else {
      SkipSpaceUnique(s, k, j);
      ImgParamsEndFinds(s, g0, k);
      var k0 := ImgParamsEnd(s, g0).value;
      SkipSpaceMonotone(s, k0, k);
    }
    var m := ImgMatchAt(s, p).value;
    if k == m.paramsEnd {
      SkipSpaceUnique(s, k, j);
    }
  }

  // ---------------------------------------------------------------------------
  // replace_match
  // ---------------------------------------------------------------------------

  predicate IsAlignment(token: string) {
    Lower(token) in AlignmentKeywords
  }

  /** The tag names an image: its parameters hold a token besides a lone
      alignment keyword. */
  predicate WellFormedImg(params: string) {
    var parts := Split(Strip(params));
    parts != [] && !(|parts| == 1 && IsAlignment(parts[0]))
  }

  /** The alt-text fallback: the file name without its final extension.  The
      extension starts at the last dot of the name, unless only dots precede
      that dot; a name whose extension is kept whole has no such dot. */
  function Stem(path: string): (r: string)
    ensures forall k :: 0 <= k < |r| ==> r[k] != '/'
    ensures |r| <= |Basename(path)| && Basename(path)[..|r|] == r
    ensures var ext := Basename(path)[|r|..];
            ext == [] || (ext[0] == '.' && forall k :: 1 <= k < |ext| ==> ext[k] != '.')
    ensures Basename(path)[|r|..] != [] ==> !AllDots(r)
    ensures var b := Basename(path);
            b[|r|..] == [] ==> forall k :: 0 <= k < |b| && b[k] == '.' ==> AllDots(b[..k])
  {
    StemOfName(Basename(path));
    SplitExt(Basename(path)).0
  }

  /** In a name without '/', SplitExt's facts about the last path segment
      are facts about the whole name. */
  lemma StemOfName(name: string)
    requires forall k :: 0 <= k < |name| ==> name[k] != '/'
    ensures var root := SplitExt(name).0;
            (forall k :: 0 <= k < |root| ==> root[k] != '/')
            && |root| <= |name| && name[..|root|] == root
            && (var ext := name[|root|..];
                ext == [] || (ext[0] == '.' && forall k :: 1 <= k < |ext| ==> ext[k] != '.'))
            && (name[|root|..] != [] ==> !AllDots(root))
            && (name[|root|..] == [] ==> forall k :: 0 <= k < |name| && name[k] == '.' ==> AllDots(name[..k]))
  {
    var root, ext := SplitExt(name).0, SplitExt(name).1;
    assert name == root + ext;
    assert name[|root|..] == ext;
    assert name[..|root|] == root;
    assert AfterLast(name, '/') == 0;
    if ext != [] {
      assert AfterLast(root, '/') == 0;
      assert Basename(root) == root;
    } else {
      forall k | 0 <= k < |name| && name[k] == '.' ensures AllDots(name[..k]) {
        assert name[0..k] == name[..k];
      }
    }
  }

  /** The replacement for one match, whose group 1 is `params` and whose
      whole text is `whole`. */
  function ReplaceImage(params: string, whole: string): string {
    var stripped := Strip(params);
    if stripped == [] then whole
    else
      var parts := Split(stripped);
      var hasAlignment := parts != [] && IsAlignment(parts[0]);
      var start := if hasAlignment then 1 else 0;
      if |parts| <= start then whole
      else
        var path := parts[start];
        var alt := if |parts| > start + 1 then Join(" ", parts[start + 1..]) else "";
        var image :=
          if alt != [] then "![" + alt + "](" + path + ")"
          else "![" + Stem(path) + "](" + path + ")";
        if hasAlignment then "<!-- " + Lower(parts[0]) + " -->\n" + image
        else image
  }

  lemma {:induction false} JoinNonEmpty(toks: seq<string>)
    requires toks != [] && forall i :: 0 <= i < |toks| ==> IsToken(toks[i])
    ensures Join(" ", toks) != []
  {
  }

  lemma StripEmptyIffNoTokens(params: string)
    ensures Strip(params) == [] <==> Split(Strip(params)) == []
  {
    if Strip(params) != [] {
      SplitNonEmpty(Strip(params));
    }
  }

  /** A tag is left exactly as matched if and only if it is malformed: no
      parameters, or an alignment keyword alone. */
  lemma ReplaceImageKeepsOnlyMalformed(params: string, whole: string)
    requires whole != [] && whole[0] == '{'
    ensures ReplaceImage(params, whole) == whole <==> !WellFormedImg(params)
  {
    if WellFormedImg(params) {
      ReplaceImageStartsWithMarkup(params, whole);
    } else {
      StripEmptyIffNoTokens(params);
    }
  }

  /** The replacement of a well-formed tag starts with '!' or '<', never with
      the '{' that opens a tag. */
  lemma ReplaceImageStartsWithMarkup(params: string, whole: string)
    requires WellFormedImg(params)
    ensures var r := ReplaceImage(params, whole);
            r != [] && (r[0] == '!' || r[0] == '<')
  {
    var parts := Split(Strip(params));
    var start := if IsAlignment(parts[0]) then 1 else 0;
    var path := parts[start];
    var head := if start == 1 then "<!-- " + Lower(parts[0]) + " -->\n" else "";
    var alt := if start + 1 < |parts| then Join(" ", parts[start + 1..]) else Stem(path);
    ReplaceImageForm(params, whole);
    assert head == [] || head[0] == '<';
    MarkupFirstChar(head, alt, path, ReplaceImage(params, whole));
  }

  lemma MarkupFirstChar(head: string, alt: string, path: string, r: string)
    requires r == head + ("![" + alt + "](" + path + ")")
    requires head == [] || head[0] == '<'
    ensures r != [] && (r[0] == '!' || r[0] == '<')
  {
    if head == [] {
      assert r == "![" + alt + "](" + path + ")";
    }
  }

  lemma ReplaceImageForm(params: string, whole: string)
    requires WellFormedImg(params)
    ensures var parts := Split(Strip(params));
            var start := if IsAlignment(parts[0]) then 1 else 0;
            var path := parts[start];
            var head := if start == 1 then "<!-- " + Lower(parts[0]) + " -->\n" else "";
            var alt := if start + 1 < |parts| then Join(" ", parts[start + 1..]) else Stem(path);
            ReplaceImage(params, whole) == head + ("![" + alt + "](" + path + ")")
  {
    StripEmptyIffNoTokens(params);
    var parts := Split(Strip(params));
    var start := if IsAlignment(parts[0]) then 1 else 0;
    if start + 1 < |parts| {
      JoinNonEmpty(parts[start + 1..]);
    }
    var path := parts[start];
    var alt := if start + 1 < |parts| then Join(" ", parts[start + 1..]) else Stem(path);
    var image := "![" + alt + "](" + path + ")";
    AppendNil(image);
  }

  lemma ImageMarkdownParts(head: string, alt: string, path: string, r: string)
    requires r == head + ("![" + alt + "](" + path + ")")
    ensures |head| + |path| + 5 <= |r| && r[|head| + 2..|r| - |path| - 3] == alt
  {
    var image := "![" + alt + "](" + path + ")";
    assert image == "![" + alt + ("](" + path + ")");
    assert image[2..|image| - |path| - 3] == alt;
    assert r[|head|..] == image;
  }

  /** `r` is the markdown image `head![ALT](PATH)` whose ALT holds exactly the
      tokens `rest`, single-spaced, or, when there are none, the stem of PATH. */
  ghost predicate RendersImage(r: string, head: string, path: string, rest: seq<string>) {
    |head| + |path| + 5 <= |r|
    && var alt := r[|head| + 2..|r| - |path| - 3];
       r == head + ("![" + alt + "](" + path + ")")
       && (rest != [] ==> Split(alt) == rest)
       && (rest == [] ==> alt == Stem(path))
  }

  lemma ImageRendering(parts: seq<string>, start: nat, head: string, path: string, r: string)
    requires forall i :: 0 <= i < |parts| ==> IsToken(parts[i])
    requires start < |parts| && path == parts[start]
    requires r == head + ("![" + (if start + 1 < |parts| then Join(" ", parts[start + 1..]) else Stem(path)) + "](" + path + ")")
    ensures RendersImage(r, head, path, parts[start + 1..])
  {
    var alt := if start + 1 < |parts| then Join(" ", parts[start + 1..]) else Stem(path);
    ImageMarkdownParts(head, alt, path, r);
    if start + 1 < |parts| {
      SplitJoin(parts[start + 1..]);
    }
  }

  /** What a well-formed tag becomes: an optional `<!-- kw -->` line with the
      lower-cased keyword, then `![ALT](PATH)` where PATH is the first token
      after the keyword, verbatim, and ALT holds exactly the remaining tokens,
      single-spaced, or, when there are none, the file name's stem. */
  lemma ReplaceImageWellFormed(params: string, whole: string)
    requires WellFormedImg(params)
    ensures var parts := Split(Strip(params));
            var start := if IsAlignment(parts[0]) then 1 else 0;
            var head := if start == 1 then "<!-- " + Lower(parts[0]) + " -->\n" else "";
            RendersImage(ReplaceImage(params, whole), head, parts[start], parts[start + 1..])
  {
    var parts := Split(Strip(params));
    var start := if IsAlignment(parts[0]) then 1 else 0;
    var head := if start == 1 then "<!-- " + Lower(parts[0]) + " -->\n" else "";
    ReplaceImageForm(params, whole);
    ImageRendering(parts, start, head, parts[start], ReplaceImage(params, whole));
  }

  // ---------------------------------------------------------------------------
  // re.sub and re.findall: left-to-right scan without overlap
  // ---------------------------------------------------------------------------

  function ConvertFrom(s: string, p: nat): string
    requires p <= |s|
    decreases |s| - p
  {
    if p == |s| then []
    else match ImgMatchAt(s, p)
      case Some(m) => ReplaceImage(s[m.paramsStart..m.paramsEnd], s[p..m.end]) + ConvertFrom(s, m.end)
      case None => [s[p]] + ConvertFrom(s, p + 1)
  }

  function FindAllFrom(s: string, p: nat): seq<string>
    requires p <= |s|
    decreases |s| - p
  {
    if p == |s| then []
    else match ImgMatchAt(s, p)
      case Some(m) => [s[m.paramsStart..m.paramsEnd]] + FindAllFrom(s, m.end)
      case None => FindAllFrom(s, p + 1)
  }

  /** A character where no tag starts is copied and the scan moves on. */
  lemma ConvertCopiesUnmatched(s: string, p: nat)
    requires p < |s| && ImgMatchAt(s, p).None?
    ensures ConvertFrom(s, p) == [s[p]] + ConvertFrom(s, p + 1)
  {
  }

  /** Text before the first tag is copied unchanged, and the scan resumes at
      the first position where a tag starts. */
  lemma {:induction false} ScanCopiesUntilTag(s: string, start: nat, p: nat)
    requires start <= p <= |s|
    requires forall i :: start <= i < p ==> ImgMatchAt(s, i).None?
    ensures ConvertFrom(s, start) == s[start..p] + ConvertFrom(s, p)
    decreases p - start
  {
    if start < p {
      ConvertCopiesUnmatched(s, start);
      ScanCopiesUntilTag(s, start + 1, p);
      SliceCons(s, start, p);
      PrependStep(ConvertFrom(s, start), ConvertFrom(s, start + 1), ConvertFrom(s, p),
                  s[start], s[start + 1..p], s[start..p]);
    }
  }

  lemma {:induction false} FindAllSkipsUntilTag(s: string, start: nat, p: nat)
    requires start <= p <= |s|
    requires forall i :: start <= i < p ==> ImgMatchAt(s, i).None?
    ensures FindAllFrom(s, start) == FindAllFrom(s, p)
    decreases p - start
  {
    if start < p {
      assert FindAllFrom(s, start) == FindAllFrom(s, start + 1) by {
        assert ImgMatchAt(s, start).None?;
      }
      FindAllSkipsUntilTag(s, start + 1, p);
    }
  }

  /** Without the marker "{% img" there is no tag: nothing is converted. */
  lemma NoMarkerNoTag(s: string)
    ensures !Contains(s, ImgOpen) ==> ConvertFrom(s, 0) == s && FindAllFrom(s, 0) == []
  {
    if !Contains(s, ImgOpen) {
      forall i | 0 <= i < |s| ensures ImgMatchAt(s, i).None? {
        assert !OccursAt(s, ImgOpen, i);
      }
      ScanCopiesUntilTag(s, 0, |s|);
      FindAllSkipsUntilTag(s, 0, |s|);
    }
  }

  /** convert_image_tags */
  function ConvertImageTags(content: string): (r: string)
    ensures !Contains(content, ImgOpen) ==> r == content
  {
    NoMarkerNoTag(content);
    ConvertFrom(content, 0)
  }

  /** What the group of a match looks like: one line, no leading or trailing
      whitespace, and no "%}" inside. */
  ghost predicate ImgGroupShape(m: string) {
    (forall k :: 0 <= k < |m| ==> m[k] != '\n')
    && (m == [] || (!IsSpace(m[0]) && !IsSpace(m[|m| - 1])))
    && (forall k :: 0 <= k < |m| - 1 ==> !(m[k] == '%' && m[k + 1] == '}'))
  }

  lemma GroupShapeOfBounds(s: string, g: nat, k: nat)
    requires g <= k <= |s| && (g == k || !IsSpace(s[g]))
    requires forall t :: g <= t < k ==> s[t] != '\n'
    requires forall t :: g <= t < k ==> !ClosesAt(s, t)
    requires ClosesAt(s, k)
    ensures ImgGroupShape(s[g..k])
  {
    var grp := s[g..k];
    if g < k {
      SkipSpaceOfSpace(s, k - 1);
      assert !ClosesAt(s, k - 1);
    }
    forall t | 0 <= t < |grp| - 1 ensures !(grp[t] == '%' && grp[t + 1] == '}') {
      assert grp[t] == s[g + t] && grp[t + 1] == s[g + t + 1];
      assert !ClosesAt(s, g + t);
    }
  }

  lemma MatchGroupShape(s: string, p: nat)
    requires p <= |s| && ImgMatchAt(s, p).Some?
    ensures var m := ImgMatchAt(s, p).value;
            ImgGroupShape(s[m.paramsStart..m.paramsEnd])
  {
    var m := ImgMatchAt(s, p).value;
    GroupShapeOfBounds(s, m.paramsStart, m.paramsEnd);
  }

  lemma {:induction false} FindAllShape(s: string, p: nat)
    requires p <= |s|
    ensures forall i :: 0 <= i < |FindAllFrom(s, p)| ==> ImgGroupShape(FindAllFrom(s, p)[i])
    decreases |s| - p
  {
    if p < |s| {
      match ImgMatchAt(s, p)
      case Some(m) =>
        MatchGroupShape(s, p);
        FindAllShape(s, m.end);
      case None =>
        FindAllShape(s, p + 1);
    }
  }

  /** re.findall: group 1 of every match, in order. */
  function FindAllImg(content: string): (r: seq<string>)
    ensures forall i :: 0 <= i < |r| ==> ImgGroupShape(r[i])
    ensures !Contains(content, ImgOpen) ==> r == []
  {
    FindAllShape(content, 0);
    NoMarkerNoTag(content);
    FindAllFrom(content, 0)
  }

  // ---------------------------------------------------------------------------
  // preview_conversions
  // ---------------------------------------------------------------------------

  /** The tag text preview_conversions rebuilds from a match's group. */
  function Reconstructed(m: string): string {
    "{% img " + m + " %}"
  }

  lemma ConvertAtMatch(s: string, p: nat)
    requires p < |s| && ImgMatchAt(s, p).Some?
    ensures var m := ImgMatchAt(s, p).value;
            ConvertFrom(s, p) == ReplaceImage(s[m.paramsStart..m.paramsEnd], s[p..m.end]) + ConvertFrom(s, m.end)
            && FindAllFrom(s, p) == [s[m.paramsStart..m.paramsEnd]] + FindAllFrom(s, m.end)
  {
  }

  /** The rebuilt tag is one match spanning the whole text, with group `m`. */
  lemma ReconstructedMatch(m: string)
    requires ImgGroupShape(m)
    ensures var x := Reconstructed(m);
            ImgMatchAt(x, 0).Some? && ImgMatchAt(x, 0).value.end == |x|
            && x[ImgMatchAt(x, 0).value.paramsStart..ImgMatchAt(x, 0).value.paramsEnd] == m
  {
    ReconstructedLayout(m);
    SpacedTagMatches(Reconstructed(m), m);
  }

  /** Where the pieces of the rebuilt tag sit. */
  predicate SpacedTag(x: string, m: string) {
    |x| == |m| + 10 && OccursAt(x, ImgOpen, 0) && x[6] == ' '
    && x[7..7 + |m|] == m && x[7 + |m|] == ' ' && x[8 + |m|] == '%' && x[9 + |m|] == '}'
  }

  lemma ReconstructedLayout(m: string)
    ensures SpacedTag(Reconstructed(m), m)
  {
    var x := Reconstructed(m);
    assert x == ImgOpen + (" " + (m + " %}"));
    assert x[..6] == ImgOpen;
    assert x[7..7 + |m|] == m;
  }

  /** Inside the rebuilt tag's group there is no newline and no place where
      `\s*%}` matches. */
  lemma SpacedGroupOpen(x: string, m: string)
    requires SpacedTag(x, m) && ImgGroupShape(m) && m != []
    ensures forall t :: 7 <= t < 7 + |m| ==> x[t] != '\n' && !ClosesAt(x, t)
  {
    var n := |m|;
    assert forall t :: 7 <= t < 7 + n ==> x[t] == m[t - 7] by {
      forall t | 7 <= t < 7 + n ensures x[t] == m[t - 7] {
        assert x[7..7 + n][t - 7] == x[t];
      }
    }
    SkipSpaceUnique(x, 7 + n, 8 + n);
    forall t | 7 <= t < 7 + n ensures x[t] != '\n' && !ClosesAt(x, t) {
      var j := SkipSpace(x, t);
      if j + 1 < 7 + n {
        assert x[j] == m[j - 7] && x[j + 1] == m[j - 6];
      }
    }
  }

  lemma SpacedTagMatches(x: string, m: string)
    requires SpacedTag(x, m) && ImgGroupShape(m)
    ensures ImgMatchAt(x, 0).Some? && ImgMatchAt(x, 0).value.end == |x|
            && x[ImgMatchAt(x, 0).value.paramsStart..ImgMatchAt(x, 0).value.paramsEnd] == m
  {
    var n := |m|;
    var k := if m == [] then 8 else 7 + n;
    var g := if m == [] then 8 else 7;
    if m == [] {
      SkipSpaceUnique(x, 6, 8);
      SkipSpaceUnique(x, 8, 8);
    } else {
      SkipSpaceUnique(x, 6, 7);
      SkipSpaceUnique(x, k, k + 1);
      SpacedGroupOpen(x, m);
    }
    assert ClosesAt(x, k);
    ImgParamsEndExact(x, g, k);
    assert ImgMatchAt(x, 0) == Some(ImgMatch(g, k, |x|));
    assert x[g..k] == m;
  }

  /** The rebuilt tag matches as a whole, with the same group, so converting
      it gives exactly the replacement of the original match. */
  lemma ReconstructedReparses(m: string)
    requires ImgGroupShape(m)
    ensures ConvertImageTags(Reconstructed(m)) == ReplaceImage(m, Reconstructed(m))
    ensures FindAllImg(Reconstructed(m)) == [m]
  {
    var x := Reconstructed(m);
    ReconstructedMatch(m);
    ConvertAtMatch(x, 0);
    WholeSlices(x);
    WholeSlices(ReplaceImage(m, x));
    assert ConvertFrom(x, |x|) == [] && FindAllFrom(x, |x|) == [];
    assert [m] + [] == [m];
  }

  /** The conversion pairs preview_conversions reports for the matched groups
      `ms`, in order: one pair per well-formed tag, the rebuilt tag with its
      replacement. */
  function Previewed(ms: seq<string>): (r: seq<(string, string)>)
    ensures |r| <= |ms|
    ensures forall i :: 0 <= i < |r| ==> r[i].0 != r[i].1
  {
    if ms == [] then []
    else
      var m := ms[0];
      var rest := Previewed(ms[1..]);
      if WellFormedImg(m) then
        ReplaceImageKeepsOnlyMalformed(m, Reconstructed(m));
        [(Reconstructed(m), ReplaceImage(m, Reconstructed(m)))] + rest
      else rest
  }

  /** Previewed, read from position `i` on: the pair for ms[i] when it is
      well formed, then the rest. */
  lemma PreviewedStep(ms: seq<string>, i: nat)
    requires i < |ms|
    ensures var m := ms[i];
            WellFormedImg(m) ==> Previewed(ms[i..]) == [(Reconstructed(m), ReplaceImage(m, Reconstructed(m)))] + Previewed(ms[i + 1..])
    ensures !WellFormedImg(ms[i]) ==> Previewed(ms[i..]) == Previewed(ms[i + 1..])
  {
    assert ms[i..][0] == ms[i] && ms[i..][1..] == ms[i + 1..];
  }

  /** preview_conversions: the loop over the findall results. */
  method PreviewConversions(content: string) returns (conversions: seq<(string, string)>)
    ensures conversions == Previewed(FindAllImg(content))
  {
    var matches := FindAllImg(content);
    conversions := [];
    for i := 0 to |matches|
      invariant conversions + Previewed(matches[i..]) == Previewed(matches)
    {
      var original := "{% img " + matches[i] + " %}";
      ReconstructedReparses(matches[i]);
      ReplaceImageKeepsOnlyMalformed(matches[i], original);
      var converted := ConvertImageTags(original);
      PreviewedStep(matches, i);
      if converted != original {
        AppendAssoc(conversions, [(original, converted)], Previewed(matches[i + 1..]));
        conversions := conversions + [(original, converted)];
      }
    }
    AppendNil(conversions);
    AppendNil(matches);
  }

  // ---------------------------------------------------------------------------
  // process_file: the write decision
  // ---------------------------------------------------------------------------

  /** The content process_file writes back, or None when it skips the file. */
  function ImageWriteDecision(content: string): (r: Option<string>)
    ensures r.Some? ==> r.value != content && Contains(content, ImgOpen)
  {
    if !Contains(content, ImgOpen) then None
    else
      var converted := ConvertImageTags(content);
      if converted == content then None else Some(converted)
  }

  lemma FindAllSkipsUnmatched(s: string, p: nat)
    requires p < |s| && ImgMatchAt(s, p).None?
    ensures FindAllFrom(s, p) == FindAllFrom(s, p + 1)
  {
  }

  /** No group in `ms` is well formed. */
  ghost predicate NoneWellFormed(ms: seq<string>) {
    ms == [] || (!WellFormedImg(ms[0]) && NoneWellFormed(ms[1..]))
  }

  lemma NoneWellFormedCons(m: string, ms: seq<string>)
    ensures NoneWellFormed([m] + ms) <==> !WellFormedImg(m) && NoneWellFormed(ms)
  {
    assert ([m] + ms)[1..] == ms;
  }

  /** The scan leaves its input unchanged exactly when no matched group is
      well formed. */
  lemma {:induction false} ConvertUnchangedIff(s: string, p: nat)
    requires p <= |s|
    ensures ConvertFrom(s, p) == s[p..] <==> NoneWellFormed(FindAllFrom(s, p))
    decreases |s| - p
  {
    if p < |s| {
      match ImgMatchAt(s, p)
      case Some(m) =>
        ConvertUnchangedIff(s, m.end);
        UnchangedIffAtMatch(s, p);
      case None =>
        ConvertUnchangedIff(s, p + 1);
        UnchangedIffAtCopy(s, p);
    }
  }

  lemma UnchangedIffAtMatch(s: string, p: nat)
    requires p < |s| && ImgMatchAt(s, p).Some?
    requires var e := ImgMatchAt(s, p).value.end;
             ConvertFrom(s, e) == s[e..] <==> NoneWellFormed(FindAllFrom(s, e))
    ensures ConvertFrom(s, p) == s[p..] <==> NoneWellFormed(FindAllFrom(s, p))
  {
    var m := ImgMatchAt(s, p).value;
    ConvertAtMatch(s, p);
    UnchangedAtMatch(s, p);
    NoneWellFormedCons(s[m.paramsStart..m.paramsEnd], FindAllFrom(s, m.end));
  }

  lemma UnchangedIffAtCopy(s: string, p: nat)
    requires p < |s| && ImgMatchAt(s, p).None?
    requires ConvertFrom(s, p + 1) == s[p + 1..] <==> NoneWellFormed(FindAllFrom(s, p + 1))
    ensures ConvertFrom(s, p) == s[p..] <==> NoneWellFormed(FindAllFrom(s, p))
  {
    ConvertCopiesUnmatched(s, p);
    FindAllSkipsUnmatched(s, p);
    SuffixCons(s, p);
    CopyStepIff(ConvertFrom(s, p), ConvertFrom(s, p + 1), s[p..], s[p + 1..], s[p],
                NoneWellFormed(FindAllFrom(s, p + 1)));
  }

  /** A copied character keeps "unchanged so far" as it was. */
  lemma CopyStepIff(r: string, r1: string, whole: string, rest: string, c: char, b: bool)
    requires r == [c] + r1 && whole == [c] + rest && (r1 == rest <==> b)
    ensures r == whole <==> b
  {
    SameHeadCancels([c], r1, rest);
  }

  lemma UnchangedAtMatch(s: string, p: nat)
    requires p < |s| && ImgMatchAt(s, p).Some?
    ensures var m := ImgMatchAt(s, p).value;
            ConvertFrom(s, p) == s[p..]
            <==> !WellFormedImg(s[m.paramsStart..m.paramsEnd]) && ConvertFrom(s, m.end) == s[m.end..]
  {
    var m := ImgMatchAt(s, p).value;
    var grp, whole := s[m.paramsStart..m.paramsEnd], s[p..m.end];
    SliceHead(s, ImgOpen, p, m.end);
    ConvertAtMatch(s, p);
    SliceConcat(s, p, m.end);
    ReplaceImageKeepsOnlyMalformed(grp, whole);
    if WellFormedImg(grp) {
      ReplaceImageStartsWithMarkup(grp, whole);
    }
    MatchStepIff(ConvertFrom(s, p), ReplaceImage(grp, whole), ConvertFrom(s, m.end),
                 s[p..], whole, s[m.end..], WellFormedImg(grp));
  }

  /** A replaced tag keeps "unchanged so far" only when the replacement is
      the tag itself, which happens exactly for a malformed tag. */
  lemma MatchStepIff(r: string, rep: string, t: string, sp: string, whole: string, u: string, wf: bool)
    requires r == rep + t && sp == whole + u
    requires rep == whole <==> !wf
    requires wf ==> rep != [] && whole != [] && rep[0] != whole[0]
    ensures r == sp <==> !wf && t == u
  {
    if wf {
      FirstCharDiffers(rep, t, whole, u);
    } else {
      SameHeadCancels(whole, t, u);
    }
  }

  lemma FirstCharDiffers(a: string, b: string, c: string, d: string)
    requires a != [] && c != [] && a[0] != c[0]
    ensures a + b != c + d
  {
    assert (a + b)[0] == a[0] && (c + d)[0] == c[0];
  }

  lemma SameHeadCancels(h: string, a: string, b: string)
    ensures h + a == h + b <==> a == b
  {
    if h + a == h + b {
      assert a == (h + a)[|h|..];
      assert b == (h + b)[|h|..];
    }
  }

  /** preview_conversions reports nothing exactly when no group is well
      formed. */
  lemma {:induction false} PreviewedEmptyIff(ms: seq<string>)
    ensures Previewed(ms) == [] <==> NoneWellFormed(ms)
  {
    if ms != [] {
      PreviewedEmptyIff(ms[1..]);
    }
  }

  lemma {:induction false} FindAllMeansMarker(s: string, p: nat)
    requires p <= |s| && FindAllFrom(s, p) != []
    ensures Contains(s, ImgOpen)
    decreases |s| - p
  {
    match ImgMatchAt(s, p)
    case Some(m) =>
      assert OccursAt(s, ImgOpen, p);
    case None =>
      FindAllMeansMarker(s, p + 1);
  }

  /** process_file writes a file exactly when preview_conversions finds
      something to convert in it, and what it writes is the converted text:
      the "{% img" pre-check never skips a file the conversion would change. */
  lemma ImageWriteIffPreview(content: string)
    ensures ImageWriteDecision(content).Some? <==> Previewed(FindAllImg(content)) != []
    ensures ImageWriteDecision(content)
            == if ConvertImageTags(content) == content then None else Some(ConvertImageTags(content))
  {
    ImageWriteIfChanged(content);
    ChangedIffPreviewed(content);
  }

  lemma ImageWriteIfChanged(content: string)
    ensures ImageWriteDecision(content)
            == if ConvertImageTags(content) == content then None else Some(ConvertImageTags(content))
  {
  }

  /** The conversion changes the text exactly when preview_conversions
      reports a pair. */
  lemma ChangedIffPreviewed(content: string)
    ensures ConvertImageTags(content) != content <==> Previewed(FindAllImg(content)) != []
  {
    assert ConvertImageTags(content) == ConvertFrom(content, 0);
    assert FindAllImg(content) == FindAllFrom(content, 0);
    ConvertUnchangedIff(content, 0);
    PreviewedEmptyIff(FindAllImg(content));
    WholeSlices(content);
  }
}

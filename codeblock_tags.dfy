/** The codeblock rewriter of _posts/fix_code.py: every
    `{% codeblock PARAMS %}BODY{% endcodeblock %}` becomes a fenced block whose
    info string is a language tag resolved from PARAMS, either from an explicit
    `lang:NAME` or from the extension of the first file name among the words.
    The regular expression `{% codeblock(?:\s+(.*?))?\s*%}(.*?){% endcodeblock %}`
    (with DOTALL) is modelled by a dedicated matcher, CodeMatchAt, and the scan
    of re.sub by ConvertFrom. */
module CodeblockTags {
  import opened Text

  const CodeOpen := "{% codeblock"
  const CodeClose := "{% endcodeblock %}"
  const LangPrefix := "lang:"

  // ---------------------------------------------------------------------------
  // The two lookup tables
  // ---------------------------------------------------------------------------

  /** No ASCII capital letter occurs in `s`. */
  predicate NoUpper(s: string) {
    forall i :: 0 <= i < |s| ==> !('A' <= s[i] <= 'Z')
  }

  /** A non-empty run of lower-case ASCII letters, the shape of every
      identifier the tables produce. */
  predicate IsLowerName(s: string) {
    s != [] && forall i :: 0 <= i < |s| ==> 'a' <= s[i] <= 'z'
  }

  /** get_language_mapping: language names to markdown identifiers, in the
      source's order, written as three displays joined by `+`. */
  function LanguageMapping(): map<string, string> {
    LanguageEntries1() + LanguageEntries2() + LanguageEntries3()
  }

  function LanguageEntries1(): map<string, string> {
    map[
      "c++" := "cpp", "c" := "c", "python" := "python", "java" := "java",
      "javascript" := "javascript", "js" := "javascript", "html" := "html",
      "css" := "css", "bash" := "bash", "shell" := "bash", "ruby" := "ruby"
    ]
  }

  function LanguageEntries2(): map<string, string> {
    map[
      "php" := "php", "sql" := "sql", "xml" := "xml", "json" := "json",
      "yaml" := "yaml", "yml" := "yaml", "markdown" := "markdown",
      "md" := "markdown", "text" := "text", "plain" := "text", "go" := "go"
    ]
  }

  function LanguageEntries3(): map<string, string> {
    map[
      "rust" := "rust", "swift" := "swift", "kotlin" := "kotlin",
      "scala" := "scala", "r" := "r", "matlab" := "matlab", "perl" := "perl",
      "vim" := "vim", "diff" := "diff", "dockerfile" := "dockerfile",
      "makefile" := "makefile"
    ]
  }

  /** get_extension_mapping: file extensions to markdown identifiers, in the
      source's order, written as three displays joined by `+`.  The source
      lists ".xml" twice with the same value, so the union is the same
      dictionary. */
  function ExtensionMapping(): map<string, string> {
    map[
      ".cpp" := "cpp", ".cc" := "cpp", ".cxx" := "cpp", ".c++" := "cpp",
      ".hpp" := "cpp", ".h" := "cpp", ".c" := "c", ".py" := "python",
      ".java" := "java", ".js" := "javascript", ".ts" := "typescript",
      ".html" := "html", ".htm" := "html", ".css" := "css", ".scss" := "scss",
      ".sass" := "sass", ".sh" := "bash", ".bash" := "bash", ".zsh" := "bash",
      ".rb" := "ruby", ".php" := "php", ".sql" := "sql", ".xml" := "xml"
    ] + map[
      ".json" := "json", ".yaml" := "yaml", ".yml" := "yaml",
      ".md" := "markdown", ".markdown" := "markdown", ".txt" := "text",
      ".go" := "go", ".rs" := "rust", ".swift" := "swift", ".kt" := "kotlin",
      ".kts" := "kotlin", ".scala" := "scala", ".r" := "r", ".R" := "r"
    ] + map[
      ".m" := "matlab", ".pl" := "perl", ".vim" := "vim", ".diff" := "diff",
      ".patch" := "diff", ".dockerfile" := "dockerfile",
      ".makefile" := "makefile", ".make" := "makefile", ".gradle" := "gradle",
      ".xml" := "xml", ".toml" := "toml", ".ini" := "ini", ".cfg" := "ini",
      ".conf" := "text"
    ]
  }

  /** Every markdown identifier either table can produce. */
  const Identifiers: set<string> := Identifiers1 + Identifiers2 + Identifiers3

  const Identifiers1: set<string> := {
    "cpp", "c", "python", "java", "javascript", "typescript", "html", "css",
    "scss", "sass", "bash", "ruby"
  }

  const Identifiers2: set<string> := {
    "php", "sql", "xml", "json", "yaml", "markdown", "text", "go", "rust",
    "swift", "kotlin"
  }

  const Identifiers3: set<string> := {
    "scala", "r", "matlab", "perl", "vim", "diff", "dockerfile", "makefile",
    "gradle", "toml", "ini"
  }

  lemma IdentifiersAreNames()
    ensures forall v :: v in Identifiers ==> IsLowerName(v)
  {
    Identifiers1AreNames();
    Identifiers2AreNames();
    Identifiers3AreNames();
  }

  lemma Identifiers1AreNames()
    ensures forall v :: v in Identifiers1 ==> IsLowerName(v)
  {
  }

  lemma Identifiers2AreNames()
    ensures forall v :: v in Identifiers2 ==> IsLowerName(v)
  {
  }

  lemma Identifiers3AreNames()
    ensures forall v :: v in Identifiers3 ==> IsLowerName(v)
  {
  }

  /** A language name that a lower-cased word can equal. */
  predicate ReachableName(k: string) {
    k != [] && NoUpper(k)
  }

  lemma Entries1Keys()
    ensures forall k :: k in LanguageEntries1() ==> ReachableName(k)
  {
  }

  lemma Entries2Keys()
    ensures forall k :: k in LanguageEntries2() ==> ReachableName(k)
  {
  }

  lemma Entries3Keys()
    ensures forall k :: k in LanguageEntries3() ==> ReachableName(k)
  {
  }

  /** The language names are non-empty and contain no capital letter, so
      lower-casing the word never hides an entry.  This does not make every
      entry reachable: the word after `lang:` is a run of `\w` characters,
      and "c++" is not one (see CppKeyUnreachable). */
  lemma LanguageMappingKeys()
    ensures forall k :: k in LanguageMapping() ==> k != [] && NoUpper(k)
  {
    Entries1Keys();
    Entries2Keys();
    Entries3Keys();
  }

  /** Every value of the language table is a known identifier. */
  lemma LanguageMappingValues()
    ensures forall k :: k in LanguageMapping() ==> LanguageMapping()[k] in Identifiers
  {
  }

  /** Every value of the extension table is a known identifier. */
  lemma ExtensionMappingValues()
    ensures forall k :: k in ExtensionMapping() ==> ExtensionMapping()[k] in Identifiers
  {
  }

  /** The table has an entry for ".R", next to the one for ".r". */
  lemma ExtensionMappingHasUpperR()
    ensures ".R" in ExtensionMapping() && ".r" in ExtensionMapping()
    ensures ExtensionMapping()[".R"] == ExtensionMapping()[".r"] == "r"
  {
  }

  // ---------------------------------------------------------------------------
  // Language resolution (the body of replace_match)
  // ---------------------------------------------------------------------------

  /** Length of the run of `\w` characters at the start of `s`. */
  function WordRunLen(s: string): (n: nat)
    ensures n <= |s|
    ensures forall k :: 0 <= k < n ==> IsWordChar(s[k])
    ensures n == |s| || !IsWordChar(s[n])
  {
    if s != [] && IsWordChar(s[0]) then 1 + WordRunLen(s[1..]) else 0
  }

  /** The extension os.path.splitext finds in the lower-cased word. */
  function ExtKey(word: string): string {
    SplitExt(Lower(word)).1
  }

  /** The word contains '.' and its lower-cased extension is in the table. */
  predicate HasKnownExtension(word: string) {
    '.' in word && ExtKey(word) in ExtensionMapping()
  }

  /** The identifier for the first word with a known extension, or "" when
      no word has one. */
  function FirstExtensionHit(words: seq<string>): (tag: string)
    ensures (forall i :: 0 <= i < |words| ==> !HasKnownExtension(words[i])) ==> tag == []
    ensures forall i :: 0 <= i < |words| && HasKnownExtension(words[i])
              && (forall j :: 0 <= j < i ==> !HasKnownExtension(words[j]))
              ==> tag == ExtensionMapping()[ExtKey(words[i])]
    ensures tag == [] || tag in ExtensionMapping().Values
  {
    if words == [] then []
    else if HasKnownExtension(words[0]) then
      ExtensionMapping()[ExtKey(words[0])]
    else FirstExtensionHit(words[1..])
  }

  /** The `for word in words` loop of replace_match, which stops at the first
      word whose extension is in the table. */
  method InferFromExtension(words: seq<string>) returns (markdownLang: string)
    ensures markdownLang == FirstExtensionHit(words)
  {
    markdownLang := "";
    var i := 0;
    while i < |words|
      invariant 0 <= i <= |words|
      invariant markdownLang == [] && FirstExtensionHit(words) == FirstExtensionHit(words[i..])
    {
      var word := words[i];
      if '.' in word {
        var ext := SplitExt(Lower(word)).1;
        if ext in ExtensionMapping() {
          markdownLang := ExtensionMapping()[ext];
          break;
        }
      }
      assert words[i..][1..] == words[i + 1..];
      i := i + 1;
    }
  }

  /** language_map.get(name, name): the table entry, or the name itself. */
  function LanguageGet(name: string): string {
    if name in LanguageMapping() then LanguageMapping()[name] else name
  }

  /** The tag for parameters that start with `lang:`, from the text `after`
      that follows the prefix: `lang:(\w+)` must match, and the word, lower
      cased, is looked up in the language table, an unknown name passing
      through unchanged. */
  function LangTag(after: string): string {
    var n := WordRunLen(after);
    if n == 0 then [] else LanguageGet(Lower(after[..n]))
  }

  /** The language tag replace_match computes from group 1 (`params`, which
      is "" when the optional group did not take part in the match). */
  function ResolveLanguage(params: string): string {
    if params == [] then []
    else
      var p := Strip(params);
      if StartsWith(p, LangPrefix) then LangTag(p[5..])
      else FirstExtensionHit(Split(p))
  }

  /** A word of letters, digits and underscores with no capital letter. */
  predicate IsLowerWord(tag: string) {
    forall i :: 0 <= i < |tag| ==> IsWordChar(tag[i]) && !('A' <= tag[i] <= 'Z')
  }

  lemma NameIsLowerWord(tag: string)
    requires IsLowerName(tag)
    ensures IsLowerWord(tag)
  {
  }

  /** The tag after `lang:` is a word without capital letters: a table value,
      or the lower-cased run of word characters. */
  lemma LangTagIsWord(after: string)
    ensures IsLowerWord(LangTag(after))
  {
    var n := WordRunLen(after);
    if n > 0 {
      var language := Lower(after[..n]);
      if language in LanguageMapping() {
        LanguageMappingValues();
        IdentifiersAreNames();
        NameIsLowerWord(LanguageMapping()[language]);
      } else {
        LowerHasNoUpper(after[..n]);
        forall i | 0 <= i < |language| ensures IsWordChar(language[i]) {
          assert IsWordChar(after[..n][i]);
        }
      }
    }
  }

  /** Every tag replace_match produces is a word without capital letters. */
  lemma ResolveLanguageIsWord(params: string)
    ensures IsLowerWord(ResolveLanguage(params))
  {
    var p := Strip(params);
    if params != [] {
      if StartsWith(p, LangPrefix) {
        LangTagIsWord(p[5..]);
      } else {
        var tag := FirstExtensionHit(Split(p));
        if tag != [] {
          var k :| k in ExtensionMapping() && ExtensionMapping()[k] == tag;
          ExtensionMappingValues();
          IdentifiersAreNames();
          NameIsLowerWord(tag);
        }
      }
    }
  }

  // ---------------------------------------------------------------------------
  // Properties of language resolution
  // ---------------------------------------------------------------------------

  lemma LowerOfNoUpper(s: string)
    requires NoUpper(s)
    ensures Lower(s) == s
  {
  }

  lemma LowerHasNoUpper(s: string)
    ensures NoUpper(Lower(s))
  {
  }

  /** Empty or blank parameters give the empty tag. */
  lemma ResolveBlank(params: string)
    requires Strip(params) == []
    ensures ResolveLanguage(params) == []
  {
  }

  lemma {:induction false} WordRunOfWord(word: string, rest: string)
    requires forall k :: 0 <= k < |word| ==> IsWordChar(word[k])
    requires rest == [] || !IsWordChar(rest[0])
    ensures WordRunLen(word + rest) == |word|
  {
    if word != [] {
      assert (word + rest)[1..] == word[1..] + rest;
      WordRunOfWord(word[1..], rest);
    } else {
      assert word + rest == rest;
    }
  }

  /** With `lang:` followed by the word-character run `word`, the tag is the
      table entry for the lower-cased word, or the lower-cased word itself when
      the table has no entry for it. */
  lemma ResolveLangWord(params: string, word: string, rest: string)
    requires Strip(params) == LangPrefix + (word + rest)
    requires WordThenBreak(word, rest)
    ensures ResolveLanguage(params) == LanguageGet(Lower(word))
  {
    ResolveLangAfter(params, word + rest);
    LangTagOfWord(word, rest);
  }

  /** Parameters that strip to `lang:` followed by `after` resolve through
      LangTag on `after`. */
  lemma ResolveLangAfter(params: string, after: string)
    requires Strip(params) == LangPrefix + after
    ensures ResolveLanguage(params) == LangTag(after)
  {
    PrefixedParts(Strip(params), after);
    ResolveLanguageOfLang(params);
  }

  lemma PrefixedParts(p: string, after: string)
    requires p == LangPrefix + after
    ensures StartsWith(p, LangPrefix) && p[5..] == after
  {
  }

  /** `word` is a non-empty run of word characters and `rest` does not
      continue it. */
  predicate WordThenBreak(word: string, rest: string) {
    && word != []
    && (forall k :: 0 <= k < |word| ==> IsWordChar(word[k]))
    && (rest == [] || !IsWordChar(rest[0]))
  }

  lemma LangTagOfWord(word: string, rest: string)
    requires WordThenBreak(word, rest)
    ensures LangTag(word + rest) == LanguageGet(Lower(word))
  {
    var x := word + rest;
    WordRunOfWord(word, rest);
    assert x[..|word|] == word;
    LangTagOfRun(x);
  }

  lemma LangTagOfRun(after: string)
    requires WordRunLen(after) > 0
    ensures LangTag(after) == LanguageGet(Lower(after[..WordRunLen(after)]))
  {
  }

  lemma ResolveLanguageOfLang(params: string)
    requires params != [] && StartsWith(Strip(params), LangPrefix)
    ensures ResolveLanguage(params) == LangTag(Strip(params)[5..])
  {
  }

  /** `lang:` not followed by a word character gives the empty tag, and no
      extension inference takes place. */
  lemma ResolveLangNoWord(params: string, after: string)
    requires Strip(params) == LangPrefix + after
    requires after == [] || !IsWordChar(after[0])
    ensures ResolveLanguage(params) == []
  {
    ResolveLangAfter(params, after);
  }

  /** Without the `lang:` prefix, the tag is that of the first word with a
      known extension, and empty when there is none. */
  lemma ResolveByExtension(params: string)
    requires !StartsWith(Strip(params), LangPrefix)
    ensures var words := Split(Strip(params));
            (forall i :: 0 <= i < |words| ==> !HasKnownExtension(words[i])) ==> ResolveLanguage(params) == []
    ensures var words := Split(Strip(params));
            forall i :: 0 <= i < |words| && HasKnownExtension(words[i])
              && (forall j :: 0 <= j < i ==> !HasKnownExtension(words[j]))
              ==> ResolveLanguage(params) == ExtensionMapping()[ExtKey(words[i])]
  {
    ResolveOfWords(params);
  }

  lemma ResolveOfWords(params: string)
    requires !StartsWith(Strip(params), LangPrefix)
    ensures ResolveLanguage(params) == FirstExtensionHit(Split(Strip(params)))
  {
  }

  /** The extension lookup ignores case: words that agree up to case have
      the same extension key and are recognised alike. */
  lemma ExtensionCaseInsensitive(w1: string, w2: string)
    requires Lower(w1) == Lower(w2)
    ensures ExtKey(w1) == ExtKey(w2)
    ensures HasKnownExtension(w1) <==> HasKnownExtension(w2)
  {
    if '.' in w1 {
      var i :| 0 <= i < |w1| && w1[i] == '.';
      assert Lower(w2)[i] == '.';
    }
    if '.' in w2 {
      var i :| 0 <= i < |w2| && w2[i] == '.';
      assert Lower(w1)[i] == '.';
    }
  }

  /** The ".R" entry of the extension table is never consulted: the word is
      lower-cased before its extension is taken. */
  lemma UpperRUnreachable(word: string)
    ensures ExtKey(word) != ".R"
  {
    var parts := SplitExt(Lower(word));
    LowerHasNoUpper(word);
    if |parts.1| == 2 {
      assert parts.1[1] == Lower(word)[|parts.0| + 1];
    }
  }

  /** The "c++" entry of the language table is never consulted: the word
      looked up is a lower-cased run of `\w` characters, and '+' is not one. */
  lemma CppKeyUnreachable(after: string)
    ensures Lower(after[..WordRunLen(after)]) != "c++"
  {
    var n := WordRunLen(after);
    if n == 3 {
      assert IsWordChar(after[1]);
      assert Lower(after[..n])[1] == LowerChar(after[1]);
    }
  }

  /** The tag is empty, a table value, or, after `lang:`, the lower-cased
      word itself when the language table has no entry for it. */
  lemma ResolveLanguageRange(params: string)
    ensures var tag := ResolveLanguage(params);
            var p := Strip(params);
            tag == [] || tag in LanguageMapping().Values || tag in ExtensionMapping().Values
            || (StartsWith(p, LangPrefix) && tag !in LanguageMapping()
                && tag == Lower(p[5..][..WordRunLen(p[5..])]))
  {
    var p := Strip(params);
    if params != [] && StartsWith(p, LangPrefix) {
      ResolveLanguageOfLang(params);
      var after := p[5..];
      if WordRunLen(after) > 0 {
        LangTagOfRun(after);
      }
    }
  }

  /** `\w+` stops at '+', so `lang:c++` (and any `lang:c+...`) resolves
      through the table entry for "c". */
  lemma LangCppQuirk(params: string, tail: string)
    requires Strip(params) == "lang:c+" + tail
    ensures ResolveLanguage(params) == "c"
  {
    CppParts(tail);
    ResolveLangWord(params, "c", "+" + tail);
    LanguageGetC();
  }

  lemma CppParts(tail: string)
    ensures "lang:c+" + tail == LangPrefix + ("c" + ("+" + tail))
  {
  }

  lemma LanguageGetC()
    ensures LanguageGet(Lower("c")) == "c"
  {
    assert Lower("c") == "c";
    assert "c" in LanguageEntries1() && LanguageEntries1()["c"] == "c";
    assert "c" !in LanguageEntries2() && "c" !in LanguageEntries3();
  }

  // ---------------------------------------------------------------------------
  // The fenced block
  // ---------------------------------------------------------------------------

  /** A fenced block: three backticks, the info string, a newline, the text,
      a newline, three backticks. */
  function FencedBlock(tag: string, text: string): string {
    "```" + tag + "\n" + text + "\n```"
  }

  /** replace_match: the fenced block for group 1 `params` and group 2 `body`,
      with the resolved language tag and the trimmed body. */
  function Fence(params: string, body: string): string {
    FencedBlock(ResolveLanguage(params), Strip(body))
  }

  /** Reads a fenced block back: the info string up to the first newline and
      the text between that newline and the closing fence. */
  function ReadFence(r: string): (parts: Option<(string, string)>)
    ensures parts.Some? ==> FencedBlock(parts.value.0, parts.value.1) == r
  {
    if |r| < 8 || r[..3] != "```" || r[|r| - 4..] != "\n```" then None
    else match FindFrom(r, 3, "\n")
      case None => None
      case Some(i) =>
        if i + 1 > |r| - 4 then None
        else
          assert r == r[..3] + r[3..i] + r[i..i + 1] + r[i + 1..|r| - 4] + r[|r| - 4..];
          Some((r[3..i], r[i + 1..|r| - 4]))
  }

  /** A fenced block whose info string has no newline reads back as its info
      string and its text. */
  lemma ReadFencedBlock(tag: string, text: string)
    requires forall k :: 0 <= k < |tag| ==> tag[k] != '\n'
    ensures ReadFence(FencedBlock(tag, text)) == Some((tag, text))
  {
    var r := FencedBlock(tag, text);
    assert r == "```" + tag + ("\n" + text + "\n```");
    var i := 3 + |tag|;
    assert r[i] == '\n';
    assert OccursAt(r, "\n", i);
    forall k | 3 <= k < i ensures !OccursAt(r, "\n", k) {
      assert r[k] == tag[k - 3];
    }
    assert FindFrom(r, 3, "\n") == Some(i);
    assert r[..3] == "```";
    assert r[|r| - 4..] == "\n```";
    assert r[3..i] == tag;
    assert r[i + 1..|r| - 4] == text;
  }

  /** The language tag and the trimmed body can be read back from what
      replace_match returns: the tag is a word, so the first newline ends it. */
  lemma ReadFenceOfFence(params: string, body: string)
    ensures ReadFence(Fence(params, body)) == Some((ResolveLanguage(params), Strip(body)))
  {
    var tag := ResolveLanguage(params);
    ResolveLanguageIsWord(params);
    forall k | 0 <= k < |tag| ensures tag[k] != '\n' {
      assert IsWordChar(tag[k]);
    }
    ReadFencedBlock(tag, Strip(body));
  }

  /** Without parameters, or with blank ones, the fence carries no language
      tag: three backticks, a newline, the trimmed body, a newline, three
      backticks. */
  lemma BlankParamsFence(params: string, body: string)
    requires Strip(params) == []
    ensures Fence(params, body) == "```\n" + Strip(body) + "\n```"
  {
    ResolveBlank(params);
    assert "```" + [] + "\n" == "```\n";
  }

  // ---------------------------------------------------------------------------
  // The pattern {% codeblock(?:\s+(.*?))?\s*%}(.*?){% endcodeblock %}
  // ---------------------------------------------------------------------------

  /** Where the lazy group `(.*?)` started at `i` ends: the first position at
      or after `i` at which `\s*%}` matches (with DOTALL, newlines included). */
  function CodeParamsEnd(s: string, i: nat): (r: Option<nat>)
    requires i <= |s|
    ensures r.Some? ==> i <= r.value <= |s| && ClosesAt(s, r.value)
    ensures r.Some? ==> forall t :: i <= t < r.value ==> !ClosesAt(s, t)
    ensures r.None? ==> forall t :: i <= t <= |s| ==> !ClosesAt(s, t)
    decreases |s| - i
  {
    if ClosesAt(s, i) then Some(i)
    else if i < |s| then CodeParamsEnd(s, i + 1)
    else None
  }

  /** One match: group 1 is s[paramsStart..paramsEnd] (empty when the
      optional group is absent), group 2 is s[bodyStart..bodyEnd], and
      group 0 ends at `end`. */
  datatype CodeMatch = CodeMatch(paramsStart: nat, paramsEnd: nat, bodyStart: nat, bodyEnd: nat, end: nat)

  /** The match that starts at `p`, if any.  The optional group is tried
      first, with the greedy `\s+` taking the whole whitespace run; the group
      is skipped only when no whitespace follows "{% codeblock".  The body
      runs to the first "{% endcodeblock %}"; when there is none, no other
      way of matching the head helps, since every other way ends it later. */
  function CodeMatchAt(s: string, p: nat): (r: Option<CodeMatch>)
    requires p <= |s|
    ensures r.Some? ==> var m := r.value;
            p + 12 <= m.paramsStart <= m.paramsEnd && m.paramsEnd + 2 <= m.bodyStart
            && m.bodyStart <= m.bodyEnd && m.end == m.bodyEnd + 18 && m.end <= |s|
  {
    if !OccursAt(s, CodeOpen, p) then None
    else
      var q := p + 12;
      var g := SkipSpace(s, q);
      var close := if g == q then (if ClosesAt(s, q) then Some(q) else None) else CodeParamsEnd(s, g);
      match close
      case None => None
      case Some(k) =>
        var j := SkipSpace(s, k);
        match FindFrom(s, j + 2, CodeClose)
        case None => None
        case Some(b) => Some(CodeMatch(g, k, j + 2, b, b + 18))
  }

  /** A way of reading s[p..b+18] as the pattern: "{% codeblock", the
      whitespace s[p+12..g], the group s[g..k] (present only when that
      whitespace is not empty), the whitespace s[k..j], "%}" at j, the body
      s[j+2..b], then "{% endcodeblock %}" at b. */
  ghost predicate CodeParse(s: string, p: nat, g: nat, k: nat, j: nat, b: nat) {
    OccursAt(s, CodeOpen, p) && p + 12 <= g <= k <= j && j + 2 <= b
    && (g == p + 12 ==> k == g)
    && OccursAt(s, CodeClose, b)
    && AllSpace(s, p + 12, g) && AllSpace(s, k, j) && s[j] == '%' && s[j + 1] == '}'
  }

  /** The matcher returns a parse of the pattern. */
  lemma CodeMatchAtSound(s: string, p: nat)
    requires p <= |s| && CodeMatchAt(s, p).Some?
    ensures var m := CodeMatchAt(s, p).value;
            CodeParse(s, p, m.paramsStart, m.paramsEnd, m.bodyStart - 2, m.bodyEnd)
  {
  }

  lemma {:induction false} CodeParamsEndFinds(s: string, i: nat, k: nat)
    requires i <= k <= |s| && ClosesAt(s, k)
    ensures CodeParamsEnd(s, i).Some? && CodeParamsEnd(s, i).value <= k
    decreases k - i
  {
    if !ClosesAt(s, i) {
      CodeParamsEndFinds(s, i + 1, k);
    }
  }

  /** Whenever the pattern can be read at `p` the matcher finds a match, and
      it is the engine's preferred one: longest leading whitespace, then
      shortest group, then longest trailing whitespace, then shortest body;
      its "%}" and its body end come no later than in any other reading. */
  lemma CodeMatchAtPreferred(s: string, p: nat, g: nat, k: nat, j: nat, b: nat)
    requires p <= |s| && CodeParse(s, p, g, k, j, b)
    ensures CodeMatchAt(s, p).Some?
    ensures var m := CodeMatchAt(s, p).value;
            g <= m.paramsStart
            && (g == m.paramsStart ==> m.paramsEnd <= k)
            && (k == m.paramsEnd ==> j + 2 == m.bodyStart)
            && m.bodyStart <= j + 2 && m.bodyEnd <= b
  {
    var q := p + 12;
    var g0 := SkipSpace(s, q);
    assert g <= g0;
    SkipSpaceUnique(s, k, j);
    assert ClosesAt(s, k);
    if g0 == q {
      assert k == q;
    } else {
      assert ClosesAt(s, j);
      assert g0 <= j by {
        assert !IsSpace(s[j]);
      }
      CodeParamsEndFinds(s, g0, j);
      if g == g0 {
        CodeParamsEndFinds(s, g0, k);
      }
      var k0 := CodeParamsEnd(s, g0).value;
      SkipSpaceMonotone(s, k0, j);
      assert SkipSpace(s, j) == j;
    }
  }

  // ---------------------------------------------------------------------------
  // re.sub with DOTALL: left-to-right scan without overlap
  // ---------------------------------------------------------------------------

  function ConvertFrom(s: string, p: nat): string
    requires p <= |s|
    decreases |s| - p
  {
    if p == |s| then []
    else match CodeMatchAt(s, p)
      case Some(m) =>
        Fence(s[m.paramsStart..m.paramsEnd], s[m.bodyStart..m.bodyEnd]) + ConvertFrom(s, m.end)
      case None => [s[p]] + ConvertFrom(s, p + 1)
  }

  lemma ConvertCopiesUnmatched(s: string, p: nat)
    requires p < |s| && CodeMatchAt(s, p).None?
    ensures ConvertFrom(s, p) == [s[p]] + ConvertFrom(s, p + 1)
  {
  }

  lemma ConvertAtMatch(s: string, p: nat)
    requires p < |s| && CodeMatchAt(s, p).Some?
    ensures var m := CodeMatchAt(s, p).value;
            ConvertFrom(s, p)
            == Fence(s[m.paramsStart..m.paramsEnd], s[m.bodyStart..m.bodyEnd]) + ConvertFrom(s, m.end)
  {
  }

  /** When no block matches at or after `start`, the rest of the text is
      copied unchanged. */
  lemma {:induction false} CopiesRest(s: string, start: nat)
    requires start <= |s|
    requires forall i :: start <= i < |s| ==> CodeMatchAt(s, i).None?
    ensures ConvertFrom(s, start) == s[start..]
    decreases |s| - start
  {
    if start < |s| {
      ConvertCopiesUnmatched(s, start);
      CopiesRest(s, start + 1);
      SuffixCons(s, start);
    }
  }

  /** A block whose closing tag is missing does not match: with no
      "{% endcodeblock %}" at or after `p`, the rest of the text is copied
      unchanged. */
  lemma UnterminatedUnchanged(s: string, p: nat)
    requires p <= |s|
    requires forall i :: p <= i ==> !OccursAt(s, CodeClose, i)
    ensures ConvertFrom(s, p) == s[p..]
  {
    forall i | p <= i < |s| ensures CodeMatchAt(s, i).None? {
      if CodeMatchAt(s, i).Some? {
        CodeMatchAtSound(s, i);
      }
    }
    CopiesRest(s, p);
  }

  /** Without the marker "{% codeblock" nothing is converted. */
  lemma NoMarkerUnchanged(s: string)
    ensures !Contains(s, CodeOpen) ==> ConvertFrom(s, 0) == s
  {
    if !Contains(s, CodeOpen) {
      forall i | 0 <= i < |s| ensures CodeMatchAt(s, i).None? {
        assert !OccursAt(s, CodeOpen, i);
      }
      CopiesRest(s, 0);
    }
  }

  /** Without the closing tag "{% endcodeblock %}" nothing is converted. */
  lemma NoCloseUnchanged(s: string)
    ensures !Contains(s, CodeClose) ==> ConvertFrom(s, 0) == s
  {
    if !Contains(s, CodeClose) {
      forall i: nat | 0 <= i ensures !OccursAt(s, CodeClose, i) {
        if i + |CodeClose| <= |s| {
          assert !(0 <= i <= |s| - |CodeClose| && OccursAt(s, CodeClose, i));
        }
      }
      UnterminatedUnchanged(s, 0);
    }
  }

  /** convert_codeblock_tags */
  function ConvertCodeblockTags(content: string): (r: string)
    ensures !Contains(content, CodeOpen) ==> r == content
    ensures !Contains(content, CodeClose) ==> r == content
  {
    NoMarkerUnchanged(content);
    NoCloseUnchanged(content);
    ConvertFrom(content, 0)
  }

  // ---------------------------------------------------------------------------
  // One well-formed block converts to its fence
  // ---------------------------------------------------------------------------

  /** A block written in the usual way: one space after "{% codeblock", the
      parameters, " %}", the body and the closing tag. */
  function CodeblockTag(params: string, body: string): string {
    CodeOpen + " " + params + " %}" + body + CodeClose
  }

  /** Parameters the pattern reads back as group 1 of such a block: none, or
      text that neither starts nor ends with whitespace and has no "%}". */
  ghost predicate CodeGroupShape(m: string) {
    (m == [] || (!IsSpace(m[0]) && !IsSpace(m[|m| - 1])))
    && (forall k :: 0 <= k < |m| - 1 ==> !PercentBraceAt(m, k))
  }

  /** "%}" starts at `k`. */
  predicate PercentBraceAt(m: string, k: nat)
    requires k + 1 < |m|
  {
    m[k] == '%' && m[k + 1] == '}'
  }

  /** Where the pieces of such a block sit. */
  predicate CodeLayout(x: string, params: string, body: string) {
    var n := |params|;
    |x| == n + |body| + 34 && OccursAt(x, CodeOpen, 0) && x[12] == ' '
    && x[13..13 + n] == params && x[13 + n] == ' ' && x[14 + n] == '%' && x[15 + n] == '}'
    && x[16 + n..16 + n + |body|] == body && OccursAt(x, CodeClose, 16 + n + |body|)
  }

  lemma CodeLayoutOfTag(params: string, body: string)
    ensures CodeLayout(CodeblockTag(params, body), params, body)
  {
    var x := CodeblockTag(params, body);
    var n := |params|;
    assert x == CodeOpen + (" " + (params + (" %}" + (body + CodeClose))));
    assert x[..12] == CodeOpen;
    assert x[13..13 + n] == params;
    assert x[16 + n..16 + n + |body|] == body;
    assert x[16 + n + |body|..16 + n + |body| + 18] == CodeClose;
  }

  /** The group ends at the first position where `\s*%}` matches. */
  lemma {:induction false} CodeParamsEndExact(s: string, i: nat, k: nat)
    requires i <= k <= |s| && ClosesAt(s, k)
    requires forall t :: i <= t < k ==> !ClosesAt(s, t)
    ensures CodeParamsEnd(s, i) == Some(k)
    decreases k - i
  {
    if i < k {
      CodeParamsEndExact(s, i + 1, k);
    }
  }

  /** Inside the parameters of such a block `\s*%}` does not match. */
  lemma CodeGroupOpen(x: string, params: string, body: string)
    requires CodeLayout(x, params, body) && CodeGroupShape(params) && params != []
    ensures forall t :: 13 <= t < 13 + |params| ==> !ClosesAt(x, t)
  {
    var n := |params|;
    assert forall t :: 13 <= t < 13 + n ==> x[t] == params[t - 13] by {
      forall t | 13 <= t < 13 + n ensures x[t] == params[t - 13] {
        assert x[13..13 + n][t - 13] == x[t];
      }
    }
    forall t | 13 <= t < 13 + n ensures !ClosesAt(x, t) {
      var j := SkipSpace(x, t);
      if j + 1 < 13 + n {
        assert x[j] == params[j - 13] && x[j + 1] == params[j - 12];
        assert !PercentBraceAt(params, j - 13);
      }
    }
  }

  /** The closing tag does not occur before the one that ends the block: not
      inside the body, and not straddling the body and the closing tag. */
  lemma BodyHasNoClose(x: string, params: string, body: string)
    requires CodeLayout(x, params, body) && !Contains(body, CodeClose)
    ensures forall t :: 16 + |params| <= t < 16 + |params| + |body| ==> !OccursAt(x, CodeClose, t)
  {
    var lo := 16 + |params|;
    var hi := lo + |body|;
    forall t | lo <= t < hi ensures !OccursAt(x, CodeClose, t) {
      if t + 18 <= hi {
        CloseNotInside(x, lo, body, t);
      } else {
        CloseNoOverlap(x, t, hi);
      }
    }
  }

  /** A closing tag inside a copy of `body` would be one in `body`. */
  lemma CloseNotInside(x: string, lo: nat, body: string, t: nat)
    requires lo + |body| <= |x| && x[lo..lo + |body|] == body && !Contains(body, CodeClose)
    requires lo <= t && t + 18 <= lo + |body|
    ensures !OccursAt(x, CodeClose, t)
  {
    var w, v := x[t..t + 18], body[t - lo..t - lo + 18];
    forall i | 0 <= i < 18 ensures w[i] == v[i] {
      assert x[t + i] == x[lo..lo + |body|][t - lo + i];
    }
    assert w == v;
    assert !OccursAt(body, CodeClose, t - lo);
  }

  /** Two occurrences of "{% endcodeblock %}" never overlap: '{' occurs in it
      only at its start. */
  lemma CloseNoOverlap(x: string, t: nat, b: nat)
    requires t < b < t + 18 && OccursAt(x, CodeClose, b)
    ensures !OccursAt(x, CodeClose, t)
  {
    if t + 18 <= |x| {
      assert x[t..t + 18][b - t] == x[b..b + 18][0];
    }
  }

  /** The steps of the matcher at 0: the whitespace after "{% codeblock"
      ends at `g`, the group s[g..k], the whitespace s[k..j], "%}" at j, and
      the first closing tag after it at `b`. */
  predicate CodeSteps(s: string, g: nat, k: nat, j: nat, b: nat) {
    OccursAt(s, CodeOpen, 0) && 12 < g <= k <= j && j + 2 <= b <= |s|
    && SkipSpace(s, 12) == g && CodeParamsEnd(s, g) == Some(k)
    && SkipSpace(s, k) == j && FindFrom(s, j + 2, CodeClose) == Some(b)
  }

  /** The matcher follows those steps to its match. */
  lemma CodeMatchOfSteps(s: string, g: nat, k: nat, j: nat, b: nat)
    requires CodeSteps(s, g, k, j, b)
    ensures CodeMatchAt(s, 0).Some?
    ensures var m := CodeMatchAt(s, 0).value;
            m.paramsStart == g && m.paramsEnd == k && m.bodyStart == j + 2 && m.bodyEnd == b
  {
  }

  /** Without parameters the two spaces before "%}" are one whitespace run,
      and the group is empty. */
  lemma BlankHeadSteps(x: string, body: string)
    requires CodeLayout(x, [], body)
    ensures SkipSpace(x, 12) == 14 && CodeParamsEnd(x, 14) == Some(14) && SkipSpace(x, 14) == 14
  {
    SkipSpaceUnique(x, 12, 14);
    SkipSpaceUnique(x, 14, 14);
    assert ClosesAt(x, 14);
  }

  /** With parameters, the whitespace after "{% codeblock" is the one space. */
  lemma CodeHeadStart(x: string, params: string, body: string)
    requires CodeLayout(x, params, body) && CodeGroupShape(params) && params != []
    ensures SkipSpace(x, 12) == 13
  {
    assert x[13] == params[0] by {
      assert x[13..13 + |params|][0] == x[13];
    }
    SkipSpaceUnique(x, 12, 13);
  }

  /** With parameters, the group is the parameters, ending where " %}" starts. */
  lemma CodeHeadGroup(x: string, params: string, body: string)
    requires CodeLayout(x, params, body) && CodeGroupShape(params) && params != []
    ensures CodeParamsEnd(x, 13) == Some(13 + |params|)
    ensures SkipSpace(x, 13 + |params|) == 14 + |params|
  {
    var k := 13 + |params|;
    CodeGroupOpen(x, params, body);
    SkipSpaceUnique(x, k, k + 1);
    CodeParamsEndExact(x, 13, k);
  }

  /** The body of such a block ends at its closing tag. */
  lemma CodeBodySteps(x: string, params: string, body: string)
    requires CodeLayout(x, params, body) && !Contains(body, CodeClose)
    ensures FindFrom(x, 16 + |params|, CodeClose) == Some(16 + |params| + |body|)
  {
    BodyHasNoClose(x, params, body);
  }

  /** The steps for a block with parameters. */
  lemma ParamsSteps(x: string, params: string, body: string, k: nat, j: nat, b: nat)
    requires CodeLayout(x, params, body) && CodeGroupShape(params) && params != []
    requires !Contains(body, CodeClose)
    requires k == 13 + |params| && j == k + 1 && b == j + 2 + |body|
    ensures CodeSteps(x, 13, k, j, b)
  {
    CodeBodySteps(x, params, body);
    CodeHeadStart(x, params, body);
    CodeHeadGroup(x, params, body);
  }

  /** The steps for a block without parameters. */
  lemma BlankSteps(x: string, body: string)
    requires CodeLayout(x, [], body) && !Contains(body, CodeClose)
    ensures CodeSteps(x, 14, 14, 14, 16 + |body|)
  {
    CodeBodySteps(x, [], body);
    BlankHeadSteps(x, body);
  }

  /** Such a block is one match spanning the whole text, with the parameters
      as group 1 and the body as group 2. */
  lemma CodeTagMatches(x: string, params: string, body: string)
    requires CodeLayout(x, params, body) && CodeGroupShape(params) && !Contains(body, CodeClose)
    ensures CodeMatchAt(x, 0).Some?
    ensures var m := CodeMatchAt(x, 0).value;
            x[m.paramsStart..m.paramsEnd] == params
            && m.bodyStart == 16 + |params| && m.bodyEnd == 16 + |params| + |body| && m.end == |x|
  {
    if params == [] {
      BlankSteps(x, body);
      CodeMatchOfSteps(x, 14, 14, 14, 16 + |body|);
    } else {
      var k := 13 + |params|;
      var j := k + 1;
      var b := j + 2 + |body|;
      ParamsSteps(x, params, body, k, j, b);
      CodeMatchOfSteps(x, 13, k, j, b);
    }
  }

  /** Converting one such block gives exactly its fence. */
  lemma CodeblockTagConverts(params: string, body: string)
    requires CodeGroupShape(params) && !Contains(body, CodeClose)
    ensures ConvertCodeblockTags(CodeblockTag(params, body)) == Fence(params, body)
  {
    var x := CodeblockTag(params, body);
    CodeLayoutOfTag(params, body);
    CodeTagMatches(x, params, body);
    ConvertAtMatch(x, 0);
    var m := CodeMatchAt(x, 0).value;
    assert x[m.bodyStart..m.bodyEnd] == body;
    assert ConvertFrom(x, m.end) == [];
    AppendNil(Fence(params, body));
  }

  // ---------------------------------------------------------------------------
  // process_file: the write decision
  // ---------------------------------------------------------------------------

  /** The content process_file writes back, or None when it skips the file. */
  function CodeblockWriteDecision(content: string): (r: Option<string>)
    ensures r.Some? <==> Contains(content, CodeOpen)
    ensures r.Some? ==> r.value == ConvertCodeblockTags(content)
  {
    if !Contains(content, CodeOpen) then None else Some(ConvertCodeblockTags(content))
  }

  /** The file is rewritten even when nothing changes: a marker without a
      closing tag leads to writing back the original text. */
  lemma WritesUnchangedContent(content: string)
    requires Contains(content, CodeOpen) && !Contains(content, CodeClose)
    ensures CodeblockWriteDecision(content) == Some(content)
  {
  }
}

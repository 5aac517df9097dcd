# Blog-migration tag rewriters in Dafny

Two small Python scripts move blog posts from Octopress template tags to plain
markdown. This project models their string rewriters and proves what they do.

- `_posts/fix_img.py` rewrites `{% img [ALIGN] PATH [ALT...] %}` into
  `![ALT](PATH)`. When a tag starts with the alignment keyword `left`,
  `center`, `centre` or `right` (matched ignoring case), the image is preceded
  by the line `<!-- align -->`. When no alt text is given, the alt text is the
  file name without its extension. `preview_conversions` lists the
  (rebuilt tag, replacement) pairs for a dry run. `process_file` writes a post
  back only if it contains `{% img` and the conversion changes it.
- `_posts/fix_code.py` rewrites
  `{% codeblock PARAMS %}BODY{% endcodeblock %}` into a fenced code block.
  The fence holds a language tag, the trimmed body, and the closing fence.
  The tag comes from `lang:NAME`, which is looked up in the language table;
  an unknown name passes through lower-cased. Without `lang:`, the tag comes
  from the extension of the first word whose extension is in the extension
  table. `process_file` writes a post back whenever it contains
  `{% codeblock`.

The project has three files:

- `text.dfy` (module `Text`) gives the Python string and path calls their
  meaning: `str.isspace`, `\w`, `lower`, `strip`, `split`, `join`,
  substring search, `os.path.basename` and `os.path.splitext`.
- `image_tags.dfy` (module `ImageTags`) models the image rewriter.
- `codeblock_tags.dfy` (module `CodeblockTags`) models the codeblock
  rewriter.

Each regular expression is modelled by a matcher for that one pattern. The
image pattern is `{% img\s+(.*?)\s*%}`, with no DOTALL. The codeblock pattern
is `{% codeblock(?:\s+(.*?))?\s*%}(.*?){% endcodeblock %}`, with DOTALL.
Each matcher (`ImgMatchAt`, `CodeMatchAt`) is proved against a declarative
reading of its pattern: it returns a parse, it finds one whenever a parse
exists, and that parse is the one Python's backtracking engine prefers.
`re.sub` and `re.findall` are modelled as left-to-right scans without overlap
(`ConvertFrom`, `FindAllFrom`). `preview_conversions` and the
extension-inference loop are methods with loops. Each is proved equal to a
recursive specification function.

Three details of the code are easy to misread; the model follows the code:

- Extension inference uses `os.path.splitext` on the lower-cased word. The
  extension starts at the last dot of the last path segment, and a dot that
  is preceded only by dots in that segment does not start one. A word whose
  extension is not in the table is skipped, and the scan goes on to the next
  word.
- The `lang:` prefix test is case-sensitive. Only the name after it is
  lower-cased.
- The image pattern is not limited to one line. `\s+` and `\s*` match
  newlines. Only the group `(.*?)` stops at a newline.

## Model

| member | source | states |
|---|---|---|
| `Text.Lower` | _posts/fix_img.py:36 | the result has the input's length, and each character is the input character lower-cased (ASCII letters only) |
| `Text.FindFrom` | _posts/fix_code.py:117 | returns the first index at or after `i` where the text occurs, with no occurrence before it; returns None exactly when there is no occurrence |
| `Text.SkipSpace` | _posts/fix_img.py:20 | the end of the whitespace run at `i`, which is what a greedy `\s*` or `\s+` consumes: all whitespace before it, a non-space or the end at it |
| `Text.SkipSpaceUnique` | _posts/fix_img.py:20 | any position that ends a whitespace run from `i` and holds a non-space is the run's end |
| `Text.StripStart` | _posts/fix_img.py:23 | the result is a suffix of the input; everything removed is whitespace; the result is empty or starts with a non-space |
| `Text.StripEnd` | _posts/fix_img.py:23 | the result is a prefix of the input; everything removed is whitespace; the result is empty or ends with a non-space |
| `Text.Strip` | _posts/fix_img.py:23 | the result is no longer than the input; it neither starts nor ends with whitespace; an already-trimmed string is returned unchanged |
| `Text.Split` | _posts/fix_img.py:29 | every part `str.split()` returns is a non-empty run without whitespace |
| `Text.SplitKeepsText` | _posts/fix_img.py:29 | the parts, run together, are exactly the non-space characters of the text, in order |
| `Text.SplitJoin` | _posts/fix_img.py:50 | splitting the single-spaced join of tokens gives the tokens back |
| `Text.Join` | _posts/fix_img.py:50 | `" ".join`: the definition; `Text.SplitJoin` states what it guarantees |
| `Text.SplitNonEmpty` | _posts/fix_img.py:25-29 | a text that starts with a non-space splits into at least one part |
| `Text.Basename` | _posts/fix_img.py:57 | the result is the input's suffix after the last '/', and it contains no '/' |
| `Text.SplitExt` | _posts/fix_code.py:146 | root + ext is the path. A non-empty ext starts with '.', has no other '.' and no '/', and follows a file name that is not all dots. When ext is empty, every dot in the last segment has only dots before it |
| `ImageTags.ImgParamsEnd` | _posts/fix_img.py:20 | the lazy group ends at the first position where `\s*%}` matches. It contains no newline, and no `\s*%}` match occurs inside it |
| `ImageTags.ImgMatchAt` | _posts/fix_img.py:20 | a match lies after "{% img" and at least one whitespace character, and ends inside the text |
| `ImageTags.ImgMatchAtSound` | _posts/fix_img.py:20 | every match the matcher returns is a reading of the pattern |
| `ImageTags.ImgMatchAtPreferred` | _posts/fix_img.py:20 | whenever the pattern can be read at a position, the matcher matches there. It returns the regex engine's preferred reading: the longest `\s+`, then the shortest group, then the longest `\s*` |
| `ImageTags.Stem` | _posts/fix_img.py:56-59 | the fallback alt text is the file name up to its extension: a prefix of the basename without '/'. The rest is empty or one extension (a dot and no other dot). The stem is not all dots when an extension is cut off. When nothing is cut off, every dot in the name has only dots before it |
| `ImageTags.ReplaceImage` | _posts/fix_img.py:22-67 | replace_match: the definition; the four `ReplaceImage...` lemmas below characterise it |
| `ImageTags.ReplaceImageKeepsOnlyMalformed` | _posts/fix_img.py:22-41 | a tag comes back exactly as matched if and only if its parameters are blank or hold only an alignment keyword |
| `ImageTags.ReplaceImageStartsWithMarkup` | _posts/fix_img.py:52-67 | a well-formed tag's replacement starts with '!' or '<', never with the tag's '{' |
| `ImageTags.ReplaceImageForm` | _posts/fix_img.py:29-67 | a well-formed tag becomes the optional `<!-- kw -->\n` line (keyword lower-cased), then `![ALT](PATH)`. PATH is the first token after the keyword. ALT is the other tokens joined by single spaces, or the stem of PATH |
| `ImageTags.ReplaceImageWellFormed` | _posts/fix_img.py:22-67 | in a well-formed tag's replacement, the alt text splits back into exactly the tokens after the path, or is the path's stem when there are none. The path appears verbatim |
| `ImageTags.ConvertFrom` | _posts/fix_img.py:70 | re.sub as a left-to-right scan: the definition; `ScanCopiesUntilTag`, `NoMarkerNoTag`, `ReconstructedReparses`, `ConvertUnchangedIff` and `UnchangedAtMatch` characterise it |
| `ImageTags.FindAllFrom` | _posts/fix_img.py:104 | re.findall as the same scan: the definition; `FindAllSkipsUntilTag`, `FindAllShape` and `NoMarkerNoTag` characterise it |
| `ImageTags.ScanCopiesUntilTag` | _posts/fix_img.py:70 | text before the next tag is copied unchanged |
| `ImageTags.FindAllSkipsUntilTag` | _posts/fix_img.py:104 | re.findall records nothing for text without a tag |
| `ImageTags.NoMarkerNoTag` | _posts/fix_img.py:70 | a text without "{% img" is neither changed nor matched |
| `ImageTags.ConvertImageTags` | _posts/fix_img.py:11-72 | convert_image_tags leaves a text without "{% img" unchanged |
| `ImageTags.MatchGroupShape` | _posts/fix_img.py:20 | every matched group is one line, does not start or end with whitespace, and contains no "%}" |
| `ImageTags.FindAllShape` | _posts/fix_img.py:104 | every group re.findall returns has that shape |
| `ImageTags.FindAllImg` | _posts/fix_img.py:104 | the groups have that shape, and there are none without "{% img" |
| `ImageTags.ReconstructedMatch` | _posts/fix_img.py:108 | the tag rebuilt from a group matches as a whole, and its group is that same group |
| `ImageTags.ReconstructedReparses` | _posts/fix_img.py:107-109 | converting the rebuilt tag gives exactly the replacement of the original match, and re.findall on it yields just that group |
| `ImageTags.Previewed` | _posts/fix_img.py:106-111 | there is at most one pair per match, and the two sides of every pair differ |
| `ImageTags.PreviewConversions` | _posts/fix_img.py:101-113 | the loop returns exactly the pairs of the well-formed matches, in match order |
| `ImageTags.ImageWriteDecision` | _posts/fix_img.py:81-93 | a file is written only if it contains "{% img" and the new text differs from the old |
| `ImageTags.ConvertUnchangedIff` | _posts/fix_img.py:70 | the scan leaves the text unchanged if and only if no matched group is well formed |
| `ImageTags.UnchangedAtMatch` | _posts/fix_img.py:70 | from a match on, the text stays unchanged exactly when the group is malformed and the rest stays unchanged |
| `ImageTags.PreviewedEmptyIff` | _posts/fix_img.py:106-113 | the preview is empty if and only if no group is well formed |
| `ImageTags.FindAllMeansMarker` | _posts/fix_img.py:81 | if re.findall finds a tag, the text contains "{% img" |
| `ImageTags.ImageWriteIfChanged` | _posts/fix_img.py:81-89 | the "{% img" pre-check changes nothing: the file is written exactly when the conversion changes the text |
| `ImageTags.ChangedIffPreviewed` | _posts/fix_img.py:101-113 | the conversion changes the text if and only if preview_conversions reports a pair |
| `ImageTags.ImageWriteIffPreview` | _posts/fix_img.py:81-95 | process_file writes a file exactly when the preview for it is non-empty, and it writes the converted text |
| `CodeblockTags.IdentifiersAreNames` | _posts/fix_code.py:11-103 | every identifier either table produces is a non-empty run of lower-case letters |
| `CodeblockTags.LanguageMapping` | _posts/fix_code.py:11-47 | get_language_mapping: the table itself; `LanguageMappingKeys`, `LanguageMappingValues` and `CppKeyUnreachable` characterise it |
| `CodeblockTags.ExtensionMapping` | _posts/fix_code.py:49-103 | get_extension_mapping: the table itself; `ExtensionMappingValues`, `ExtensionMappingHasUpperR` and `UpperRUnreachable` characterise it |
| `CodeblockTags.LanguageMappingKeys` | _posts/fix_code.py:11-47 | every language name is non-empty and has no capital letter, so lower-casing the looked-up word never hides an entry |
| `CodeblockTags.LanguageMappingValues` | _posts/fix_code.py:11-47 | every value of the language table is a known identifier |
| `CodeblockTags.ExtensionMappingValues` | _posts/fix_code.py:49-103 | every value of the extension table is a known identifier |
| `CodeblockTags.ExtensionMappingHasUpperR` | _posts/fix_code.py:87-88 | the extension table has entries for both ".R" and ".r", both mapping to "r" |
| `CodeblockTags.WordRunLen` | _posts/fix_code.py:135 | `\w+` takes the whole run of word characters: all word characters before the returned length, and a non-word character or the end at it |
| `CodeblockTags.FirstExtensionHit` | _posts/fix_code.py:142-149 | the tag is the table value for the first word with a known extension. It is empty when no word has one, and otherwise a value of the extension table |
| `CodeblockTags.InferFromExtension` | _posts/fix_code.py:142-149 | the `for word in words` loop with `break` returns the first-hit tag |
| `CodeblockTags.LangTag` | _posts/fix_code.py:133-138 | the `lang:(\w+)` branch: the definition; `LangTagOfWord`, `LangTagIsWord` and `LangCppQuirk` characterise it |
| `CodeblockTags.ResolveLanguage` | _posts/fix_code.py:127-149 | the language choice in replace_match: the definition; `ResolveBlank`, `ResolveLangAfter`, `ResolveLangWord`, `ResolveLangNoWord`, `ResolveByExtension`, `ResolveLanguageIsWord` and `ResolveLanguageRange` characterise it |
| `CodeblockTags.ResolveBlank` | _posts/fix_code.py:129-130 | blank parameters give the empty tag |
| `CodeblockTags.BlankParamsFence` | _posts/fix_code.py:124-153 | with no or blank parameters, the output is three backticks, a newline, the trimmed body, a newline, three backticks |
| `CodeblockTags.LangTagOfWord` | _posts/fix_code.py:135-138 | the tag after `lang:` is the table entry for the lower-cased word run, or the lower-cased word itself when the table has no entry |
| `CodeblockTags.ResolveLangAfter` | _posts/fix_code.py:133-138 | parameters that trim to `lang:` + rest resolve from rest alone; extension inference is not attempted |
| `CodeblockTags.ResolveLangWord` | _posts/fix_code.py:133-138 | `lang:WORD...` resolves to the table entry for the lower-cased word, or to the lower-cased word when the table has none |
| `CodeblockTags.ResolveLangNoWord` | _posts/fix_code.py:133-138 | `lang:` followed by no word character gives the empty tag |
| `CodeblockTags.ResolveByExtension` | _posts/fix_code.py:139-149 | without `lang:`, the tag is the table value for the first word with a known extension, or empty when there is none |
| `CodeblockTags.ExtensionCaseInsensitive` | _posts/fix_code.py:146-147 | words that agree up to case have the same extension key, and either both have a known extension or neither does |
| `CodeblockTags.UpperRUnreachable` | _posts/fix_code.py:88 | the extension key is never ".R", so that table entry is never used |
| `CodeblockTags.CppKeyUnreachable` | _posts/fix_code.py:135-138 | the lower-cased `\w` run after `lang:` is never "c++", so that language entry is never used |
| `CodeblockTags.LangTagIsWord` | _posts/fix_code.py:135-138 | the tag after `lang:` is a word with no capital letter |
| `CodeblockTags.ResolveLanguageIsWord` | _posts/fix_code.py:127-149 | every resolved tag is a word with no capital letter |
| `CodeblockTags.ResolveLanguageRange` | _posts/fix_code.py:127-149 | the tag is empty, a value of the language table, a value of the extension table, or the lower-cased `lang:` word when the language table has no entry for it |
| `CodeblockTags.LangCppQuirk` | _posts/fix_code.py:135-138 | `lang:c++` (any `lang:c+...`) resolves to "c", because `\w+` stops at '+' |
| `CodeblockTags.ReadFence` | _posts/fix_code.py:153 | whatever the reader returns rebuilds the fenced block it read |
| `CodeblockTags.ReadFencedBlock` | _posts/fix_code.py:153 | a fenced block whose tag has no newline reads back as its tag and its text |
| `CodeblockTags.ReadFenceOfFence` | _posts/fix_code.py:119-153 | the resolved tag and the trimmed body can be read back from replace_match's output |
| `CodeblockTags.Fence` | _posts/fix_code.py:119-153 | replace_match's output: the definition; `ReadFenceOfFence` and `BlankParamsFence` characterise it |
| `CodeblockTags.CodeParamsEnd` | _posts/fix_code.py:117 | the lazy group ends at the first position where `\s*%}` matches (newlines included), and no earlier position matches |
| `CodeblockTags.CodeMatchAt` | _posts/fix_code.py:117 | a match lies after "{% codeblock", its "%}" precedes the body, and it ends just after "{% endcodeblock %}" |
| `CodeblockTags.CodeMatchAtSound` | _posts/fix_code.py:117 | every match the matcher returns is a reading of the pattern |
| `CodeblockTags.CodeMatchAtPreferred` | _posts/fix_code.py:117 | whenever the pattern can be read, the matcher matches. It returns the engine's preferred reading, whose body ends at the first "{% endcodeblock %}" |
| `CodeblockTags.ConvertFrom` | _posts/fix_code.py:156 | re.sub with DOTALL as a left-to-right scan: the definition; `CopiesRest`, `UnterminatedUnchanged`, `NoMarkerUnchanged`, `NoCloseUnchanged` and `CodeblockTagConverts` characterise it |
| `CodeblockTags.CopiesRest` | _posts/fix_code.py:156 | with no block from a position on, the rest of the text is copied unchanged |
| `CodeblockTags.UnterminatedUnchanged` | _posts/fix_code.py:117-156 | with no "{% endcodeblock %}" after a position, the text from there is unchanged |
| `CodeblockTags.NoMarkerUnchanged` | _posts/fix_code.py:156 | a text without "{% codeblock" is unchanged |
| `CodeblockTags.NoCloseUnchanged` | _posts/fix_code.py:117-156 | a text without "{% endcodeblock %}" is unchanged |
| `CodeblockTags.ConvertCodeblockTags` | _posts/fix_code.py:105-158 | convert_codeblock_tags leaves a text without "{% codeblock", or without "{% endcodeblock %}", unchanged |
| `CodeblockTags.CodeTagMatches` | _posts/fix_code.py:117 | a block written as "{% codeblock PARAMS %}BODY{% endcodeblock %}" is one match over the whole text, with PARAMS as group 1 and BODY as group 2, when PARAMS is empty or neither starts nor ends with whitespace nor holds "%}", and BODY holds no closing tag |
| `CodeblockTags.CodeblockTagConverts` | _posts/fix_code.py:117-156 | convert_codeblock_tags turns such a block into exactly replace_match's fence for PARAMS and BODY |
| `CodeblockTags.CodeblockWriteDecision` | _posts/fix_code.py:160-177 | a file is written exactly when it contains "{% codeblock", and it gets the converted text |
| `CodeblockTags.WritesUnchangedContent` | _posts/fix_code.py:166-177 | a file with "{% codeblock" but no closing tag is written back with its text unchanged |

## Left out

- `main()` in both scripts is not modelled: the directory check, the `glob` listing, the `input()` prompts, printing and counting. It is console glue.
- Reading and writing files, the UTF-8 encoding, and the `except Exception` handlers in `process_file` are not modelled. Each `process_file` is modelled as a function from the file's text to the text to write, or `None` for no write.
- Python's general `re` engine is not modelled. Only the two fixed patterns and `lang:(\w+)` are modelled, each by its own matcher.
- `\w`, `str.lower()` and the alignment-keyword comparison are modelled for ASCII only. Python applies Unicode rules to non-ASCII letters and digits. Whitespace follows the full `str.isspace` set.
- In the codeblock pattern, a group 1 that did not take part in the match (Python's `None`) is modelled as the empty string. Both make `if params:` false.
- The extension dictionary literal lists ".xml" twice with the same value. A Python dict keeps one entry, and the model's table, written as three displays joined by `+`, has the same single entry.
- `os.path` functions follow the POSIX flavour.
- Text.Split: the contract gives only that each part is a non-empty run without whitespace. `Text.SplitKeepsText` adds that the parts hold all the non-space characters in order. That the cut points are exactly the whitespace runs is not stated as a contract; `Text.SplitJoin` shows it for single-spaced text.
- Text.Strip: the contract does not say which part of the input remains. `Text.StripStart` and `Text.StripEnd` state this for each side.

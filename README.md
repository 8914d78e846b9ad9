# Markdown loader of the xqw blog, in Dafny

This project models `src/utils/markdownLoader.js`, the part of the blog that turns its Markdown
documents into article records and a category tree. It covers four pieces:

- **Article records.** `loadMarkdownFiles` keeps the `.md` files that have content. For each one it
  derives the category, title and id from the path under `../allDocuments/`, and it stores a
  shortened excerpt next to the raw content.
- **Excerpts.** `processExcerpt` drops `<img …>` tags and the Markdown markers `#*`_[]()`, then
  `truncateText` cuts the text to 100 code units and appends `...`.
- **Image paths.** `processHtmlImages` rewrites the relative `src` of `<img src="./…"` and
  `<img src="../…"` tags so that it points under `xqw-blog/src/assets/`.
- **Category tree.** `generateCategories` files every article under the node of its category path
  and creates the nodes on first use. `convertToTree` then re-indexes the articles of each root
  node by title; nodes below the roots are returned as built.

Strings are sequences of `char`s. For text in the Basic Multilingual Plane each `char` is one
UTF-16 code unit, as JavaScript's `length`, `substring` and regular expressions count them.

The regular expressions are written out as scanners:

- `\s` is the full ECMAScript whitespace and line-terminator set.
- `.` excludes the four line terminators.
- A lazy `.*?` stops at the first place where the rest of the pattern matches.
- A global `replace` tries the pattern at each index from left to right, and after a match it
  resumes at the match's end.

Modules:

- `Wrappers` holds the `Option` type.
- `JsText` holds the JavaScript string operations the loader uses: `split`, `join`,
  `startsWith`, `endsWith`, `indexOf`, and `replace` with a string pattern.
- `Excerpt` models lines 26-37.
- `HtmlImages` models lines 5-17.
- `Articles` models lines 39-90.
- `Categories` models lines 92-159.

The category tree is described twice:

- As the code builds it. `Descend` and `Updated` walk down a category path for one article,
  `AddArticle` handles one article, and `GenerateCategories` loops over the articles.
- Directly in terms of the article list. `SpecLevel` and `SpecNode` give, for each category path,
  the articles filed exactly there and the next segments in the order the articles first reach
  them.

`BuildMatchesSpec` proves that the two descriptions agree.

The code's `children` arrays are modelled faithfully:

- An article is `push`ed onto `children`, so it becomes an element of the array.
- A sub-category is stored on the same array as a named property (`currentLevel[part] = …`), so it
  is not an element.
- `convertToTree` tests `children.length` and `reduce`s over `children`, so it sees only the
  articles. A root node with articles of its own therefore loses its sub-categories in the
  returned tree, as `SubcategoryDroppedExample` shows.
- `convertToTree` maps only the root level, and its recursive call runs on the re-indexed
  articles, never on a sub-category. So nodes below the roots are returned as built and keep
  their sub-categories even when they hold articles.

## Model

| member | source | states |
|---|---|---|
| JsText.WhitespaceEnd | src/utils/markdownLoader.js:8 | a greedy `\s*` from `i` consumes exactly a maximal run of whitespace code units |
| JsText.Split | src/utils/markdownLoader.js:58 | `split('/')` gives at least one piece and no piece holds the separator |
| JsText.JoinSplit | src/utils/markdownLoader.js:58 | joining the pieces of `split` with the separator gives the string back |
| JsText.SplitJoin | src/utils/markdownLoader.js:67 | splitting a `join` of separator-free pieces gives the pieces back |
| JsText.SplitIsSingle | src/utils/markdownLoader.js:61 | a path splits into one piece exactly when it has no `/` |
| JsText.ReplaceFirst | src/utils/markdownLoader.js:15 | for every split `a + pattern + b` in which `a` holds no occurrence, `replace` gives `a + replacement + b`; text with no occurrence comes back unchanged |
| Excerpt.TruncateText | src/utils/markdownLoader.js:27-30 | text of at most `maxLength` units is returned unchanged; longer text becomes its first `maxLength` units followed by `...`; the result never exceeds `maxLength + 3` |
| Excerpt.TagClose | src/utils/markdownLoader.js:35 | the lazy `.*?\/?>` ends just after the first `>`, with no line terminator before it; it fails exactly when a line terminator precedes every `>` |
| Excerpt.ImgTagLength | src/utils/markdownLoader.js:35 | the length found is a match of `<img\s+.*?\/?>` at the head of the text (`ImgTagMatch`), and every such match is the one found: a `<img`, whitespace, then up to the first `>` with no line break |
| Excerpt.RemoveImgTags | src/utils/markdownLoader.js:35 | removing the image tags never lengthens the text, and the result is a subsequence of the input: code units are only dropped, and the rest keep their order |
| Excerpt.KeptPrefix | src/utils/markdownLoader.js:35 | text at which no match starts is kept as it is, whatever follows it, including any `<` that opens no tag |
| Excerpt.RemoveImgTagsSplice | src/utils/markdownLoader.js:35 | splitting a text at its first match: the text before it is kept, the matched tag is cut out, and the scan goes on after it, so `pre + tag + post` becomes `pre` followed by the result for `post` |
| Excerpt.RemoveImgTagsWithoutTags | src/utils/markdownLoader.js:35 | text with no `<img` is left unchanged |
| Excerpt.RemoveMarks | src/utils/markdownLoader.js:35 | no Markdown marker is left, every other code unit is kept as often as it occurred, and marker-free text is unchanged |
| Excerpt.RemoveMarksConcat | src/utils/markdownLoader.js:35 | marker removal distributes over concatenation, so the kept code units stay in their order |
| Excerpt.ProcessExcerpt | src/utils/markdownLoader.js:33-37 | the excerpt holds none of `#*`_[]()` and is at most 103 units long |
| Excerpt.PlainTextIsItsOwnExcerpt | src/utils/markdownLoader.js:33-37 | short text without image tags or markers is its own excerpt |
| HtmlImages.CloseQuote | src/utils/markdownLoader.js:8 | the lazy `.*?"\s+` closes at the first `"` followed by whitespace, with no line terminator before it; it fails exactly when a line terminator comes before any such `"` |
| HtmlImages.DotPrefixEnd | src/utils/markdownLoader.js:8 | `\.\.?\/` matches `../` when present and `./` otherwise |
| HtmlImages.MatchAtSound | src/utils/markdownLoader.js:8 | every match found satisfies all parts of `<img\s+src="(\.\.?\/.*?)"\s+`, with the path closed at the first `"` followed by whitespace |
| HtmlImages.MatchAtComplete | src/utils/markdownLoader.js:8 | every match of the pattern at the head of the text is the one found, so no match is reported only where the pattern cannot match |
| HtmlImages.MatchShape | src/utils/markdownLoader.js:8 | a match opens with `<img`, holds `src="./` or `src="../`, has its first `"` just before the captured path, and has no line break from `src` to the closing quote |
| HtmlImages.CapturedPathComesFirst | src/utils/markdownLoader.js:15 | the first occurrence of the captured path inside the matched text is the captured path itself |
| HtmlImages.ReplaceTag | src/utils/markdownLoader.js:15 | `match.replace(path, newPath)` changes only the captured path and keeps the rest of the matched text |
| HtmlImages.RelativeSourcesRewritten | src/utils/markdownLoader.js:10-14 | `../x` becomes `xqw-blog/src/assets/x` and `./x` becomes `xqw-blog/src/assets/./x`, so only one leading `..` is dropped |
| HtmlImages.NewPathShape | src/utils/markdownLoader.js:10-14 | a rewritten path starts with `x`, and it holds a `"` only if the captured path did |
| HtmlImages.NoMatchNoChange | src/utils/markdownLoader.js:6-17 | text in which the pattern matches nowhere comes back unchanged |
| HtmlImages.OtherSourcesUnchanged | src/utils/markdownLoader.js:6-17 | text without `src="./` and without `src="../` (absolute or `http` sources) comes back unchanged |
| HtmlImages.CopyUntil | src/utils/markdownLoader.js:8 | the code units before the first match are copied unchanged |
| HtmlImages.KeepsHead | src/utils/markdownLoader.js:8-15 | the output begins with the matched text up to the captured path, unchanged |
| HtmlImages.FailureIsLocal | src/utils/markdownLoader.js:8 | where the pattern fails, it also fails on any text that agrees up to the path of a later match |
| HtmlImages.FailureKept | src/utils/markdownLoader.js:8 | where no match starts at the head of the text, none starts at the head of the output: the first code unit followed by the rewritten rest |
| HtmlImages.RewrittenTagIsInert | src/utils/markdownLoader.js:8-15 | no match starts anywhere inside a rewritten tag when the captured path holds no `"` |
| HtmlImages.Idempotent | src/utils/markdownLoader.js:6-17 | running the rewriter twice gives the same text as running it once |
| Articles.RelativePath | src/utils/markdownLoader.js:55 | the `../allDocuments/` prefix is removed when present, and the path is kept otherwise |
| Articles.Title | src/utils/markdownLoader.js:72 | one trailing `.md` is removed when present |
| Articles.RootFile | src/utils/markdownLoader.js:61-64 | a file directly under the documents root is filed under `未分类` with its whole name |
| Articles.NestedFile | src/utils/markdownLoader.js:65-69 | for a nested file, category `/` file name gives the relative path back, and the file name has no `/` |
| Articles.CategorySegments | src/utils/markdownLoader.js:67 | the category of a nested file splits back into its directory segments |
| Articles.ArticleFields | src/utils/markdownLoader.js:55-85 | the id is category `-` title, the date and author are the fixed constants, the content is raw, the excerpt is short, and category and title give the path back |
| Articles.OneDirectoryDeep | src/utils/markdownLoader.js:54-79 | `../allDocuments/<dir>/<name>.md` gets category `<dir>`, title `<name>` and id `<dir>-<name>` |
| Articles.KeptIndicesExact | src/utils/markdownLoader.js:47-86 | exactly the files that end in `.md` and have non-empty content are kept, each once, in enumeration order |
| Articles.LoadMarkdownFiles | src/utils/markdownLoader.js:39-90 | the k-th article is the record of the k-th kept file |
| Categories.Find | src/utils/markdownLoader.js:122 | a lookup by name finds a node with that name, or reports that the level has none |
| Categories.FindLeaf | src/utils/markdownLoader.js:150 | a lookup by title finds an entry with that title, or reports that there is none |
| Categories.UncategorizedBranchAgrees | src/utils/markdownLoader.js:100-140 | the `未分类` branch does what the general walk does for the one-segment path `未分类` |
| Categories.UpdatedSpec | src/utils/markdownLoader.js:130-139 | at the last segment the article entry is pushed, and above it the walk continues into the node's children, giving the node of the longer article list |
| Categories.DescendSpec | src/utils/markdownLoader.js:121-140 | the walk along an article's path turns each level into the level of the article list with that article appended |
| Categories.BuildMatchesSpec | src/utils/markdownLoader.js:98-142 | the tree built article by article equals the declarative tree |
| Categories.GenerateCategories | src/utils/markdownLoader.js:93-159 | the returned tree is the converted declarative tree of the articles |
| Categories.FiledInLeaves | src/utils/markdownLoader.js:130-137 | every article's entry is among the entries of its own category path |
| Categories.EveryArticleFiled | src/utils/markdownLoader.js:121-137 | following the category's segments from the root of the built tree reaches a node whose href links to the category and whose children hold the article's entry |
| Categories.IndexByNameSpec | src/utils/markdownLoader.js:149-152 | the reduce keeps one entry per title, in first-seen order, and each is the last entry with that title |
| Categories.TreeShape | src/utils/markdownLoader.js:145-158 | the roots are the distinct first segments of the articles' category paths, in first-seen order, each with href `#category/<segment>`; a root with articles of its own keeps only those, indexed by title; a root without them keeps its sub-categories as built |
| Categories.SubcategoryBuilt | src/utils/markdownLoader.js:121-139 | with one article filed in `x` and one in `x/y`, the declarative level under `x` holds exactly one node: sub-categories exist before conversion |
| Categories.SubcategoryDroppedExample | src/utils/markdownLoader.js:145-156 | with the same two articles, the returned tree shows `x` with only its own article and no sub-category |

## Left out

- File discovery through `import.meta.glob` (line 41) is a bundler feature, so `LoadMarkdownFiles` takes the list of `(path, content)` pairs in enumeration order as its parameter. The `async` wrapper has nothing to await and is modelled as an ordinary call.
- `htmlToPlainText` (lines 20-24) needs a DOM and is never called; the `lodash` import (line 2) is unused.
- `loadMarkdownFiles` never calls `processHtmlImages`: content is stored raw. The two are modelled separately, as in the code.
- HtmlImages.ReplaceTag: the new path is inserted literally. The `$&`, `$1` and similar replacement patterns that `String.prototype.replace` would expand in it are not modelled.
- HtmlImages.Idempotent: proved only for text whose captured paths hold no `"`. A `"` inside a path can leave a later match after rewriting.
- The `icon` fields (lines 106, 113, 126, 135) are display constants and are not part of the node datatypes.
- Category names, and article titles as the keys of the `reduce` at lines 149-150, are assumed not to be integer-like (such as `2024` or `0`) and not to be property names that arrays or objects inherit (`length`, `constructor`, `__proto__`). JavaScript orders integer-like keys first in `Object.values`, stores an index-like name as an array element, finds an inherited name on lookup, and treats `__proto__` as a prototype setter; none of this is modelled. `Categories.IndexByName`, `Categories.IndexByNameSpec` and `Categories.TreeShape` rely on this for titles.
- The category walk updates nested objects in place through the `currentLevel` alias. The model rebuilds the path as values (`Descend` and `Updated`), which yields the same tree but does not capture object identity or the in-place mutation by `convertToTree` at line 149.
- Excerpt.TruncateText and Excerpt.ProcessExcerpt count `char`s, which agree with JavaScript's UTF-16 code units only for text in the Basic Multilingual Plane. A character outside it (an emoji, say) is one `char` here but two code units in JavaScript, so such text is counted and cut at a different place, and the lone surrogate that `substring` can leave at the cut cannot be represented.
- `src/utils/codeCopyPlugin.js`, `src/router/index.js`, `src/main.js` and `vite.config.js` are not part of this model: they are DOM handling, routing and build configuration.

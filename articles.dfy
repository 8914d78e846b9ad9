/** The article records that `loadMarkdownFiles` of
    src/utils/markdownLoader.js (lines 39-90) builds from the Markdown files
    under `../allDocuments/`: where the category, title and id come from,
    which files are kept, and in which order. */
module Articles {
  import opened JsText
  import Excerpt

  /** The directory prefix of every loaded file path. */
  const DocumentsRoot := "../allDocuments/"
  /** The category of a file that sits directly in the documents root. */
  const Uncategorized := "未分类"
  const MarkdownSuffix := ".md"
  const FixedDate := "2025-11-17"
  const DefaultAuthor := "博主"

  datatype Article = Article(
    id: string,
    title: string,
    date: string,
    author: string,
    category: string,
    excerpt: string,
    content: string)

  /** `filePath.replace(/^\.\.\/allDocuments\//, '')` */
  function RelativePath(filePath: string): (r: string)
    ensures StartsWith(filePath, DocumentsRoot) ==> DocumentsRoot + r == filePath
    ensures !StartsWith(filePath, DocumentsRoot) ==> r == filePath
  {
    if StartsWith(filePath, DocumentsRoot) then filePath[|DocumentsRoot|..] else filePath
  }

  /** The category and the file name of a path relative to the documents
      root: a file without a directory is uncategorized, otherwise the
      whole directory path is the category. */
  function CategoryAndFile(rel: string): (string, string) {
    var parts := Split(rel, '/');
    if |parts| == 1 then (Uncategorized, parts[0])
    else (Join(parts[..|parts| - 1], "/"), parts[|parts| - 1])
  }

  /** `filename.replace(/\.md$/, '')` */
  function Title(filename: string): (r: string)
    ensures EndsWith(filename, MarkdownSuffix) ==> r + MarkdownSuffix == filename
    ensures !EndsWith(filename, MarkdownSuffix) ==> r == filename
  {
    if EndsWith(filename, MarkdownSuffix) then filename[..|filename| - |MarkdownSuffix|] else filename
  }

  /** The record pushed for one file. */
  function ArticleOf(filePath: string, content: string): Article {
    var (category, filename) := CategoryAndFile(RelativePath(filePath));
    var title := Title(filename);
    Article(category + "-" + title, title, FixedDate, DefaultAuthor, category,
            Excerpt.ProcessExcerpt(content), content)
  }

  /** A file is kept when its path ends in `.md` and its content is not
      empty (the empty string is falsy). */
  predicate Accepted(filePath: string, content: string) {
    EndsWith(filePath, MarkdownSuffix) && content != ""
  }

  /** The positions of the kept files, in iteration order. */
  function KeptIndices(files: seq<(string, string)>): seq<nat>
    decreases |files|
  {
    if files == [] then []
    else
      var n := |files| - 1;
      KeptIndices(files[..n]) + (if Accepted(files[n].0, files[n].1) then [n] else [])
  }

  /** `loadMarkdownFiles`: `files` lists the path and raw content of every
      file the glob yields, in the order `for...in` visits them. One record
      is pushed per kept file. */
  method LoadMarkdownFiles(files: seq<(string, string)>) returns (articles: seq<Article>)
    ensures |articles| == |KeptIndices(files)|
    ensures forall k :: 0 <= k < |articles| ==>
              var i := KeptIndices(files)[k];
              i < |files| && articles[k] == ArticleOf(files[i].0, files[i].1)
  {
    articles := [];
    var i := 0;
    while i < |files|
      invariant 0 <= i <= |files|
      invariant |articles| == |KeptIndices(files[..i])|
      invariant forall k :: 0 <= k < |articles| ==>
                  var j := KeptIndices(files[..i])[k];
                  j < i && articles[k] == ArticleOf(files[j].0, files[j].1)
    {
      var (filePath, content) := files[i];
      assert files[..i + 1][..i] == files[..i];
      if !EndsWith(filePath, MarkdownSuffix) {
        i := i + 1;
        continue;
      }
      if content != "" {
        articles := articles + [ArticleOf(filePath, content)];
      }
      i := i + 1;
    }
    assert files[..i] == files;
  }

  /** Exactly the accepted files are kept, each once, in their order. */
  lemma {:induction false} KeptIndicesExact(files: seq<(string, string)>)
    ensures forall k :: 0 <= k < |KeptIndices(files)| ==> KeptIndices(files)[k] < |files|
    ensures forall i :: 0 <= i < |files| ==>
              (i in KeptIndices(files) <==> Accepted(files[i].0, files[i].1))
    ensures forall k, l :: 0 <= k < l < |KeptIndices(files)| ==>
              KeptIndices(files)[k] < KeptIndices(files)[l]
    decreases |files|
  {
    if files != [] {
      var n := |files| - 1;
      KeptIndicesExact(files[..n]);
      forall i | 0 <= i < n
        ensures files[..n][i] == files[i]
      {
      }
    }
  }

  /** A file directly in the documents root is uncategorized and keeps its
      whole name. */
  lemma RootFile(rel: string)
    requires '/' !in rel
    ensures CategoryAndFile(rel) == (Uncategorized, rel)
  {
    SplitWithoutSeparator(rel, '/');
  }

  /** A file in a directory: the category is the directory path, the file
      name is the last segment, and the two joined by `/` give the relative
      path back. */
  lemma NestedFile(rel: string)
    requires '/' in rel
    ensures var (category, filename) := CategoryAndFile(rel);
            category + "/" + filename == rel && '/' !in filename
  {
    var parts := Split(rel, '/');
    SplitIsSingle(rel, '/');
    JoinSplit(rel, '/');
    JoinLast(parts, "/");
  }

  /** The category of a nested file splits back into its directories. */
  lemma {:induction false} CategorySegments(rel: string)
    requires '/' in rel
    ensures Split(CategoryAndFile(rel).0, '/') == Split(rel, '/')[..|Split(rel, '/')| - 1]
  {
    var parts := Split(rel, '/');
    SplitIsSingle(rel, '/');
    DirectoriesRejoin(parts, parts[..|parts| - 1]);
  }

  /** The directory pieces of a split path are separator-free, so they split back. */
  lemma DirectoriesRejoin(parts: seq<string>, dirs: seq<string>)
    requires |parts| >= 2 && dirs == parts[..|parts| - 1]
    requires forall i :: 0 <= i < |parts| ==> '/' !in parts[i]
    ensures Split(Join(dirs, "/"), '/') == dirs
  {
    assert forall i :: 0 <= i < |dirs| ==> dirs[i] == parts[i];
    SplitJoin(dirs, '/');
  }

  /** The file name of a `.md` path ends in `.md` too. */
  lemma FileNameSuffix(rel: string)
    requires '/' in rel && EndsWith(rel, MarkdownSuffix)
    ensures EndsWith(CategoryAndFile(rel).1, MarkdownSuffix)
  {
    var (category, filename) := CategoryAndFile(rel);
    NestedFile(rel);
    var l := |rel|;
    forall k | l - 3 <= k < l
      ensures rel[k] != '/'
    {
      assert rel[k] == rel[l - 3..][k - (l - 3)];
    }
    assert rel[|category|] == '/';
    assert filename == rel[|category| + 1..];
    assert filename[|filename| - 3..] == rel[l - 3..];
  }

  /** Under the documents root, the relative path is what follows the root. */
  lemma RelativeToRoot(rel: string)
    ensures RelativePath(DocumentsRoot + rel) == rel
  {
    var path := DocumentsRoot + rel;
    assert path[..|DocumentsRoot|] == DocumentsRoot;
  }

  /** For a kept file under the documents root, the record's category and
      title give its path back, and the id joins them with `-`. */
  lemma ArticleFields(rel: string, content: string)
    requires EndsWith(rel, MarkdownSuffix)
    ensures var a := ArticleOf(DocumentsRoot + rel, content);
            && a.id == a.category + "-" + a.title
            && a.date == FixedDate && a.author == DefaultAuthor
            && a.content == content
            && |a.excerpt| <= Excerpt.MaxExcerptLength + |Excerpt.Ellipsis|
            && ('/' !in rel ==> a.category == Uncategorized && a.title + MarkdownSuffix == rel)
            && ('/' in rel ==> a.category + "/" + a.title + MarkdownSuffix == rel && '/' !in a.title)
  {
    RelativeToRoot(rel);
    if '/' in rel {
      NestedFile(rel);
      FileNameSuffix(rel);
    } else {
      RootFile(rel);
    }
  }

  /** A file one directory deep, such as `../allDocuments/工作总结/x.md`, is
      filed under that directory's name, with the file name less `.md` as
      its title. */
  lemma OneDirectoryDeep(dir: string, name: string, content: string)
    requires '/' !in dir && '/' !in name && EndsWith(name, MarkdownSuffix)
    ensures var a := ArticleOf(DocumentsRoot + dir + "/" + name, content);
            a.category == dir && a.title + MarkdownSuffix == name && a.id == dir + "-" + a.title
  {
    var rel := dir + "/" + name;
    assert DocumentsRoot + dir + "/" + name == DocumentsRoot + rel;
    RelativeToRoot(rel);
    SplitAtFirstSeparator(dir, name, '/');
    SplitWithoutSeparator(name, '/');
    assert Split(rel, '/') == [dir, name];
    assert [dir, name][..1] == [dir];
  }
}

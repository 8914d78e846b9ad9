/** The image-path rewriter of src/utils/markdownLoader.js,
    `processHtmlImages` (lines 5-17): every match of
    `<img\s+src="(\.\.?\/.*?)"\s+` gets its captured path rewritten under
    `xqw-blog/src/assets/`. */
module HtmlImages {
  import opened Wrappers
  import opened JsText

  const AssetsPrefix := "xqw-blog/src/assets/"

  /** A match at the start of a text `t`: the match is `t[..end]` and the
      captured path is `t[pathStart..pathEnd]`. */
  datatype SrcMatch = SrcMatch(pathStart: nat, pathEnd: nat, end: nat)

  /** What the scan of the lazy `.*?"\s+` found from some index on. */
  datatype CloseScan = Closed(quote: nat) | Broken(at: nat) | Unclosed

  /** A `"` followed by at least one whitespace code unit stands at `k`. */
  predicate QuoteThenSpace(t: string, k: nat) {
    k + 1 < |t| && t[k] == '"' && IsWhitespace(t[k + 1])
  }

  /** The lazy `.*?` followed by `"\s+`, from index `j`: the first `"` that
      is followed by whitespace closes the path, unless a line terminator
      (which `.` does not match) comes first. */
  function CloseQuote(t: string, j: nat): (r: CloseScan)
    requires j <= |t|
    ensures r.Closed? ==> j <= r.quote && QuoteThenSpace(t, r.quote)
    ensures r.Closed? ==> forall k :: j <= k < r.quote ==> !IsLineTerminator(t[k]) && !QuoteThenSpace(t, k)
    ensures r.Broken? ==> j <= r.at < |t| && IsLineTerminator(t[r.at])
    ensures r.Broken? ==> forall k :: j <= k < r.at ==> !IsLineTerminator(t[k]) && !QuoteThenSpace(t, k)
    ensures r.Unclosed? ==> forall k :: j <= k < |t| ==> !IsLineTerminator(t[k]) && !QuoteThenSpace(t, k)
    decreases |t| - j
  {
    if j == |t| then Unclosed
    else if QuoteThenSpace(t, j) then Closed(j)
    else if IsLineTerminator(t[j]) then Broken(j)
    else CloseQuote(t, j + 1)
  }

  /** `\.\.?\/` at index `c`: where the rest of the path begins. The only
      way to match is `../` when it is there and `./` otherwise. */
  function DotPrefixEnd(t: string, c: nat): (r: Option<nat>)
    ensures r.Some? ==> (r.value == c + 3 && HasAt(t, c, "../")) || (r.value == c + 2 && HasAt(t, c, "./"))
    ensures r.None? ==> !HasAt(t, c, "../") && !HasAt(t, c, "./")
  {
    if HasAt(t, c, "../") then Some(c + 3)
    else if HasAt(t, c, "./") then Some(c + 2)
    else None
  }

  /** Everything a match of the regular expression at the start of `t`
      consists of. */
  ghost predicate ValidMatch(t: string, m: SrcMatch) {
    && HasAt(t, 0, "<img")
    && 10 <= m.pathStart && m.pathStart + 2 <= m.pathEnd && m.pathEnd + 2 <= m.end <= |t|
    && (forall k :: 4 <= k < m.pathStart - 5 ==> IsWhitespace(t[k]))
    && IsWhitespace(t[4])
    && HasAt(t, m.pathStart - 5, "src=\"")
    && (HasAt(t, m.pathStart, "./") || HasAt(t, m.pathStart, "../"))
    && (forall k :: m.pathStart <= k < m.pathEnd ==> !IsLineTerminator(t[k]) && !QuoteThenSpace(t, k))
    && QuoteThenSpace(t, m.pathEnd)
    && (forall k :: m.pathEnd + 1 <= k < m.end ==> IsWhitespace(t[k]))
    && (m.end < |t| ==> !IsWhitespace(t[m.end]))
  }

  /** The regular expression `<img\s+src="(\.\.?\/.*?)"\s+` tried at the
      start of `t`. The greedy `\s+` before `src` cannot give anything back
      (`s` is not whitespace), and the trailing `\s+` takes the whole run. */
  function MatchAt(t: string): Option<SrcMatch> {
    if !HasAt(t, 0, "<img") then None
    else
      var e := WhitespaceEnd(t, 4);
      if e == 4 || !HasAt(t, e, "src=\"") then None
      else
        var c := e + 5;
        match DotPrefixEnd(t, c)
        case None => None
        case Some(d) =>
          match CloseQuote(t, d)
          case Closed(q) => Some(SrcMatch(c, q, WhitespaceEnd(t, q + 1)))
          case _ => None
  }

  /** Every match the expression finds is a valid match. */
  lemma MatchAtSound(t: string)
    ensures MatchAt(t).Some? ==> ValidMatch(t, MatchAt(t).value)
  {
    if MatchAt(t).Some? {
      var e := WhitespaceEnd(t, 4);
      var d := DotPrefixEnd(t, e + 5).value;
      ClosedMatchValid(t, e, d, CloseQuote(t, d).quote);
    }
  }

  /** The stages of a successful match make up a valid match. */
  lemma ClosedMatchValid(t: string, e: nat, d: nat, q: nat)
    requires HasAt(t, 0, "<img") && e == WhitespaceEnd(t, 4) && e != 4
    requires HasAt(t, e, "src=\"") && DotPrefixEnd(t, e + 5) == Some(d)
    requires CloseQuote(t, d) == Closed(q)
    ensures ValidMatch(t, SrcMatch(e + 5, q, WhitespaceEnd(t, q + 1)))
  {
    DotsNoBreak(t, e + 5, d);
  }

  /** Every valid match at the start of `t` is the one the expression
      finds: the greedy `\s+` runs are maximal, `\.\.?\/` takes `../`
      when it can, and the path ends at the first `"` followed by
      whitespace. So there is at most one valid match, and `MatchAt` finds
      it. */
  lemma MatchAtComplete(t: string, m: SrcMatch)
    requires ValidMatch(t, m)
    ensures MatchAt(t) == Some(m)
  {
    ValidRuns(t, m);
    var d := ValidPath(t, m);
    StagesGiveMatch(t, m, d);
  }

  /** The stages of a match, each found where `m` puts it, give `m`. */
  lemma StagesGiveMatch(t: string, m: SrcMatch, d: nat)
    requires HasAt(t, 0, "<img") && 10 <= m.pathStart && WhitespaceEnd(t, 4) == m.pathStart - 5 != 4
    requires HasAt(t, m.pathStart - 5, "src=\"") && DotPrefixEnd(t, m.pathStart) == Some(d)
    requires CloseQuote(t, d) == Closed(m.pathEnd) && WhitespaceEnd(t, m.pathEnd + 1) == m.end
    ensures MatchAt(t) == Some(m)
  {
    MatchFromStages(t, m.pathStart - 5, d, m.pathEnd);
  }

  /** The two whitespace runs of a valid match are maximal. */
  lemma ValidRuns(t: string, m: SrcMatch)
    requires ValidMatch(t, m)
    ensures WhitespaceEnd(t, 4) == m.pathStart - 5 != 4
    ensures WhitespaceEnd(t, m.pathEnd + 1) == m.end
  {
    assert t[m.pathStart - 5] == "src=\""[0];
    RunEnd(t, 4, m.pathStart - 5);
    RunEnd(t, m.pathEnd + 1, m.end);
  }

  /** The dots of a valid match and its closing quote are the ones the
      expression takes. */
  lemma ValidPath(t: string, m: SrcMatch) returns (d: nat)
    requires ValidMatch(t, m)
    ensures DotPrefixEnd(t, m.pathStart) == Some(d)
    ensures CloseQuote(t, d) == Closed(m.pathEnd)
  {
    var c := m.pathStart;
    d := DotPrefixEnd(t, c).value;
    if d == c + 3 {
      assert t[c + 2] == "../"[2];
    }
    CloseQuoteFinds(t, d, m.pathEnd);
  }

  /** The stages of the expression, once each is known, give `MatchAt`. */
  lemma MatchFromStages(t: string, e: nat, d: nat, q: nat)
    requires HasAt(t, 0, "<img") && e == WhitespaceEnd(t, 4) && e != 4
    requires HasAt(t, e, "src=\"") && DotPrefixEnd(t, e + 5) == Some(d)
    requires CloseQuote(t, d) == Closed(q)
    ensures MatchAt(t) == Some(SrcMatch(e + 5, q, WhitespaceEnd(t, q + 1)))
  {
  }

  /** A run of whitespace that ends at `x` before a non-whitespace code
      unit (or the end of the text) is what a greedy `\s*` takes. */
  lemma RunEnd(t: string, i: nat, x: nat)
    requires i <= x <= |t|
    requires forall k :: i <= k < x ==> IsWhitespace(t[k])
    requires x < |t| ==> !IsWhitespace(t[x])
    ensures WhitespaceEnd(t, i) == x
  {
  }

  /** The scan for the closing quote stops at the first `"` followed by
      whitespace when no line terminator comes before it. */
  lemma {:induction false} CloseQuoteFinds(t: string, d: nat, q: nat)
    requires d <= q && QuoteThenSpace(t, q)
    requires forall k :: d <= k < q ==> !IsLineTerminator(t[k]) && !QuoteThenSpace(t, k)
    ensures CloseQuote(t, d) == Closed(q)
    decreases q - d
  {
    if d < q {
      CloseQuoteFinds(t, d + 1, q);
    }
  }

  /** The `./` or `../` of a path holds no line terminator and no `"`. */
  lemma DotsNoBreak(t: string, c: nat, d: nat)
    requires DotPrefixEnd(t, c) == Some(d)
    ensures forall k :: c <= k < d ==> !IsLineTerminator(t[k]) && t[k] != '"'
  {
    forall k | c <= k < d
      ensures !IsLineTerminator(t[k]) && t[k] != '"'
    {
      assert t[k] == t[c..d][k - c];
    }
  }

  /** `path.replace(/^\.\.\/?/, '')`: a leading `..` and the `/` after it,
      if any, are dropped. A single dot is not matched. */
  function StripParent(path: string): string {
    if HasAt(path, 0, "..") then (if HasAt(path, 2, "/") then path[3..] else path[2..])
    else path
  }

  /** The callback's `newPath` (lines 10-14). */
  function NewPath(path: string): string {
    if HasAt(path, 0, "./") || HasAt(path, 0, "../") then AssetsPrefix + StripParent(path)
    else path
  }

  /** `match.replace(path, newPath)` (line 15): the first occurrence of the
      captured path inside the matched text is the captured path itself,
      so only the path changes. */
  function ReplaceTag(t: string, m: SrcMatch): (r: string)
    requires MatchAt(t) == Some(m)
    ensures r == t[..m.pathStart] + NewPath(t[m.pathStart..m.pathEnd]) + t[m.pathEnd..m.end]
  {
    MatchAtSound(t);
    var tag := t[..m.end];
    var path := t[m.pathStart..m.pathEnd];
    TagSplice(t, m, tag, path, NewPath(path));
    ReplaceFirst(tag, path, NewPath(path))
  }

  /** Replacing the first occurrence of the captured path in the matched
      text replaces the capture itself. */
  lemma TagSplice(t: string, m: SrcMatch, tag: string, path: string, rep: string)
    requires ValidMatch(t, m) && tag == t[..m.end] && path == t[m.pathStart..m.pathEnd]
    ensures ReplaceFirst(tag, path, rep) == t[..m.pathStart] + rep + t[m.pathEnd..m.end]
  {
    CapturedPathComesFirst(t, m);
    assert tag[..m.pathStart] == t[..m.pathStart];
    assert tag[m.pathStart + |path|..] == t[m.pathEnd..m.end];
  }

  lemma CapturedPathComesFirst(t: string, m: SrcMatch)
    requires ValidMatch(t, m)
    ensures IndexOf(t[..m.end], t[m.pathStart..m.pathEnd]) == Some(m.pathStart)
  {
    var path := t[m.pathStart..m.pathEnd];
    var whole := t[..m.end];
    SliceOfPrefix(t, m.end, m.pathStart, m.pathEnd);
    MatchHead(t, m, m.pathStart);
    assert path[0] == t[m.pathStart];
    forall j | 0 <= j < m.pathStart
      ensures !HasAt(whole, j, path)
    {
      MatchHead(t, m, j);
    }
  }

  /** What stands in the fixed part of a match, before and at the start
      of its path: `<` only at 0, `"` only just before the path, `.` first
      at the path, and no line terminator after the whitespace. */
  lemma MatchHead(t: string, m: SrcMatch, j: nat)
    requires ValidMatch(t, m) && j <= m.pathStart + 1
    ensures j == 0 <==> t[j] == '<'
    ensures j == m.pathStart - 1 <==> (j < m.pathStart && t[j] == '"')
    ensures j < m.pathStart ==> t[j] != '.'
    ensures j == m.pathStart ==> t[j] == '.'
    ensures j == m.pathStart + 1 ==> t[j] == '.' || t[j] == '/'
    ensures m.pathStart - 5 <= j ==> !IsLineTerminator(t[j])
  {
    if j < 4 {
      assert t[..4][j] == "<img"[j];
    } else if j < m.pathStart - 5 {
      assert IsWhitespace(t[j]);
    } else if j < m.pathStart {
      assert t[m.pathStart - 5..m.pathStart][j - (m.pathStart - 5)] == "src=\""[j - (m.pathStart - 5)];
    } else if HasAt(t, m.pathStart, "./") {
      assert t[m.pathStart..m.pathStart + 2][j - m.pathStart] == "./"[j - m.pathStart];
    } else {
      assert t[m.pathStart..m.pathStart + 3][j - m.pathStart] == "../"[j - m.pathStart];
    }
  }

  /** `htmlContent.replace(/<img\s+src="(\.\.?\/.*?)"\s+/g, callback)`:
      scanning left to right, each match is replaced by the callback's
      result and the scan resumes after it; every other code unit is kept.
      The expression has no anchor and no look-behind, so trying it at an
      index of the text is trying it at the start of the rest. */
  function ProcessHtmlImages(s: string): (r: string)
    decreases |s|
  {
    if s == [] then []
    else match MatchAt(s)
      case Some(m) =>
        MatchAtSound(s);
        ReplaceTag(s, m) + ProcessHtmlImages(s[m.end..])
      case None => [s[0]] + ProcessHtmlImages(s[1..])
  }

  /** The callback's rewriting of the two kinds of relative source: only
      one leading `..` (with its `/`) is dropped, and a leading `./` stays,
      so `../../x` becomes `xqw-blog/src/assets/../x` and `./x` becomes
      `xqw-blog/src/assets/./x`. */
  lemma RelativeSourcesRewritten(x: string)
    ensures NewPath("../" + x) == AssetsPrefix + x
    ensures NewPath("./" + x) == AssetsPrefix + "./" + x
  {
    assert HasAt("../" + x, 0, "../") && HasAt("../" + x, 2, "/");
    assert ("../" + x)[3..] == x;
    assert HasAt("./" + x, 0, "./") && !HasAt("./" + x, 0, "..");
  }

  /** A rewritten path starts with the `x` of `xqw-blog`, and it holds a `"`
      only if the captured path did. */
  lemma NewPathShape(path: string)
    requires HasAt(path, 0, "./") || HasAt(path, 0, "../")
    ensures |NewPath(path)| > 0 && NewPath(path)[0] == 'x'
    ensures (forall j :: 0 <= j < |path| ==> path[j] != '"') ==>
              forall j :: 0 <= j < |NewPath(path)| ==> NewPath(path)[j] != '"'
  {
    var rest := StripParent(path);
    assert NewPath(path) == AssetsPrefix + rest;
    assert rest == path[|path| - |rest|..];
    forall j | 0 <= j < |NewPath(path)|
      ensures (forall j :: 0 <= j < |path| ==> path[j] != '"') ==> NewPath(path)[j] != '"'
    {
      if j >= |AssetsPrefix| {
        assert NewPath(path)[j] == path[|path| - |rest| + j - |AssetsPrefix|];
      }
    }
  }

  /** The `src="` of a match is followed by `./` or `../`. */
  lemma MatchedSource(t: string, m: SrcMatch)
    requires ValidMatch(t, m)
    ensures HasAt(t, m.pathStart - 5, "src=\"./") || HasAt(t, m.pathStart - 5, "src=\"../")
  {
    var at := m.pathStart - 5;
    if HasAt(t, m.pathStart, "./") {
      HasAtConcat(t, at, "src=\"", "./");
      assert "src=\"" + "./" == "src=\"./";
    } else {
      HasAtConcat(t, at, "src=\"", "../");
      assert "src=\"" + "../" == "src=\"../";
    }
  }

  /** Where `<` and `"` can and cannot stand in a match. */
  lemma MatchedMarks(t: string, m: SrcMatch)
    requires ValidMatch(t, m)
    ensures t[0] == '<' && t[m.pathStart - 1] == '"' && t[m.pathStart] == '.'
    ensures forall j :: 1 <= j < m.pathStart + 2 ==> t[j] != '<'
    ensures forall j :: 0 <= j < m.pathStart - 1 ==> t[j] != '"'
  {
    MatchHead(t, m, 0);
    MatchHead(t, m, m.pathStart - 1);
    MatchHead(t, m, m.pathStart);
    forall j | 1 <= j < m.pathStart + 2
      ensures t[j] != '<'
    {
      MatchHead(t, m, j);
    }
    forall j | 0 <= j < m.pathStart - 1
      ensures t[j] != '"'
    {
      MatchHead(t, m, j);
    }
  }

  /** A match holds no line terminator from its `src` to its closing quote. */
  lemma MatchedLine(t: string, m: SrcMatch)
    requires ValidMatch(t, m)
    ensures forall j :: m.pathStart - 5 <= j < m.pathEnd ==> !IsLineTerminator(t[j])
  {
    forall j | m.pathStart - 5 <= j < m.pathEnd
      ensures !IsLineTerminator(t[j])
    {
      if j <= m.pathStart + 1 {
        MatchHead(t, m, j);
      }
    }
  }

  /** What any match looks like, as facts a caller can use to rule one out:
      it opens with `<img`, its `src="` is followed by `./` or `../`, the
      first `"` stands just before the path, and the path starts with `.`. */
  lemma MatchShape(t: string)
    ensures MatchAt(t).Some? ==>
              var m := MatchAt(t).value;
              && ValidMatch(t, m)
              && t[0] == '<'
              && t[m.pathStart - 1] == '"' && t[m.pathStart] == '.'
              && (HasAt(t, m.pathStart - 5, "src=\"./") || HasAt(t, m.pathStart - 5, "src=\"../"))
              && (forall j :: 1 <= j < m.pathStart + 2 ==> t[j] != '<')
              && (forall j :: 0 <= j < m.pathStart - 1 ==> t[j] != '"')
              && (forall j :: m.pathStart - 5 <= j < m.pathEnd ==> !IsLineTerminator(t[j]))
  {
    if MatchAt(t).Some? {
      MatchAtSound(t);
      MatchedFacts(t, MatchAt(t).value);
    }
  }

  lemma MatchedFacts(t: string, m: SrcMatch)
    requires ValidMatch(t, m)
    ensures t[0] == '<'
    ensures t[m.pathStart - 1] == '"' && t[m.pathStart] == '.'
    ensures HasAt(t, m.pathStart - 5, "src=\"./") || HasAt(t, m.pathStart - 5, "src=\"../")
    ensures forall j :: 1 <= j < m.pathStart + 2 ==> t[j] != '<'
    ensures forall j :: 0 <= j < m.pathStart - 1 ==> t[j] != '"'
    ensures forall j :: m.pathStart - 5 <= j < m.pathEnd ==> !IsLineTerminator(t[j])
  {
    MatchedSource(t, m);
    MatchedMarks(t, m);
    MatchedLine(t, m);
  }

  /** No match can start where there is no `<`. */
  lemma NoMatchWithoutOpen(t: string)
    requires |t| == 0 || t[0] != '<'
    ensures MatchAt(t).None?
  {
    MatchShape(t);
  }

  /** No match can start before a `"` that is not followed by `.` when no
      `"` comes earlier. */
  lemma NoMatchBeforeBareQuote(t: string, k: nat)
    requires k + 1 < |t| && t[k] == '"' && t[k + 1] != '.'
    requires forall j :: 0 <= j < k ==> t[j] != '"'
    ensures MatchAt(t).None?
  {
    MatchShape(t);
  }

  /** Where no match starts, the code unit is copied. */
  lemma CopyOne(u: string)
    requires u != [] && MatchAt(u).None?
    ensures ProcessHtmlImages(u) == [u[0]] + ProcessHtmlImages(u[1..])
  {
  }

  /** No match starts at any of the first `p` indices of `u`. */
  predicate NoMatchBefore(u: string, p: nat)
    requires p <= |u|
    decreases p
  {
    p == 0 || (MatchAt(u).None? && NoMatchBefore(u[1..], p - 1))
  }

  lemma {:induction false} NoMatchBeforeAll(u: string, p: nat)
    requires p <= |u|
    requires forall k :: 0 <= k < p ==> MatchAt(u[k..]).None?
    ensures NoMatchBefore(u, p)
    decreases p
  {
    if p > 0 {
      assert u[0..] == u;
      forall k | 0 <= k < p - 1
        ensures MatchAt(u[1..][k..]).None?
      {
        assert u[1..][k..] == u[k + 1..];
      }
      NoMatchBeforeAll(u[1..], p - 1);
    }
  }

  lemma NoMatchTail(u: string, p: nat)
    requires 0 < p <= |u| && NoMatchBefore(u, p)
    ensures MatchAt(u).None? && NoMatchBefore(u[1..], p - 1)
  {
  }

  lemma {:induction false} CopyUntilStep(u: string, p: nat)
    requires p <= |u| && NoMatchBefore(u, p)
    ensures ProcessHtmlImages(u) == u[..p] + ProcessHtmlImages(u[p..])
    decreases p
  {
    if p > 0 {
      NoMatchTail(u, p);
      CopyOne(u);
      CopyUntilStep(u[1..], p - 1);
      CopyLink(u, p);
    } else {
      NothingCopied(u, ProcessHtmlImages(u));
    }
  }

  /** One copied code unit followed by `p - 1` copied code units. */
  lemma CopyLink(u: string, p: nat)
    requires 0 < p <= |u|
    requires ProcessHtmlImages(u) == [u[0]] + ProcessHtmlImages(u[1..])
    requires ProcessHtmlImages(u[1..]) == u[1..][..p - 1] + ProcessHtmlImages(u[1..][p - 1..])
    ensures ProcessHtmlImages(u) == u[..p] + ProcessHtmlImages(u[p..])
  {
    SliceShift(u, p);
    Regroup([u[0]], u[1..][..p - 1], ProcessHtmlImages(u[p..]), u[..p]);
  }

  lemma SliceShift(u: string, p: nat)
    requires 0 < p <= |u|
    ensures u[1..][p - 1..] == u[p..]
    ensures u[..p] == [u[0]] + u[1..][..p - 1]
  {
  }

  lemma NothingCopied(u: string, r: string)
    ensures u[..0] + r == r && u[0..] == u
  {
  }

  lemma Regroup(x: string, a: string, b: string, xa: string)
    requires xa == x + a
    ensures x + (a + b) == xa + b
  {
  }

  /** Code units before the first match are copied. */
  lemma CopyUntil(u: string, p: nat)
    requires p <= |u|
    requires forall k :: 0 <= k < p ==> MatchAt(u[k..]).None?
    ensures ProcessHtmlImages(u) == u[..p] + ProcessHtmlImages(u[p..])
  {
    NoMatchBeforeAll(u, p);
    CopyUntilStep(u, p);
  }

  /** Text in which the expression matches nowhere comes back unchanged. */
  lemma NoMatchNoChange(s: string)
    requires forall i :: 0 <= i < |s| ==> MatchAt(s[i..]).None?
    ensures ProcessHtmlImages(s) == s
  {
    CopyUntil(s, |s|);
    assert s[..|s|] == s;
  }

  /** Occurrences in a suffix are occurrences in the whole text. */
  lemma HasAtInSuffix(s: string, i: nat, k: nat, w: string)
    requires i <= |s|
    ensures HasAt(s[i..], k, w) <==> HasAt(s, i + k, w)
  {
    if i + k + |w| <= |s| {
      assert s[i..][k..k + |w|] == s[i + k..i + k + |w|];
    }
  }

  /** Images whose source is neither `./…` nor `../…` (absolute paths,
      `http:` addresses) are never touched: text without `src="./` and
      without `src="../` comes back unchanged. */
  lemma OtherSourcesUnchanged(s: string)
    requires forall i :: 0 <= i <= |s| ==> !HasAt(s, i, "src=\"./") && !HasAt(s, i, "src=\"../")
    ensures ProcessHtmlImages(s) == s
  {
    forall i | 0 <= i < |s|
      ensures MatchAt(s[i..]).None?
    {
      var t := s[i..];
      MatchShape(t);
      var at := if MatchAt(t).Some? then MatchAt(t).value.pathStart - 5 else 0;
      HasAtInSuffix(s, i, at, "src=\"./");
      HasAtInSuffix(s, i, at, "src=\"../");
    }
    NoMatchNoChange(s);
  }

  /** The index of the first match in `u`, if any. */
  lemma FirstMatch(u: string) returns (r: Option<nat>)
    ensures r.None? ==> NoMatchBefore(u, |u|)
    ensures r.Some? ==> r.value < |u| && MatchAt(u[r.value..]).Some? && NoMatchBefore(u, r.value)
    decreases |u|
  {
    if u == [] {
      r := None;
    } else if MatchAt(u).Some? {
      r := MatchHere(u);
    } else {
      var rest := FirstMatch(u[1..]);
      match rest
      case None =>
        NoMatchLater(u);
        r := None;
      case Some(p) =>
        r := LaterMatch(u, p);
    }
  }

  /** A match at the head is the first one. */
  lemma MatchHere(u: string) returns (r: Option<nat>)
    requires u != [] && MatchAt(u).Some?
    ensures r.Some? && r.value < |u| && MatchAt(u[r.value..]).Some? && NoMatchBefore(u, r.value)
  {
    assert u[0..] == u;
    r := Some(0);
  }

  /** No match at the head and none in the rest means none at all. */
  lemma NoMatchLater(u: string)
    requires u != [] && MatchAt(u).None? && NoMatchBefore(u[1..], |u[1..]|)
    ensures NoMatchBefore(u, |u|)
  {
    assert |u[1..]| == |u| - 1;
  }

  lemma LaterMatch(u: string, p: nat) returns (r: Option<nat>)
    requires u != [] && MatchAt(u).None? && p < |u| - 1
    requires MatchAt(u[1..][p..]).Some? && NoMatchBefore(u[1..], p)
    ensures r.Some? && r.value < |u| && MatchAt(u[r.value..]).Some? && NoMatchBefore(u, r.value)
  {
    SuffixOfTail(u, p);
    NoMatchStep(u, p);
    r := Some(p + 1);
  }

  lemma SuffixOfTail(u: string, p: nat)
    requires p < |u|
    ensures u[1..][p..] == u[p + 1..]
  {
  }

  /** No match at the head and none in the next `p` positions of the rest. */
  lemma NoMatchStep(u: string, p: nat)
    requires u != [] && p < |u| && MatchAt(u).None? && NoMatchBefore(u[1..], p)
    ensures NoMatchBefore(u, p + 1)
  {
  }

  /** Text in which the expression matches nowhere comes back unchanged. */
  lemma NothingMatches(u: string)
    requires NoMatchBefore(u, |u|)
    ensures ProcessHtmlImages(u) == u
  {
    CopyUntilStep(u, |u|);
    assert u[..|u|] == u && u[|u|..] == [];
  }

  /** Where a match starts, the rewritten tag is emitted and the scan
      resumes after the match. */
  lemma MatchStep(v: string)
    requires MatchAt(v).Some?
    ensures ProcessHtmlImages(v) == ReplaceTag(v, MatchAt(v).value) + ProcessHtmlImages(v[MatchAt(v).value.end..])
  {
  }

  lemma PrefixOfConcat(a: string, b: string, c: string, d: string)
    ensures |a| <= |a + b + c + d| && (a + b + c + d)[..|a|] == a
  {
  }

  /** A match's text up to its captured path comes out unchanged. */
  lemma KeepsHead(v: string)
    requires MatchAt(v).Some?
    ensures MatchAt(v).value.pathStart <= |ProcessHtmlImages(v)|
    ensures ProcessHtmlImages(v)[..MatchAt(v).value.pathStart] == v[..MatchAt(v).value.pathStart]
  {
    var m := MatchAt(v).value;
    MatchAtSound(v);
    MatchStep(v);
    PrefixOfConcat(v[..m.pathStart], NewPath(v[m.pathStart..m.pathEnd]), v[m.pathEnd..m.end],
                   ProcessHtmlImages(v[m.end..]));
  }

  /** Two texts agree on their first `n` code units. */
  predicate Agree(s: string, t: string, n: nat) {
    n <= |s| && n <= |t| && forall k :: 0 <= k < n ==> s[k] == t[k]
  }

  lemma HasAtAgree(s: string, t: string, n: nat, i: nat, w: string)
    requires Agree(s, t, n) && i + |w| <= n
    ensures HasAt(s, i, w) <==> HasAt(t, i, w)
  {
    assert s[i..i + |w|] == t[i..i + |w|];
  }

  /** The whitespace scan reads no further than the code unit that stops it. */
  lemma {:induction false} WhitespaceEndAgree(s: string, t: string, n: nat, i: nat)
    requires Agree(s, t, n) && i <= |s| && WhitespaceEnd(s, i) < n
    ensures WhitespaceEnd(t, i) == WhitespaceEnd(s, i)
    decreases |s| - i
  {
    assert s[i] == t[i];
    if IsWhitespace(s[i]) {
      WhitespaceEndAgree(s, t, n, i + 1);
    }
  }

  /** A scan for the closing quote that breaks at a line terminator reads no
      further than that line terminator. */
  lemma {:induction false} CloseQuoteAgree(s: string, t: string, n: nat, j: nat)
    requires Agree(s, t, n) && j <= |s|
    requires CloseQuote(s, j).Broken? && CloseQuote(s, j).at < n
    ensures CloseQuote(t, j) == CloseQuote(s, j)
    decreases |s| - j
  {
    assert s[j] == t[j];
    if j < CloseQuote(s, j).at {
      assert s[j + 1] == t[j + 1];
      CloseQuoteAgree(s, t, n, j + 1);
    }
  }

  /** A `<` after the start of an `<img` tag lies past everything the
      expression has read of that tag up to the start of its path. */
  lemma OpenLiesBeyond(s: string, i: nat)
    requires HasAt(s, 0, "<img") && 1 <= i < |s| && s[i] == '<'
    ensures i >= WhitespaceEnd(s, 4)
    ensures HasAt(s, WhitespaceEnd(s, 4), "src=\"") ==> i >= WhitespaceEnd(s, 4) + 5
    ensures HasAt(s, WhitespaceEnd(s, 4), "src=\"") && DotPrefixEnd(s, WhitespaceEnd(s, 4) + 5).Some? ==>
              i >= DotPrefixEnd(s, WhitespaceEnd(s, 4) + 5).value
  {
    var e := WhitespaceEnd(s, 4);
    NoOpenInWord(s, 1, "img");
    if HasAt(s, e, "src=\"") {
      OpenBeyondSource(s, i, e);
    }
  }

  /** No `<` lies inside `src="` or the `../` or `./` after it. */
  lemma OpenBeyondSource(s: string, i: nat, e: nat)
    requires i < |s| && s[i] == '<' && i >= e && HasAt(s, e, "src=\"")
    ensures i >= e + 5
    ensures DotPrefixEnd(s, e + 5).Some? ==> i >= DotPrefixEnd(s, e + 5).value
  {
    NoOpenInWord(s, e, "src=\"");
    NoOpenInWord(s, e + 5, "../");
    NoOpenInWord(s, e + 5, "./");
  }

  /** No `<` stands inside an occurrence of a word without one. */
  lemma NoOpenInWord(s: string, i: nat, w: string)
    requires '<' !in w
    ensures HasAt(s, i, w) ==> forall k :: i <= k < i + |w| ==> s[k] != '<'
  {
    if HasAt(s, i, w) {
      forall k | i <= k < i + |w|
        ensures s[k] != '<'
      {
        assert s[k] == s[i..i + |w|][k - i];
      }
    }
  }

  /** A scan for the closing quote from `d` that passes over a later match's
      `src=` breaks before that match's path. */
  lemma BreaksBeforeLaterPath(s: string, i: nat, d: nat)
    requires 1 <= i < |s| && MatchAt(s[i..]).Some?
    requires d + 10 <= i + MatchAt(s[i..]).value.pathStart
    ensures !CloseQuote(s, d).Unclosed?
    ensures CloseQuote(s, d).Broken? ==> CloseQuote(s, d).at < i + MatchAt(s[i..]).value.pathStart
  {
    var v := s[i..];
    MatchAtSound(v);
    PathCloses(s, i, v, MatchAt(v).value, d);
  }

  /** The closing quote of a match at `i` ends any quote scan started
      before its path. */
  lemma PathCloses(s: string, i: nat, v: string, m: SrcMatch, d: nat)
    requires i <= |s| && v == s[i..] && ValidMatch(v, m)
    requires d + 10 <= i + m.pathStart
    ensures !CloseQuote(s, d).Unclosed?
    ensures CloseQuote(s, d).Broken? ==> CloseQuote(s, d).at < i + m.pathStart
  {
    var n := i + m.pathStart;
    var q := i + m.pathEnd;
    assert QuoteThenSpace(s, q) by {
      assert s[q] == v[m.pathEnd] && s[q + 1] == v[m.pathEnd + 1];
    }
    forall k | n <= k < q
      ensures !IsLineTerminator(s[k])
    {
      assert s[k] == v[k - i];
    }
    CloseQuoteBefore(s, d, n, q);
  }

  /** A scan from `d` closes at or before a `"` and whitespace at `q`, or
      breaks before `n` when nothing from `n` to `q` ends the line. */
  lemma CloseQuoteBefore(s: string, d: nat, n: nat, q: nat)
    requires d <= n <= q && QuoteThenSpace(s, q)
    requires forall k :: n <= k < q ==> !IsLineTerminator(s[k])
    ensures !CloseQuote(s, d).Unclosed?
    ensures CloseQuote(s, d).Broken? ==> CloseQuote(s, d).at < n
  {
  }

  /** A match opens with `<`, and its path starts 10 or more code units in. */
  lemma MatchOpens(v: string)
    requires MatchAt(v).Some?
    ensures v[0] == '<' && MatchAt(v).value.pathStart >= 10
  {
    MatchAtSound(v);
    assert v[..4][0] == v[0];
  }

  /** Where no match starts in `s`, none starts in a text `t` that agrees
      with `s` up to the captured path of a later match in `s`: every stage
      at which the expression gives up on `s` lies before that point. */
  lemma FailureIsLocal(s: string, t: string, i: nat)
    requires MatchAt(s).None?
    requires 1 <= i < |s| && MatchAt(s[i..]).Some?
    requires Agree(s, t, i + MatchAt(s[i..]).value.pathStart)
    ensures MatchAt(t).None?
  {
    var v := s[i..];
    MatchOpens(v);
    var n := i + MatchAt(v).value.pathStart;
    assert s[i] == v[0];
    if HasAt(s, 0, "<img") {
      var e := WhitespaceEnd(s, 4);
      var c := e + 5;
      OpenLiesBeyond(s, i);
      WhitespaceEndAgree(s, t, n, 4);
      HasAtAgree(s, t, n, e, "src=\"");
      HasAtAgree(s, t, n, c, "../");
      HasAtAgree(s, t, n, c, "./");
      if e > 4 && HasAt(s, e, "src=\"") && DotPrefixEnd(s, c).Some? {
        var d := DotPrefixEnd(s, c).value;
        BreaksBeforeLaterPath(s, i, d);
        CloseQuoteAgree(s, t, n, d);
      }
    } else {
      HasAtAgree(s, t, n, 0, "<img");
    }
  }

  /** A text that starts with `s[..a]` and goes on with `w`, whose first
      `h` code units are the next ones of `s`, agrees with `s` on `a + h`
      code units. */
  lemma AgreeWithPrefix(s: string, a: nat, w: string, h: nat)
    requires a + h <= |s| && h <= |w| && w[..h] == s[a..a + h]
    ensures Agree(s, s[..a] + w, a + h)
  {
    forall k | 0 <= k < a + h
      ensures s[k] == (s[..a] + w)[k]
    {
      if a <= k {
        assert w[k - a] == w[..h][k - a];
        assert s[k] == s[a..a + h][k - a];
      }
    }
  }

  lemma HeadSlices(s: string, p: nat, h: nat)
    requires p + 1 + h <= |s|
    ensures s[1..][p..] == s[p + 1..]
    ensures s[..p + 1] == [s[0]] + s[1..][..p]
    ensures s[1..][p..][..h] == s[p + 1..p + 1 + h]
  {
  }

  /** `pu`, the first pass over `s[1..]`, copies the `p` code units before
      a match and then begins with that match's text up to its path: what
      the expression reads at the start of `s` before it fails is kept. */
  lemma FailureKeptFrom(s: string, p: nat, pu: string, w: string)
    requires s != [] && MatchAt(s).None?
    requires p < |s| - 1 && MatchAt(s[1..][p..]).Some?
    requires pu == s[1..][..p] + w
    requires MatchAt(s[1..][p..]).value.pathStart <= |w|
    requires w[..MatchAt(s[1..][p..]).value.pathStart] == s[1..][p..][..MatchAt(s[1..][p..]).value.pathStart]
    ensures MatchAt([s[0]] + pu).None?
  {
    var h := MatchAt(s[1..][p..]).value.pathStart;
    HeadSlices(s, p, h);
    Regroup([s[0]], s[1..][..p], w, s[..p + 1]);
    AgreeWithPrefix(s, p + 1, w, h);
    FailureIsLocal(s, [s[0]] + pu, p + 1);
  }

  /** The first match `p` of `s[1..]` is kept up to its path. */
  lemma FailureKeptAt(s: string, p: nat)
    requires s != [] && MatchAt(s).None?
    requires p < |s| - 1 && MatchAt(s[1..][p..]).Some?
    requires NoMatchBefore(s[1..], p)
    ensures MatchAt([s[0]] + ProcessHtmlImages(s[1..])).None?
  {
    var u := s[1..];
    CopyUntilStep(u, p);
    KeepsHead(u[p..]);
    FailureKeptFrom(s, p, ProcessHtmlImages(u), ProcessHtmlImages(u[p..]));
  }

  /** Where no match starts in `s`, none starts in what the first pass
      leaves after copying `s[0]`. */
  lemma FailureKept(s: string)
    requires s != [] && MatchAt(s).None?
    ensures MatchAt([s[0]] + ProcessHtmlImages(s[1..])).None?
  {
    var first := FirstMatch(s[1..]);
    match first
    case None =>
      NothingMatches(s[1..]);
      HeadAndTail(s, ProcessHtmlImages(s[1..]));
    case Some(p) =>
      FailureKeptAt(s, p);
  }

  lemma HeadAndTail(s: string, rest: string)
    requires s != [] && rest == s[1..]
    ensures [s[0]] + rest == s
  {
  }

  /** The path captured by a match at the start of `t`, if there is one,
      holds no `"`. */
  predicate QuotelessAt(t: string) {
    MatchAt(t).Some? ==>
      forall j :: MatchAt(t).value.pathStart <= j < MatchAt(t).value.pathEnd ==> t[j] != '"'
  }

  /** No path that the expression captures anywhere in `s` holds a `"`. */
  predicate QuotelessPaths(s: string) {
    forall i :: 0 <= i < |s| ==> QuotelessAt(s[i..])
  }

  lemma QuotelessSuffix(s: string, i: nat)
    requires QuotelessPaths(s) && i <= |s|
    ensures QuotelessPaths(s[i..])
  {
    forall k | 0 <= k < |s[i..]|
      ensures QuotelessAt(s[i..][k..])
    {
      assert s[i..][k..] == s[i + k..];
    }
  }

  /** No match starts inside `pre + np + post`, whatever follows it, when
      `pre` runs from a `<` to the first `"`, the path `np` after it starts
      with something other than `.` and holds no `"`, and `post` is a `"`
      and whitespace. */
  lemma InertTag(pre: string, np: string, post: string, rest: string)
    requires |pre| >= 2 && pre[|pre| - 1] == '"'
    requires forall j :: 1 <= j < |pre| ==> pre[j] != '<'
    requires forall j :: 0 <= j < |pre| - 1 ==> pre[j] != '"'
    requires |np| > 0 && np[0] != '.' && forall j :: 0 <= j < |np| ==> np[j] != '"'
    requires |post| >= 2 && post[0] == '"' && forall j :: 1 <= j < |post| ==> IsWhitespace(post[j])
    ensures forall k :: 0 <= k < |pre + np + post| ==> MatchAt((pre + np + post + rest)[k..]).None?
  {
    var w := pre + np + post + rest;
    var qt := |pre| + |np|;
    forall k | 0 <= k < |pre + np + post|
      ensures MatchAt(w[k..]).None?
    {
      var x := w[k..];
      if k == 0 {
        forall j | 0 <= j < |pre| - 1
          ensures x[j] != '"'
        {
          assert x[j] == pre[j];
        }
        assert x[|pre| - 1] == pre[|pre| - 1] && x[|pre|] == np[0];
        NoMatchBeforeBareQuote(x, |pre| - 1);
      } else if k < |pre| {
        assert x[0] == pre[k];
        NoMatchWithoutOpen(x);
      } else if k < qt {
        forall j | 0 <= j < qt - k
          ensures x[j] != '"'
        {
          assert x[j] == np[k + j - |pre|];
        }
        assert x[qt - k] == post[0] && x[qt - k + 1] == post[1];
        NoMatchBeforeBareQuote(x, qt - k);
      } else {
        assert x[0] == post[k - qt];
        NoMatchWithoutOpen(x);
      }
    }
  }

  /** No match starts inside a rewritten tag, whatever follows it: the
      rewritten path begins with `x`, not `.`, and the closing quote is
      still followed by whitespace. */
  lemma RewrittenTagIsInert(s: string, rest: string)
    requires MatchAt(s).Some? && QuotelessAt(s)
    ensures var tag := ReplaceTag(s, MatchAt(s).value);
            forall k :: 0 <= k < |tag| ==> MatchAt((tag + rest)[k..]).None?
  {
    var m := MatchAt(s).value;
    MatchAtSound(s);
    var path := s[m.pathStart..m.pathEnd];
    var pre := s[..m.pathStart];
    PreParts(s, m, pre);
    TagParts(s, m);
    NewPathShape(path);
    InertTag(pre, NewPath(path), s[m.pathEnd..m.end], rest);
  }

  /** The matched text before the path opens with `<`, holds no other `<`,
      and ends with its only `"`. */
  lemma PreParts(s: string, m: SrcMatch, pre: string)
    requires ValidMatch(s, m) && pre == s[..m.pathStart]
    ensures |pre| >= 2 && pre[|pre| - 1] == '"'
    ensures forall j :: 1 <= j < |pre| ==> pre[j] != '<'
    ensures forall j :: 0 <= j < |pre| - 1 ==> pre[j] != '"'
  {
    MatchedMarks(s, m);
  }

  /** The captured path starts with `./` or `../` and, where the text's
      paths are quoteless, holds no `"`; what follows it is a `"` and
      whitespace. */
  lemma TagParts(s: string, m: SrcMatch)
    requires ValidMatch(s, m)
    ensures var path := s[m.pathStart..m.pathEnd];
            && (HasAt(path, 0, "./") || HasAt(path, 0, "../"))
            && (QuotelessAt(s) && MatchAt(s) == Some(m) ==> forall j :: 0 <= j < |path| ==> path[j] != '"')
    ensures var post := s[m.pathEnd..m.end];
            |post| >= 2 && post[0] == '"' && forall j :: 1 <= j < |post| ==> IsWhitespace(post[j])
  {
    var path := s[m.pathStart..m.pathEnd];
    if HasAt(s, m.pathStart, "./") {
      SliceHasAt(s, m.pathStart, m.pathEnd, "./");
    } else {
      assert s[m.pathStart + 2] == "../"[2] != s[m.pathEnd];
      SliceHasAt(s, m.pathStart, m.pathEnd, "../");
    }
    assert forall j :: 0 <= j < |path| ==> path[j] == s[m.pathStart + j];
    var post := s[m.pathEnd..m.end];
    assert forall j :: 0 <= j < |post| ==> post[j] == s[m.pathEnd + j];
  }

  /** A slice of a prefix is a slice of the text. */
  lemma SliceOfPrefix(t: string, e: nat, i: nat, j: nat)
    requires i <= j <= e <= |t|
    ensures HasAt(t[..e], i, t[i..j])
  {
    assert t[..e][i..j] == t[i..j];
  }

  /** A word inside a slice occurs in the slice. */
  lemma SliceHasAt(s: string, i: nat, j: nat, w: string)
    requires i + |w| <= j <= |s| && HasAt(s, i, w)
    ensures HasAt(s[i..j], 0, w)
  {
    assert s[i..j][..|w|] == s[i..i + |w|];
  }

  /** Rewriting is idempotent on text whose captured paths hold no `"`: a
      second pass finds nothing left to rewrite. */
  lemma {:induction false} Idempotent(s: string)
    requires QuotelessPaths(s)
    ensures ProcessHtmlImages(ProcessHtmlImages(s)) == ProcessHtmlImages(s)
    decreases |s|
  {
    if s != [] {
      assert s[0..] == s;
      match MatchAt(s)
      case Some(m) =>
        var tag := ReplaceTag(s, m);
        var r := ProcessHtmlImages(s[m.end..]);
        QuotelessSuffix(s, m.end);
        Idempotent(s[m.end..]);
        RewrittenTagIsInert(s, r);
        CopyUntil(tag + r, |tag|);
        assert (tag + r)[..|tag|] == tag && (tag + r)[|tag|..] == r;
      case None =>
        var r := ProcessHtmlImages(s[1..]);
        QuotelessSuffix(s, 1);
        Idempotent(s[1..]);
        FailureKept(s);
        CopyOne([s[0]] + r);
        assert ([s[0]] + r)[1..] == r;
    }
  }
}

/** The excerpt generator of src/utils/markdownLoader.js: `truncateText`
    and `processExcerpt` (lines 26-37). */
module Excerpt {
  import opened Wrappers
  import opened JsText

  /** The default `maxLength` of `truncateText`. */
  const MaxExcerptLength: nat := 100

  const Ellipsis := "..."

  /** `truncateText(text, maxLength)`: the text itself when it fits,
      otherwise its first `maxLength` code units followed by `...`. */
  function TruncateText(text: string, maxLength: nat): (r: string)
    ensures |r| <= maxLength + |Ellipsis|
    ensures |text| <= maxLength ==> r == text
    ensures |text| > maxLength ==>
              |r| == maxLength + |Ellipsis| && r[..maxLength] == text[..maxLength]
              && r[maxLength..] == Ellipsis
  {
    if |text| <= maxLength then text else text[..maxLength] + Ellipsis
  }

  /** `t[..n]` is what `<img\s+.*?\/?>` matches at the start of `t`:
      `<img`, whitespace, then everything up to and including the first
      `>`, with no line terminator between the whitespace run and that `>`
      (the `.` of `.*?` matches none). */
  predicate ImgTagMatch(t: string, n: nat) {
    && 6 <= n <= |t|
    && HasAt(t, 0, "<img") && IsWhitespace(t[4])
    && t[n - 1] == '>'
    && (forall k :: 4 <= k < n - 1 ==> t[k] != '>')
    && (forall k :: WhitespaceEnd(t, 4) <= k < n - 1 ==> !IsLineTerminator(t[k]))
  }

  /** The regular expression `<img\s+.*?\/?>` tried at the start of `t`:
      the length of the match, if there is one. Giving back part of the
      greedy `\s+` never helps, because what it would hand to `.*?` is
      whitespace, which holds no `>`. */
  function ImgTagLength(t: string): (r: Option<nat>)
    ensures r.Some? ==> 6 <= r.value <= |t| && HasAt(t, 0, "<img") && t[r.value - 1] == '>'
    ensures forall n: nat :: ImgTagMatch(t, n) <==> r == Some(n)
  {
    if !HasAt(t, 0, "<img") then None
    else
      var e := WhitespaceEnd(t, 4);
      if e == 4 then None
      else
        assert t[..4] == "<img";
        assert t[3] == 'g';
        TagClose(t, e)
  }

  /** The lazy `.*?` followed by `\/?>`, from index `j`: the match ends just
      after the first `>` (on its own or as `/>`), provided no line
      terminator comes before it. */
  function TagClose(t: string, j: nat): (r: Option<nat>)
    requires j <= |t|
    ensures r.Some? ==> j < r.value <= |t| && t[r.value - 1] == '>'
    ensures r.Some? ==> forall k :: j <= k < r.value - 1 ==> t[k] != '>' && !IsLineTerminator(t[k])
    ensures r.None? ==> forall k :: j <= k < |t| && t[k] == '>' ==>
              exists l :: j <= l < k && IsLineTerminator(t[l])
    decreases |t| - j
  {
    if j == |t| then None
    else if t[j] == '/' && j + 1 < |t| && t[j + 1] == '>' then Some(j + 2)
    else if t[j] == '>' then Some(j + 1)
    else if IsLineTerminator(t[j]) then None
    else TagClose(t, j + 1)
  }

  /** `s.replace(/<img\s+.*?\/?>/g, '')`: scanning left to right, every
      match is dropped and the scan resumes after it; every other code unit
      is kept. */
  function RemoveImgTags(s: string): (r: string)
    ensures |r| <= |s|
    ensures multiset(r) <= multiset(s)
    ensures IsSubsequence(r, s)
    decreases |s|
  {
    if s == [] then []
    else match ImgTagLength(s)
      case Some(n) =>
        assert s == s[..n] + s[n..];
        var r := RemoveImgTags(s[n..]);
        SubsequenceOfSuffix(r, s, n);
        r
      case None =>
        assert s == [s[0]] + s[1..];
        [s[0]] + RemoveImgTags(s[1..])
  }

  /** `x` is `s` with some code units deleted, the rest kept in order. */
  predicate IsSubsequence(x: string, s: string)
    decreases |s|
  {
    if x == [] then true
    else if s == [] then false
    else if x[0] == s[0] then IsSubsequence(x[1..], s[1..])
    else IsSubsequence(x, s[1..])
  }

  /** A subsequence of a suffix is a subsequence of the whole text. */
  lemma {:induction false} SubsequenceOfSuffix(x: string, s: string, n: nat)
    requires n <= |s| && IsSubsequence(x, s[n..])
    ensures IsSubsequence(x, s)
    decreases n
  {
    if n > 0 {
      assert s[1..][n - 1..] == s[n..];
      SubsequenceOfSuffix(x, s[1..], n - 1);
      SubsequenceOfTail(x, s);
    }
  }

  /** A subsequence of `s[1..]` is a subsequence of `s`. */
  lemma {:induction false} SubsequenceOfTail(x: string, s: string)
    requires s != [] && IsSubsequence(x, s[1..])
    ensures IsSubsequence(x, s)
    decreases |s|, 0
  {
    if x != [] && x[0] == s[0] {
      DropHead(x, s[1..]);
    }
  }

  /** Dropping the first code unit of a subsequence keeps it one. */
  lemma {:induction false} DropHead(x: string, t: string)
    requires x != [] && IsSubsequence(x, t)
    ensures IsSubsequence(x[1..], t)
    decreases |t|, 1
  {
    if x[0] == t[0] {
      if x[1..] != [] {
        SubsequenceOfTail(x[1..], t);
      }
    } else {
      DropHead(x, t[1..]);
      SubsequenceOfTail(x[1..], t);
    }
  }

  /** No match of `<img\s+.*?\/?>` starts at an index of `pre` in `pre + rest`. */
  ghost predicate NoTagWithin(pre: string, rest: string) {
    forall i, n: nat :: 0 <= i < |pre| ==> !ImgTagMatch((pre + rest)[i..], n)
  }

  /** Text at which no tag starts is kept, a tag that matches right after
      it is dropped, and the scan goes on after the tag. Splitting a text
      at its first match this way determines the result. */
  lemma RemoveImgTagsSplice(pre: string, tag: string, post: string)
    requires NoTagWithin(pre, tag + post)
    requires ImgTagLength(tag + post) == Some(|tag|)
    ensures RemoveImgTags(pre + tag + post) == pre + RemoveImgTags(post)
  {
    assert pre + tag + post == pre + (tag + post);
    KeptPrefix(pre, tag + post);
    TagDropped(tag + post, |tag|);
    assert (tag + post)[|tag|..] == post;
  }

  /** Text at which no tag starts, in front of the rest, is kept as it is. */
  lemma {:induction false} KeptPrefix(pre: string, rest: string)
    requires NoTagWithin(pre, rest)
    ensures RemoveImgTags(pre + rest) == pre + RemoveImgTags(rest)
    decreases |pre|
  {
    if pre == [] {
      assert pre + rest == rest;
    } else {
      NoTagWithinTail(pre, rest);
      KeptPrefix(pre[1..], rest);
      KeptStep(pre, rest);
    }
  }

  /** Keeping the first code unit extends the kept rest of `pre` to all of it. */
  lemma KeptStep(pre: string, rest: string)
    requires pre != [] && NoTagWithin(pre, rest)
    requires RemoveImgTags(pre[1..] + rest) == pre[1..] + RemoveImgTags(rest)
    ensures RemoveImgTags(pre + rest) == pre + RemoveImgTags(rest)
  {
    FirstKept(pre, rest);
    assert pre == [pre[0]] + pre[1..];
    Glue([pre[0]], RemoveImgTags(pre[1..] + rest), pre[1..], RemoveImgTags(rest),
         RemoveImgTags(pre + rest), pre);
  }

  /** The first code unit of `pre` starts no tag, so it is kept. */
  lemma FirstKept(pre: string, rest: string)
    requires pre != [] && NoTagWithin(pre, rest)
    ensures RemoveImgTags(pre + rest) == [pre[0]] + RemoveImgTags(pre[1..] + rest)
  {
    HeadStartsNoTag(pre, rest);
    UnitKept(pre + rest);
    ConcatHead(pre, rest);
  }

  lemma HeadStartsNoTag(pre: string, rest: string)
    requires pre != [] && NoTagWithin(pre, rest)
    ensures forall n: nat :: !ImgTagMatch(pre + rest, n)
  {
    assert (pre + rest)[0..] == pre + rest;
  }

  lemma ConcatHead(pre: string, rest: string)
    requires pre != []
    ensures (pre + rest)[0] == pre[0] && (pre + rest)[1..] == pre[1..] + rest
  {
  }

  /** No tag starts within the rest of `pre` either. */
  lemma NoTagWithinTail(pre: string, rest: string)
    requires pre != [] && NoTagWithin(pre, rest)
    ensures NoTagWithin(pre[1..], rest)
  {
    forall i, n: nat | 0 <= i < |pre| - 1
      ensures !ImgTagMatch((pre[1..] + rest)[i..], n)
    {
      assert (pre[1..] + rest)[i..] == (pre + rest)[i + 1..];
    }
  }

  /** A code unit at which no tag starts is kept. */
  lemma UnitKept(s: string)
    requires s != [] && forall n: nat :: !ImgTagMatch(s, n)
    ensures RemoveImgTags(s) == [s[0]] + RemoveImgTags(s[1..])
  {
    assert ImgTagLength(s) == None;
  }

  /** A matching tag is dropped. */
  lemma TagDropped(s: string, n: nat)
    requires ImgTagLength(s) == Some(n)
    ensures RemoveImgTags(s) == RemoveImgTags(s[n..])
  {
  }

  /** Text without `<img` anywhere is left as it is. */
  lemma {:induction false} RemoveImgTagsWithoutTags(s: string)
    requires forall i :: 0 <= i <= |s| ==> !HasAt(s, i, "<img")
    ensures RemoveImgTags(s) == s
    decreases |s|
  {
    if s != [] {
      assert !HasAt(s, 0, "<img");
      forall i | 0 <= i <= |s[1..]|
        ensures !HasAt(s[1..], i, "<img")
      {
        assert !HasAt(s, i + 1, "<img");
      }
      RemoveImgTagsWithoutTags(s[1..]);
    }
  }

  /** The Markdown markers removed by `/[#*`_[\]()]+/g`. */
  predicate IsMarkdownMark(c: char) {
    c == '#' || c == '*' || c == '`' || c == '_' || c == '[' || c == ']' || c == '(' || c == ')'
  }

  /** `s.replace(/[#*`_[\]()]+/g, '')`: every run of markers is removed,
      which removes every marker and keeps everything else in order. */
  function RemoveMarks(s: string): (r: string)
    ensures forall i :: 0 <= i < |r| ==> !IsMarkdownMark(r[i])
    ensures forall c :: !IsMarkdownMark(c) ==> multiset(r)[c] == multiset(s)[c]
    ensures (forall i :: 0 <= i < |s| ==> !IsMarkdownMark(s[i])) ==> r == s
    decreases |s|
  {
    if s == [] then []
    else
      var rest := RemoveMarks(s[1..]);
      var r := if IsMarkdownMark(s[0]) then rest else [s[0]] + rest;
      StepKeepsNoMarks(s, rest, r);
      StepKeepsCounts(s, rest, r);
      StepKeepsPlainText(s, rest, r);
      r
  }

  /** One step of `RemoveMarks` leaves no marker behind. */
  lemma StepKeepsNoMarks(s: string, rest: string, r: string)
    requires s != [] && r == if IsMarkdownMark(s[0]) then rest else [s[0]] + rest
    requires forall i :: 0 <= i < |rest| ==> !IsMarkdownMark(rest[i])
    ensures forall i :: 0 <= i < |r| ==> !IsMarkdownMark(r[i])
  {
  }

  /** One step of `RemoveMarks` keeps the count of every other code unit. */
  lemma StepKeepsCounts(s: string, rest: string, r: string)
    requires s != [] && r == if IsMarkdownMark(s[0]) then rest else [s[0]] + rest
    requires forall c :: !IsMarkdownMark(c) ==> multiset(rest)[c] == multiset(s[1..])[c]
    ensures forall c :: !IsMarkdownMark(c) ==> multiset(r)[c] == multiset(s)[c]
  {
    assert s == [s[0]] + s[1..];
    assert multiset(s) == multiset{s[0]} + multiset(s[1..]);
  }

  /** One step of `RemoveMarks` on marker-free text keeps it. */
  lemma StepKeepsPlainText(s: string, rest: string, r: string)
    requires s != [] && r == if IsMarkdownMark(s[0]) then rest else [s[0]] + rest
    requires (forall i :: 0 <= i < |s| - 1 ==> !IsMarkdownMark(s[1..][i])) ==> rest == s[1..]
    ensures (forall i :: 0 <= i < |s| ==> !IsMarkdownMark(s[i])) ==> r == s
  {
    if forall i :: 0 <= i < |s| ==> !IsMarkdownMark(s[i]) {
      assert forall i :: 0 <= i < |s| - 1 ==> s[1..][i] == s[i + 1];
      assert s == [s[0]] + s[1..];
    }
  }

  /** The first code unit is dropped if it is a marker and kept otherwise. */
  lemma MarksStep(s: string)
    requires s != []
    ensures RemoveMarks(s) == (if IsMarkdownMark(s[0]) then [] else [s[0]]) + RemoveMarks(s[1..])
  {
  }

  /** Regrouping a concatenation of three pieces. */
  lemma Glue(h: string, tail: string, x: string, y: string, whole: string, hx: string)
    requires tail == x + y && whole == h + tail && hx == h + x
    ensures whole == hx + y
  {
  }

  /** The first step of marker removal on `a + b` looks only at `a[0]`. */
  lemma MarksStepConcat(a: string, b: string, h: string)
    requires a != [] && h == (if IsMarkdownMark(a[0]) then [] else [a[0]])
    ensures RemoveMarks(a + b) == h + RemoveMarks(a[1..] + b)
  {
    var s := a + b;
    assert s[0] == a[0] && s[1..] == a[1..] + b;
    MarksStep(s);
  }

  /** Marker removal works code unit by code unit, so it distributes over
      concatenation; with the contract of `RemoveMarks` this fixes the
      order of what is kept. */
  lemma {:induction false} RemoveMarksConcat(a: string, b: string)
    ensures RemoveMarks(a + b) == RemoveMarks(a) + RemoveMarks(b)
    decreases |a|
  {
    if a != [] {
      var h := if IsMarkdownMark(a[0]) then [] else [a[0]];
      RemoveMarksConcat(a[1..], b);
      MarksStepConcat(a, b, h);
      MarksStep(a);
      Glue(h, RemoveMarks(a[1..] + b), RemoveMarks(a[1..]), RemoveMarks(b), RemoveMarks(a + b), RemoveMarks(a));
    } else {
      assert a + b == b;
    }
  }

  /** `processExcerpt(excerpt)`: image tags removed, then Markdown markers,
      then cut to 100 code units plus `...`. */
  function ProcessExcerpt(excerpt: string): (r: string)
    ensures |r| <= MaxExcerptLength + |Ellipsis|
    ensures forall i :: 0 <= i < |r| ==> !IsMarkdownMark(r[i])
  {
    TruncateText(RemoveMarks(RemoveImgTags(excerpt)), MaxExcerptLength)
  }

  /** Short plain text, with no image tag and no marker, is its own excerpt. */
  lemma PlainTextIsItsOwnExcerpt(s: string)
    requires |s| <= MaxExcerptLength
    requires forall i :: 0 <= i <= |s| ==> !HasAt(s, i, "<img")
    requires forall i :: 0 <= i < |s| ==> !IsMarkdownMark(s[i])
    ensures ProcessExcerpt(s) == s
  {
    RemoveImgTagsWithoutTags(s);
  }
}

/** The JavaScript string operations the Markdown loader relies on, written
    out over Dafny strings. For text in the Basic Multilingual Plane every
    `char` of a string is one UTF-16 code unit, which is what JavaScript's
    `length`, `substring` and regular expressions (without the `u` flag)
    count; a character outside that plane is one `char` here but two code
    units there. */
module JsText {
  import opened Wrappers

  /** The code units matched by `\s` in a JavaScript regular expression:
      the WhiteSpace and LineTerminator code points of ECMA-262. */
  predicate IsWhitespace(c: char) {
    var n := c as int;
    n == 0x09 || n == 0x0A || n == 0x0B || n == 0x0C || n == 0x0D || n == 0x20
    || n == 0xA0 || n == 0x1680 || (0x2000 <= n <= 0x200A) || n == 0x2028
    || n == 0x2029 || n == 0x202F || n == 0x205F || n == 0x3000 || n == 0xFEFF
  }

  /** The code units that `.` does not match: the LineTerminator code points. */
  predicate IsLineTerminator(c: char) {
    var n := c as int;
    n == 0x0A || n == 0x0D || n == 0x2028 || n == 0x2029
  }

  /** The end of the maximal run of `\s` code units that starts at `i`:
      what a greedy `\s*` consumes from there. */
  function WhitespaceEnd(s: string, i: nat): (j: nat)
    requires i <= |s|
    ensures i <= j <= |s|
    ensures forall k :: i <= k < j ==> IsWhitespace(s[k])
    ensures j < |s| ==> !IsWhitespace(s[j])
    decreases |s| - i
  {
    if i < |s| && IsWhitespace(s[i]) then WhitespaceEnd(s, i + 1) else i
  }

  /** `s.startsWith(prefix)` */
  predicate StartsWith(s: string, prefix: string) {
    |prefix| <= |s| && s[..|prefix|] == prefix
  }

  /** `s.endsWith(suffix)` */
  predicate EndsWith(s: string, suffix: string) {
    |suffix| <= |s| && s[|s| - |suffix|..] == suffix
  }

  /** `w` occurs in `s` starting at index `i`. */
  predicate HasAt(s: string, i: nat, w: string) {
    i + |w| <= |s| && s[i..i + |w|] == w
  }

  /** Two words that occur one after the other form their concatenation. */
  lemma HasAtConcat(s: string, i: nat, w1: string, w2: string)
    requires HasAt(s, i, w1) && HasAt(s, i + |w1|, w2)
    ensures HasAt(s, i, w1 + w2)
  {
    var j := i + |w1|;
    forall k | 0 <= k < |w1 + w2|
      ensures s[i..j + |w2|][k] == (w1 + w2)[k]
    {
      if k < |w1| {
        assert s[i..j][k] == w1[k];
      } else {
        assert s[j..j + |w2|][k - |w1|] == w2[k - |w1|];
      }
    }
  }

  /** `parts.join(sep)` */
  function Join(parts: seq<string>, sep: string): string {
    if |parts| == 0 then ""
    else if |parts| == 1 then parts[0]
    else parts[0] + sep + Join(parts[1..], sep)
  }

  /** `s.split(sep)` for a one-character separator: the maximal
      separator-free pieces, empty pieces included, so that `""` splits
      into `[""]` and `"a/"` into `["a", ""]`. */
  function Split(s: string, sep: char): (parts: seq<string>)
    ensures |parts| >= 1
    ensures forall i :: 0 <= i < |parts| ==> sep !in parts[i]
    decreases |s|
  {
    if s == [] then [""]
    else
      var rest := Split(s[1..], sep);
      if s[0] == sep then [""] + rest
      else [[s[0]] + rest[0]] + rest[1..]
  }

  /** Joining the pieces with the separator gives the string back. */
  lemma {:induction false} JoinSplit(s: string, sep: char)
    ensures Join(Split(s, sep), [sep]) == s
    decreases |s|
  {
    if s != [] {
      var rest := Split(s[1..], sep);
      JoinSplit(s[1..], sep);
      if s[0] == sep {
        assert Join([""] + rest, [sep]) == "" + [sep] + Join(rest, [sep]);
      } else if |rest| > 1 {
        assert ([[s[0]] + rest[0]] + rest[1..])[1..] == rest[1..];
        assert Join(rest, [sep]) == rest[0] + [sep] + Join(rest[1..], [sep]);
      }
    }
  }

  /** A separator-free string is one piece. */
  lemma {:induction false} SplitWithoutSeparator(a: string, sep: char)
    requires sep !in a
    ensures Split(a, sep) == [a]
    decreases |a|
  {
    if a != [] {
      SplitWithoutSeparator(a[1..], sep);
      assert [a[0]] + a[1..] == a;
    }
  }

  /** Splitting at the first separator. */
  lemma {:induction false} SplitAtFirstSeparator(a: string, b: string, sep: char)
    requires sep !in a
    ensures Split(a + [sep] + b, sep) == [a] + Split(b, sep)
    decreases |a|
  {
    var s := a + [sep] + b;
    if a == [] {
      assert s[0] == sep && s[1..] == b;
    } else {
      assert s[0] == a[0] && s[1..] == a[1..] + [sep] + b;
      SplitAtFirstSeparator(a[1..], b, sep);
      assert [a[0]] + a[1..] == a;
    }
  }

  /** Splitting a join of separator-free pieces gives the pieces back. */
  lemma {:induction false} SplitJoin(parts: seq<string>, sep: char)
    requires |parts| >= 1
    requires forall i :: 0 <= i < |parts| ==> sep !in parts[i]
    ensures Split(Join(parts, [sep]), sep) == parts
    decreases |parts|
  {
    if |parts| == 1 {
      SplitWithoutSeparator(parts[0], sep);
    } else {
      SplitAtFirstSeparator(parts[0], Join(parts[1..], [sep]), sep);
      SplitJoin(parts[1..], sep);
      assert [parts[0]] + parts[1..] == parts;
    }
  }

  /** A string is a single piece exactly when it has no separator. */
  lemma SplitIsSingle(s: string, sep: char)
    ensures |Split(s, sep)| == 1 <==> sep !in s
  {
    if sep !in s {
      SplitWithoutSeparator(s, sep);
    } else {
      JoinSplit(s, sep);
    }
  }

  /** The last piece is split off by the last separator. */
  lemma {:induction false} JoinLast(parts: seq<string>, sep: string)
    requires |parts| >= 2
    ensures Join(parts, sep) == Join(parts[..|parts| - 1], sep) + sep + parts[|parts| - 1]
    decreases |parts|
  {
    if |parts| > 2 {
      JoinLast(parts[1..], sep);
      assert parts[1..][..|parts| - 2] == parts[..|parts| - 1][1..];
    }
  }

  /** `h.indexOf(n)`: the first index at which `n` occurs in `h`. */
  function IndexOf(h: string, n: string): (r: Option<nat>)
    ensures r.Some? ==> HasAt(h, r.value, n)
    ensures r.Some? ==> forall j :: 0 <= j < r.value ==> !HasAt(h, j, n)
    ensures r.None? ==> forall j :: 0 <= j <= |h| ==> !HasAt(h, j, n)
  {
    IndexOfFrom(h, n, 0)
  }

  function IndexOfFrom(h: string, n: string, i: nat): (r: Option<nat>)
    requires i <= |h|
    ensures r.Some? ==> i <= r.value && HasAt(h, r.value, n)
    ensures r.Some? ==> forall j :: i <= j < r.value ==> !HasAt(h, j, n)
    ensures r.None? ==> forall j :: i <= j <= |h| ==> !HasAt(h, j, n)
    decreases |h| - i
  {
    if HasAt(h, i, n) then Some(i)
    else if i == |h| then None
    else IndexOfFrom(h, n, i + 1)
  }

  /** `h.replace(n, rep)` with a string pattern: the first occurrence of `n`
      is replaced; `rep` is inserted literally. */
  function ReplaceFirst(h: string, n: string, rep: string): (r: string)
    ensures (forall j :: 0 <= j <= |h| ==> !HasAt(h, j, n)) ==> r == h
    ensures forall a, b :: h == a + n + b && (forall j :: 0 <= j < |a| ==> !HasAt(h, j, n)) ==>
              r == a + rep + b
  {
    match IndexOf(h, n)
    case None =>
      NoOccurrenceNoSplit(h, n);
      h
    case Some(i) =>
      FirstOccurrenceSplit(h, n, i);
      h[..i] + rep + h[i + |n|..]
  }

  /** `n` occurs in `a + n + b` just after `a`. */
  lemma OccurrenceBetween(a: string, n: string, b: string)
    ensures HasAt(a + n + b, |a|, n)
  {
    assert (a + n + b)[|a|..|a| + |n|] == n;
  }

  /** A text in which `n` occurs nowhere is not `n` with text around it. */
  lemma NoOccurrenceNoSplit(h: string, n: string)
    requires forall j :: 0 <= j <= |h| ==> !HasAt(h, j, n)
    ensures forall a, b :: h != a + n + b
  {
    forall a, b
      ensures h != a + n + b
    {
      OccurrenceBetween(a, n, b);
    }
  }

  /** Writing the text around an occurrence of `n` that has none before it
      picks out that occurrence. */
  lemma FirstOccurrenceSplit(h: string, n: string, i: nat)
    requires HasAt(h, i, n) && forall j :: 0 <= j < i ==> !HasAt(h, j, n)
    ensures forall a, b :: h == a + n + b && (forall j :: 0 <= j < |a| ==> !HasAt(h, j, n)) ==>
              a == h[..i] && b == h[i + |n|..]
  {
    forall a, b | h == a + n + b && (forall j :: 0 <= j < |a| ==> !HasAt(h, j, n))
      ensures a == h[..i] && b == h[i + |n|..]
    {
      OccurrenceBetween(a, n, b);
      assert |a| == i;
      assert h[..i] == a;
      assert h[i + |n|..] == b;
    }
  }
}

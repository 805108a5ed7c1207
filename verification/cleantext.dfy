/** The whitespace part of Kombo_API::clean_html: after markup has been turned
    into text, runs of blanks become one space, a newline followed by blank lines
    becomes one newline, and the result is trimmed. Turning `<br>` into newlines,
    stripping tags and decoding entities are library behaviour and arrive here as
    the function `toText`. */
module CleanText {
  import opened Common
  import opened Strings

  /** The characters `[ \t]` matches. */
  predicate IsBlank(c: char) {
    c == ' ' || c == '\t'
  }

  /** A character that survives every whitespace rewrite: not `\s`, not NUL. */
  predicate IsVisible(c: char) {
    !IsPcreSpace(c) && c != '\0'
  }

  /** preg_replace('/[ \t]+/', ' ', s): each maximal run of blanks becomes one space. */
  function CollapseBlanks(s: string): (r: string)
    decreases |s|
    ensures s == [] <==> r == []
    ensures s != [] ==> r[0] == (if IsBlank(s[0]) then ' ' else s[0])
  {
    if s == [] then []
    else if IsBlank(s[0]) then
      var rest := TrimStart(s, IsBlank);
      [' '] + CollapseBlanks(rest)
    else [s[0]] + CollapseBlanks(s[1..])
  }

  /** preg_replace('/\n\s*\n/', "\n", s). At a newline the greedy `\s*` takes the
      whole following run of `\s` and backtracks to its last newline; the match,
      if any, is replaced by one newline and scanning resumes after it. */
  function CollapseBlankLines(s: string): (r: string)
    decreases |s|
    ensures s == [] <==> r == []
    ensures s != [] ==> r[0] == s[0]
  {
    if s == [] then []
    else if s[0] == '\n' then
      var w := SkipWhile(s, 1, IsPcreSpace);
      match LastWhere(s, 1, w, IsNewline)
      case Some(k) => "\n" + CollapseBlankLines(s[k + 1..])
      case None => "\n" + CollapseBlankLines(s[1..])
    else [s[0]] + CollapseBlankLines(s[1..])
  }

  /** clean_html, with the markup-to-text step supplied by the host. */
  function CleanHtml(toText: string -> string, html: string): (r: string)
    ensures r == [] || (!IsPhpTrimSpace(r[0]) && !IsPhpTrimSpace(r[|r| - 1]))
  {
    Trim(CollapseBlankLines(CollapseBlanks(toText(html))))
  }

  /** The leading run of `\s` in `t` contains a newline. */
  predicate LeadsToNewline(t: string)
    decreases |t|
  {
    t != [] && IsPcreSpace(t[0]) && (t[0] == '\n' || LeadsToNewline(t[1..]))
  }

  /** No newline is followed by blank space and another newline. */
  predicate NoBlankLine(r: string) {
    forall i :: 0 <= i < |r| && r[i] == '\n' ==> !LeadsToNewline(r[i + 1..])
  }

  predicate NoDoubleSpace(r: string) {
    forall i :: 0 <= i < |r| - 1 ==> !(r[i] == ' ' && r[i + 1] == ' ')
  }

  predicate NoTab(r: string) {
    forall i :: 0 <= i < |r| ==> r[i] != '\t'
  }

  /** After collapsing blanks there is no tab and no two adjacent spaces. */
  lemma {:induction false} CollapseBlanksNormal(s: string)
    ensures NoTab(CollapseBlanks(s)) && NoDoubleSpace(CollapseBlanks(s))
    decreases |s|
  {
    if s != [] {
      var r := CollapseBlanks(s);
      if IsBlank(s[0]) {
        var rest := TrimStart(s, IsBlank);
        CollapseBlanksNormal(rest);
        var rr := CollapseBlanks(rest);
        assert r == [' '] + rr;
        assert forall i :: 1 <= i < |r| ==> r[i] == rr[i - 1];
      } else {
        CollapseBlanksNormal(s[1..]);
        var rr := CollapseBlanks(s[1..]);
        assert r == [s[0]] + rr;
        assert forall i :: 1 <= i < |r| ==> r[i] == rr[i - 1];
      }
    }
  }

  lemma FilterInvisiblePrefix(pre: string, rest: string)
    requires forall k :: 0 <= k < |pre| ==> !IsVisible(pre[k])
    ensures Filter(pre + rest, IsVisible) == Filter(rest, IsVisible)
  {
    FilterAppend(pre, rest, IsVisible);
    FilterDropsAll(pre, IsVisible);
  }

  /** Collapsing blanks keeps every visible character, in order. */
  lemma {:induction false} CollapseBlanksKeepsText(s: string)
    ensures Filter(CollapseBlanks(s), IsVisible) == Filter(s, IsVisible)
    decreases |s|
  {
    if s != [] {
      if IsBlank(s[0]) {
        var rest := TrimStart(s, IsBlank);
        CollapseBlanksKeepsText(rest);
        FilterInvisiblePrefix([' '], CollapseBlanks(rest));
        var pre := s[..|s| - |rest|];
        assert s == pre + rest;
        FilterInvisiblePrefix(pre, rest);
      } else {
        CollapseBlanksKeepsText(s[1..]);
        assert s == [s[0]] + s[1..];
        FilterAppend([s[0]], s[1..], IsVisible);
        FilterAppend([s[0]], CollapseBlanks(s[1..]), IsVisible);
      }
    }
  }

  /** A run of non-newline `\s` that ends the leading space leads to no newline. */
  lemma {:induction false} NoNewlineInRun(t: string, j: nat)
    requires j <= |t|
    requires forall k :: 0 <= k < j ==> IsPcreSpace(t[k]) && t[k] != '\n'
    requires j == |t| || !IsPcreSpace(t[j])
    ensures !LeadsToNewline(t)
    decreases j
  {
    if j > 0 {
      NoNewlineInRun(t[1..], j - 1);
    }
  }

  /** If the output's leading space holds a newline, so did the input's. */
  lemma {:induction false} CollapseBlankLinesLeading(s: string)
    ensures LeadsToNewline(CollapseBlankLines(s)) ==> LeadsToNewline(s)
    decreases |s|
  {
    if s != [] && s[0] != '\n' && IsPcreSpace(s[0]) {
      CollapseBlankLinesLeading(s[1..]);
      assert CollapseBlankLines(s)[1..] == CollapseBlankLines(s[1..]);
    }
  }

  /** After collapsing blank lines no blank line remains. */
  lemma {:induction false} CollapseBlankLinesNormal(s: string)
    ensures NoBlankLine(CollapseBlankLines(s))
    decreases |s|
  {
    if s != [] {
      var r := CollapseBlankLines(s);
      var tail: string;
      if s[0] == '\n' {
        var w := SkipWhile(s, 1, IsPcreSpace);
        match LastWhere(s, 1, w, IsNewline) {
          case Some(k) =>
            tail := s[k + 1..];
            NoNewlineInRun(tail, w - k - 1);
          case None =>
            tail := s[1..];
            NoNewlineInRun(tail, w - 1);
        }
        CollapseBlankLinesLeading(tail);
      } else {
        tail := s[1..];
      }
      var rr := CollapseBlankLines(tail);
      CollapseBlankLinesNormal(tail);
      assert r == [s[0]] + rr;
      forall i | 0 <= i < |r| && r[i] == '\n'
        ensures !LeadsToNewline(r[i + 1..])
      {
        if i == 0 {
          assert r[1..] == rr;
        } else {
          assert rr[i - 1] == '\n';
          assert r[i + 1..] == rr[i..];
        }
      }
    }
  }

  /** Collapsing blank lines keeps every visible character, in order. */
  lemma {:induction false} CollapseBlankLinesKeepsText(s: string)
    ensures Filter(CollapseBlankLines(s), IsVisible) == Filter(s, IsVisible)
    decreases |s|
  {
    if s != [] {
      if s[0] == '\n' {
        var tail := BlankLinesTail(s);
        BlankLinesSkipped(s);
        CollapseBlankLinesKeepsText(tail);
        FilterInvisiblePrefix("\n", CollapseBlankLines(tail));
      } else {
        var tail := s[1..];
        CollapseBlankLinesKeepsText(tail);
        assert s == [s[0]] + tail;
        FilterAppend([s[0]], tail, IsVisible);
        FilterAppend([s[0]], CollapseBlankLines(tail), IsVisible);
      }
    }
  }

  /** What follows a line break once the blank lines after it are skipped. */
  function BlankLinesTail(s: string): (tail: string)
    requires s != [] && s[0] == '\n'
    ensures |tail| < |s|
  {
    var w := SkipWhile(s, 1, IsPcreSpace);
    match LastWhere(s, 1, w, IsNewline)
    case Some(k) => s[k + 1..]
    case None => s[1..]
  }

  /** The skipped text holds nothing visible, and the collapsed text is one
      line break followed by the collapsed tail. */
  lemma BlankLinesSkipped(s: string)
    requires s != [] && s[0] == '\n'
    ensures Filter(s, IsVisible) == Filter(BlankLinesTail(s), IsVisible)
    ensures CollapseBlankLines(s) == "\n" + CollapseBlankLines(BlankLinesTail(s))
  {
    var w := SkipWhile(s, 1, IsPcreSpace);
    var cut := match LastWhere(s, 1, w, IsNewline) case Some(k) => k + 1 case None => 1;
    assert BlankLinesTail(s) == s[cut..];
    forall j | 0 <= j < cut
      ensures !IsVisible(s[..cut][j])
    {
      assert s[..cut][j] == s[j];
    }
    assert s == s[..cut] + s[cut..];
    FilterInvisiblePrefix(s[..cut], s[cut..]);
  }

  /** Collapsing blank lines never brings two spaces together and adds no tab. */
  lemma {:induction false} CollapseBlankLinesKeepsNormal(s: string)
    requires NoTab(s) && NoDoubleSpace(s)
    ensures NoTab(CollapseBlankLines(s)) && NoDoubleSpace(CollapseBlankLines(s))
    decreases |s|
  {
    if s != [] {
      var r := CollapseBlankLines(s);
      var tail: string;
      if s[0] == '\n' {
        var w := SkipWhile(s, 1, IsPcreSpace);
        match LastWhere(s, 1, w, IsNewline) {
          case Some(k) =>
            tail := s[k + 1..];
          case None =>
            tail := s[1..];
        }
      } else {
        tail := s[1..];
      }
      CollapseBlankLinesKeepsNormal(tail);
      var rr := CollapseBlankLines(tail);
      assert r == [s[0]] + rr;
      assert forall i :: 1 <= i < |r| ==> r[i] == rr[i - 1];
    }
  }

  /** A prefix of a string whose leading space has no newline has none either. */
  lemma {:induction false} LeadsToNewlinePrefix(t: string, n: nat)
    requires n <= |t| && LeadsToNewline(t[..n])
    ensures LeadsToNewline(t)
    decreases n
  {
    assert t[..n][1..] == t[1..][..n - 1];
    if t[0] != '\n' {
      LeadsToNewlinePrefix(t[1..], n - 1);
    }
  }

  /** Every slice of a normal-form string is in normal form. */
  lemma NormalSlice(r: string, a: nat, b: nat, t: string)
    requires a <= b <= |r| && t == r[a..b]
    requires NoTab(r) && NoDoubleSpace(r) && NoBlankLine(r)
    ensures NoTab(t) && NoDoubleSpace(t) && NoBlankLine(t)
  {
    forall i | 0 <= i < |t| && t[i] == '\n'
      ensures !LeadsToNewline(t[i + 1..])
    {
      assert r[a + i] == '\n';
      assert t[i + 1..] == r[a + i + 1..][..b - a - i - 1];
      if LeadsToNewline(t[i + 1..]) {
        LeadsToNewlinePrefix(r[a + i + 1..], b - a - i - 1);
      }
    }
  }

  lemma TrimSpaceInvisible(s: string)
    requires All(s, IsPhpTrimSpace)
    ensures forall j :: 0 <= j < |s| ==> !IsVisible(s[j])
  {
    forall j | 0 <= j < |s|
      ensures !IsVisible(s[j])
    {
      assert IsPhpTrimSpace(s[j]);
    }
  }

  lemma FilterInvisibleAround(pre: string, mid: string, post: string)
    requires forall j :: 0 <= j < |pre| ==> !IsVisible(pre[j])
    requires forall j :: 0 <= j < |post| ==> !IsVisible(post[j])
    ensures Filter(pre + mid + post, IsVisible) == Filter(mid, IsVisible)
  {
    assert pre + mid + post == pre + (mid + post);
    FilterInvisiblePrefix(pre, mid + post);
    FilterAppend(mid, post, IsVisible);
    FilterDropsAll(post, IsVisible);
  }

  /** Trimming a normal-form string keeps it in normal form. */
  lemma TrimNormal(b: string)
    requires NoTab(b) && NoDoubleSpace(b) && NoBlankLine(b)
    ensures NoTab(Trim(b)) && NoDoubleSpace(Trim(b)) && NoBlankLine(Trim(b))
  {
    var k := TrimSlice(b);
    NormalSlice(b, k, k + |Trim(b)|, Trim(b));
  }

  /** trim() returns a slice of its argument. */
  lemma TrimSlice(b: string) returns (k: nat)
    ensures k + |Trim(b)| <= |b| && b[k..k + |Trim(b)|] == Trim(b)
  {
    k := TrimBySlice(b, IsPhpTrimSpace);
  }

  /** A text is its prefix, middle and suffix put back together. */
  lemma SplitThree(s: string, i: nat, j: nat)
    requires i <= j <= |s|
    ensures s == s[..i] + s[i..j] + s[j..]
  {
    assert s[..j] == s[..i] + s[i..j];
    assert s == s[..j] + s[j..];
  }

  /** Trimming keeps every visible character. */
  lemma TrimKeepsText(b: string)
    ensures Filter(Trim(b), IsVisible) == Filter(b, IsVisible)
  {
    var r := Trim(b);
    var k := TrimBySlice(b, IsPhpTrimSpace);
    var pre, post := b[..k], b[k + |r|..];
    TrimSpaceInvisible(pre);
    TrimSpaceInvisible(post);
    SplitThree(b, k, k + |r|);
    FilterInvisibleAround(pre, b[k..k + |r|], post);
  }

  /** clean_html yields text without tabs, doubled spaces, blank lines or
      surrounding whitespace, and keeps every visible character in order. */
  lemma CleanHtmlNormalForm(toText: string -> string, html: string)
    ensures var r := CleanHtml(toText, html);
      && NoTab(r) && NoDoubleSpace(r) && NoBlankLine(r)
      && Filter(r, IsVisible) == Filter(toText(html), IsVisible)
  {
    var t := toText(html);
    var a := CollapseBlanks(t);
    var b := CollapseBlankLines(a);
    CollapseBlanksNormal(t);
    CollapseBlanksKeepsText(t);
    CollapseBlankLinesKeepsNormal(a);
    CollapseBlankLinesNormal(a);
    CollapseBlankLinesKeepsText(a);
    TrimNormal(b);
    TrimKeepsText(b);
  }
  // ---------------------------------------------------------------------
  // What each whitespace run becomes
  // ---------------------------------------------------------------------

  /** Collapsing blanks works piecewise across a cut after a non-blank. */
  lemma {:induction false} CollapseBlanksSplit(x: string, z: string)
    requires x == [] || !IsBlank(x[|x| - 1])
    ensures CollapseBlanks(x + z) == CollapseBlanks(x) + CollapseBlanks(z)
    decreases |x|
  {
    if x == [] {
      assert x + z == z;
    } else if IsBlank(x[0]) {
      var j := SkipWhile(x, 0, IsBlank);
      assert j < |x|;
      CollapseBlanksSplit(x[j..], z);
      SplitAtBlanks(x, z, j);
    } else {
      CollapseBlanksSplit(x[1..], z);
      SplitAtNonBlank(x[0], x[1..], z);
      assert [x[0]] + x[1..] == x;
    }
  }

  /** The step of CollapseBlanksSplit at a run of blanks ending at `j` inside `x`. */
  lemma SplitAtBlanks(x: string, z: string, j: nat)
    requires x != [] && IsBlank(x[0]) && j == SkipWhile(x, 0, IsBlank) < |x|
    requires CollapseBlanks(x[j..] + z) == CollapseBlanks(x[j..]) + CollapseBlanks(z)
    ensures CollapseBlanks(x + z) == CollapseBlanks(x) + CollapseBlanks(z)
  {
    var s := x + z;
    forall t | 0 <= t < j
      ensures IsBlank(s[t])
    {
      assert s[t] == x[t];
    }
    assert s[j] == x[j];
    SkipWhileUnique(s, 0, j, IsBlank);
    assert s[j..] == x[j..] + z;
    assert CollapseBlanks(s) == " " + CollapseBlanks(x[j..] + z);
    assert CollapseBlanks(x) == " " + CollapseBlanks(x[j..]);
    ConcatAssoc(" ", CollapseBlanks(x[j..]), CollapseBlanks(z));
  }

  /** The step of CollapseBlanksSplit at a non-blank `c`. */
  lemma SplitAtNonBlank(c: char, t: string, z: string)
    requires !IsBlank(c)
    requires CollapseBlanks(t + z) == CollapseBlanks(t) + CollapseBlanks(z)
    ensures CollapseBlanks([c] + t + z) == CollapseBlanks([c] + t) + CollapseBlanks(z)
  {
    assert ([c] + t + z)[1..] == t + z;
    assert ([c] + t)[1..] == t;
    ConcatAssoc([c], CollapseBlanks(t), CollapseBlanks(z));
  }

  /** A run of blanks followed by a non-blank becomes one space. */
  lemma BlankRunCollapsed(w: string, y: string)
    requires w != [] && All(w, IsBlank)
    requires y == [] || !IsBlank(y[0])
    ensures CollapseBlanks(w + y) == " " + CollapseBlanks(y)
  {
    var s := w + y;
    assert forall t :: 0 <= t < |w| ==> s[t] == w[t];
    assert |w| < |s| ==> s[|w|] == y[0];
    SkipWhileUnique(s, 0, |w|, IsBlank);
    assert s[|w|..] == y;
  }

  /** Between two non-blanks, a run of spaces and tabs leaves exactly one space. */
  lemma BlankRunBecomesOneSpace(x: string, w: string, y: string)
    requires x == [] || !IsBlank(x[|x| - 1])
    requires w != [] && All(w, IsBlank)
    requires y == [] || !IsBlank(y[0])
    ensures CollapseBlanks(x + w + y) == CollapseBlanks(x) + " " + CollapseBlanks(y)
  {
    ConcatAssoc(x, w, y);
    CollapseBlanksSplit(x, w + y);
    BlankRunCollapsed(w, y);
    ConcatAssoc(CollapseBlanks(x), " ", CollapseBlanks(y));
  }

  /** LastWhere only looks at the characters in its range. */
  lemma {:induction false} LastWhereSameRange(s: string, x: string, lo: nat, hi: nat, p: char -> bool)
    requires lo <= hi <= |s| && hi <= |x|
    requires forall t :: lo <= t < hi ==> s[t] == x[t]
    ensures LastWhere(s, lo, hi, p) == LastWhere(x, lo, hi, p)
    decreases hi - lo
  {
    if lo < hi && !p(s[hi - 1]) {
      LastWhereSameRange(s, x, lo, hi - 1, p);
    }
  }

  /** LastWhere finds the last position in its range whose character passes. */
  lemma {:induction false} LastWhereIs(s: string, lo: nat, hi: nat, p: char -> bool, k: nat)
    requires lo <= k < hi <= |s| && p(s[k])
    requires forall t :: k < t < hi ==> !p(s[t])
    ensures LastWhere(s, lo, hi, p) == Common.Some(k)
    decreases hi - k
  {
    if k < hi - 1 {
      LastWhereIs(s, lo, hi - 1, p, k);
    }
  }

  /** The text after a line break's blank lines is unaffected by what follows
      a later non-space character. */
  lemma BlankLinesTailSplit(x: string, z: string)
    requires x != [] && x[0] == '\n' && !IsPcreSpace(x[|x| - 1])
    ensures |BlankLinesTail(x)| > 0
    ensures BlankLinesTail(x)[|BlankLinesTail(x)| - 1] == x[|x| - 1]
    ensures BlankLinesTail(x + z) == BlankLinesTail(x) + z
  {
    var s := x + z;
    var w := SkipWhile(x, 1, IsPcreSpace);
    assert w < |x|;
    forall t | 1 <= t < w
      ensures IsPcreSpace(s[t])
    {
      assert s[t] == x[t];
    }
    assert s[w] == x[w];
    SkipWhileUnique(s, 1, w, IsPcreSpace);
    LastWhereSameRange(s, x, 1, w, IsNewline);
    match LastWhere(x, 1, w, IsNewline) {
      case Some(k) =>
        assert s[k + 1..] == x[k + 1..] + z;
      case None =>
        assert s[1..] == x[1..] + z;
    }
  }

  /** At a line break, the output is one line break and the collapsed rest. */
  lemma BreakThenTail(s: string)
    requires s != [] && s[0] == '\n'
    ensures CollapseBlankLines(s) == "\n" + CollapseBlankLines(BlankLinesTail(s))
  {
  }

  /** Collapsing blank lines works piecewise across a cut after a non-space. */
  lemma {:induction false} CollapseBlankLinesSplit(x: string, z: string)
    requires x == [] || !IsPcreSpace(x[|x| - 1])
    ensures CollapseBlankLines(x + z) == CollapseBlankLines(x) + CollapseBlankLines(z)
    decreases |x|
  {
    if x == [] {
      assert x + z == z;
    } else if x[0] == '\n' {
      BlankLinesTailSplit(x, z);
      CollapseBlankLinesSplit(BlankLinesTail(x), z);
      SplitAtBreak(x, z);
    } else {
      CollapseBlankLinesSplit(x[1..], z);
      SplitAtChar(x[0], x[1..], z);
      assert [x[0]] + x[1..] == x;
    }
  }

  /** The step of CollapseBlankLinesSplit at a line break. */
  lemma SplitAtBreak(x: string, z: string)
    requires x != [] && x[0] == '\n'
    requires BlankLinesTail(x + z) == BlankLinesTail(x) + z
    requires CollapseBlankLines(BlankLinesTail(x) + z) == CollapseBlankLines(BlankLinesTail(x)) + CollapseBlankLines(z)
    ensures CollapseBlankLines(x + z) == CollapseBlankLines(x) + CollapseBlankLines(z)
  {
    BreakThenTail(x + z);
    BreakThenTail(x);
    ConcatAssoc("\n", CollapseBlankLines(BlankLinesTail(x)), CollapseBlankLines(z));
  }

  /** The step of CollapseBlankLinesSplit at any other character `c`. */
  lemma SplitAtChar(c: char, t: string, z: string)
    requires c != '\n'
    requires CollapseBlankLines(t + z) == CollapseBlankLines(t) + CollapseBlankLines(z)
    ensures CollapseBlankLines([c] + t + z) == CollapseBlankLines([c] + t) + CollapseBlankLines(z)
  {
    assert ([c] + t + z)[1..] == t + z;
    assert ([c] + t)[1..] == t;
    ConcatAssoc([c], CollapseBlankLines(t), CollapseBlankLines(z));
  }

  /** Text without a line break passes through unchanged. */
  lemma {:induction false} CollapseBlankLinesCopies(v: string, y: string)
    requires '\n' !in v
    ensures CollapseBlankLines(v + y) == v + CollapseBlankLines(y)
    decreases |v|
  {
    if v == [] {
      assert v + y == y;
    } else {
      assert v == [v[0]] + v[1..];
      CollapseBlankLinesCopies(v[1..], y);
      CopyStep(v[0], v[1..], y);
    }
  }

  /** The step of CollapseBlankLinesCopies at a character `c` other than a line break. */
  lemma CopyStep(c: char, t: string, y: string)
    requires c != '\n'
    requires CollapseBlankLines(t + y) == t + CollapseBlankLines(y)
    ensures CollapseBlankLines([c] + t + y) == [c] + t + CollapseBlankLines(y)
  {
    assert ([c] + t + y)[1..] == t + y;
    ConcatAssoc([c], t, CollapseBlankLines(y));
    ConcatAssoc([c], t, y);
  }

  /** Where the parts of "\n" + u + "\n" + v + y sit. */
  lemma BreakRunLayout(z: string, u: string, v: string, y: string)
    requires z == "\n" + u + "\n" + v + y
    ensures |z| == 2 + |u| + |v| + |y| && z[0] == '\n' && z[1 + |u|] == '\n'
    ensures forall t :: 1 <= t < 1 + |u| ==> z[t] == u[t - 1]
    ensures forall t :: 2 + |u| <= t < 2 + |u| + |v| ==> z[t] == v[t - 2 - |u|]
    ensures z[2 + |u|..] == v + y
    ensures z[1..] == u + "\n" + v + y
  {
  }

  /** A line break, `\s` holding a line break, and a line's worth `v` of
      other `\s`: one line break and `v` remain. */
  lemma BreakRunCollapsed(z: string, u: string, v: string, y: string)
    requires z == "\n" + u + "\n" + v + y
    requires All(u, IsPcreSpace) && All(v, IsPcreSpace) && '\n' !in v
    requires y == [] || !IsPcreSpace(y[0])
    ensures CollapseBlankLines(z) == "\n" + v + CollapseBlankLines(y)
  {
    BreakRunLayout(z, u, v, y);
    var k := 1 + |u|;
    var w := k + 1 + |v|;
    assert BlankLinesTail(z) == v + y by {
      forall t | 1 <= t < w
        ensures IsPcreSpace(z[t])
      {
        if t < k {
          assert z[t] == u[t - 1];
        } else if t > k {
          assert z[t] == v[t - k - 1];
        }
      }
      assert w < |z| ==> z[w] == y[0] by {
        if w < |z| {
          assert z[w..][0] == (v + y)[|v|];
        }
      }
      SkipWhileUnique(z, 1, w, IsPcreSpace);
      forall t | k < t < w
        ensures !IsNewline(z[t])
      {
        assert z[t] == v[t - k - 1];
      }
      LastWhereIs(z, 1, w, IsNewline, k);
    }
    BreakThenTail(z);
    CollapseBlankLinesCopies(v, y);
    ConcatAssoc("\n", v, CollapseBlankLines(y));
  }

  /** A line break and a line's worth `v` of other `\s`: both are kept. */
  lemma SingleBreakCollapsed(z: string, v: string, y: string)
    requires z == "\n" + v + y
    requires All(v, IsPcreSpace) && '\n' !in v
    requires y == [] || !IsPcreSpace(y[0])
    ensures CollapseBlankLines(z) == "\n" + v + CollapseBlankLines(y)
  {
    var w := 1 + |v|;
    assert BlankLinesTail(z) == v + y by {
      assert forall t :: 1 <= t < w ==> z[t] == v[t - 1];
      forall t | 1 <= t < w
        ensures IsPcreSpace(z[t]) && !IsNewline(z[t])
      {
        assert z[t] == v[t - 1];
      }
      assert w < |z| ==> z[w] == y[0];
      SkipWhileUnique(z, 1, w, IsPcreSpace);
      assert LastWhere(z, 1, w, IsNewline).None?;
      assert z[1..] == v + y;
    }
    BreakThenTail(z);
    CollapseBlankLinesCopies(v, y);
    ConcatAssoc("\n", v, CollapseBlankLines(y));
  }

  /** A run of `\s` holding two or more line breaks, between two non-spaces,
      becomes one line break followed by whatever came after its last break. */
  lemma BlankLinesBecomeOneBreak(x: string, u: string, v: string, y: string)
    requires x == [] || !IsPcreSpace(x[|x| - 1])
    requires All(u, IsPcreSpace) && All(v, IsPcreSpace) && '\n' !in v
    requires y == [] || !IsPcreSpace(y[0])
    ensures CollapseBlankLines(x + ("\n" + u + "\n" + v + y)) == CollapseBlankLines(x) + ("\n" + v + CollapseBlankLines(y))
  {
    var z := "\n" + u + "\n" + v + y;
    CollapseBlankLinesSplit(x, z);
    BreakRunCollapsed(z, u, v, y);
  }

  /** A run of `\s` holding a single line break, between two non-spaces, is kept. */
  lemma SingleBreakKept(x: string, v: string, y: string)
    requires x == [] || !IsPcreSpace(x[|x| - 1])
    requires All(v, IsPcreSpace) && '\n' !in v
    requires y == [] || !IsPcreSpace(y[0])
    ensures CollapseBlankLines(x + ("\n" + v + y)) == CollapseBlankLines(x) + ("\n" + v + CollapseBlankLines(y))
  {
    var z := "\n" + v + y;
    CollapseBlankLinesSplit(x, z);
    SingleBreakCollapsed(z, v, y);
  }
}

/**
 * The rewriting stages of clean_markdown (converter_ui/app/utils.py,
 * lines 11-96), one function per regular-expression substitution, each
 * written out with the scanning order, laziness and backtracking of
 * Python's re.sub for its pattern.
 */
module Cleaner {
  import opened Options
  import opened Text
  import opened Numbers
  import opened Renumber

  // ---------------------------------------------------------------------
  // Line 21: YAML frontmatter, `^---\n.*?\n---\n` with DOTALL.
  // ---------------------------------------------------------------------

  /** One frontmatter block exactly as line 21 matches it: the opening
      fence, any body (newlines included), and the first closing fence
      after the opening one. */
  ghost predicate IsFrontmatter(block: string) {
    && "---\n" <= block && |block| >= 9 && EndsWith(block, "\n---\n")
    && forall k :: 4 <= k < |block| - 5 ==> !("\n---\n" <= block[k..])
  }

  /** Without MULTILINE `^` only matches at offset 0, so at most one block
      goes, and only one that opens the text. */
  function StripFrontmatter(s: string): (r: string)
    ensures |r| <= |s| && r == s[|s| - |r|..]
    ensures r == s <==> !("---\n" <= s && Contains(s[4..], "\n---\n"))
    ensures r != s ==> IsFrontmatter(s[..|s| - |r|])
  {
    if "---\n" <= s then
      FindFromContains(s, "\n---\n", 4);
      match FindFrom(s, "\n---\n", 4)
      case Some(j) =>
        FrontmatterFound(s, j);
        s[j + 5..]
      case None => s
    else
      s
  }

  /** The block cut off at the first closing fence is a frontmatter block. */
  lemma {:induction false} FrontmatterFound(s: string, j: nat)
    requires "---\n" <= s && FindFrom(s, "\n---\n", 4) == Some(j)
    ensures j + 5 <= |s| && IsFrontmatter(s[..j + 5])
  {
    var block := s[..j + 5];
    assert block[..4] == s[..4];
    assert block[j..] == s[j..j + 5];
    forall k | 4 <= k < j
      ensures !("\n---\n" <= block[k..])
    {
      FenceNotInPrefix(s, block, k, "\n---\n");
    }
  }

  /** No fence at `k` in the text: none there in a prefix of it either. */
  lemma FenceNotInPrefix(s: string, block: string, k: nat, t: string)
    requires block <= s && k <= |block| && !(t <= s[k..])
    ensures !(t <= block[k..])
  {
    assert block[k..] <= s[k..];
  }

  /** A frontmatter block followed by anything goes, and the rest stays as
      it is, even when the rest opens with a second block. */
  lemma {:induction false} FrontmatterRemoved(block: string, rest: string)
    requires IsFrontmatter(block)
    ensures StripFrontmatter(block + rest) == rest
  {
    var s := block + rest;
    var j := |block| - 5;
    assert s[j..j + 5] == block[j..];
    forall k | 4 <= k < j ensures !("\n---\n" <= s[k..]) {
      assert !("\n---\n" <= block[k..]);
      assert block[k..k + 5] == s[k..k + 5];
    }
    assert "---\n" <= s;
    FindFromFirst(s, "\n---\n", 4, j);
    assert s[j + 5..] == rest;
  }

  /** Only the first of two leading blocks is removed. */
  lemma {:induction false} FrontmatterOnce(first: string, second: string, rest: string)
    requires IsFrontmatter(first) && IsFrontmatter(second)
    ensures StripFrontmatter(first + second + rest) == second + rest
  {
    assert first + second + rest == first + (second + rest);
    FrontmatterRemoved(first, second + rest);
  }

  // ---------------------------------------------------------------------
  // Line 24: HTML comments, `<!--.*?-->` with DOTALL.
  // ---------------------------------------------------------------------

  /** re.sub scans left to right: at an opening "<!--" with a "-->" after
      it, everything up to the first such "-->" goes; otherwise one
      character is kept. */
  function StripComments(s: string): (r: string)
    ensures |r| <= |s|
    decreases |s|
  {
    if s == [] then []
    else if "<!--" <= s then
      match FindFrom(s, "-->", 4)
      case Some(j) => StripComments(s[j + 3..])
      case None => [s[0]] + StripComments(s[1..])
    else [s[0]] + StripComments(s[1..])
  }

  /** Text without an opening "<!--" passes unchanged. */
  lemma {:induction false} CommentFree(s: string)
    requires !Contains(s, "<!--")
    ensures StripComments(s) == s
    decreases |s|
  {
    if s != [] {
      CommentFree(s[1..]);
    }
  }

  /** A comment at the start goes whole, from its "<!--" to the first
      "-->" after it, newlines included. */
  lemma {:induction false} CommentAtStart(c: string, b: string)
    requires !Contains(c + "--", "-->")
    ensures StripComments("<!--" + c + "-->" + b) == StripComments(b)
  {
    var s := "<!--" + c + "-->" + b;
    var j := 4 + |c|;
    CommentLayout(c, b, s);
    forall k | 4 <= k < j ensures !("-->" <= s[k..]) {
      NoCloseInside(c, b, s, k);
    }
    FindFromFirst(s, "-->", 4, j);
  }

  lemma CommentLayout(c: string, b: string, s: string)
    requires s == "<!--" + c + "-->" + b
    ensures |s| == |c| + 7 + |b| && "<!--" <= s && "-->" <= s[4 + |c|..] && s[4 + |c| + 3..] == b
  {
    assert s[4 + |c|..] == "-->" + b;
  }

  /** No "-->" starts inside the comment text, up to its last character. */
  lemma NoCloseInside(c: string, b: string, s: string, k: nat)
    requires s == "<!--" + c + "-->" + b && 4 <= k < 4 + |c|
    requires !Contains(c + "--", "-->")
    ensures !("-->" <= s[k..])
  {
    assert s[4..4 + |c| + 2] == c + "--";
    assert (c + "--")[k - 4..k - 1] == s[k..k + 3];
    if "-->" <= s[k..] {
      ContainsAt(c + "--", "-->", k - 4);
    }
  }

  /** Text before an opening "<!--" that holds no "<!--" of its own, nor
      one that runs into the opening, is kept as it is. */
  lemma {:induction false} CommentPrefixKept(a: string, x: string)
    requires !Contains(a + "<!-", "<!--") && "<!-" <= x
    ensures StripComments(a + x) == a + StripComments(x)
    decreases |a|
  {
    if a != [] {
      NoOpeningAtFront(a, x);
      TailNoOpening(a);
      CommentPrefixKept(a[1..], x);
      ConsAppend(a, x, StripComments(x));
    } else {
      assert a + x == x;
    }
  }

  lemma TailNoOpening(a: string)
    requires a != [] && !Contains(a + "<!-", "<!--")
    ensures !Contains(a[1..] + "<!-", "<!--")
  {
    assert (a + "<!-")[1..] == a[1..] + "<!-";
  }

  /** The scan cannot open a comment on the first character of `a`. */
  lemma {:induction false} NoOpeningAtFront(a: string, x: string)
    requires a != [] && !Contains(a + "<!-", "<!--") && "<!-" <= x
    ensures StripComments(a + x) == [a[0]] + StripComments(a[1..] + x)
  {
    var s := a + x;
    assert s[..|a| + 3] == a + "<!-";
    assert (a + "<!-")[..4] == s[..4];
    assert s[1..] == a[1..] + x;
  }

  lemma ConsAppend(a: string, x: string, y: string)
    requires a != []
    ensures [(a + x)[0]] + (a[1..] + y) == a + y
  {
    assert [a[0]] + a[1..] == a;
  }

  /** The first comment goes whole; the text before it is kept and the scan
      goes on after it. */
  lemma {:induction false} CommentRemoved(a: string, c: string, b: string)
    requires !Contains(a + "<!-", "<!--")
    requires !Contains(c + "--", "-->")
    ensures StripComments(a + "<!--" + c + "-->" + b) == a + StripComments(b)
  {
    var tail := "<!--" + c + "-->" + b;
    assert a + "<!--" + c + "-->" + b == a + tail;
    CommentPrefixKept(a, tail);
    CommentAtStart(c, b);
  }

  /** One pass can join two halves into a new comment: the inner comment
      goes and what is left around it is "<!--" + b. */
  lemma CommentReappears(b: string)
    requires !Contains(b, "<!--")
    ensures StripComments("<!-<!---->-" + b) == "<!--" + b
  {
    var a := "<!-";
    var tail := "-" + b;
    var s := "<!-<!---->-" + b;
    ReappearShape(b, a, tail, s);
    HalfOpeningsFree();
    EmptyCloseFree();
    CommentRemovedAt(a, "", tail, s);
    DashThenFree(b, tail);
    CommentFree(tail);
  }

  lemma ReappearShape(b: string, a: string, tail: string, s: string)
    requires a == "<!-" && tail == "-" + b && s == "<!-<!---->-" + b
    ensures s == a + "<!--" + "" + "-->" + tail && a + tail == "<!--" + b
  {
  }

  /** "<!-<!-" holds no opening "<!--". */
  lemma HalfOpeningsFree()
    ensures !Contains("<!-" + "<!-", "<!--")
  {
    var x := "<!-" + "<!-";
    assert |x| == 6 && x[0] == '<' && x[1] == '!' && x[2] == '-' && x[3] == '<' && x[4] == '!' && x[5] == '-';
    forall k | 0 <= k <= |x| ensures !("<!--" <= x[k..]) {
      if k <= 2 {
        assert x[k..][0] == x[k] && x[k..][3] == x[k + 3];
      }
    }
    NotContains(x, "<!--");
  }

  /** "--" holds no closing "-->". */
  lemma EmptyCloseFree()
    ensures !Contains("" + "--", "-->")
  {
    var y := "" + "--";
    forall k | 0 <= k <= |y| ensures !("-->" <= y[k..]) {
      assert |y[k..]| < 3;
    }
    NotContains(y, "-->");
  }

  lemma DashThenFree(b: string, tail: string)
    requires !Contains(b, "<!--") && tail == "-" + b
    ensures !Contains(tail, "<!--")
  {
    assert tail[0] == '-' && tail[1..] == b;
  }

  lemma CommentRemovedAt(a: string, c: string, b: string, s: string)
    requires !Contains(a + "<!-", "<!--") && !Contains(c + "--", "-->")
    requires s == a + "<!--" + c + "-->" + b
    ensures StripComments(s) == a + StripComments(b)
  {
    CommentRemoved(a, c, b);
  }

  // ---------------------------------------------------------------------
  // Line 27: runs of blank lines, `\n{3,}` replaced by "\n\n".
  // ---------------------------------------------------------------------

  /** The length of the leading run of newlines. */
  function NewlineRun(s: string): (k: nat)
    ensures k <= |s|
    ensures forall i :: 0 <= i < k ==> s[i] == '\n'
    ensures k < |s| ==> s[k] != '\n'
  {
    if s != [] && s[0] == '\n' then 1 + NewlineRun(s[1..]) else 0
  }

  /** The greedy `\n{3,}` takes a whole run of three or more newlines and
      leaves two; a shorter run is kept. Afterwards no three newlines in a
      row remain, and the text opens with as many newlines (up to two) as
      before. */
  function CollapseBlankLines(s: string): (r: string)
    ensures ("\n" <= r) == ("\n" <= s)
    ensures ("\n\n" <= r) == ("\n\n" <= s)
    ensures s != [] && s[0] != '\n' ==> r != [] && r[0] == s[0]
    ensures !Contains(r, "\n\n\n")
    decreases |s|
  {
    if "\n\n\n" <= s then
      var k := NewlineRun(s);
      var rest := CollapseBlankLines(s[k..]);
      var r := "\n\n" + rest;
      assert r[1..][1..] == rest;
      r
    else if s == [] then []
    else
      var rest := CollapseBlankLines(s[1..]);
      var r := [s[0]] + rest;
      assert r[1..] == rest;
      r
  }

  /** Text without three newlines in a row passes unchanged. */
  lemma {:induction false} CollapseFree(s: string)
    requires !Contains(s, "\n\n\n")
    ensures CollapseBlankLines(s) == s
    decreases |s|
  {
    if s != [] {
      CollapseFree(s[1..]);
    }
  }

  /** Text before two newlines that holds no three newlines in a row, not
      even together with those two, is kept as it is. */
  lemma {:induction false} CollapsePrefixKept(a: string, x: string)
    requires !Contains(a + "\n\n", "\n\n\n") && "\n\n" <= x
    ensures CollapseBlankLines(a + x) == a + CollapseBlankLines(x)
    decreases |a|
  {
    if a != [] {
      NoRunAtFront(a, x);
      assert (a + "\n\n")[1..] == a[1..] + "\n\n";
      CollapsePrefixKept(a[1..], x);
      ConsAppend(a, x, CollapseBlankLines(x));
    } else {
      assert a + x == x;
    }
  }

  /** The scan cannot start a run of three newlines on the first character
      of `a`. */
  lemma {:induction false} NoRunAtFront(a: string, x: string)
    requires a != [] && !Contains(a + "\n\n", "\n\n\n") && "\n\n" <= x
    ensures CollapseBlankLines(a + x) == [a[0]] + CollapseBlankLines(a[1..] + x)
  {
    var s := a + x;
    assert s[..|a| + 2] == a + "\n\n";
    assert (a + "\n\n")[..3] == s[..3];
    assert s[1..] == a[1..] + x;
  }

  /** A run of three or more newlines at the start becomes exactly two. */
  lemma {:induction false} CollapseRunAtStart(n: nat, b: string)
    requires n >= 3 && (b == [] || b[0] != '\n')
    ensures CollapseBlankLines(Newlines(n) + b) == "\n\n" + CollapseBlankLines(b)
  {
    var s := Newlines(n) + b;
    assert s[..3] == "\n\n\n";
    NewlineRunOf(n, b);
    assert s[n..] == b;
  }

  /** A run of three or more newlines becomes exactly two; the text before
      it is kept and the scan goes on after it. */
  lemma {:induction false} CollapseRun(a: string, n: nat, b: string)
    requires !Contains(a + "\n\n", "\n\n\n")
    requires n >= 3
    requires b == [] || b[0] != '\n'
    ensures CollapseBlankLines(a + Newlines(n) + b) == a + "\n\n" + CollapseBlankLines(b)
  {
    var x := Newlines(n) + b;
    assert "\n\n" <= x by { assert x[0] == '\n' && x[1] == '\n'; }
    CollapsePrefixKept(a, x);
    CollapseRunAtStart(n, b);
    AppendAssoc(a, Newlines(n), b);
    AppendAssoc(a, "\n\n", CollapseBlankLines(b));
  }

  /** `n` newlines. */
  function Newlines(n: nat): (r: string)
    ensures |r| == n && forall i :: 0 <= i < n ==> r[i] == '\n'
  {
    if n == 0 then [] else "\n" + Newlines(n - 1)
  }

  lemma {:induction false} NewlineRunOf(n: nat, b: string)
    requires b == [] || b[0] != '\n'
    ensures NewlineRun(Newlines(n) + b) == n
  {
    if n > 0 {
      assert (Newlines(n) + b)[1..] == Newlines(n - 1) + b;
      NewlineRunOf(n - 1, b);
    }
  }

  // ---------------------------------------------------------------------
  // Line 30: header spacing, `^(#+)([^ \n])` with MULTILINE, replaced by
  // `\1 \2`.
  // ---------------------------------------------------------------------

  /** The length of the leading run of '#'. */
  function HashRun(l: string): (k: nat)
    ensures k <= |l| && forall i :: 0 <= i < k ==> l[i] == '#'
    ensures k < |l| ==> l[k] != '#'
  {
    if l != [] && l[0] == '#' then 1 + HashRun(l[1..]) else 0
  }

  /** A string of one or more '#'. */
  predicate IsHashes(h: string) {
    h != [] && forall i :: 0 <= i < |h| ==> h[i] == '#'
  }

  /** After the leading '#' run comes a space or the end of the line. */
  predicate HeaderSpaced(l: string) {
    var k := HashRun(l);
    k == |l| || l[k] == ' '
  }

  /** The header fix on one line. MULTILINE `^` matches at each line start
      and `[^ \n]` never crosses a newline, so the substitution works line
      by line, at most once per line. The greedy `#+` takes the whole run;
      when a space or the end of the line follows it, it gives one '#' back
      to `[^ \n]`. A line that already reads "# x" is kept, but "## x"
      becomes "# # x". */
  function FixHeaderLine(l: string): (r: string)
    requires '\n' !in l
    ensures '\n' !in r
    ensures |r| == |l| || |r| == |l| + 1
  {
    var k := HashRun(l);
    if k == 0 then l
    else if k < |l| && l[k] != ' ' then InsertSpace(l, k)
    else if k >= 2 then InsertSpace(l, k - 1)
    else l
  }

  /** The line with a space put in front of position k. */
  function InsertSpace(l: string, k: nat): (r: string)
    requires k <= |l|
    ensures |r| == |l| + 1 && r[..k] == l[..k] && r[k] == ' ' && r[k + 1..] == l[k..]
    ensures '\n' !in l ==> '\n' !in r
  {
    var r := l[..k] + " " + l[k..];
    assert r[k + 1..] == l[k..];
    r
  }

  /** The fix keeps exactly the lines that are not headers, the bare "#"
      and the lines that already read "# "; every header comes out with a
      space after its '#' run. */
  lemma FixHeaderLineSpec(l: string)
    requires '\n' !in l
    ensures FixHeaderLine(l) == l <==> (!("#" <= l) || l == "#" || "# " <= l)
    ensures "#" <= l ==> "#" <= FixHeaderLine(l) && HeaderSpaced(FixHeaderLine(l))
  {
    var k := HashRun(l);
    var r := FixHeaderLine(l);
    if k == 0 {
      assert !("#" <= l);
    } else if k < |l| && l[k] != ' ' {
      assert r == InsertSpace(l, k);
      SpacedAt(l, k);
      assert !("# " <= l) by { assert k == 1 ==> l[1] != ' '; }
    } else if k >= 2 {
      assert r == InsertSpace(l, k - 1);
      SpacedAt(l, k - 1);
      assert l[1] == '#';
    } else {
      assert r == l && l[0] == '#';
      assert |l| == 1 || l[1] == ' ';
      assert HeaderSpaced(l);
    }
  }

  /** A space put in right after a run of '#' ends a header's '#' run there. */
  lemma {:induction false} SpacedAt(l: string, k: nat)
    requires 1 <= k <= |l| && forall i :: 0 <= i < k ==> l[i] == '#'
    ensures var r := InsertSpace(l, k); "#" <= r && HashRun(r) == k && HeaderSpaced(r) && r != l
  {
    var r := InsertSpace(l, k);
    assert r == r[..k] + r[k..];
    HashRunOf(r[..k], r[k..]);
    assert r[..1] == l[..1];
    assert |r| != |l|;
  }

  lemma {:induction false} HashRunOf(h: string, t: string)
    requires forall i :: 0 <= i < |h| ==> h[i] == '#'
    requires t == [] || t[0] != '#'
    ensures HashRun(h + t) == |h|
    decreases |h|
  {
    if h != [] {
      assert (h + t)[1..] == h[1..] + t;
      HashRunOf(h[1..], t);
    }
  }

  /** A header whose '#' run is followed directly by text gets one space
      after the run: "#x" becomes "# x", "##x" becomes "## x". */
  lemma {:induction false} HeaderGetsSpace(h: string, c: char, t: string)
    requires IsHashes(h) && c != '#' && c != ' ' && c != '\n' && '\n' !in t
    ensures FixHeaderLine(h + [c] + t) == h + " " + [c] + t
  {
    var l := h + [c] + t;
    assert l == h + ([c] + t);
    HashRunOf(h, [c] + t);
    assert l[..|h|] == h && l[|h|..] == [c] + t;
  }

  /** A header whose '#' run is already followed by a space (or by nothing)
      and has two or more '#' gets a space before its last '#':
      "## x" becomes "# # x" and "##" becomes "# #". */
  lemma {:induction false} SpacedHeaderSplit(h: string, t: string)
    requires IsHashes(h) && |h| >= 2 && (t == [] || t[0] == ' ') && '\n' !in t
    ensures FixHeaderLine(h + t) == h[..|h| - 1] + " #" + t
  {
    var l := h + t;
    var j := |h| - 1;
    SpacedRunFix(h, t, l);
    SpacedSplitShape(h, t, l, j);
  }

  lemma SpacedRunFix(h: string, t: string, l: string)
    requires IsHashes(h) && |h| >= 2 && (t == [] || t[0] == ' ') && '\n' !in t && l == h + t
    ensures FixHeaderLine(l) == InsertSpace(l, |h| - 1)
  {
    HashRunOf(h, t);
    assert |h| < |l| ==> l[|h|] == t[0];
  }

  lemma SpacedSplitShape(h: string, t: string, l: string, j: nat)
    requires |h| >= 2 && j == |h| - 1 && h[j] == '#' && l == h + t
    ensures InsertSpace(l, j) == h[..j] + " #" + t
  {
    assert l[j..] == "#" + t by {
      assert l[j] == '#' && l[j + 1..] == t;
    }
    assert l[..j] == h[..j];
    assert InsertSpace(l, j) == l[..j] + " " + l[j..];
    assert h[..j] + " #" + t == h[..j] + " " + ("#" + t);
  }

  /** Applying the fix twice is not applying it once: "##x" becomes "## x",
      which the second application turns into "# # x". */
  lemma {:induction false} FixHeaderNotIdempotent(c: char, t: string)
    requires c != '#' && c != ' ' && c != '\n' && '\n' !in t
    ensures FixHeaderLine("##" + [c] + t) == "## " + [c] + t
    ensures FixHeaderLine("## " + [c] + t) == "# # " + [c] + t
  {
    FirstFixTwo(c, t);
    SecondFixTwo(c, t);
  }

  lemma {:induction false} FirstFixTwo(c: char, t: string)
    requires c != '#' && c != ' ' && c != '\n' && '\n' !in t
    ensures FixHeaderLine("##" + [c] + t) == "## " + [c] + t
  {
    HeaderGetsSpace("##", c, t);
    FirstFixShape(c, t);
  }

  lemma FirstFixShape(c: char, t: string)
    ensures "##" + " " + [c] + t == "## " + [c] + t
  {
  }

  lemma {:induction false} SecondFixTwo(c: char, t: string)
    requires c != '#' && c != ' ' && c != '\n' && '\n' !in t
    ensures FixHeaderLine("## " + [c] + t) == "# # " + [c] + t
  {
    var v := [c] + t;
    SecondFixShape(c, t, v);
    SpacedHeaderSplit("##", " " + v);
  }

  lemma SecondFixShape(c: char, t: string, v: string)
    requires v == [c] + t
    ensures "## " + [c] + t == "##" + (" " + v)
    ensures "# # " + [c] + t == "##"[..1] + " #" + (" " + v)
  {
    assert "##"[..1] == "#";
  }

  /** The header fix applied to every line. */
  function FixLines(lines: seq<string>): (r: seq<string>)
    requires forall i :: 0 <= i < |lines| ==> '\n' !in lines[i]
    ensures |r| == |lines|
    ensures forall i :: 0 <= i < |lines| ==> r[i] == FixHeaderLine(lines[i])
  {
    seq(|lines|, i requires 0 <= i < |lines| => FixHeaderLine(lines[i]))
  }

  /** Line 30 on a whole text: the result has the same lines, each with the
      header fix applied; lines that do not start with '#' are kept. */
  function FixHeaders(s: string): (r: string)
    ensures Split(r) == FixLines(Split(s))
  {
    var lines := FixLines(Split(s));
    SplitJoin(lines);
    Join(lines)
  }

  // ---------------------------------------------------------------------
  // Line 35: block tags,
  // `</?(div|span|html|body|head|script|style|iframe|link|meta).*?>`
  // with IGNORECASE.
  // ---------------------------------------------------------------------

  /** The alternatives of the tag pattern, in order. */
  const TagNames: seq<string> := ["div", "span", "html", "body", "head", "script", "style", "iframe", "link", "meta"]

  predicate IsLowerLetter(c: char) {
    'a' <= c <= 'z'
  }

  predicate AllLower(n: string) {
    forall i :: 0 <= i < |n| ==> IsLowerLetter(n[i])
  }

  lemma TagNamesLower()
    ensures forall n :: n in TagNames ==> AllLower(n)
  {
    assert AllLower("div") && AllLower("span") && AllLower("html") && AllLower("body") && AllLower("head");
    assert AllLower("script") && AllLower("style") && AllLower("iframe") && AllLower("link") && AllLower("meta");
  }

  /** `s` starts with `name`, ASCII case ignored. */
  predicate StartsWithName(s: string, name: string) {
    |name| <= |s| && AsciiLower(s[..|name|]) == name
  }

  /** The first alternative that `s` starts with. */
  function FirstName(s: string, names: seq<string>): (r: Option<string>)
    ensures r.Some? ==> r.value in names
  {
    if names == [] then None
    else if StartsWithName(s, names[0]) then Some(names[0])
    else FirstName(s, names[1..])
  }

  /** The alternative found is one `s` starts with; none is found only when
      `s` starts with none of them. */
  lemma {:induction false} FirstNameSpec(s: string, names: seq<string>)
    ensures FirstName(s, names).Some? ==> StartsWithName(s, FirstName(s, names).value)
    ensures FirstName(s, names).None? ==> forall n :: n in names ==> !StartsWithName(s, n)
    decreases |names|
  {
    if names != [] && !StartsWithName(s, names[0]) {
      FirstNameSpec(s, names[1..]);
      assert forall n :: n in names ==> n == names[0] || n in names[1..];
    }
  }

  /** A name matched ignoring case consists of letters, so it holds no
      newline and no '>'. */
  lemma {:induction false} NameLetters(s: string, name: string, i: nat)
    requires name in TagNames && StartsWithName(s, name) && i < |name|
    ensures s[i] != '\n' && s[i] != '>'
  {
    TagNamesLower();
    assert AllLower(name);
    assert IsLowerLetter(name[i]);
    assert AsciiLower(s[..|name|])[i] == name[i];
  }

  lemma NameNoNewline(s: string, p: nat, name: string)
    requires p <= |s| && name in TagNames && StartsWithName(s[p..], name)
    ensures forall k :: p <= k < p + |name| ==> s[k] != '\n'
  {
    forall k | p <= k < p + |name| ensures s[k] != '\n' {
      NameLetters(s[p..], name, k - p);
    }
  }

  /** The end of the lazy `.*?>` from `i`: just past the first '>', unless a
      newline or the end of the text comes first. */
  function CloseFrom(s: string, i: nat): (r: Option<nat>)
    requires i <= |s|
    ensures r.Some? ==> i < r.value <= |s| && s[r.value - 1] == '>'
    decreases |s| - i
  {
    if i == |s| then None
    else if s[i] == '>' then Some(i + 1)
    else if s[i] == '\n' then None
    else CloseFrom(s, i + 1)
  }

  /** The '>' found is the first one from `i`, with no newline before it;
      none is found only when every later '>' has a newline before it. */
  lemma {:induction false} CloseFromSpec(s: string, i: nat)
    requires i <= |s|
    ensures var r := CloseFrom(s, i);
      r.Some? ==> forall k :: i <= k < r.value - 1 ==> s[k] != '>' && s[k] != '\n'
    ensures CloseFrom(s, i).None? ==> forall e :: i <= e < |s| && s[e] == '>' ==> '\n' in s[i..e]
    decreases |s| - i
  {
    if i == |s| || s[i] == '>' {
    } else if s[i] == '\n' {
      assert forall e :: i < e < |s| ==> s[i..e][0] == '\n';
    } else {
      CloseFromSpec(s, i + 1);
      assert forall e :: i + 1 <= e < |s| ==> s[i + 1..e] == s[i..e][1..];
    }
  }

  /** Where the name of a tag opening `s` starts: after "</" or "<". */
  function NameStart(s: string): (p: nat)
    requires s != []
    ensures p == 1 || p == 2
    ensures p <= |s|
  {
    if |s| > 1 && s[1] == '/' then 2 else 1
  }

  /** The length of a block tag at the start of `s`, if one starts there:
      '<', an optional '/', a listed name in any ASCII case, and everything
      up to the first '>' on the same line. */
  function TagEnd(s: string): (r: Option<nat>)
    ensures r.Some? ==> 2 <= r.value <= |s| && s[0] == '<' && s[r.value - 1] == '>'
    ensures r.Some? ==> '\n' !in s[..r.value]
  {
    if s == [] || s[0] != '<' then None
    else
      var p := NameStart(s);
      match FirstName(s[p..], TagNames)
      case None => None
      case Some(n) => TagClose(s, p, n)
  }

  /** The end of a tag whose name `n` starts at `p`. */
  function TagClose(s: string, p: nat, n: string): (r: Option<nat>)
    requires s != [] && s[0] == '<' && NameStart(s) == p
    requires FirstName(s[p..], TagNames) == Some(n)
    ensures r.Some? ==> 2 <= r.value <= |s| && s[r.value - 1] == '>' && '\n' !in s[..r.value]
  {
    FirstNameSpec(s[p..], TagNames);
    NameNoNewline(s, p, n);
    TagSpan(s, p, n);
    CloseFrom(s, p + |n|)
  }

  /** A tag whose name holds no newline ends on the line it opens on. */
  lemma TagSpan(s: string, p: nat, n: string)
    requires s != [] && s[0] == '<' && NameStart(s) == p
    requires p + |n| <= |s| && forall k :: p <= k < p + |n| ==> s[k] != '\n'
    ensures var r := CloseFrom(s, p + |n|);
      r.Some? ==> 2 <= r.value <= |s| && s[r.value - 1] == '>' && '\n' !in s[..r.value]
  {
    var r := CloseFrom(s, p + |n|);
    CloseFromSpec(s, p + |n|);
    if r.Some? {
      forall k | 0 <= k < r.value ensures s[..r.value][k] != '\n' {
        assert s[..r.value][k] == s[k];
        if k < p {
          assert k == 0 || s[k] == '/';
        }
      }
    }
  }

  /** A tag is found only where '<', an optional '/' and a listed name
      (in any ASCII case) open the text. */
  lemma TagEndNamed(s: string)
    ensures TagEnd(s).Some? ==> OpensTag(s)
  {
    if TagEnd(s).Some? {
      var p := NameStart(s);
      FirstNameSpec(s[p..], TagNames);
      var n := FirstName(s[p..], TagNames).value;
      assert n in TagNames && StartsWithName(s[p..], n);
    }
  }

  /** `s` opens with '<', an optional '/' and a listed name in any ASCII
      case: the part of the tag pattern before `.*?>`. */
  predicate OpensTag(s: string) {
    s != [] && s[0] == '<' && exists n :: n in TagNames && StartsWithName(s[NameStart(s)..], n)
  }

  /** re.sub with the tag pattern: each tag at the scan position goes, from
      '<' to its '>'; every other character is kept. A tag never spans a
      newline, so the text keeps its lines. */
  function StripTags(s: string): (r: string)
    ensures |r| <= |s|
    decreases |s|
  {
    if s == [] then []
    else match TagEnd(s)
      case Some(e) => StripTags(s[e..])
      case None => [s[0]] + StripTags(s[1..])
  }

  /** Every newline survives the tag pass. */
  lemma {:induction false} StripTagsNewlines(s: string)
    ensures multiset(StripTags(s))['\n'] == multiset(s)['\n']
    decreases |s|
  {
    if s != [] {
      match TagEnd(s)
      case Some(e) =>
        assert s == s[..e] + s[e..];
        StripTagsNewlines(s[e..]);
      case None =>
        assert s == [s[0]] + s[1..];
        StripTagsNewlines(s[1..]);
    }
  }

  /** A text in which no listed tag name follows any '<' (after an
      optional '/') passes the tag pass unchanged. */
  lemma {:induction false} NoTagKept(s: string)
    requires forall i :: 0 <= i < |s| ==> !OpensTag(s[i..])
    ensures StripTags(s) == s
    decreases |s|
  {
    if s != [] {
      assert s[0..] == s;
      TagEndNamed(s);
      forall i | 0 <= i < |s[1..]| ensures !OpensTag(s[1..][i..]) {
        assert s[1..][i..] == s[i + 1..];
      }
      NoTagKept(s[1..]);
      assert [s[0]] + s[1..] == s;
    }
  }

  /** Text without '<' passes unchanged, and so does any text before the
      first '<'. */
  lemma {:induction false} TagPrefixKept(a: string, x: string)
    requires '<' !in a
    ensures StripTags(a + x) == a + StripTags(x)
    decreases |a|
  {
    if a != [] {
      var s := a + x;
      assert s[0] == a[0] && s[1..] == a[1..] + x;
      TagPrefixKept(a[1..], x);
      ConsAppend(a, x, StripTags(x));
    } else {
      assert a + x == x;
    }
  }

  /** A tag at the start goes whole, whatever follows its name up to the
      first '>' on its line. */
  lemma {:induction false} TagRemoved(slash: string, w: string, name: string, b: string, s: string)
    requires slash == "" || slash == "/"
    requires name in TagNames && StartsWithName(w, name)
    requires '>' !in w && '\n' !in w
    requires s == "<" + slash + w + ">" + b
    ensures StripTags(s) == StripTags(b)
  {
    var e := |slash| + 1 + |w|;
    TagEndOf(slash, w, name, b, s);
    assert s[e + 1..] == b;
  }

  /** Where the tag of TagRemoved ends. */
  lemma {:induction false} TagEndOf(slash: string, w: string, name: string, b: string, s: string)
    requires slash == "" || slash == "/"
    requires name in TagNames && StartsWithName(w, name)
    requires '>' !in w && '\n' !in w
    requires s == "<" + slash + w + ">" + b
    ensures TagEnd(s) == Some(|slash| + 1 + |w| + 1)
  {
    var pre := "<" + slash;
    TagTextShape(slash, w, b, pre, s);
    TagNameStart(slash, w, name, b, s);
    var n := FirstNameOf(w, name, ">" + b);
    CloseInWord(pre, w, b, |n|, s);
    TagEndFound(s, |pre|, w + (">" + b), n);
  }

  lemma TagTextShape(slash: string, w: string, b: string, pre: string, s: string)
    requires pre == "<" + slash && s == "<" + slash + w + ">" + b
    ensures s == pre + w + (">" + b) && |pre| == |slash| + 1
  {
  }

  /** The name of the tag starts right after "<" + slash. */
  lemma TagNameStart(slash: string, w: string, name: string, b: string, s: string)
    requires slash == "" || slash == "/"
    requires name in TagNames && StartsWithName(w, name)
    requires s == ("<" + slash) + w + (">" + b)
    ensures s != [] && s[0] == '<' && NameStart(s) == |slash| + 1 && s[|slash| + 1..] == w + (">" + b)
  {
    NameLetters(w, name, 0);
    assert s[1] == if slash == "/" then '/' else w[0];
    assert s[|slash| + 1..] == w + (">" + b);
  }

  /** TagEnd once the name and the closing '>' are known. */
  lemma TagEndFound(s: string, p: nat, rest: string, n: string)
    requires s != [] && s[0] == '<' && NameStart(s) == p && s[p..] == rest
    requires FirstName(rest, TagNames) == Some(n) && p + |n| <= |s|
    ensures TagEnd(s) == CloseFrom(s, p + |n|)
  {
    TagEndMatch(s, p, n);
  }

  lemma TagEndMatch(s: string, p: nat, n: string)
    requires s != [] && s[0] == '<' && NameStart(s) == p
    requires FirstName(s[p..], TagNames) == Some(n)
    ensures TagEnd(s) == TagClose(s, p, n)
  {
  }

  /** Scanning the rest of the word for the closing '>'. */
  lemma {:induction false} CloseInWord(pre: string, w: string, b: string, i: nat, s: string)
    requires i <= |w| && '>' !in w && '\n' !in w
    requires s == pre + w + (">" + b)
    ensures CloseFrom(s, |pre| + i) == Some(|pre| + |w| + 1)
    decreases |w| - i
  {
    if i == |w| {
      assert s[|pre| + |w|] == '>';
    } else {
      assert s[|pre| + i] == w[i];
      CloseInWord(pre, w, b, i + 1, s);
    }
  }

  /** The alternative found in `w + t`, when `w` starts with a listed name
      and `t` starts with a non-letter, ends within `w`. */
  lemma {:induction false} FirstNameOf(w: string, name: string, t: string) returns (n: string)
    requires name in TagNames && StartsWithName(w, name)
    requires t != [] && t[0] == '>'
    ensures FirstName(w + t, TagNames) == Some(n) && |n| <= |w|
  {
    assert (w + t)[..|name|] == w[..|name|];
    assert StartsWithName(w + t, name);
    FirstNameSpec(w + t, TagNames);
    n := FirstName(w + t, TagNames).value;
    assert (w + t)[|w|] == '>';
    if |n| > |w| {
      NameLetters(w + t, n, |w|);
    }
  }

  /** The name alternatives match longer words too: "<divider>" goes. */
  lemma {:induction false} DividerRemoved(b: string)
    ensures StripTags("<divider>" + b) == StripTags(b)
  {
    var s := "<divider>" + b;
    assert s == "<" + "" + "divider" + ">" + b;
    DividerStartsWithDiv();
    TagRemoved("", "divider", "div", b, s);
  }

  lemma DividerStartsWithDiv()
    ensures StartsWithName("divider", "div") && "div" in TagNames
    ensures '>' !in "divider" && '\n' !in "divider"
  {
    assert "divider"[..3] == "div";
    assert AsciiLower("div") == "div";
  }

  /** A word that starts with none of the names is text: "<Value>" stays. */
  lemma {:induction false} ValueKept(b: string)
    ensures StripTags("<Value>" + b) == "<Value>" + StripTags(b)
  {
    var s := "<Value>" + b;
    ValueSplit(b);
    ValueSplit(StripTags(b));
    NoTagAtValue(b);
    assert StripTags(s) == [s[0]] + StripTags(s[1..]);
    assert '<' !in "Value>";
    TagPrefixKept("Value>", b);
  }

  lemma ValueSplit(y: string)
    ensures ("<Value>" + y)[0] == '<' && "<Value>" + y == "<" + ("Value>" + y)
    ensures ['<'] + ("Value>" + y) == "<Value>" + y
  {
  }

  lemma {:induction false} NoTagAtValue(b: string)
    ensures TagEnd("<Value>" + b) == None && ("<Value>" + b)[1..] == "Value>" + b
  {
    var s := "<Value>" + b;
    var x := s[1..];
    assert x == "Value>" + b;
    assert x[0] == 'V';
    assert forall n :: n in TagNames ==> n != [] && n[0] != 'v';
    forall n | n in TagNames ensures !StartsWithName(x, n) {
      assert |n| <= |x| ==> AsciiLower(x[..|n|])[0] == 'v';
    }
    FirstNameSpec(x, TagNames);
    assert s[0] == '<' && s[1] != '/';
  }

  /** Tag stripping can bring back the three newlines line 27 removed: a
      text without them gains them once a tag line between them goes. */
  lemma {:induction false} TagsRecreateTriple(a: string, b: string)
    requires '<' !in a && '\n' !in a && '\n' !in b
    ensures !Contains(a + "\n<div>\n\n" + b, "\n\n\n")
    ensures StripTags(a + "\n<div>\n\n" + b) == a + "\n\n\n" + StripTags(b)
  {
    NoTripleAroundTag(a, b);
    var s := a + "\n<div>\n\n" + b;
    var a1 := a + "\n";
    var tail := "<div>\n\n" + b;
    var rest := "\n\n" + b;
    TripleShape(a, b, s, a1, tail, rest);
    DivStartsWithDiv();
    TagPrefixKept(a1, tail);
    TagRemoved("", "div", "div", rest, tail);
    TagPrefixKept("\n\n", b);
    TripleJoin(a, a1, StripTags(b));
  }

  lemma TripleShape(a: string, b: string, s: string, a1: string, tail: string, rest: string)
    requires '<' !in a && s == a + "\n<div>\n\n" + b && a1 == a + "\n"
    requires tail == "<div>\n\n" + b && rest == "\n\n" + b
    ensures s == a1 + tail && tail == "<" + "" + "div" + ">" + rest
    ensures '<' !in a1 && '<' !in "\n\n"
  {
  }

  lemma TripleJoin(a: string, a1: string, z: string)
    requires a1 == a + "\n"
    ensures a1 + ("\n\n" + z) == a + "\n\n\n" + z
  {
  }

  lemma DivStartsWithDiv()
    ensures StartsWithName("div", "div") && "div" in TagNames
    ensures '>' !in "div" && '\n' !in "div"
  {
    assert "div"[..3] == "div";
    assert AsciiLower("div") == "div";
  }

  lemma {:induction false} NoTripleAroundTag(a: string, b: string)
    requires '\n' !in a && '\n' !in b
    ensures !Contains(a + "\n<div>\n\n" + b, "\n\n\n")
  {
    var m := "\n<div>\n\n";
    var s := a + m + b;
    forall j | 0 <= j < |s| ensures s[j] == '\n' ==> j == |a| || j == |a| + 6 || j == |a| + 7 {
      if j < |a| {
        assert s[j] == a[j];
      } else if j < |a| + 8 {
        assert s[j] == m[j - |a|];
      } else {
        assert s[j] == b[j - |a| - 8];
      }
    }
    forall k | 0 <= k <= |s| ensures !("\n\n\n" <= s[k..]) {
      if k + 3 <= |s| {
        assert s[k..][0] == s[k] && s[k..][1] == s[k + 1] && s[k..][2] == s[k + 2];
      }
    }
    NotContains(s, "\n\n\n");
  }

  // ---------------------------------------------------------------------
  // Line 44: blank line before images, `([^\n])\n!\[` replaced by
  // `\1\n\n![`.
  // ---------------------------------------------------------------------

  /** re.sub scans left to right: a non-newline followed by "\n![" gets a
      second newline, and the scan goes on after the "!["; every other
      character is kept. */
  function SpaceImages(s: string): (r: string)
    ensures |r| >= |s|
    decreases |s|
  {
    if |s| >= 4 && s[0] != '\n' && s[1..4] == "\n![" then [s[0]] + "\n\n![" + SpaceImages(s[4..])
    else if s == [] then []
    else [s[0]] + SpaceImages(s[1..])
  }

  /** Text without "\n![" passes unchanged. */
  lemma {:induction false} ImageFree(s: string)
    requires !Contains(s, "\n![")
    ensures SpaceImages(s) == s
    decreases |s|
  {
    if s != [] {
      if |s| >= 4 {
        assert s[1..4] == s[1..][..3];
      }
      ImageFree(s[1..]);
    }
  }

  /** Text in front of `x` whose own characters start no match (not even
      one reaching into the first three characters of `x`) is kept. */
  lemma {:induction false} ImagePrefixKept(a: string, x: string)
    requires |x| >= 3 && !Contains(a + x[..3], "\n![")
    ensures SpaceImages(a + x) == a + SpaceImages(x)
    decreases |a|
  {
    if a != [] {
      NoImageAtFront(a, x);
      assert (a + x[..3])[1..] == a[1..] + x[..3];
      ImagePrefixKept(a[1..], x);
      ConsAppend(a, x, SpaceImages(x));
    } else {
      assert a + x == x;
    }
  }

  lemma {:induction false} NoImageAtFront(a: string, x: string)
    requires a != [] && |x| >= 3 && !Contains(a + x[..3], "\n![")
    ensures SpaceImages(a + x) == [a[0]] + SpaceImages(a[1..] + x)
  {
    var s := a + x;
    var w := a + x[..3];
    assert s[..|w|] == w;
    assert (a + x[..3])[1..] == a[1..] + x[..3];
    assert !Contains(w[1..], "\n![");
    assert s[1..4] == w[1..][..3];
    assert s[1..] == a[1..] + x;
  }

  /** An image line after a line that ends in a non-newline gets a blank
      line before it; the text before is kept and the scan goes on after
      the "![". */
  lemma {:induction false} ImageSpaced(a: string, c: char, b: string)
    requires c != '\n' && !Contains(a + [c] + "\n!", "\n![")
    ensures SpaceImages(a + [c] + "\n![" + b) == a + [c] + "\n\n![" + SpaceImages(b)
  {
    var x := [c] + "\n![" + b;
    ImageSpacedSplit(a, c, b);
    ImagePrefixKept(a, x);
    assert x[1..4] == "\n![" && x[4..] == b;
    ImageSpacedJoin(a, c, SpaceImages(b));
  }

  lemma ImageSpacedSplit(a: string, c: char, b: string)
    ensures a + [c] + "\n![" + b == a + ([c] + "\n![" + b)
    ensures ([c] + "\n![" + b)[..3] == [c] + "\n!" && a + ([c] + "\n!") == a + [c] + "\n!"
  {
  }

  lemma ImageSpacedJoin(a: string, c: char, y: string)
    ensures a + ([c] + "\n\n![" + y) == a + [c] + "\n\n![" + y
  {
  }

  /** The scan does not look back: after "x\n![" has been spaced, a second
      "\n![" right behind it is preceded by the consumed '[' and stays as it
      is. */
  lemma {:induction false} AdjacentImageNotSpaced(c: char, b: string)
    requires c != '\n' && !("\n![" <= b)
    ensures SpaceImages([c] + "\n![\n![" + b) == [c] + "\n\n![\n![" + SpaceImages(b)
  {
    var s := [c] + "\n![\n![" + b;
    var t := "\n![" + b;
    var u := "![" + b;
    var v := "[" + b;
    AdjacentSplit(c, b, s, t);
    ImageStepAt(s, t);
    AdjacentTail(b, t, u, v);
    KeptStepAt(t, u);
    KeptStepAt(u, v);
    KeptStepAt(v, b);
    AdjacentJoin(c, SpaceImages(b));
  }

  /** The scan at a match: the character, then the blank line, then the
      image marker. */
  lemma ImageStepAt(s: string, rest: string)
    requires |s| >= 4 && s[0] != '\n' && s[1..4] == "\n![" && rest == s[4..]
    ensures SpaceImages(s) == [s[0]] + "\n\n![" + SpaceImages(rest)
  {
  }

  /** The scan elsewhere: one character is kept. */
  lemma KeptStepAt(s: string, rest: string)
    requires s != [] && rest == s[1..] && !(|s| >= 4 && s[0] != '\n' && s[1..4] == "\n![")
    ensures SpaceImages(s) == [s[0]] + SpaceImages(rest)
  {
  }

  lemma AdjacentTail(b: string, t: string, u: string, v: string)
    requires !("\n![" <= b) && t == "\n![" + b && u == "![" + b && v == "[" + b
    ensures t[0] == '\n' && t[1..] == u && u[0] == '!' && u[1..] == v && v[1..] == b
    ensures !(|u| >= 4 && u[0] != '\n' && u[1..4] == "\n![")
    ensures !(|v| >= 4 && v[0] != '\n' && v[1..4] == "\n![")
  {
    assert u[1] == '[';
    assert |v| >= 4 ==> v[1..4] == b[..3];
  }

  lemma AdjacentSplit(c: char, b: string, s: string, t: string)
    requires c != '\n' && s == [c] + "\n![\n![" + b && t == "\n![" + b
    ensures |s| >= 4 && s[0] == c && s[1..4] == "\n![" && s[4..] == t
  {
  }

  lemma AdjacentJoin(c: char, y: string)
    ensures [c] + "\n\n![" + ("\n" + ("!" + ("[" + y))) == [c] + "\n\n![\n![" + y
  {
  }

  // ---------------------------------------------------------------------
  // Lines 49-53: the title header.
  // ---------------------------------------------------------------------

  /** `if title:` skips None and the empty title. Otherwise "# title" and a
      blank line go in front unless the first line of the stripped text
      already starts with "# title" (a prefix test, so "# Foobar" counts
      for the title "Foo"). */
  function InjectTitle(md: string, title: Option<string>): (r: string)
    ensures r == md || (title.Some? && r == "# " + title.value + "\n\n" + md)
  {
    match title
    case None => md
    case Some(t) =>
      if t == [] then md
      else if "# " + t <= FirstLine(Strip(md)) then md
      else "# " + t + "\n\n" + md
  }

  /** No title or an empty one leaves the text alone; otherwise the header
      goes in front exactly when the first line of the stripped text does
      not already start with it. */
  lemma InjectTitleSpec(md: string, title: Option<string>)
    ensures title.None? || title.value == [] ==> InjectTitle(md, title) == md
    ensures title.Some? && title.value != [] ==>
      (InjectTitle(md, title) == md <==> "# " + title.value <= FirstLine(Strip(md)))
    ensures InjectTitle(md, title) != md ==> title.Some? && InjectTitle(md, title) == "# " + title.value + "\n\n" + md
  {
    if title.Some? && title.value != [] && !("# " + title.value <= FirstLine(Strip(md))) {
      assert |"# " + title.value + "\n\n" + md| > |md|;
    }
  }

  /** A one-line title that does not end in whitespace: stripping the text
      cannot cut into its header line. */
  predicate TitleOK(t: string) {
    t != [] && '\n' !in t && !IsSpace(t[|t| - 1])
  }

  /** A text opening with "# " + t keeps that opening through strip and
      split. */
  lemma {:induction false} TitleLineFirst(t: string, w: string, x: string)
    requires TitleOK(t) && x == "# " + t + w
    ensures "# " + t <= Strip(x)
    ensures "# " + t <= FirstLine(Strip(x))
  {
    var h := "# " + t;
    assert x == h + w;
    assert x[0] == '#';
    LStripNonSpace(x);
    assert h[|h| - 1] == t[|t| - 1];
    RStripKeepsPrefix(h, x);
    var y := Strip(x);
    assert y == RStrip(x);
    assert y == h + y[|h|..];
    FirstLinePrefix(h, y[|h|..]);
  }

  /** A text opening with the header is left alone, whatever follows the
      title on that line. */
  lemma {:induction false} TitlePresentKept(t: string, w: string, x: string)
    requires TitleOK(t) && x == "# " + t + w
    ensures InjectTitle(x, Some(t)) == x
  {
    TitleLineFirst(t, w, x);
  }

  /** "# Foobar" counts as the header for the title "Foo". */
  lemma {:induction false} LongerTitleCounts(rest: string)
    ensures InjectTitle("# Foobar" + rest, Some("Foo")) == "# Foobar" + rest
  {
    var x := "# Foobar" + rest;
    FoobarSplit(rest, x);
    assert TitleOK("Foo");
    TitlePresentKept("Foo", "bar" + rest, x);
  }

  lemma FoobarSplit(rest: string, x: string)
    requires x == "# Foobar" + rest
    ensures x == "# " + "Foo" + ("bar" + rest)
  {
  }

  /** The injected text opens with the header line. */
  lemma TitledShape(t: string, md: string, p: string)
    requires p == "# " + t + "\n\n" + md
    ensures p == "# " + t + ("\n\n" + md)
  {
  }

  /** Injecting the title twice is injecting it once. */
  lemma {:induction false} InjectTitleIdempotent(md: string, t: string)
    requires TitleOK(t)
    ensures InjectTitle(InjectTitle(md, Some(t)), Some(t)) == InjectTitle(md, Some(t))
  {
    var p := InjectTitle(md, Some(t));
    if p != md {
      TitledShape(t, md, p);
      TitlePresentKept(t, "\n\n" + md, p);
    }
  }

  /** The title, as injected or as found, leads the stripped text. */
  lemma {:induction false} TitleLeadsStripped(md: string, t: string)
    requires TitleOK(t)
    ensures "# " + t <= Strip(InjectTitle(md, Some(t)))
  {
    var p := InjectTitle(md, Some(t));
    if p != md {
      TitledShape(t, md, p);
      TitleLineFirst(t, "\n\n" + md, p);
    } else {
      FirstLineIsPrefix(Strip(md));
    }
  }

  /** Renumbering keeps whitespace lines and a header line after them, so
      the stripped output still opens with the header. */
  lemma {:induction false} HeaderSurvivesRenumber(ws: string, t: string, z: string)
    requires AllSpace(ws) && TitleOK(t)
    ensures "# " + t <= Strip(RenumberText(ws + ("# " + t + z)))
    decreases |ws|
  {
    if '\n' in ws {
      var a, ws2 := SplitBlank(ws);
      var h := "# " + t + z;
      HeaderSurvivesRenumber(ws2, t, z);
      BlankLineStep(a, ws2, h);
      BlankLineJoin(ws, a, ws2, h);
    } else {
      HeaderLineBase(ws, t, z);
    }
  }

  /** Whitespace holding a newline is a blank line and more whitespace. */
  lemma SplitBlank(ws: string) returns (a: string, ws2: string)
    requires AllSpace(ws) && '\n' in ws
    ensures AllSpace(a) && '\n' !in a && AllSpace(ws2) && |ws2| < |ws| && ws == a + "\n" + ws2
  {
    var i :| 0 <= i < |ws| && ws[i] == '\n';
    var j := FirstNewline(ws, i);
    a := ws[..j];
    ws2 := ws[j + 1..];
    assert ws == a + "\n" + ws2;
  }

  lemma BlankLineJoin(ws: string, a: string, ws2: string, h: string)
    requires ws == a + "\n" + ws2
    ensures ws + h == a + "\n" + ws2 + h
  {
  }

  /** A whitespace line in front changes nothing about the stripped output. */
  lemma {:induction false} BlankLineStep(a: string, ws2: string, h: string)
    requires AllSpace(a) && '\n' !in a
    ensures LStrip(RenumberText(a + "\n" + ws2 + h)) == LStrip(RenumberText(ws2 + h))
    ensures Strip(RenumberText(a + "\n" + ws2 + h)) == Strip(RenumberText(ws2 + h))
  {
    assert a + "\n" + ws2 + h == a + "\n" + (ws2 + h);
    assert a == [] || IsSpace(a[0]);
    NonDigitNoItem(a);
    RenumberTextCons(a, ws2 + h);
    assert AllSpace(a + "\n");
    var y := RenumberText(ws2 + h);
    assert RenumberText(a + "\n" + ws2 + h) == (a + "\n") + y;
    LStripSpaces(a + "\n", y);
  }

  /** The header on the first line after leading blanks: the line keeps its
      text and stripping leaves it in front. */
  lemma {:induction false} HeaderLineBase(ws: string, t: string, z: string)
    requires AllSpace(ws) && '\n' !in ws && TitleOK(t)
    ensures "# " + t <= Strip(RenumberText(ws + ("# " + t + z)))
  {
    var k := "# " + t;
    var l := ws + k;
    assert ws + (k + z) == l + z;
    assert !IsDigit(l[0]) by {
      if ws == [] { assert l[0] == '#'; } else { assert IsSpace(l[0]); }
    }
    RenumberTextLead(l, z);
    var y := RenumberText(l + z);
    HeaderAfterSpaces(ws, k, y);
  }

  /** A header line behind leading whitespace is what strip keeps in front. */
  lemma {:induction false} HeaderAfterSpaces(ws: string, k: string, y: string)
    requires AllSpace(ws) && |k| >= 3 && k[0] == '#' && !IsSpace(k[|k| - 1])
    requires ws + k <= y
    ensures k <= Strip(y)
  {
    var v := y[|ws|..];
    SpacesThenHeader(ws, k, y, v);
    LStripAfterSpaces(ws, v, y);
    RStripKeepsPrefix(k, v);
    StripAfterLStrip(y, v);
  }

  lemma SpacesThenHeader(ws: string, k: string, y: string, v: string)
    requires k != [] && k[0] == '#' && ws + k <= y && v == y[|ws|..]
    ensures y == ws + v && k <= v && v != [] && !IsSpace(v[0])
  {
    assert v[0] == k[0];
  }

  lemma LStripAfterSpaces(ws: string, v: string, y: string)
    requires AllSpace(ws) && y == ws + v && v != [] && !IsSpace(v[0])
    ensures LStrip(y) == v
  {
    LStripSpaces(ws, v);
    LStripNonSpace(v);
  }

  /** The first newline at or before `i`. */
  function FirstNewline(s: string, i: nat): (j: nat)
    requires i < |s| && s[i] == '\n'
    ensures j <= i && s[j] == '\n' && '\n' !in s[..j]
    decreases i
  {
    if '\n' in s[..i] then
      var k :| 0 <= k < i && s[..i][k] == '\n';
      FirstNewline(s, k)
    else i
  }

  /** With a usable title, the cleaned text opens with its header line. */
  lemma {:induction false} TitleLeadsOutput(md: string, t: string)
    requires TitleOK(t)
    ensures "# " + t <= Strip(RenumberText(InjectTitle(md, Some(t))))
  {
    var p := InjectTitle(md, Some(t));
    TitleLeadsStripped(md, t);
    var ws, z := StripPrefixSplit(p, "# " + t);
    HeaderSurvivesRenumber(ws, t, z);
  }

  // ---------------------------------------------------------------------
  // clean_markdown as a whole.
  // ---------------------------------------------------------------------

  /** Lines 21-53: the stages before the renumbering, in order. */
  function Prepare(md: string, title: Option<string>, unescape: string -> string): string {
    var s := StripFrontmatter(md);
    var s := StripComments(s);
    var s := CollapseBlankLines(s);
    var s := FixHeaders(s);
    var s := StripTags(s);
    var s := unescape(s);
    var s := SpaceImages(s);
    InjectTitle(s, title)
  }

  /** clean_markdown: the rewriting stages, the renumbering pass over the
      lines, and the final strip. `unescape` stands for html.unescape. */
  method CleanMarkdown(md: string, title: Option<string>, unescape: string -> string) returns (r: string)
    ensures r == Strip(RenumberText(Prepare(md, title, unescape)))
    ensures r == [] || (!IsSpace(r[0]) && !IsSpace(r[|r| - 1]))
    ensures title.Some? && TitleOK(title.value) ==> "# " + title.value <= r
  {
    var content := StripFrontmatter(md);
    content := StripComments(content);
    content := CollapseBlankLines(content);
    content := FixHeaders(content);
    content := StripTags(content);
    content := unescape(content);
    content := SpaceImages(content);
    ghost var beforeTitle := content;
    content := InjectTitle(content, title);
    var lines := Split(content);
    var newLines := RenumberLines(lines);
    r := Strip(Join(newLines));
    if title.Some? && TitleOK(title.value) {
      TitleLeadsOutput(beforeTitle, title.value);
    }
  }
}

/**
 * String helpers with the meaning of the Python built-ins the converter
 * relies on: str.isspace, str.strip, str.split('\n'), '\n'.join,
 * substring search, str.lower on ASCII letters.
 */
module Text {
  import opened Options

  /** The characters Python's str.isspace() accepts; the `\s` class of a
      str regex is the same set. */
  predicate IsSpace(c: char) {
    ('\t' <= c <= '\r') || ('\U{1C}' <= c <= '\U{1F}') || c == ' '
    || c == '\U{85}' || c == '\U{A0}' || c == '\U{1680}'
    || ('\U{2000}' <= c <= '\U{200A}') || c == '\U{2028}' || c == '\U{2029}'
    || c == '\U{202F}' || c == '\U{205F}' || c == '\U{3000}'
  }

  /** Concatenation is associative (stated once for the solver). */
  lemma AppendAssoc<T>(a: seq<T>, b: seq<T>, c: seq<T>)
    ensures (a + b) + c == a + (b + c)
  {
  }

  /** str.lstrip(): drops the leading whitespace. */
  function LStrip(s: string): (r: string)
    ensures |r| <= |s| && r == s[|s| - |r|..]
    ensures r == [] || !IsSpace(r[0])
    ensures SpacesIn(s, 0, |s| - |r|)
  {
    if s != [] && IsSpace(s[0]) then
      var r := LStrip(s[1..]);
      assert forall k :: 1 <= k < |s| ==> s[k] == s[1..][k - 1];
      r
    else s
  }

  /** Text that opens with a non-space is its own lstrip. */
  lemma LStripNonSpace(s: string)
    requires s != [] && !IsSpace(s[0])
    ensures LStrip(s) == s
  {
  }

  /** str.rstrip(): drops the trailing whitespace. */
  function RStrip(s: string): (r: string)
    ensures |r| <= |s| && r == s[..|r|]
    ensures r == [] || !IsSpace(r[|r| - 1])
    ensures SpacesIn(s, |r|, |s|)
  {
    if s != [] && IsSpace(s[|s| - 1]) then RStrip(s[..|s| - 1]) else s
  }

  /** str.strip(): the infix of `s` left once the leading and trailing
      whitespace is cut off. */
  function Strip(s: string): (r: string)
    ensures r == [] || (!IsSpace(r[0]) && !IsSpace(r[|r| - 1]))
    ensures StrippedFrom(s, r, |s| - |LStrip(s)|)
  {
    var l := LStrip(s);
    var r := RStrip(l);
    StripFacts(s, l, r);
    r
  }

  /** Every character of `s` from `lo` up to `hi` is whitespace. */
  ghost predicate SpacesIn(s: string, lo: nat, hi: nat) {
    forall k :: lo <= k < hi && k < |s| ==> IsSpace(s[k])
  }

  /** `r` sits at offset `i` of `s` with only whitespace around it. */
  ghost predicate StrippedFrom(s: string, r: string, i: nat) {
    && i + |r| <= |s| && r == s[i..i + |r|]
    && SpacesIn(s, 0, i) && SpacesIn(s, i + |r|, |s|)
  }

  lemma {:induction false} StripFacts(s: string, l: string, r: string)
    requires |l| <= |s| && l == s[|s| - |l|..] && SpacesIn(s, 0, |s| - |l|)
    requires |r| <= |l| && r == l[..|r|] && SpacesIn(l, |r|, |l|)
    requires l == [] || !IsSpace(l[0])
    requires r == [] || !IsSpace(r[|r| - 1])
    ensures r == [] || (!IsSpace(r[0]) && !IsSpace(r[|r| - 1]))
    ensures StrippedFrom(s, r, |s| - |l|)
  {
    if r != [] {
      assert r[0] == l[0];
    }
    var i := |s| - |l|;
    InfixOfSuffix(s, l, r, i);
    forall k | i + |r| <= k < |s| ensures IsSpace(s[k]) {
      SuffixAt(s, l, i, k);
    }
  }

  lemma InfixOfSuffix(s: string, l: string, r: string, i: nat)
    requires i <= |s| && l == s[i..] && |r| <= |l| && r == l[..|r|]
    ensures i + |r| <= |s| && r == s[i..i + |r|]
  {
  }

  lemma SuffixAt(s: string, l: string, i: nat, k: nat)
    requires i <= k < |s| && l == s[i..]
    ensures s[k] == l[k - i]
  {
  }

  /** What opens the stripped text opens the text after its leading
      whitespace. */
  lemma StripPrefixSplit(p: string, k: string) returns (ws: string, z: string)
    requires k <= Strip(p)
    ensures AllSpace(ws) && p == ws + (k + z)
  {
    var l := LStrip(p);
    ws := LeadingSpace(p);
    StripOfLStrip(p);
    z := PrefixRest(k, Strip(p), l);
  }

  /** The whitespace lstrip drops, in front of what it keeps. */
  lemma LeadingSpace(p: string) returns (ws: string)
    ensures AllSpace(ws) && p == ws + LStrip(p)
  {
    var l := LStrip(p);
    ws := p[..|p| - |l|];
    forall j | 0 <= j < |ws| ensures IsSpace(ws[j]) {
      assert ws[j] == p[j];
    }
  }

  /** The stripped text opens the lstripped text. */
  lemma StripOfLStrip(p: string)
    ensures Strip(p) <= LStrip(p)
  {
    assert Strip(p) == RStrip(LStrip(p));
  }

  /** strip is rstrip applied to what lstrip leaves. */
  lemma StripAfterLStrip(s: string, v: string)
    requires LStrip(s) == v
    ensures Strip(s) == RStrip(v)
  {
  }

  lemma PrefixRest(k: string, m: string, l: string) returns (z: string)
    requires k <= m && m <= l
    ensures l == k + z
  {
    z := l[|k|..];
    assert l[..|k|] == k;
  }

  /** Stripping cannot cut into a prefix that ends with a non-space. */
  lemma {:induction false} RStripKeepsPrefix(a: string, x: string)
    requires a <= x && a != [] && !IsSpace(a[|a| - 1])
    ensures a <= RStrip(x)
    decreases |x|
  {
    if x != [] && IsSpace(x[|x| - 1]) {
      assert |a| < |x|;
      assert a <= x[..|x| - 1];
      RStripKeepsPrefix(a, x[..|x| - 1]);
    }
  }

  /** `t` occurs somewhere in `s` (Python's `t in s`). */
  predicate Contains(s: string, t: string)
    decreases |s|
  {
    t <= s || (s != [] && Contains(s[1..], t))
  }

  /** An occurrence at offset k is an occurrence. */
  lemma {:induction false} ContainsAt(s: string, t: string, k: nat)
    requires k + |t| <= |s| && t <= s[k..]
    ensures Contains(s, t)
    decreases k
  {
    if k > 0 {
      assert s[1..][k - 1..] == s[k..];
      ContainsAt(s[1..], t, k - 1);
    }
  }

  /** No window of `s` spells `t`, so `t` does not occur. */
  lemma {:induction false} NotContains(s: string, t: string)
    requires forall k :: 0 <= k <= |s| ==> !(t <= s[k..])
    ensures !Contains(s, t)
  {
    if Contains(s, t) {
      var k := ContainsWitness(s, t);
    }
  }

  /** Every occurrence starts at some offset. */
  lemma {:induction false} ContainsWitness(s: string, t: string) returns (k: nat)
    requires Contains(s, t)
    ensures k + |t| <= |s| && t <= s[k..]
    decreases |s|
  {
    if t <= s {
      k := 0;
    } else {
      var k' := ContainsWitness(s[1..], t);
      assert s[1..][k'..] == s[k' + 1..];
      k := k' + 1;
    }
  }

  /** The first offset at or after `i` where `t` starts (str.find). */
  function FindFrom(s: string, t: string, i: nat): (r: Option<nat>)
    requires i <= |s|
    ensures r.Some? ==> i <= r.value <= |s| && t <= s[r.value..]
    ensures r.Some? ==> forall k :: i <= k < r.value ==> !(t <= s[k..])
    ensures r.None? ==> forall k :: i <= k <= |s| ==> !(t <= s[k..])
    decreases |s| - i
  {
    if t <= s[i..] then Some(i)
    else if i == |s| then None
    else FindFrom(s, t, i + 1)
  }

  /** An occurrence at `j` with none before it is what the search finds. */
  lemma {:induction false} FindFromFirst(s: string, t: string, i: nat, j: nat)
    requires i <= j <= |s| && t <= s[j..]
    requires forall k :: i <= k < j ==> !(t <= s[k..])
    ensures FindFrom(s, t, i) == Some(j)
  {
  }

  /** The search succeeds exactly when `t` occurs in the text from `i` on. */
  lemma {:induction false} FindFromContains(s: string, t: string, i: nat)
    requires i <= |s|
    ensures FindFrom(s, t, i).Some? <==> Contains(s[i..], t)
  {
    match FindFrom(s, t, i) {
      case Some(v) =>
        assert s[i..][v - i..] == s[v..];
        ContainsAt(s[i..], t, v - i);
      case None =>
        if Contains(s[i..], t) {
          var k := ContainsWitness(s[i..], t);
          assert s[i..][k..] == s[i + k..];
          assert t <= s[i + k..];
        }
    }
  }

  /** s.endswith(t). */
  predicate EndsWith(s: string, t: string) {
    |t| <= |s| && s[|s| - |t|..] == t
  }

  /** str.lower() on ASCII letters; other characters are kept. */
  function AsciiLower(s: string): (r: string)
    ensures |r| == |s|
    ensures forall i :: 0 <= i < |s| ==> r[i] == (if 'A' <= s[i] <= 'Z' then (s[i] as int + 32) as char else s[i])
  {
    if s == [] then []
    else [if 'A' <= s[0] <= 'Z' then (s[0] as int + 32) as char else s[0]] + AsciiLower(s[1..])
  }

  /** s.split('\n'): the pieces between newlines, at least one. */
  function Split(s: string): (r: seq<string>)
    ensures |r| >= 1
    ensures forall i :: 0 <= i < |r| ==> '\n' !in r[i]
  {
    if s == [] then [""]
    else
      var rest := Split(s[1..]);
      if s[0] == '\n' then [""] + rest
      else [[s[0]] + rest[0]] + rest[1..]
  }

  /** '\n'.join(lines). */
  function Join(lines: seq<string>): string {
    if lines == [] then ""
    else if |lines| == 1 then lines[0]
    else lines[0] + "\n" + Join(lines[1..])
  }

  /** Joining the pieces of a split gives the text back. */
  lemma {:induction false} JoinSplit(s: string)
    ensures Join(Split(s)) == s
  {
    if s != [] {
      JoinSplit(s[1..]);
      var rest := Split(s[1..]);
      if s[0] == '\n' {
        assert Split(s) == [""] + rest;
        assert (Split(s))[1..] == rest;
      } else {
        var r := Split(s);
        assert r == [[s[0]] + rest[0]] + rest[1..];
        if |rest| > 1 {
          assert r[1..] == rest[1..];
          assert Join(rest) == rest[0] + "\n" + Join(rest[1..]);
        }
      }
    }
  }

  /** Splitting a newline-free prefix followed by a newline. */
  lemma {:induction false} SplitCons(a: string, b: string)
    requires '\n' !in a
    ensures Split(a + "\n" + b) == [a] + Split(b)
    decreases |a|
  {
    if a == [] {
      assert (a + "\n" + b)[1..] == b;
    } else {
      assert (a + "\n" + b)[1..] == a[1..] + "\n" + b;
      SplitCons(a[1..], b);
      assert [a[0]] + a[1..] == a;
    }
  }

  /** A newline-free text is one line. */
  lemma {:induction false} SplitSingle(a: string)
    requires '\n' !in a
    ensures Split(a) == [a]
    decreases |a|
  {
    if a != [] {
      SplitSingle(a[1..]);
      assert [a[0]] + a[1..] == a;
    }
  }

  /** Splitting a join of newline-free lines gives the lines back. */
  lemma {:induction false} SplitJoin(lines: seq<string>)
    requires |lines| >= 1
    requires forall i :: 0 <= i < |lines| ==> '\n' !in lines[i]
    ensures Split(Join(lines)) == lines
  {
    if |lines| == 1 {
      SplitSingle(lines[0]);
    } else {
      SplitJoin(lines[1..]);
      SplitCons(lines[0], Join(lines[1..]));
      assert [lines[0]] + lines[1..] == lines;
    }
  }

  /** s.split('\n')[0]. */
  function FirstLine(s: string): string {
    Split(s)[0]
  }

  /** The first line of a text that starts with a newline-free `a` starts with `a`. */
  lemma {:induction false} FirstLinePrefix(a: string, w: string)
    requires '\n' !in a
    ensures a <= FirstLine(a + w)
    decreases |a|
  {
    if a != [] {
      assert (a + w)[1..] == a[1..] + w;
      FirstLinePrefix(a[1..], w);
    }
  }

  /** The first line is a prefix of the text. */
  lemma {:induction false} FirstLineIsPrefix(s: string)
    ensures FirstLine(s) <= s
    decreases |s|
  {
    if s != [] && s[0] != '\n' {
      FirstLineIsPrefix(s[1..]);
      assert FirstLine(s) == [s[0]] + FirstLine(s[1..]);
    }
  }

  /** A join starts with its first line. */
  lemma {:induction false} JoinHead(lines: seq<string>)
    requires |lines| >= 1
    ensures lines[0] <= Join(lines)
  {
  }

  /** A text made of whitespace only. */
  predicate AllSpace(s: string) {
    forall i :: 0 <= i < |s| ==> IsSpace(s[i])
  }

  /** Leading whitespace makes no difference to lstrip. */
  lemma {:induction false} LStripSpaces(ws: string, y: string)
    requires AllSpace(ws)
    ensures LStrip(ws + y) == LStrip(y)
    decreases |ws|
  {
    if ws != [] {
      assert (ws + y)[1..] == ws[1..] + y;
      LStripSpaces(ws[1..], y);
    } else {
      assert ws + y == y;
    }
  }
}

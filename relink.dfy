/**
 * The markdown step of convert_files (converter_ui/src/main.py, lines
 * 135-158): the H1 guard, then one re.sub per entry of the image map, in
 * the map's order, with the pattern `(!\[.*?\])\(.*?NAME\)` where NAME is
 * the entry's original name taken literally (re.escape).
 *
 * The pattern is written out by hand with Python's lazy `.*?` semantics
 * (`.` never matches a newline): the alt group grows from the shortest
 * candidate, and for each candidate the URL part grows until NAME + ")"
 * follows it.
 */
module Relink {
  import opened Options
  import opened Text
  import opened Numbers
  import opened Naming
  import opened Attachments

  // ---------------------------------------------------------------------
  // Lines 138-139: the H1 guard.
  // ---------------------------------------------------------------------

  /** "# doc_name" and a blank line go in front unless the stripped text
      already opens with "# ". */
  function TitleGuard(md: string, docName: string): (r: string)
    ensures r == md || r == "# " + docName + "\n\n" + md
  {
    if "# " <= Strip(md) then md else "# " + docName + "\n\n" + md
  }

  /** The header goes in front exactly when the stripped text does not open
      with "# ": any H1 suppresses it, whatever its title. */
  lemma TitleGuardSpec(md: string, docName: string)
    ensures TitleGuard(md, docName) == md <==> "# " <= Strip(md)
    ensures TitleGuard(md, docName) != md ==> TitleGuard(md, docName) == "# " + docName + "\n\n" + md
  {
    if !("# " <= Strip(md)) {
      assert |"# " + docName + "\n\n" + md| > |md|;
    }
  }

  /** A text that opens with a non-space, and a prefix of it ending in a
      non-space: stripping keeps that prefix at the front. */
  lemma StripKeepsHead(v: string, k: string)
    requires v != [] && !IsSpace(v[0])
    requires k <= v && k != [] && !IsSpace(k[|k| - 1])
    ensures k <= Strip(v)
  {
    LStripNonSpace(v);
    RStripKeepsPrefix(k, v);
    StripAfterLStrip(v, v);
  }

  lemma PrefixTrans(a: string, b: string, c: string)
    requires a <= b && b <= c
    ensures a <= c
  {
  }

  /** The guard keeps a text whose stripped form opens with "# ". */
  lemma GuardKeeps(md: string, docName: string)
    requires "# " <= Strip(md)
    ensures TitleGuard(md, docName) == md
  {
  }

  /** The guard adds the header to a text whose stripped form does not
      open with "# ". */
  lemma GuardAdds(md: string, docName: string)
    requires !("# " <= Strip(md))
    ensures TitleGuard(md, docName) == "# " + docName + "\n\n" + md
  {
  }

  /** An H1 behind leading whitespace suppresses the header. */
  lemma {:induction false} ExistingHeaderKept(ws: string, t: string, md: string, docName: string)
    requires AllSpace(ws) && t != [] && !IsSpace(t[0]) && md == ws + "# " + t
    ensures TitleGuard(md, docName) == md
  {
    var v, k := HeaderLayout(ws, t, md);
    StripSkipsSpaces(ws, v);
    StripKeepsHead(v, k);
    PrefixTrans("# ", k, Strip(md));
    GuardKeeps(md, docName);
  }

  /** The header line after the whitespace, and its first three characters. */
  lemma HeaderLayout(ws: string, t: string, md: string) returns (v: string, k: string)
    requires t != [] && !IsSpace(t[0]) && md == ws + "# " + t
    ensures md == ws + v && v != [] && !IsSpace(v[0])
    ensures k <= v && k != [] && !IsSpace(k[|k| - 1]) && "# " <= k
  {
    v := "# " + t;
    k := "# " + [t[0]];
  }

  /** Leading whitespace makes no difference to strip. */
  lemma StripSkipsSpaces(ws: string, v: string)
    requires AllSpace(ws)
    ensures Strip(ws + v) == Strip(v)
  {
    LStripSpaces(ws, v);
    StripAfterLStrip(ws + v, LStrip(v));
    StripAfterLStrip(v, LStrip(v));
  }

  /** "#Title" without a space is no H1: the header still goes in front. */
  lemma {:induction false} UnspacedHashGetsHeader(t: string, md: string, docName: string)
    requires t != [] && !IsSpace(t[0]) && md == "#" + t
    ensures TitleGuard(md, docName) == "# " + docName + "\n\n" + md
  {
    var k := md[..2];
    assert md[0] == '#' && k[1] == t[0];
    StripKeepsHead(md, k);
    var s := Strip(md);
    assert s[1] == t[0];
    assert t[0] != ' ';
    GuardAdds(md, docName);
  }

  /** With a name that does not end in whitespace the guarded text opens
      with an H1, so a second guard changes nothing. */
  lemma {:induction false} TitleGuardIdempotent(md: string, docName: string)
    requires docName != [] && !IsSpace(docName[|docName| - 1])
    ensures "# " <= Strip(TitleGuard(md, docName))
    ensures TitleGuard(TitleGuard(md, docName), docName) == TitleGuard(md, docName)
  {
    var g := TitleGuard(md, docName);
    if g != md {
      GuardedStripped(md, docName, g);
    }
    GuardKeeps(g, docName);
  }

  /** The added header leads the stripped text. */
  lemma GuardedStripped(md: string, docName: string, g: string)
    requires docName != [] && !IsSpace(docName[|docName| - 1])
    requires g == "# " + docName + "\n\n" + md
    ensures "# " <= Strip(g)
  {
    var k := g[..|docName| + 2];
    GuardedHead(md, docName, g, k);
    StripKeepsHead(g, k);
    PrefixTrans("# ", k, Strip(g));
  }

  lemma GuardedHead(md: string, docName: string, g: string, k: string)
    requires docName != [] && g == "# " + docName + "\n\n" + md && k == g[..|docName| + 2]
    ensures k == "# " + docName && g[0] == '#' && k[|k| - 1] == docName[|docName| - 1] && "# " <= k
  {
  }

  // ---------------------------------------------------------------------
  // Line 152: the pattern `(!\[.*?\])\(.*?NAME\)`.
  // ---------------------------------------------------------------------

  /** The lazy `.*?` followed by NAME + ")" from offset i: the first offset
      j at or after i where NAME + ")" starts, with no newline in between. */
  function UrlEnd(s: string, name: string, i: nat): (r: Option<nat>)
    requires i <= |s|
    ensures r.Some? ==> i <= r.value && r.value + |name| + 1 <= |s| && s[r.value..r.value + |name| + 1] == name + ")"
    decreases |s| - i
  {
    if name + ")" <= s[i..] then Some(i)
    else if i == |s| || s[i] == '\n' then None
    else UrlEnd(s, name, i + 1)
  }

  /** The lazy alt group, tried from the alt text s[2..q] on: where "]("
      follows it and the URL part ends in NAME + ")", the match is the alt
      end q and the start j of NAME; otherwise the alt text grows by one
      character that is not a newline. */
  function MatchFrom(s: string, name: string, q: nat): (r: Option<(nat, nat)>)
    requires 2 <= q <= |s|
    ensures r.Some? ==> q <= r.value.0 && r.value.0 + 2 <= r.value.1 && r.value.1 + |name| + 1 <= |s|
    decreases |s| - q
  {
    var tail := if q + 1 < |s| && s[q] == ']' && s[q + 1] == '(' then UrlEnd(s, name, q + 2) else None;
    match tail
    case Some(j) => Some((q, j))
    case None => if q < |s| && s[q] != '\n' then MatchFrom(s, name, q + 1) else None
  }

  /** The pattern tried at the start of `s`: the end q of the alt text and
      the offset j where NAME starts. */
  function MatchAt(s: string, name: string): (r: Option<(nat, nat)>)
    ensures r.Some? ==> 2 <= r.value.0 && r.value.0 + 2 <= r.value.1 && r.value.1 + |name| + 1 <= |s|
  {
    if "![" <= s then MatchFrom(s, name, 2) else None
  }

  /** A match spells "![" alt "](" url NAME ")" with no newline in the alt
      text or the url, and the url is the shortest for that alt text. */
  ghost predicate IsMatch(s: string, name: string, q: nat, j: nat) {
    && 2 <= q && q + 2 <= j && j + |name| + 1 <= |s|
    && s[..2] == "![" && s[q..q + 2] == "](" && s[j..j + |name| + 1] == name + ")"
    && '\n' !in s[2..q] && '\n' !in s[q + 2..j]
    && (forall k :: q + 2 <= k < j ==> !(name + ")" <= s[k..]))
  }

  /** What the hand-written pattern finds is a match of the regular
      expression, with the shortest URL part after its alt text. */
  lemma MatchAtSound(s: string, name: string)
    requires MatchAt(s, name).Some?
    ensures IsMatch(s, name, MatchAt(s, name).value.0, MatchAt(s, name).value.1)
  {
    assert s[2..2] == [];
    MatchFromSound(s, name, 2);
  }

  lemma {:induction false} MatchFromSound(s: string, name: string, q: nat)
    requires "![" <= s && 2 <= q <= |s| && '\n' !in s[2..q] && MatchFrom(s, name, q).Some?
    ensures IsMatch(s, name, MatchFrom(s, name, q).value.0, MatchFrom(s, name, q).value.1)
    decreases |s| - q
  {
    if q + 1 < |s| && s[q] == ']' && s[q + 1] == '(' && UrlEnd(s, name, q + 2).Some? {
      UrlEndSound(s, name, q + 2);
      TailIsMatch(s, name, q, UrlEnd(s, name, q + 2).value);
    } else {
      MatchFromNext(s, name, q);
      MatchFromSound(s, name, q + 1);
    }
  }

  /** The alt text at q with its URL part found makes a match. */
  lemma TailIsMatch(s: string, name: string, q: nat, j: nat)
    requires "![" <= s && 2 <= q && q + 1 < |s| && s[q] == ']' && s[q + 1] == '(' && '\n' !in s[2..q]
    requires q + 2 <= j && j + |name| + 1 <= |s| && s[j..j + |name| + 1] == name + ")"
    requires '\n' !in s[q + 2..j] && forall k :: q + 2 <= k < j ==> !(name + ")" <= s[k..])
    ensures IsMatch(s, name, q, j)
  {
    assert s[q..q + 2] == "](";
  }

  /** No match with the alt text ending at q: the search goes on with one
      more character of alt text. */
  lemma MatchFromNext(s: string, name: string, q: nat)
    requires 2 <= q <= |s| && '\n' !in s[2..q] && MatchFrom(s, name, q).Some?
    requires !(q + 1 < |s| && s[q] == ']' && s[q + 1] == '(' && UrlEnd(s, name, q + 2).Some?)
    ensures q < |s| && '\n' !in s[2..q + 1] && MatchFrom(s, name, q) == MatchFrom(s, name, q + 1)
  {
    assert s[2..q + 1] == s[2..q] + [s[q]];
  }

  /** The URL part found holds no newline and no earlier NAME + ")". */
  lemma {:induction false} UrlEndSound(s: string, name: string, i: nat)
    requires i <= |s| && UrlEnd(s, name, i).Some?
    ensures var j := UrlEnd(s, name, i).value;
      '\n' !in s[i..j] && forall k :: i <= k < j ==> !(name + ")" <= s[k..])
    decreases |s| - i
  {
    if !(name + ")" <= s[i..]) {
      UrlEndSound(s, name, i + 1);
      var j := UrlEnd(s, name, i).value;
      assert s[i..j] == [s[i]] + s[i + 1..j];
    }
  }

  /** A NAME + ")" with nothing of interest before it is what the URL
      search finds. */
  lemma {:induction false} UrlEndAt(s: string, name: string, i: nat, j: nat)
    requires i <= j && j + |name| + 1 <= |s| && name + ")" <= s[j..]
    requires forall k :: i <= k < j ==> s[k] != '\n' && !(name + ")" <= s[k..])
    ensures UrlEnd(s, name, i) == Some(j)
    decreases j - i
  {
    if i < j {
      UrlEndAt(s, name, i + 1, j);
    }
  }

  /** Alt text free of ']' and of newlines is passed over until the "]("
      that ends it. */
  lemma {:induction false} MatchFromAt(s: string, name: string, q: nat, e: nat, j: nat)
    requires 2 <= q <= e && e + 1 < |s| && s[e] == ']' && s[e + 1] == '('
    requires forall k :: q <= k < e ==> s[k] != ']' && s[k] != '\n'
    requires UrlEnd(s, name, e + 2) == Some(j)
    ensures MatchFrom(s, name, q) == Some((e, j))
    decreases e - q
  {
    if q < e {
      MatchFromSkip(s, name, q);
      MatchFromAt(s, name, q + 1, e, j);
    } else {
      MatchFromHit(s, name, e, j);
    }
  }

  /** A character of alt text that is neither ']' nor a newline. */
  lemma MatchFromSkip(s: string, name: string, q: nat)
    requires 2 <= q < |s| && s[q] != ']' && s[q] != '\n'
    ensures MatchFrom(s, name, q) == MatchFrom(s, name, q + 1)
  {
  }

  /** The alt text ends at q and the URL part ends at j. */
  lemma MatchFromHit(s: string, name: string, q: nat, j: nat)
    requires 2 <= q && q + 1 < |s| && s[q] == ']' && s[q + 1] == '(' && UrlEnd(s, name, q + 2) == Some(j)
    ensures MatchFrom(s, name, q) == Some((q, j))
  {
  }

  // ---------------------------------------------------------------------
  // Lines 146-158: one substitution per map entry.
  // ---------------------------------------------------------------------

  /** re.sub(pattern, r'\1(' + new_rel_path + ')', text) for one entry: a
      match is replaced by its "![alt]" group, "(", the new path and ")";
      the scan goes on after the match. Elsewhere one character is kept. */
  function RelinkOnce(s: string, name: string, path: string): (r: string)
    decreases |s|
  {
    if s == [] then []
    else match MatchAt(s, name)
      case Some((q, j)) => s[..q + 1] + "(" + path + ")" + RelinkOnce(s[j + |name| + 1..], name, path)
      case None => [s[0]] + RelinkOnce(s[1..], name, path)
  }

  /** A match needs NAME + ")" somewhere in the text. */
  lemma MatchNeedsName(s: string, name: string)
    requires MatchAt(s, name).Some?
    ensures Contains(s, name + ")")
  {
    var j := MatchAt(s, name).value.1;
    MatchAtSound(s, name);
    assert s[j..][..|name| + 1] == s[j..j + |name| + 1];
    assert name + ")" == s[j..][..|name + ")"|];
    ContainsAt(s, name + ")", j);
  }

  /** An entry whose NAME + ")" does not occur leaves the text unchanged. */
  lemma {:induction false} RelinkAbsent(s: string, name: string, path: string)
    requires !Contains(s, name + ")")
    ensures RelinkOnce(s, name, path) == s
    decreases |s|
  {
    if s != [] {
      if MatchAt(s, name).Some? {
        MatchNeedsName(s, name);
      }
      assert Contains(s[1..], name + ")") ==> Contains(s, name + ")");
      RelinkAbsent(s[1..], name, path);
    }
  }

  /** Text in front without '!' starts no match and is kept. */
  lemma {:induction false} RelinkPrefixKept(a: string, x: string, name: string, path: string)
    requires '!' !in a
    ensures RelinkOnce(a + x, name, path) == a + RelinkOnce(x, name, path)
    decreases |a|
  {
    if a != [] {
      var s := a + x;
      assert s[0] == a[0] && s[1..] == a[1..] + x;
      assert !("![" <= s);
      RelinkPrefixKept(a[1..], x, name, path);
      assert [a[0]] + a[1..] == a;
    } else {
      assert a + x == x;
    }
  }

  /** The pattern at the start of a text that opens with an image link
      whose alt text has no ']' and whose URL ends with NAME and has no ')':
      the alt text ends at its first ']' and NAME ends at the link's ')'. */
  lemma {:induction false} LinkMatched(alt: string, u: string, name: string, x: string)
    requires ']' !in alt && '\n' !in alt && ')' !in u && '\n' !in u && EndsWith(u, name)
    requires "![" + alt + "](" + u + ")" <= x
    ensures MatchAt(x, name) == Some((2 + |alt|, 2 + |alt| + 2 + |u| - |name|))
  {
    var q := 2 + |alt|;
    var j := q + 2 + |u| - |name|;
    LinkLayout(alt, u, name, x, q, j);
    LinkMatchedAt(x, name, q, j);
  }

  /** The pattern finds the alt end q and NAME at j once the text is laid
      out as an image link. */
  lemma LinkMatchedAt(x: string, name: string, q: nat, j: nat)
    requires "![" <= x && 2 <= q && q + 1 < |x| && x[q] == ']' && x[q + 1] == '('
    requires forall k :: 2 <= k < q ==> x[k] != ']' && x[k] != '\n'
    requires q + 2 <= j && j + |name| + 1 <= |x| && name + ")" <= x[j..]
    requires forall k :: q + 2 <= k < j ==> x[k] != '\n' && !(name + ")" <= x[k..])
    ensures MatchAt(x, name) == Some((q, j))
  {
    UrlEndAt(x, name, q + 2, j);
    MatchFromAt(x, name, 2, q, j);
    MatchAtFrom(x, name);
  }

  lemma MatchAtFrom(s: string, name: string)
    requires "![" <= s
    ensures MatchAt(s, name) == MatchFrom(s, name, 2)
  {
  }

  /** The text a link match leaves: the "![alt]" group, and what follows
      the link. */
  lemma LinkParts(alt: string, u: string, x: string, w: string)
    requires x == "![" + alt + "](" + u + ")" + w
    ensures x[..2 + |alt| + 1] == "![" + alt + "]" && x[2 + |alt| + 2 + |u| + 1..] == w
  {
  }

  /** A text that opens with a matching image link: the link is rewritten
      and the scan goes on after it. */
  lemma {:induction false} RelinkAtLink(alt: string, u: string, w: string, x: string, name: string, path: string)
    requires ']' !in alt && '\n' !in alt && ')' !in u && '\n' !in u && EndsWith(u, name)
    requires x == "![" + alt + "](" + u + ")" + w
    ensures RelinkOnce(x, name, path) == "![" + alt + "]" + "(" + path + ")" + RelinkOnce(w, name, path)
  {
    LinkMatched(alt, u, name, x);
    LinkParts(alt, u, x, w);
  }

  /** An image link whose URL ends with NAME is rewritten to the new path,
      its "![alt]" part re-emitted verbatim; the text before it (free of
      '!') and the newline after it are kept, and the scan goes on with the
      rest. */
  lemma {:induction false} ImageLineRelinked(a: string, alt: string, u: string, rest: string, name: string, path: string)
    requires '!' !in a
    requires ']' !in alt && '\n' !in alt && ')' !in u && '\n' !in u && EndsWith(u, name)
    ensures RelinkOnce(a + ("![" + alt + "](" + u + ")") + ("\n" + rest), name, path)
         == a + ("![" + alt + "](" + path + ")") + ("\n" + RelinkOnce(rest, name, path))
  {
    var line := "![" + alt + "](" + u + ")";
    var w := "\n" + rest;
    var x := line + w;
    var y := RelinkOnce(x, name, path);
    var line' := "![" + alt + "](" + path + ")";
    var w' := "\n" + RelinkOnce(rest, name, path);
    RelinkPrefixKeptAt(a, line, w, name, path);
    RelinkAtLink(alt, u, w, x, name, path);
    NewlineKept(rest, name, path);
    LinkRebuilt(alt, path, y, RelinkOnce(w, name, path), w', line');
    ConcatAssoc(a, line', w');
  }

  lemma RelinkPrefixKeptAt(a: string, line: string, w: string, name: string, path: string)
    requires '!' !in a
    ensures RelinkOnce(a + line + w, name, path) == a + RelinkOnce(line + w, name, path)
  {
    assert a + line + w == a + (line + w);
    RelinkPrefixKept(a, line + w, name, path);
  }

  lemma LinkRebuilt(alt: string, path: string, y: string, z: string, w': string, line': string)
    requires y == "![" + alt + "]" + "(" + path + ")" + z && z == w' && line' == "![" + alt + "](" + path + ")"
    ensures y == line' + w'
  {
  }

  lemma ConcatAssoc(a: string, b: string, c: string)
    ensures a + (b + c) == a + b + c
  {
  }

  /** Where the parts of an image link sit in the text. */
  lemma LinkLayout(alt: string, u: string, name: string, x: string, q: nat, j: nat)
    requires ']' !in alt && '\n' !in alt && ')' !in u && '\n' !in u && EndsWith(u, name)
    requires q == 2 + |alt| && j == q + 2 + |u| - |name|
    requires "![" + alt + "](" + u + ")" <= x
    ensures "![" <= x && q + 1 < |x| && x[q] == ']' && x[q + 1] == '('
    ensures forall k :: 2 <= k < q ==> x[k] != ']' && x[k] != '\n'
    ensures q + 2 <= j && j + |name| + 1 <= |x| && name + ")" <= x[j..]
    ensures forall k :: q + 2 <= k < j ==> x[k] != '\n' && !(name + ")" <= x[k..])
  {
    var line := "![" + alt + "](" + u + ")";
    assert x[..|line|] == line;
    assert forall k :: 2 <= k < q ==> x[k] == line[k] == alt[k - 2];
    assert line[q + 2..q + 2 + |u|] == u;
    assert u[|u| - |name|..] == name;
    assert x[j..j + |name| + 1] == name + ")" by {
      assert x[j..j + |name|] == u[|u| - |name|..];
    }
    forall k | q + 2 <= k < j ensures x[k] != '\n' && !(name + ")" <= x[k..]) {
      assert x[k] == u[k - q - 2];
      assert x[k + |name|] == u[k + |name| - q - 2];
    }
  }

  /** A newline starts no match. */
  lemma NewlineKept(rest: string, name: string, path: string)
    ensures RelinkOnce("\n" + rest, name, path) == "\n" + RelinkOnce(rest, name, path)
  {
    RelinkPrefixKept("\n", rest, name, path);
  }

  /** The map's entries applied one after another, in iteration order,
      each to the previous entry's output. */
  function RelinkAll(s: string, imageMap: seq<(string, string)>): string {
    if imageMap == [] then s
    else
      var last := imageMap[|imageMap| - 1];
      RelinkOnce(RelinkAll(s, imageMap[..|imageMap| - 1]), last.0, last.1)
  }

  /** Relinking with two maps in a row is relinking with the first map
      followed by the second. */
  lemma {:induction false} RelinkAllAppend(s: string, m1: seq<(string, string)>, m2: seq<(string, string)>)
    ensures RelinkAll(s, m1 + m2) == RelinkAll(RelinkAll(s, m1), m2)
    decreases |m2|
  {
    if m2 == [] {
      assert m1 + m2 == m1;
    } else {
      var init := m2[..|m2| - 1];
      assert (m1 + m2)[..|m1 + m2| - 1] == m1 + init;
      RelinkAllAppend(s, m1, init);
    }
  }

  /** An entry whose name does not occur in the text it is applied to is a
      no-op in the loop. */
  lemma RelinkAllSkips(s: string, imageMap: seq<(string, string)>, i: nat)
    requires i < |imageMap| && !Contains(RelinkAll(s, imageMap[..i]), imageMap[i].0 + ")")
    ensures RelinkAll(s, imageMap[..i + 1]) == RelinkAll(s, imageMap[..i])
  {
    assert imageMap[..i + 1][..i] == imageMap[..i];
    RelinkAbsent(RelinkAll(s, imageMap[..i]), imageMap[i].0, imageMap[i].1);
  }

  /** Order matters: when one name ends another, the earlier entry takes
      the link and the later one finds nothing left to rewrite. */
  lemma {:induction false} EarlierEntryWins(alt: string, pre: string, n1: string, p1: string, p2: string)
    requires ']' !in alt && '\n' !in alt && ')' !in pre + n1 && '\n' !in pre + n1
    requires !Contains("![" + alt + "](" + p1 + ")", pre + n1 + ")")
    ensures RelinkAll("![" + alt + "](" + (pre + n1) + ")", [(n1, p1), (pre + n1, p2)])
         == "![" + alt + "](" + p1 + ")"
  {
    var u := pre + n1;
    var line := "![" + alt + "](" + u + ")";
    assert EndsWith(u, n1) by { assert u[|u| - |n1|..] == n1; }
    OneLineRelinked(alt, u, n1, p1);
    RelinkAbsent("![" + alt + "](" + p1 + ")", u, p2);
    RelinkAllTwo(line, (n1, p1), (u, p2));
  }

  /** Two entries: the first, then the second on its output. */
  lemma RelinkAllTwo(s: string, e1: (string, string), e2: (string, string))
    ensures RelinkAll(s, [e1, e2]) == RelinkOnce(RelinkOnce(s, e1.0, e1.1), e2.0, e2.1)
  {
    var m := [e1, e2];
    assert m[..1] == [e1];
    assert [e1][..0] == [];
    assert RelinkAll(s, [e1]) == RelinkOnce(RelinkAll(s, []), e1.0, e1.1);
    assert RelinkAll(s, m) == RelinkOnce(RelinkAll(s, [e1]), e2.0, e2.1);
  }

  /** A lone image link whose URL ends with NAME gets the new path. */
  lemma OneLineRelinked(alt: string, u: string, name: string, path: string)
    requires ']' !in alt && '\n' !in alt && ')' !in u && '\n' !in u && EndsWith(u, name)
    ensures RelinkOnce("![" + alt + "](" + u + ")", name, path) == "![" + alt + "](" + path + ")"
  {
    var line := "![" + alt + "](" + u + ")";
    assert line == line + [];
    RelinkAtLink(alt, u, [], line, name, path);
    assert "![" + alt + "]" + "(" + path + ")" + [] == "![" + alt + "](" + path + ")";
  }

  /** The replacement template `\1(` + path + `)` is literal text when the
      path holds no backslash. */
  predicate LiteralPaths(imageMap: seq<(string, string)>) {
    forall k :: 0 <= k < |imageMap| ==> '\\' !in imageMap[k].1
  }

  /** Lines 135-158: the H1 guard, then the relink loop over the map, each
      iteration reassigning current_markdown. */
  method RelinkMarkdown(rawMarkdown: string, docName: string, imageMap: seq<(string, string)>)
    returns (currentMarkdown: string)
    requires LiteralPaths(imageMap)
    ensures currentMarkdown == RelinkAll(TitleGuard(rawMarkdown, docName), imageMap)
  {
    currentMarkdown := rawMarkdown;
    if !("# " <= Strip(currentMarkdown)) {
      currentMarkdown := "# " + docName + "\n\n" + currentMarkdown;
    }
    ghost var titled := currentMarkdown;
    for i := 0 to |imageMap|
      invariant currentMarkdown == RelinkAll(titled, imageMap[..i])
    {
      var (originalName, newRelPath) := imageMap[i];
      assert imageMap[..i + 1][..i] == imageMap[..i];
      currentMarkdown := RelinkOnce(currentMarkdown, originalName, newRelPath);
    }
    assert imageMap[..|imageMap|] == imageMap;
  }

  // ---------------------------------------------------------------------
  // Lines 123-158: save_images feeding the relink loop.
  // ---------------------------------------------------------------------

  /** The paths save_images hands out hold no backslash. */
  lemma {:induction false} RenamedLiteral(entries: seq<Entry>, decode: string -> Option<Bytes>)
    ensures LiteralPaths(Renamed(entries, decode))
  {
    var r := Renamed(entries, decode);
    forall k | 0 <= k < |r| ensures '\\' !in r[k].1 {
      ValuesShape(entries, decode, k);
      Pad3Value(k + 1);
      PathNoBackslash(Pad3(k + 1), AttachmentExt(r[k].0), r[k].1);
    }
  }

  lemma PathNoBackslash(digits: string, ext: string, p: string)
    requires AllDigits(digits) && (ext == ".jpg" || ext == ".png")
    requires p == "images/image_" + digits + ext
    ensures '\\' !in p
  {
    forall k | 0 <= k < |p| ensures p[k] != '\\' {
      if 13 <= k < 13 + |digits| {
        assert p[k] == digits[k - 13];
      }
    }
  }

  /** save_images, the H1 guard and the relink loop: the document before
      refinement, and the files written under images/. */
  method ConvertDocument(rawMarkdown: string, docName: string, imagesData: Option<seq<Entry>>,
                         decode: string -> Option<Bytes>)
    returns (currentMarkdown: string, files: map<string, Bytes>)
    ensures var imageMap := if imagesData.Some? then Renamed(imagesData.value, decode) else [];
      currentMarkdown == RelinkAll(TitleGuard(rawMarkdown, docName), imageMap)
    ensures imagesData.Some? ==> files == Disk(imagesData.value, decode)
    ensures imagesData.None? ==> files == map[]
  {
    var imageMap;
    imageMap, files := SaveImages(imagesData, decode);
    if imagesData.Some? {
      RenamedLiteral(imagesData.value, decode);
    }
    currentMarkdown := RelinkMarkdown(rawMarkdown, docName, imageMap);
  }
}

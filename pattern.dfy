/**
 * The regular expression of create_docmost_zip,
 * `!\[(.*?)\]\(data:(image/[a-zA-Z]+);base64,(.*?)\)`, written out by
 * hand. Scan is re.sub's left-to-right, non-overlapping search; MatchAt
 * is the pattern tried at one position with Python's lazy `.*?` semantics
 * (`.` never matches a newline).
 *
 * The functions carry only the size facts termination needs; what a
 * match spells and what its groups may hold are lemmas beside them.
 */
module Pattern {
  import opened Options
  import opened Text

  /** A piece of the scanned Markdown: a character the pattern did not
      cover, or one match with its three groups. */
  datatype Segment =
    | Literal(c: char)
    | DataImage(alt: string, mime: string, payload: string)

  predicate IsAsciiLetter(c: char) {
    ('a' <= c <= 'z') || ('A' <= c <= 'Z')
  }

  predicate AllLetters(s: string) {
    forall i :: 0 <= i < |s| ==> IsAsciiLetter(s[i])
  }

  /** Group 2, `image/[a-zA-Z]+`. */
  predicate IsMime(m: string) {
    |m| > 6 && m[..6] == "image/" && AllLetters(m[6..])
  }

  /** Group 3, the lazy `(.*?)` before `\)`: it stops at the first ')' and
      cannot cross a newline; it may be empty. */
  predicate IsPayload(p: string) {
    '\n' !in p && ')' !in p
  }

  /** What the groups of a match can hold: no newline in the alt text, a
      MIME type of letters, a payload free of ')'. */
  predicate WellFormed(seg: Segment) {
    match seg
    case Literal(_) => true
    case DataImage(alt, mime, payload) => '\n' !in alt && IsMime(mime) && IsPayload(payload)
  }

  /** The text a segment was scanned from. */
  function Source(seg: Segment): string {
    match seg
    case Literal(c) => [c]
    case DataImage(alt, mime, payload) => "![" + (alt + After(mime, payload))
  }

  /** What follows the alt text of a match. */
  function After(mime: string, payload: string): string {
    "](data:" + (mime + (";base64," + (payload + ")")))
  }

  lemma AfterSplit(mime: string, payload: string, w: string)
    ensures After(mime, payload) + w == "](data:" + (mime + (";base64," + (payload + (")" + w))))
  {
    AppendAssoc(payload, ")", w);
    AppendAssoc(";base64,", payload + ")", w);
    AppendAssoc(mime, ";base64," + (payload + ")"), w);
    AppendAssoc("](data:", mime + (";base64," + (payload + ")")), w);
  }

  /** The text a sequence of segments was scanned from. */
  function Unscan(segs: seq<Segment>): string
    decreases |segs|
  {
    if segs == [] then [] else Source(segs[0]) + Unscan(segs[1..])
  }

  /** The length of the leading run of ASCII letters (greedy `[a-zA-Z]+`). */
  function LetterRun(s: string): (k: nat)
    ensures k <= |s| && AllLetters(s[..k])
    ensures k < |s| ==> !IsAsciiLetter(s[k])
  {
    if s != [] && IsAsciiLetter(s[0]) then
      var k := 1 + LetterRun(s[1..]);
      assert s[..k] == [s[0]] + s[1..][..k - 1];
      k
    else 0
  }

  lemma {:induction false} LetterRunOf(ls: string, t: string)
    requires AllLetters(ls) && (t == [] || !IsAsciiLetter(t[0]))
    ensures LetterRun(ls + t) == |ls|
    decreases |ls|
  {
    if ls != [] {
      assert (ls + t)[1..] == ls[1..] + t;
      LetterRunOf(ls[1..], t);
    }
  }

  /** The lazy `(.*?)\)` from offset i: the first ')' with no newline
      before it. */
  function CloseParen(s: string, i: nat): (r: Option<nat>)
    requires i <= |s|
    ensures r.Some? ==> i <= r.value < |s| && s[r.value] == ')'
    ensures r.Some? ==> '\n' !in s[i..r.value] && ')' !in s[i..r.value]
    decreases |s| - i
  {
    if i == |s| || s[i] == '\n' then None
    else if s[i] == ')' then Some(i)
    else
      var r := CloseParen(s, i + 1);
      if r.Some? then
        assert s[i..r.value] == [s[i]] + s[i + 1..r.value];
        r
      else r
  }

  lemma {:induction false} CloseParenOf(s: string, i: nat, p: string)
    requires i + |p| < |s| && s[i..i + |p|] == p && s[i + |p|] == ')'
    requires '\n' !in p && ')' !in p
    ensures CloseParen(s, i) == Some(i + |p|)
    decreases |p|
  {
    if p != [] {
      assert s[i] == p[0];
      assert s[i + 1..i + 1 + |p[1..]|] == p[1..];
      CloseParenOf(s, i + 1, p[1..]);
    }
  }

  /** The pattern after the alt text, tried on the text `x` that follows
      it: "](data:", group 2, ";base64,", group 3 and ')'. Yields the two
      groups and the length consumed. */
  function TailText(x: string): (r: Option<(string, string, nat)>)
    ensures r.Some? ==> 0 < r.value.2 <= |x|
  {
    if !("](data:image/" <= x) then None
    else
      var letters := LetterRun(x[13..]);
      if letters == 0 then None
      else
        var b := 13 + letters;
        if !(";base64," <= x[b..]) then None
        else
          match CloseParen(x[b + 8..], 0)
          case None => None
          case Some(e) => Some((x[7..b], x[b + 8..][..e], b + 8 + e + 1))
  }

  /** A tail match consists of well-formed groups and spells the text it
      consumed. */
  lemma TailTextSound(x: string)
    requires TailText(x).Some?
    ensures IsMime(TailText(x).value.0) && IsPayload(TailText(x).value.1)
    ensures x[..TailText(x).value.2] == After(TailText(x).value.0, TailText(x).value.1)
  {
    var letters := LetterRun(x[13..]);
    var b := 13 + letters;
    var e := CloseParen(x[b + 8..], 0).value;
    TailTextShape(x, letters, e);
  }

  lemma {:induction false} TailTextShape(x: string, letters: nat, e: nat)
    requires 0 < letters && 13 + letters + 8 + e < |x|
    requires "](data:image/" <= x && AllLetters(x[13..][..letters])
    requires ";base64," <= x[13 + letters..] && x[13 + letters + 8 + e] == ')'
    ensures IsMime(x[7..13 + letters])
    ensures x[..13 + letters + 8 + e + 1] == After(x[7..13 + letters], x[13 + letters + 8..][..e])
  {
    var b := 13 + letters;
    var n := b + 8 + e + 1;
    MimeAt(x, letters);
    OpeningAt(x);
    BaseAt(x, b);
    CloseAt(x, b + 8, e);
    SliceFour(x, 7, b, b + 8, n);
  }

  lemma MimeAt(x: string, letters: nat)
    requires 0 < letters && 13 + letters <= |x|
    requires "](data:image/" <= x && AllLetters(x[13..][..letters])
    ensures IsMime(x[7..13 + letters])
  {
    var mime := x[7..13 + letters];
    assert mime[..6] == x[7..13];
    assert mime[6..] == x[13..][..letters];
  }

  lemma OpeningAt(x: string)
    requires "](data:image/" <= x
    ensures x[..7] == "](data:"
  {
  }

  lemma BaseAt(x: string, b: nat)
    requires b + 8 <= |x| && ";base64," <= x[b..]
    ensures x[b..b + 8] == ";base64,"
  {
  }

  lemma CloseAt(x: string, c: nat, e: nat)
    requires c + e < |x| && x[c + e] == ')'
    ensures x[c..c + e + 1] == x[c..][..e] + ")"
  {
  }

  lemma SliceFour(x: string, i: nat, j: nat, k: nat, n: nat)
    requires i <= j <= k <= n <= |x|
    ensures x[..n] == x[..i] + (x[i..j] + (x[j..k] + x[k..n]))
  {
    assert x[..n] == x[..i] + x[i..j] + x[j..k] + x[k..n];
  }

  /** The pattern after the alt text `s[2..q]`. */
  function Tail(s: string, q: nat): (r: Option<(Segment, nat)>)
    requires 2 <= q <= |s|
    ensures r.Some? ==> r.value.0.DataImage? && r.value.0.alt == s[2..q] && q < r.value.1 <= |s|
  {
    match TailText(s[q..])
    case None => None
    case Some((mime, payload, n)) => Some((DataImage(s[2..q], mime, payload), q + n))
  }

  lemma TailSound(s: string, q: nat)
    requires 2 <= q <= |s| && Tail(s, q).Some?
    ensures IsMime(Tail(s, q).value.0.mime) && IsPayload(Tail(s, q).value.0.payload)
    ensures s[q..Tail(s, q).value.1] == After(Tail(s, q).value.0.mime, Tail(s, q).value.0.payload)
  {
    TailTextSound(s[q..]);
    var n := TailText(s[q..]).value.2;
    assert s[q..][..n] == s[q..q + n];
  }

  /** The lazy alt group: try the shortest alt text first and extend it
      one character at a time, never across a newline. */
  function MatchFrom(s: string, q: nat): (r: Option<(Segment, nat)>)
    requires 2 <= q <= |s|
    ensures r.Some? ==> r.value.0.DataImage? && 2 < r.value.1 <= |s|
    decreases |s| - q
  {
    match Tail(s, q)
    case Some(m) => Some(m)
    case None =>
      if q < |s| && s[q] != '\n' then MatchFrom(s, q + 1) else None
  }

  /** A match found by the lazy search is well formed and spells the text
      it consumed. */
  lemma {:induction false} MatchFromSound(s: string, q: nat)
    requires "![" <= s && 2 <= q <= |s| && '\n' !in s[2..q] && MatchFrom(s, q).Some?
    ensures WellFormed(MatchFrom(s, q).value.0)
    ensures s[..MatchFrom(s, q).value.1] == Source(MatchFrom(s, q).value.0)
    decreases |s| - q
  {
    MatchFromStep(s, q);
    if Tail(s, q).Some? {
      var m := Tail(s, q).value;
      TailSound(s, q);
      SourceOf(s, q, m.1, m.0);
    } else {
      MatchFromSound(s, q + 1);
    }
  }

  lemma {:induction false} SourceOf(s: string, q: nat, n: nat, seg: Segment)
    requires seg.DataImage? && "![" <= s && 2 <= q < n <= |s| && seg.alt == s[2..q]
    requires s[q..n] == After(seg.mime, seg.payload)
    ensures s[..n] == Source(seg)
  {
    assert s[2..n] == s[2..q] + s[q..n];
    assert s[..n] == s[..2] + s[2..n];
    assert s[..2] == "![";
  }

  /** The pattern tried at the start of `s`: the match and its length. */
  function MatchAt(s: string): (r: Option<(Segment, nat)>)
    ensures r.Some? ==> r.value.0.DataImage? && 0 < r.value.1 <= |s|
  {
    if "![" <= s then MatchFrom(s, 2) else None
  }

  lemma MatchAtSound(s: string)
    requires MatchAt(s).Some?
    ensures WellFormed(MatchAt(s).value.0) && s[..MatchAt(s).value.1] == Source(MatchAt(s).value.0)
  {
    assert s[2..2] == [];
    MatchFromSound(s, 2);
  }

  /** The pattern tried at one position never consumes nothing or more than
      the text. */
  ghost predicate Advances(matchAt: string -> Option<(Segment, nat)>) {
    forall x :: matchAt(x).Some? ==> 0 < matchAt(x).value.1 <= |x|
  }

  /** What the pattern reports it consumed is the text its match spells,
      and the groups are well formed. */
  ghost predicate Sound(matchAt: string -> Option<(Segment, nat)>) {
    forall x :: matchAt(x).Some? ==>
      matchAt(x).value.1 <= |x| && x[..matchAt(x).value.1] == Source(matchAt(x).value.0)
      && WellFormed(matchAt(x).value.0)
  }

  /** re.sub's search with `matchAt` as the pattern: a match where the
      pattern matches, otherwise one character kept, then on from the end
      of what was consumed. */
  function ScanWith(matchAt: string -> Option<(Segment, nat)>, s: string): (segs: seq<Segment>)
    requires Advances(matchAt)
    ensures |segs| <= |s|
    decreases |s|
  {
    match matchAt(s)
    case Some(m) => [m.0] + ScanWith(matchAt, s[m.1..])
    case None => if s == [] then [] else [Literal(s[0])] + ScanWith(matchAt, s[1..])
  }

  /** The data-URI pattern's scan of the Markdown. */
  function Scan(s: string): (segs: seq<Segment>)
    ensures |segs| <= |s|
  {
    ScanWith(MatchAt, s)
  }

  /** The data-URI pattern is sound. */
  lemma MatchAtIsSound()
    ensures Sound(MatchAt)
  {
    forall x | MatchAt(x).Some?
      ensures x[..MatchAt(x).value.1] == Source(MatchAt(x).value.0) && WellFormed(MatchAt(x).value.0)
    {
      MatchAtSound(x);
    }
  }

  /** The first segment of a scan: the match at the start, or the first
      character kept. */
  lemma ScanHead(matchAt: string -> Option<(Segment, nat)>, s: string) returns (first: Segment, n: nat)
    requires Advances(matchAt) && Sound(matchAt) && s != []
    ensures 0 < n <= |s| && ScanWith(matchAt, s) == [first] + ScanWith(matchAt, s[n..])
    ensures WellFormed(first) && s[..n] == Source(first)
  {
    match matchAt(s)
    case Some(m) =>
      first, n := m.0, m.1;
    case None =>
      first, n := Literal(s[0]), 1;
  }

  /** Scanning with a sound pattern loses nothing: the segments spell the
      text back. */
  lemma {:induction false} ScanWithUnscan(matchAt: string -> Option<(Segment, nat)>, s: string)
    requires Advances(matchAt) && Sound(matchAt)
    ensures Unscan(ScanWith(matchAt, s)) == s
    decreases |s|
  {
    if s != [] {
      var first, n := ScanHead(matchAt, s);
      var rest := ScanWith(matchAt, s[n..]);
      ScanWithUnscan(matchAt, s[n..]);
      UnscanConsAt(first, rest, ScanWith(matchAt, s));
      JoinAt(s, n, Source(first), Unscan(rest));
    }
  }

  lemma UnscanConsAt(seg: Segment, rest: seq<Segment>, all: seq<Segment>)
    requires all == [seg] + rest
    ensures Unscan(all) == Source(seg) + Unscan(rest)
  {
    UnscanCons(seg, rest);
  }

  lemma JoinAt(s: string, n: nat, a: string, b: string)
    requires n <= |s| && a == s[..n] && b == s[n..]
    ensures a + b == s
  {
  }

  lemma UnscanCons(seg: Segment, rest: seq<Segment>)
    ensures Unscan([seg] + rest) == Source(seg) + Unscan(rest)
  {
    assert ([seg] + rest)[1..] == rest;
  }

  /** Every match a sound pattern reports has well-formed groups. */
  lemma {:induction false} ScanWithWellFormed(matchAt: string -> Option<(Segment, nat)>, s: string)
    requires Advances(matchAt) && Sound(matchAt)
    ensures forall i :: 0 <= i < |ScanWith(matchAt, s)| ==> WellFormed(ScanWith(matchAt, s)[i])
    decreases |s|
  {
    if s != [] {
      var first, n := ScanHead(matchAt, s);
      ScanWithWellFormed(matchAt, s[n..]);
      ConsWellFormed(first, ScanWith(matchAt, s[n..]));
    }
  }

  lemma ConsWellFormed(seg: Segment, rest: seq<Segment>)
    requires WellFormed(seg) && forall i :: 0 <= i < |rest| ==> WellFormed(rest[i])
    ensures forall i :: 0 <= i < |[seg] + rest| ==> WellFormed(([seg] + rest)[i])
  {
  }

  /** The scan of the Markdown spells it back. */
  lemma ScanUnscan(s: string)
    ensures Unscan(Scan(s)) == s
  {
    MatchAtIsSound();
    ScanWithUnscan(MatchAt, s);
  }

  /** Every match in the scan of the Markdown has well-formed groups. */
  lemma ScanWellFormed(s: string)
    ensures forall i :: 0 <= i < |Scan(s)| ==> WellFormed(Scan(s)[i])
  {
    MatchAtIsSound();
    ScanWithWellFormed(MatchAt, s);
  }

  /** A well-formed match in the text is what the pattern finds after the
      given alt text. */
  lemma {:induction false} TailOf(s: string, seg: Segment)
    requires seg.DataImage? && WellFormed(seg) && Source(seg) <= s
    ensures Tail(s, 2 + |seg.alt|) == Some((seg, |Source(seg)|))
  {
    var src := Source(seg);
    var q := 2 + |seg.alt|;
    var w := s[|src|..];
    SourceLayout(s, seg, src, q, w);
    TailTextOf(seg.mime, seg.payload, w, s[q..]);
    assert seg == DataImage(s[2..q], seg.mime, seg.payload);
  }

  /** Where the alt text and the tail of a match sit in the text. */
  lemma SourceLayout(s: string, seg: Segment, src: string, q: nat, w: string)
    requires seg.DataImage? && src == Source(seg) && src <= s && q == 2 + |seg.alt| && w == s[|src|..]
    ensures q <= |s| && s[q..] == After(seg.mime, seg.payload) + w && s[2..q] == seg.alt
    ensures |src| == q + |After(seg.mime, seg.payload)|
  {
    assert s == src + w;
    assert src[q..] == After(seg.mime, seg.payload);
    assert s[q..] == src[q..] + w;
    assert src[2..q] == seg.alt;
  }

  /** The text after a well-formed alt text matches the tail in full. */
  lemma {:induction false} TailTextOf(mime: string, payload: string, w: string, x: string)
    requires IsMime(mime) && IsPayload(payload) && x == After(mime, payload) + w
    ensures TailText(x) == Some((mime, payload, |After(mime, payload)|))
  {
    var ls := mime[6..];
    var r3 := ";base64," + (payload + (")" + w));
    MimeLetters(mime, x, r3, w, payload);
    LetterRunAt(ls, r3, x[13..]);
    var b := 13 + |ls|;
    var p := payload + (")" + w);
    PayloadAt(x, b, r3, p, payload, w);
    CloseParenOf(p, 0, payload);
    AfterLength(mime, payload, b);
  }

  lemma LetterRunAt(ls: string, t: string, y: string)
    requires AllLetters(ls) && t != [] && t[0] == ';' && y == ls + t
    ensures LetterRun(y) == |ls|
  {
    LetterRunOf(ls, t);
  }

  lemma PayloadAt(x: string, b: nat, r3: string, p: string, payload: string, w: string)
    requires b <= |x| && x[b..] == r3 && r3 == ";base64," + p && p == payload + (")" + w)
    ensures ";base64," <= x[b..] && x[b + 8..] == p && p[..|payload|] == payload
    ensures |payload| < |p| && p[|payload|] == ')'
  {
    assert x[b + 8..] == r3[8..];
  }

  lemma AfterLength(mime: string, payload: string, b: nat)
    requires |mime| > 6 && b == 13 + |mime[6..]|
    ensures b + 8 + |payload| + 1 == |After(mime, payload)|
  {
  }

  /** The layout of the text after a well-formed alt text. */
  lemma MimeLetters(mime: string, x: string, r3: string, w: string, payload: string)
    requires IsMime(mime) && x == After(mime, payload) + w && r3 == ";base64," + (payload + (")" + w))
    ensures "](data:image/" <= x && x[13..] == mime[6..] + r3 && x[7..13 + |mime| - 6] == mime
  {
    AfterSplit(mime, payload, w);
    var ls := mime[6..];
    assert mime == "image/" + ls;
    assert mime + r3 == "image/" + (ls + r3);
    assert x == "](data:" + (mime + r3);
  }

  /** One step of the lazy alt group: a tail match at q is taken, otherwise
      the alt text grows by one character. */
  lemma MatchFromStep(s: string, q: nat)
    requires 2 <= q <= |s| && '\n' !in s[2..q]
    ensures Tail(s, q).Some? ==> MatchFrom(s, q) == Tail(s, q)
    ensures Tail(s, q).None? && q < |s| && s[q] != '\n' ==>
      '\n' !in s[2..q + 1] && MatchFrom(s, q) == MatchFrom(s, q + 1)
    ensures Tail(s, q).None? && (q == |s| || s[q] == '\n') ==> MatchFrom(s, q).None?
  {
    if q < |s| {
      assert s[2..q + 1] == s[2..q] + [s[q]];
    }
  }

  /** Extending the alt text from q reaches a match whose alt text ends
      no later than a known match at `a`. */
  lemma {:induction false} MatchFromReach(s: string, q: nat, a: nat)
    requires 2 <= q <= a <= |s| && '\n' !in s[2..a] && '\n' !in s[2..q]
    requires Tail(s, a).Some?
    ensures MatchFrom(s, q).Some? && |MatchFrom(s, q).value.0.alt| <= a - 2
    decreases a - q
  {
    MatchFromStep(s, q);
    if Tail(s, q).None? {
      ReachStep(s, q, a);
      MatchFromReach(s, q + 1, a);
    }
  }

  /** Short of the known match, the alt text can still grow by one. */
  lemma ReachStep(s: string, q: nat, a: nat)
    requires 2 <= q <= a <= |s| && '\n' !in s[2..a] && '\n' !in s[2..q]
    requires q != a
    ensures q < |s| && s[q] != '\n' && '\n' !in s[2..q + 1]
  {
    assert s[q] == s[2..a][q - 2];
    assert s[2..q + 1] == s[2..a][..q - 1];
  }

  /** Completeness and laziness: where a data-URI image link starts, the
      pattern matches, and its alt text is the shortest possible. */
  lemma {:induction false} MatchComplete(s: string, seg: Segment)
    requires seg.DataImage? && WellFormed(seg) && Source(seg) <= s
    ensures MatchAt(s).Some? && |MatchAt(s).value.0.alt| <= |seg.alt|
  {
    var src := Source(seg);
    assert src[..2] == "![";
    assert s[..2] == "![";
    assert src[2..2 + |seg.alt|] == seg.alt;
    assert s[2..2 + |seg.alt|] == seg.alt;
    TailOf(s, seg);
    assert s[2..2] == [];
    MatchFromReach(s, 2, 2 + |seg.alt|);
  }

  /** An alt text may contain ']': the lazy group first tries "a" and fails on
      "]b](da...", then extends to "a]b". */
  lemma {:induction false} AltWithBracket(p: string, rest: string)
    requires IsPayload(p)
    ensures MatchAt("![a]b" + After("image/png", p) + rest).Some?
  {
    var seg := DataImage("a]b", "image/png", p);
    assert IsMime("image/png") by {
      assert "image/png"[6..] == "png";
    }
    assert "![" + "a]b" == "![a]b";
    AppendAssoc("![", "a]b", After("image/png", p));
    MatchComplete("![a]b" + After("image/png", p) + rest, seg);
  }
}

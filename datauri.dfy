/**
 * The data-URI extraction of create_docmost_zip: every match of the
 * data-URI image pattern (see Pattern) is cut out, named image_NNN.<ext>
 * from a counter shared with the passed-in images, decoded, and replaced
 * by a link into images/ (or by the MISSING_IMAGE sentinel when the
 * payload does not decode).
 *
 * Render is re.sub with the callback as a parameter; the properties of
 * the substitution that do not depend on what the callback does are
 * proved for every callback, the rest for replace_data_uri.
 */
module DataUri {
  import opened Options
  import opened Text
  import opened Naming
  import opened Pattern

  // ---------------------------------------------------------------------
  // The callback: extension, name, decode, replacement text.
  // ---------------------------------------------------------------------

  /** The extension chosen from the MIME type (case-sensitive tests). */
  function Ext(mime: string): (r: string)
    ensures r == "jpg" || r == "gif" || r == "webp" || r == "png"
  {
    if Contains(mime, "jpeg") || Contains(mime, "jpg") then "jpg"
    else if Contains(mime, "gif") then "gif"
    else if Contains(mime, "webp") then "webp"
    else "png"
  }

  /** f"image_{n:03d}.{ext}". */
  function FileName(n: nat, ext: string): (r: string)
    ensures |r| >= 10
  {
    ImageName(n, "." + ext)
  }

  /** One piece of the substituted text: a kept character, a link to a
      file under images/, or the sentinel for a payload that did not
      decode. */
  datatype Piece = Kept(c: char) | Linked(alt: string, name: string) | Missing(alt: string)

  /** One entry of final_images: the counter value it was named from, the
      file name and the decoded bytes. */
  datatype Saved = Saved(number: nat, name: string, data: Bytes)

  /** f"![{alt}]({target})". */
  function LinkText(alt: string, target: string): string {
    "![" + alt + "](" + target + ")"
  }

  function PieceText(p: Piece): string {
    match p
    case Kept(c) => [c]
    case Linked(alt, name) => LinkText(alt, "images/" + name)
    case Missing(alt) => LinkText(alt, "MISSING_IMAGE")
  }

  /** The text the pieces spell, in order. */
  function Spell(ps: seq<Piece>): string {
    if ps == [] then [] else Spell(ps[..|ps| - 1]) + PieceText(ps[|ps| - 1])
  }

  /** final_images as the dictionary sees it: file names to bytes, in
      insertion order. */
  function Named(images: seq<Saved>): (r: seq<(string, Bytes)>)
    ensures |r| == |images|
    ensures forall i :: 0 <= i < |images| ==> r[i] == (images[i].name, images[i].data)
  {
    if images == [] then []
    else Named(images[..|images| - 1]) + [(images[|images| - 1].name, images[|images| - 1].data)]
  }

  /** One call of replace_data_uri once the counter has been raised to n:
      the replacement and what it adds to final_images. */
  function Callback(alt: string, mime: string, payload: string, n: nat, decode: string -> Option<Bytes>)
    : (Piece, seq<Saved>)
  {
    var name := FileName(n, Ext(mime));
    match decode(payload)
    case Some(data) => (Linked(alt, name), [Saved(n, name, data)])
    case None => (Missing(alt), [])
  }

  /** A callback for re.sub: given the three groups and the raised counter,
      the replacement piece and the entries it adds to final_images. */
  type Replacer = (string, string, string, nat) -> (Piece, seq<Saved>)

  /** replace_data_uri as the callback handed to re.sub. */
  function ReplaceWith(decode: string -> Option<Bytes>): (cb: Replacer)
    ensures forall alt, mime, payload, n :: cb(alt, mime, payload, n) == Callback(alt, mime, payload, n, decode)
  {
    (alt: string, mime: string, payload: string, n: nat) => Callback(alt, mime, payload, n, decode)
  }

  // ---------------------------------------------------------------------
  // re.sub over the scanned segments.
  // ---------------------------------------------------------------------

  /** The state after re.sub has passed over some segments: the pieces
      produced, final_images in insertion order, and current_image_idx. */
  datatype Rendered = Rendered(pieces: seq<Piece>, images: seq<Saved>, index: nat)

  /** One segment: a kept character is copied; a match raises the counter
      and goes through the callback. */
  function Step(acc: Rendered, seg: Segment, cb: Replacer): Rendered {
    match seg
    case Literal(c) => Rendered(acc.pieces + [Kept(c)], acc.images, acc.index)
    case DataImage(alt, mime, payload) =>
      var r := cb(alt, mime, payload, acc.index + 1);
      Rendered(acc.pieces + [r.0], acc.images + r.1, acc.index + 1)
  }

  /** A match appends the callback's piece and entries and raises the
      counter by one. */
  lemma StepData(acc: Rendered, alt: string, mime: string, payload: string, cb: Replacer)
    ensures var c := cb(alt, mime, payload, acc.index + 1);
      Step(acc, DataImage(alt, mime, payload), cb) == Rendered(acc.pieces + [c.0], acc.images + c.1, acc.index + 1)
  {
  }

  /** The number of matches among segs. */
  function DataCount(segs: seq<Segment>): nat {
    if segs == [] then 0
    else DataCount(segs[..|segs| - 1]) + (if segs[|segs| - 1].DataImage? then 1 else 0)
  }

  /** The number of matches whose payload decodes. */
  function DecodedCount(segs: seq<Segment>, decode: string -> Option<Bytes>): nat {
    if segs == [] then 0
    else
      var last := segs[|segs| - 1];
      DecodedCount(segs[..|segs| - 1], decode) + (if last.DataImage? && decode(last.payload).Some? then 1 else 0)
  }

  /** re.sub over segs with the counter starting at `start`: one piece per
      segment, and every match consumes one number whatever the callback
      makes of it. */
  function Render(segs: seq<Segment>, start: nat, cb: Replacer): (r: Rendered)
    ensures |r.pieces| == |segs|
    ensures r.index == start + DataCount(segs)
    decreases |segs|
  {
    if segs == [] then Rendered([], [], start)
    else Step(Render(segs[..|segs| - 1], start, cb), segs[|segs| - 1], cb)
  }

  lemma {:induction false} RenderSnoc(segs: seq<Segment>, i: nat, start: nat, cb: Replacer)
    requires i < |segs|
    ensures Render(segs[..i + 1], start, cb) == Step(Render(segs[..i], start, cb), segs[i], cb)
  {
    assert segs[..i + 1][..i] == segs[..i];
  }

  /** With replace_data_uri as the callback there is one entry per match
      whose payload decodes. */
  lemma {:induction false} ImagesCount(segs: seq<Segment>, start: nat, decode: string -> Option<Bytes>)
    ensures |Render(segs, start, ReplaceWith(decode)).images| == DecodedCount(segs, decode)
    decreases |segs|
  {
    if segs != [] {
      ImagesCount(segs[..|segs| - 1], start, decode);
    }
  }

  /** A callback that adds at most one entry, numbered with the counter it
      was given and named so that the number reads back from the name. */
  ghost predicate NumbersOwnImage(cb: Replacer) {
    forall alt, mime, payload, n ::
      |cb(alt, mime, payload, n).1| <= 1
      && (cb(alt, mime, payload, n).1 != [] ==>
            cb(alt, mime, payload, n).1[0].number == n && ImageNumber(cb(alt, mime, payload, n).1[0].name) == n)
  }

  /** replace_data_uri names its one file after the raised counter. */
  lemma CallbackNumbersOwnImage(decode: string -> Option<Bytes>)
    ensures NumbersOwnImage(ReplaceWith(decode))
  {
    forall mime: string, n: nat
      ensures ImageNumber(FileName(n, Ext(mime))) == n
    {
      ImageNameNumber(n, "." + Ext(mime));
    }
  }

  /** Every entry's number is above `start` and at most the counter, and
      reads back from its name. */
  ghost predicate ImagesAbove(r: Rendered, start: nat) {
    forall i :: 0 <= i < |r.images| ==>
      start < r.images[i].number <= r.index && ImageNumber(r.images[i].name) == r.images[i].number
  }

  /** The entries' numbers increase along final_images. */
  ghost predicate ImagesIncreasing(r: Rendered) {
    forall i, j :: 0 <= i < j < |r.images| ==> r.images[i].number < r.images[j].number
  }

  /** Every entry carries a number above `start` and no higher than the
      final counter, and the numbers increase along final_images. */
  lemma {:induction false} ImagesNumbered(segs: seq<Segment>, start: nat, cb: Replacer)
    requires NumbersOwnImage(cb)
    ensures ImagesAbove(Render(segs, start, cb), start)
    ensures ImagesIncreasing(Render(segs, start, cb))
    decreases |segs|
  {
    if segs != [] {
      var init := segs[..|segs| - 1];
      ImagesNumbered(init, start, cb);
      ImagesStep(Render(init, start, cb), segs[|segs| - 1], start, cb);
    }
  }

  /** One segment keeps the entries numbered: a new entry gets the raised
      counter, above every earlier one. */
  lemma ImagesStep(acc: Rendered, seg: Segment, start: nat, cb: Replacer)
    requires NumbersOwnImage(cb)
    requires ImagesAbove(acc, start) && ImagesIncreasing(acc) && start <= acc.index
    ensures ImagesAbove(Step(acc, seg, cb), start) && ImagesIncreasing(Step(acc, seg, cb))
  {
    if seg.DataImage? {
      var n := acc.index + 1;
      var added := cb(seg.alt, seg.mime, seg.payload, n).1;
      StepData(acc, seg.alt, seg.mime, seg.payload, cb);
      ImagesAppend(acc, added, n, Step(acc, seg, cb), start);
    }
  }

  /** Entries numbered after the counter, appended with the counter raised
      to their number, keep the numbering above `start` and increasing. */
  lemma ImagesAppend(acc: Rendered, added: seq<Saved>, n: nat, r: Rendered, start: nat)
    requires ImagesAbove(acc, start) && ImagesIncreasing(acc) && start <= acc.index && n == acc.index + 1
    requires r.images == acc.images + added && r.index == n
    requires |added| <= 1 && (added != [] ==> added[0].number == n && ImageNumber(added[0].name) == n)
    ensures ImagesAbove(r, start) && ImagesIncreasing(r)
  {
    var m := |acc.images|;
    forall i | 0 <= i < |r.images|
      ensures start < r.images[i].number <= r.index && ImageNumber(r.images[i].name) == r.images[i].number
    {
      if i < m {
        assert r.images[i] == acc.images[i];
      } else {
        assert r.images[i] == added[0];
      }
    }
    forall i, j | 0 <= i < j < |r.images|
      ensures r.images[i].number < r.images[j].number
    {
      assert r.images[i] == acc.images[i];
      if j < m {
        assert r.images[j] == acc.images[j];
      } else {
        assert r.images[j] == added[0];
      }
    }
  }

  /** No two entries of a dictionary share a key. */
  ghost predicate DistinctKeys<V>(entries: seq<(string, V)>) {
    forall i, j :: 0 <= i < |entries| && 0 <= j < |entries| && i != j ==> entries[i].0 != entries[j].0
  }

  /** final_images never gets the same key twice, so each assignment
      adds a new entry. */
  lemma {:induction false} ImageNamesUnique(segs: seq<Segment>, start: nat, decode: string -> Option<Bytes>)
    ensures DistinctKeys(Named(Render(segs, start, ReplaceWith(decode)).images))
  {
    var r := Render(segs, start, ReplaceWith(decode));
    CallbackNumbersOwnImage(decode);
    ImagesNumbered(segs, start, ReplaceWith(decode));
    var keys := Named(r.images);
    forall i, j | 0 <= i < |keys| && 0 <= j < |keys| && i != j
      ensures keys[i].0 != keys[j].0
    {
      assert ImageNumber(keys[i].0) == r.images[i].number;
      assert ImageNumber(keys[j].0) == r.images[j].number;
    }
  }

  /** Joining two renderings: the second picks up the counter where the
      first left it. */
  function Then(x: Rendered, y: Rendered): Rendered {
    Rendered(x.pieces + y.pieces, x.images + y.images, y.index)
  }

  /** Substitution over a + b is substitution over a, then over b with the
      counter the first left behind. */
  lemma {:induction false} RenderAppend(a: seq<Segment>, b: seq<Segment>, start: nat, cb: Replacer)
    ensures Render(a + b, start, cb) == Then(Render(a, start, cb), Render(b, Render(a, start, cb).index, cb))
    decreases |b|
  {
    var ra := Render(a, start, cb);
    if b == [] {
      assert a + b == a;
    } else {
      var b' := b[..|b| - 1];
      var seg := b[|b| - 1];
      RenderAppend(a, b', start, cb);
      var rb' := Render(b', ra.index, cb);
      SnocSplit(a, b, b', seg);
      RenderLast(a + b, a + b', seg, start, cb);
      RenderLast(b, b', seg, ra.index, cb);
      StepThen(ra, rb', seg, cb);
    }
  }

  lemma SnocSplit(a: seq<Segment>, b: seq<Segment>, b': seq<Segment>, seg: Segment)
    requires b != [] && b' == b[..|b| - 1] && seg == b[|b| - 1]
    ensures b == b' + [seg] && a + b == (a + b') + [seg]
  {
  }

  /** Rendering a text ending in one more segment is one more step. */
  lemma RenderLast(s: seq<Segment>, init: seq<Segment>, seg: Segment, start: nat, cb: Replacer)
    requires s == init + [seg]
    ensures Render(s, start, cb) == Step(Render(init, start, cb), seg, cb)
  {
    assert s[..|s| - 1] == init;
  }

  /** A step after a join only touches the second part. */
  lemma StepThen(x: Rendered, y: Rendered, seg: Segment, cb: Replacer)
    ensures Step(Then(x, y), seg, cb) == Then(x, Step(y, seg, cb))
  {
    match seg {
      case Literal(c) =>
        AppendAssoc(x.pieces, y.pieces, [Kept(c)]);
      case DataImage(alt, mime, payload) =>
        var r := cb(alt, mime, payload, y.index + 1);
        AppendAssoc(x.pieces, y.pieces, [r.0]);
        AppendAssoc(x.images, y.images, r.1);
    }
  }

  /** The match at position i is rendered on its own with the counter the
      matches before it left, and the rest carries on from there: with no
      passed images the k-th match left to right gets image_{k:03d}. */
  lemma {:induction false} MatchNumbered(segs: seq<Segment>, i: nat, start: nat, cb: Replacer)
    requires i < |segs| && segs[i].DataImage?
    ensures var n := start + DataCount(segs[..i]) + 1;
      var c := cb(segs[i].alt, segs[i].mime, segs[i].payload, n);
      Render(segs, start, cb) ==
        Then(Then(Render(segs[..i], start, cb), Rendered([c.0], c.1, n)), Render(segs[i + 1..], n, cb))
  {
    var a, x, b := segs[..i], [segs[i]], segs[i + 1..];
    var ax := segs[..i + 1];
    MatchSplit(segs, i, a, x, b, ax);
    var ra := Render(a, start, cb);
    RenderAppendAt(a, x, start, cb, ax);
    RenderOne(segs[i], ra.index, cb);
    RenderAppendAt(ax, b, start, cb, segs);
  }

  lemma MatchSplit<T>(segs: seq<T>, i: nat, a: seq<T>, x: seq<T>, b: seq<T>, ax: seq<T>)
    requires i < |segs| && a == segs[..i] && x == [segs[i]] && b == segs[i + 1..] && ax == segs[..i + 1]
    ensures ax == a + x && segs == ax + b
  {
  }

  lemma RenderAppendAt(a: seq<Segment>, b: seq<Segment>, start: nat, cb: Replacer, ab: seq<Segment>)
    requires ab == a + b
    ensures Render(ab, start, cb) == Then(Render(a, start, cb), Render(b, Render(a, start, cb).index, cb))
  {
    RenderAppend(a, b, start, cb);
  }

  /** Substitution over one match. */
  lemma RenderOne(seg: Segment, index: nat, cb: Replacer)
    requires seg.DataImage?
    ensures var c := cb(seg.alt, seg.mime, seg.payload, index + 1);
      Render([seg], index, cb) == Rendered([c.0], c.1, index + 1)
  {
    assert [seg][..0] == [];
  }

  /** A payload that does not decode still uses up its number: of two
      matches whose first fails, the second is image_002 and the only
      entry. */
  lemma {:induction false} FailedImageConsumesNumber(x: Segment, y: Segment, decode: string -> Option<Bytes>)
    requires x.DataImage? && y.DataImage?
    requires decode(x.payload).None? && decode(y.payload).Some?
    ensures Render([x, y], 0, ReplaceWith(decode)).pieces == [Missing(x.alt), Linked(y.alt, FileName(2, Ext(y.mime)))]
    ensures Render([x, y], 0, ReplaceWith(decode)).images == [Saved(2, FileName(2, Ext(y.mime)), decode(y.payload).value)]
    ensures Spell(Render([x, y], 0, ReplaceWith(decode)).pieces) ==
      LinkText(x.alt, "MISSING_IMAGE") + LinkText(y.alt, "images/" + FileName(2, Ext(y.mime)))
  {
    var cb := ReplaceWith(decode);
    RenderTwo(x, y, cb);
    assert cb(x.alt, x.mime, x.payload, 1) == (Missing(x.alt), []);
    var name := FileName(2, Ext(y.mime));
    assert cb(y.alt, y.mime, y.payload, 2) == (Linked(y.alt, name), [Saved(2, name, decode(y.payload).value)]);
    SpellTwo(Missing(x.alt), Linked(y.alt, name));
  }

  /** Two matches in a row, counted from zero. */
  lemma {:induction false} RenderTwo(x: Segment, y: Segment, cb: Replacer)
    requires x.DataImage? && y.DataImage?
    ensures var c1, c2 := cb(x.alt, x.mime, x.payload, 1), cb(y.alt, y.mime, y.payload, 2);
      Render([x, y], 0, cb) == Rendered([c1.0, c2.0], c1.1 + c2.1, 2)
  {
    assert [x, y][..1] == [x];
    assert [x][..0] == [];
    var r0 := Render([], 0, cb);
    assert r0 == Rendered([], [], 0);
    var r1 := Render([x], 0, cb);
    assert r1 == Step(r0, x, cb);
    assert Render([x, y], 0, cb) == Step(r1, y, cb);
  }

  lemma {:induction false} SpellTwo(p: Piece, q: Piece)
    ensures Spell([p, q]) == PieceText(p) + PieceText(q)
  {
    var ps := [p, q];
    assert ps[..1] == [p];
    SpellOne(p);
  }

  lemma SpellOne(p: Piece)
    ensures Spell([p]) == PieceText(p)
  {
    assert [p][..0] == [];
  }

  /** Text with no data-URI image link comes out unchanged, with no images
      and the counter where it started. */
  lemma {:induction false} NoMatchUnchanged(segs: seq<Segment>, start: nat, cb: Replacer)
    requires forall i :: 0 <= i < |segs| ==> segs[i].Literal?
    ensures Spell(Render(segs, start, cb).pieces) == Unscan(segs)
    ensures Render(segs, start, cb).images == [] && Render(segs, start, cb).index == start
    decreases |segs|
  {
    if segs != [] {
      var last := segs[|segs| - 1];
      var init := segs[..|segs| - 1];
      NoMatchUnchanged(init, start, cb);
      UnscanSnoc(init, last);
      assert init + [last] == segs;
      var ps := Render(segs, start, cb).pieces;
      assert ps[..|ps| - 1] == Render(init, start, cb).pieces;
    }
  }

  lemma {:induction false} UnscanSnoc(segs: seq<Segment>, seg: Segment)
    ensures Unscan(segs + [seg]) == Unscan(segs) + Source(seg)
    decreases |segs|
  {
    if segs == [] {
      assert [] + [seg] == [seg];
      assert [seg][1..] == [];
    } else {
      assert (segs + [seg])[1..] == segs[1..] + [seg];
      UnscanSnoc(segs[1..], seg);
      AppendAssoc(Source(segs[0]), Unscan(segs[1..]), Source(seg));
    }
  }

  /** "jpeg" or "jpg" anywhere in the MIME type gives jpg. */
  lemma {:induction false} JpegLike(a: string, b: string)
    ensures Ext(a + "jpeg" + b) == "jpg" && Ext(a + "jpg" + b) == "jpg"
  {
    assert (a + "jpeg" + b)[|a|..] == "jpeg" + b;
    ContainsAt(a + "jpeg" + b, "jpeg", |a|);
    assert (a + "jpg" + b)[|a|..] == "jpg" + b;
    ContainsAt(a + "jpg" + b, "jpg", |a|);
  }

  lemma NamedAppend(a: seq<Saved>, b: seq<Saved>)
    ensures Named(a + b) == Named(a) + Named(b)
  {
  }

  lemma {:induction false} SpellSnoc(ps: seq<Piece>, p: Piece)
    ensures Spell(ps + [p]) == Spell(ps) + PieceText(p)
  {
    assert (ps + [p])[..|ps|] == ps;
  }

  // ---------------------------------------------------------------------
  // The mutable state of create_docmost_zip and its callback.
  // ---------------------------------------------------------------------

  /** current_image_idx and final_images, which replace_data_uri updates
      through `nonlocal`. */
  class DataUriExtractor {
    var currentImageIdx: nat
    var finalImages: seq<(string, Bytes)>

    constructor ()
      ensures currentImageIdx == 0 && finalImages == []
    {
      currentImageIdx := 0;
      finalImages := [];
    }

    /** replace_data_uri: counts the image first, then decodes it. */
    method ReplaceDataUri(alt: string, mime: string, payload: string, decode: string -> Option<Bytes>)
      returns (replacement: string)
      modifies this
      ensures currentImageIdx == old(currentImageIdx) + 1
      ensures replacement == PieceText(ReplaceWith(decode)(alt, mime, payload, currentImageIdx).0)
      ensures finalImages == old(finalImages) + Named(ReplaceWith(decode)(alt, mime, payload, currentImageIdx).1)
    {
      currentImageIdx := currentImageIdx + 1;
      var ext := Ext(mime);
      var filename := FileName(currentImageIdx, ext);
      var decoded := decode(payload);
      if decoded.Some? {
        finalImages := finalImages + [(filename, decoded.value)];
        replacement := LinkText(alt, "images/" + filename);
      } else {
        replacement := LinkText(alt, "MISSING_IMAGE");
      }
    }

    /** re.sub(pattern, replace_data_uri, markdown) over the scanned
        segments: kept characters are copied, every match goes through the
        callback. */
    method Substitute(segs: seq<Segment>, decode: string -> Option<Bytes>) returns (newMarkdown: string)
      requires finalImages == []
      modifies this
      ensures newMarkdown == Spell(Render(segs, old(currentImageIdx), ReplaceWith(decode)).pieces)
      ensures finalImages == Named(Render(segs, old(currentImageIdx), ReplaceWith(decode)).images)
      ensures currentImageIdx == Render(segs, old(currentImageIdx), ReplaceWith(decode)).index
    {
      ghost var start := currentImageIdx;
      ghost var cb := ReplaceWith(decode);
      newMarkdown := "";
      for i := 0 to |segs|
        invariant Mirrors(newMarkdown, finalImages, currentImageIdx, Render(segs[..i], start, cb))
      {
        ghost var acc := Render(segs[..i], start, cb);
        ghost var next := Render(segs[..i + 1], start, cb);
        RenderSnoc(segs, i, start, cb);
        match segs[i] {
          case Literal(c) =>
            SpellSnoc(acc.pieces, Kept(c));
            newMarkdown := newMarkdown + [c];
            assert Mirrors(newMarkdown, finalImages, currentImageIdx, next);
          case DataImage(alt, mime, payload) =>
            ghost var oldImages := finalImages;
            var replacement := ReplaceDataUri(alt, mime, payload, decode);
            ghost var c := cb(alt, mime, payload, currentImageIdx);
            assert acc.index + 1 == currentImageIdx;
            assert segs[i] == DataImage(alt, mime, payload);
            StepData(acc, alt, mime, payload, cb);
            assert next == Rendered(acc.pieces + [c.0], acc.images + c.1, currentImageIdx);
            DataStep(acc, c.0, c.1, newMarkdown, oldImages, replacement, finalImages);
            newMarkdown := newMarkdown + replacement;
            assert Mirrors(newMarkdown, finalImages, currentImageIdx, next);
        }
      }
      assert segs[..|segs|] == segs;
    }
  }

  /** The extractor's text, final_images and counter are what Render
      describes. */
  ghost predicate Mirrors(md: string, images: seq<(string, Bytes)>, index: nat, r: Rendered) {
    md == Spell(r.pieces) && images == Named(r.images) && index == r.index
  }

  /** One callback keeps the extractor in step with Render: the text and
      the dictionary grow by what the piece and the new entries spell. */
  lemma DataStep(acc: Rendered, piece: Piece, added: seq<Saved>,
                 md: string, images: seq<(string, Bytes)>, replacement: string, images': seq<(string, Bytes)>)
    requires md == Spell(acc.pieces) && images == Named(acc.images)
    requires replacement == PieceText(piece) && images' == images + Named(added)
    ensures md + replacement == Spell(acc.pieces + [piece]) && images' == Named(acc.images + added)
  {
    SpellSnoc(acc.pieces, piece);
    NamedAppend(acc.images, added);
  }

  /** How far the passed-in images move the counter (`if images:` skips
      None and the empty list alike). */
  function PassedCount<I>(images: Option<seq<I>>): nat {
    if images.Some? then |images.value| else 0
  }

  /** Lines 113-157: count the passed images, then substitute every match
      left to right through the callback. */
  method ExtractDataUris<I>(md: string, images: Option<seq<I>>, decode: string -> Option<Bytes>)
    returns (newMarkdown: string, finalImages: seq<(string, Bytes)>)
    ensures newMarkdown == Spell(Render(Scan(md), PassedCount(images), ReplaceWith(decode)).pieces)
    ensures finalImages == Named(Render(Scan(md), PassedCount(images), ReplaceWith(decode)).images)
  {
    var state := new DataUriExtractor();
    if images.Some? {
      for i := 0 to |images.value|
        invariant state.currentImageIdx == i && state.finalImages == []
      {
        state.currentImageIdx := state.currentImageIdx + 1;
      }
    }
    var segs := Scan(md);
    newMarkdown := state.Substitute(segs, decode);
    finalImages := state.finalImages;
  }
}

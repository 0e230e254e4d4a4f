/**
 * save_images (converter_ui/src/utils.py, lines 9-50): every attachment
 * whose bytes can be produced gets the next name image_NNN.jpg or
 * image_NNN.png, and the returned map sends its original name to
 * "images/" + that name. Failed attachments keep no number and no entry,
 * but one whose base64 fails to decode leaves an empty file behind.
 */
module Attachments {
  import opened Options
  import opened Text
  import opened Numbers
  import opened Naming

  /** A value of images_data: a base64 string or raw bytes. */
  datatype Payload = Encoded(text: string) | Raw(bytes: Bytes)

  /** An entry of images_data: the original name and its payload. */
  type Entry = (string, Payload)

  /** The bytes written for a payload (lines 40-43): a string goes through
      b64decode, which fails with None; bytes are written as they are. */
  function Contents(data: Payload, decode: string -> Option<Bytes>): (r: Option<Bytes>)
    ensures data.Raw? ==> r == Some(data.bytes)
    ensures data.Encoded? ==> r == decode(data.text)
  {
    match data
    case Encoded(t) => decode(t)
    case Raw(b) => Some(b)
  }

  predicate Written(e: Entry, decode: string -> Option<Bytes>) {
    Contents(e.1, decode).Some?
  }

  /** Lines 31-33: ".jpg" for a name ending in .jpg or .jpeg in any ASCII
      case, ".png" for every other name. */
  function AttachmentExt(name: string): (ext: string)
    ensures ext == ".jpg" || ext == ".png"
  {
    var lower := AsciiLower(name);
    if EndsWith(lower, ".jpg") || EndsWith(lower, ".jpeg") then ".jpg" else ".png"
  }

  /** The extension is ".jpg" exactly when the lower-cased name ends in
      ".jpg" or ".jpeg". */
  lemma AttachmentExtSpec(name: string)
    ensures AttachmentExt(name) == ".jpg" <==>
      EndsWith(AsciiLower(name), ".jpg") || EndsWith(AsciiLower(name), ".jpeg")
  {
  }

  /** Line 45: the map value for the attachment saved with `counter`. */
  function AttachmentPath(counter: nat, name: string): string {
    "images/" + ImageName(counter, AttachmentExt(name))
  }

  /** The map save_images has built after the given entries: the counter
      is one more than the number of entries saved so far. */
  function Renamed(entries: seq<Entry>, decode: string -> Option<Bytes>): (r: seq<(string, string)>)
    ensures |r| <= |entries|
  {
    if entries == [] then []
    else
      var init := Renamed(entries[..|entries| - 1], decode);
      var e := entries[|entries| - 1];
      if Written(e, decode) then init + [(e.0, AttachmentPath(|init| + 1, e.0))] else init
  }

  /** The files saved after the given entries: each saved attachment's
      new file name with its bytes. */
  function Files(entries: seq<Entry>, decode: string -> Option<Bytes>): (r: seq<(string, Bytes)>)
    ensures |r| == |Renamed(entries, decode)|
  {
    if entries == [] then []
    else
      var init := Files(entries[..|entries| - 1], decode);
      var e := entries[|entries| - 1];
      match Contents(e.1, decode)
      case Some(b) => init + [(ImageName(|init| + 1, AttachmentExt(e.0)), b)]
      case None => init
  }

  /** What images/ holds after the given entries. open(new_path, 'wb')
      (line 39) creates or empties the file before the payload is produced,
      so an attachment whose base64 fails to decode leaves an empty file
      under the number it did not use; the next attachment reuses that
      number and overwrites the file only when its extension is the same. */
  function Disk(entries: seq<Entry>, decode: string -> Option<Bytes>): map<string, Bytes> {
    if entries == [] then map[]
    else
      var init := entries[..|entries| - 1];
      var e := entries[|entries| - 1];
      var name := ImageName(|Renamed(init, decode)| + 1, AttachmentExt(e.0));
      Disk(init, decode)[name := match Contents(e.1, decode) case Some(b) => b case None => []]
  }

  /** The original names of the entries that can be written, in order. */
  function WrittenNames(entries: seq<Entry>, decode: string -> Option<Bytes>): (r: seq<string>)
    ensures |r| <= |entries|
  {
    if entries == [] then []
    else if Written(entries[0], decode) then [entries[0].0] + WrittenNames(entries[1..], decode)
    else WrittenNames(entries[1..], decode)
  }

  /** The keys of a map given as its entries in insertion order. */
  function Keys<V>(m: seq<(string, V)>): (r: seq<string>)
    ensures |r| == |m| && forall j :: 0 <= j < |m| ==> r[j] == m[j].0
  {
    if m == [] then [] else [m[0].0] + Keys(m[1..])
  }

  /** No name occurs twice, as in a Python dict. */
  predicate DistinctNames<V>(m: seq<(string, V)>) {
    forall i, j :: 0 <= i < j < |m| ==> m[i].0 != m[j].0
  }

  /** images_data is iterated in order (line 28); the counter starts at 1
      (line 20) and only a saved attachment moves it on (line 46). */
  method SaveImages(imagesData: Option<seq<Entry>>, decode: string -> Option<Bytes>)
    returns (mapping: seq<(string, string)>, files: map<string, Bytes>)
    ensures imagesData.None? ==> mapping == [] && files == map[]
    ensures imagesData.Some? ==>
      mapping == Renamed(imagesData.value, decode) && files == Disk(imagesData.value, decode)
  {
    mapping, files := [], map[];
    if imagesData.None? {
      return;
    }
    var entries := imagesData.value;
    var counter := 1;
    for i := 0 to |entries|
      invariant mapping == Renamed(entries[..i], decode)
      invariant files == Disk(entries[..i], decode)
      invariant counter == |mapping| + 1
    {
      var (originalName, data) := entries[i];
      var ext := AttachmentExt(originalName);
      var newFilename := ImageName(counter, ext);
      var contents := Contents(data, decode);
      RenamedStep(entries, i, decode);
      DiskStep(entries, i, decode);
      if contents.None? {
        files := files[newFilename := []];
      } else {
        files := files[newFilename := contents.value];
        mapping := mapping + [(originalName, "images/" + newFilename)];
        counter := counter + 1;
      }
    }
    assert entries[..|entries|] == entries;
  }

  // ---------------------------------------------------------------------
  // What the map holds.
  // ---------------------------------------------------------------------

  lemma RenamedStep(entries: seq<Entry>, i: nat, decode: string -> Option<Bytes>)
    requires i < |entries|
    ensures var init := Renamed(entries[..i], decode); var e := entries[i];
      Renamed(entries[..i + 1], decode) ==
        if Written(e, decode) then init + [(e.0, AttachmentPath(|init| + 1, e.0))] else init
  {
    assert entries[..i + 1] == entries[..i] + [entries[i]];
    RenamedSnoc(entries[..i], entries[i], decode);
  }

  lemma DiskStep(entries: seq<Entry>, i: nat, decode: string -> Option<Bytes>)
    requires i < |entries|
    ensures var init := Disk(entries[..i], decode); var e := entries[i];
      var name := ImageName(|Renamed(entries[..i], decode)| + 1, AttachmentExt(e.0));
      Disk(entries[..i + 1], decode) ==
        init[name := match Contents(e.1, decode) case Some(b) => b case None => []]
  {
    assert entries[..i + 1][..i] == entries[..i];
  }

  lemma RenamedSnoc(entries: seq<Entry>, e: Entry, decode: string -> Option<Bytes>)
    ensures var init := Renamed(entries, decode);
      Renamed(entries + [e], decode) ==
        if Written(e, decode) then init + [(e.0, AttachmentPath(|init| + 1, e.0))] else init
  {
    assert (entries + [e])[..|entries|] == entries;
  }

  lemma WrittenNamesSnoc(entries: seq<Entry>, e: Entry, decode: string -> Option<Bytes>)
    ensures WrittenNames(entries + [e], decode) ==
      WrittenNames(entries, decode) + (if Written(e, decode) then [e.0] else [])
    decreases |entries|
  {
    if entries == [] {
      assert [] + [e] == [e];
    } else {
      assert (entries + [e])[1..] == entries[1..] + [e];
      WrittenNamesSnoc(entries[1..], e, decode);
    }
  }

  /** `r` holds the names `w` in order, the k-th under `path(k + 1, w[k])`. */
  ghost predicate NumberedWith(r: seq<(string, string)>, w: seq<string>, path: (nat, string) -> string) {
    |r| == |w| && forall k :: 0 <= k < |r| ==> r[k] == (w[k], path(k + 1, w[k]))
  }

  /** `r` holds the names `w` in order, the k-th under the k-th path. */
  ghost predicate NumberedAs(r: seq<(string, string)>, w: seq<string>) {
    NumberedWith(r, w, AttachmentPath)
  }

  /** The k-th entry of the map is the k-th attachment that could be
      written, under the k-th name: image_001, image_002, ... with no gap. */
  lemma {:induction false} RenamedNumbered(entries: seq<Entry>, decode: string -> Option<Bytes>)
    ensures NumberedAs(Renamed(entries, decode), WrittenNames(entries, decode))
    decreases |entries|
  {
    if entries != [] {
      var init := entries[..|entries| - 1];
      var e := entries[|entries| - 1];
      assert entries == init + [e];
      RenamedNumbered(init, decode);
      RenamedSnoc(init, e, decode);
      WrittenNamesSnoc(init, e, decode);
      NumberedStep(Renamed(init, decode), WrittenNames(init, decode), Written(e, decode), e.0,
        AttachmentPath, Renamed(entries, decode), WrittenNames(entries, decode));
    }
  }

  lemma NumberedStep(r: seq<(string, string)>, w: seq<string>, written: bool, name: string,
                     path: (nat, string) -> string, r': seq<(string, string)>, w': seq<string>)
    requires NumberedWith(r, w, path)
    requires r' == if written then r + [(name, path(|r| + 1, name))] else r
    requires w' == w + (if written then [name] else [])
    ensures NumberedWith(r', w', path)
  {
    if written {
      forall k | 0 <= k < |r'| ensures r'[k] == (w'[k], path(k + 1, w'[k])) {
        if k < |r| {
          assert r'[k] == r[k] && w'[k] == w[k];
        }
      }
    } else {
      assert w' == w;
    }
  }

  /** A name is in the result exactly when some entry under that name can
      be written: the keys come from the input, and a name all of whose
      entries fail is absent. */
  lemma {:induction false} WrittenNamesMembers(entries: seq<Entry>, decode: string -> Option<Bytes>, name: string)
    ensures name in WrittenNames(entries, decode) <==>
      exists i :: 0 <= i < |entries| && entries[i].0 == name && Written(entries[i], decode)
    decreases |entries|
  {
    if entries != [] {
      WrittenNamesMembers(entries[1..], decode, name);
      if name in WrittenNames(entries[1..], decode) {
        var i :| 0 <= i < |entries[1..]| && entries[1..][i].0 == name && Written(entries[1..][i], decode);
        assert entries[i + 1] == entries[1..][i];
      }
      if exists i :: 0 <= i < |entries| && entries[i].0 == name && Written(entries[i], decode) {
        var i :| 0 <= i < |entries| && entries[i].0 == name && Written(entries[i], decode);
        if i > 0 {
          assert entries[1..][i - 1] == entries[i];
        }
      }
    }
  }

  lemma {:induction false} SavedKeys(entries: seq<Entry>, decode: string -> Option<Bytes>, name: string)
    ensures name in Keys(Renamed(entries, decode)) <==>
      exists i :: 0 <= i < |entries| && entries[i].0 == name && Written(entries[i], decode)
  {
    RenamedNumbered(entries, decode);
    var r := Renamed(entries, decode);
    var w := WrittenNames(entries, decode);
    assert Keys(r) == w;
    WrittenNamesMembers(entries, decode, name);
  }

  /** An attachment that cannot be written leaves no entry under its name,
      since a dict holds each name once. */
  lemma FailedAbsent(entries: seq<Entry>, decode: string -> Option<Bytes>, i: nat)
    requires DistinctNames(entries) && i < |entries| && !Written(entries[i], decode)
    ensures entries[i].0 !in Keys(Renamed(entries, decode))
  {
    SavedKeys(entries, decode, entries[i].0);
  }

  /** Every value is "images/image_" + the three-digit counter + the
      extension of its name. */
  lemma ValuesShape(entries: seq<Entry>, decode: string -> Option<Bytes>, k: nat)
    requires k < |Renamed(entries, decode)|
    ensures var r := Renamed(entries, decode);
      r[k].1 == "images/image_" + Pad3(k + 1) + AttachmentExt(r[k].0)
  {
    RenamedNumbered(entries, decode);
    var r := Renamed(entries, decode);
    var ext := AttachmentExt(r[k].0);
    assert r[k].1 == AttachmentPath(k + 1, r[k].0);
    PathShape(k + 1, ext, r[k].1);
  }

  lemma PathShape(n: nat, ext: string, p: string)
    requires p == "images/" + ImageName(n, ext)
    ensures p == "images/image_" + Pad3(n) + ext
  {
  }

  /** No two attachments share a path. */
  lemma ValuesDistinct(entries: seq<Entry>, decode: string -> Option<Bytes>, j: nat, k: nat)
    requires j < k < |Renamed(entries, decode)|
    ensures Renamed(entries, decode)[j].1 != Renamed(entries, decode)[k].1
  {
    RenamedNumbered(entries, decode);
    PathsInjective();
    NumberedDistinct(Renamed(entries, decode), WrittenNames(entries, decode), AttachmentPath, j, k);
  }

  /** Numbered entries under a path that tells numbers apart have distinct paths. */
  lemma NumberedDistinct(r: seq<(string, string)>, w: seq<string>, path: (nat, string) -> string, j: nat, k: nat)
    requires NumberedWith(r, w, path) && j < k < |r|
    requires forall m: nat, n: nat, a, b :: m != n ==> path(m, a) != path(n, b)
    ensures r[j].1 != r[k].1
  {
    NumberedAt(r, w, path, j);
    NumberedAt(r, w, path, k);
  }

  lemma NumberedAt(r: seq<(string, string)>, w: seq<string>, path: (nat, string) -> string, k: nat)
    requires NumberedWith(r, w, path) && k < |r|
    ensures k < |w| && r[k].1 == path(k + 1, w[k])
  {
  }

  /** Attachments with different numbers get different paths, whatever their names. */
  lemma PathsInjective()
    ensures forall m: nat, n: nat, a, b :: m != n ==> AttachmentPath(m, a) != AttachmentPath(n, b)
  {
    forall m: nat, n: nat, a, b | m != n ensures AttachmentPath(m, a) != AttachmentPath(n, b) {
      PathsDistinct(m, n, a, b, AttachmentPath(m, a), AttachmentPath(n, b));
    }
  }

  lemma PathsDistinct(m: nat, n: nat, a: string, b: string, p: string, q: string)
    requires m != n && p == AttachmentPath(m, a) && q == AttachmentPath(n, b)
    ensures p != q
  {
    var e1, e2 := AttachmentExt(a), AttachmentExt(b);
    ImageNamesDistinct(m, n, e1, e2);
    PrefixedDistinct("images/", ImageName(m, e1), ImageName(n, e2));
  }

  lemma PrefixedDistinct(p: string, a: string, b: string)
    requires a != b
    ensures p + a != p + b
  {
    assert (p + a)[|p|..] == a;
    assert (p + b)[|p|..] == b;
  }

  /** The result is a dict: its names are distinct when the input's are. */
  lemma {:induction false} KeysDistinct(entries: seq<Entry>, decode: string -> Option<Bytes>)
    requires DistinctNames(entries)
    ensures DistinctNames(Renamed(entries, decode))
    decreases |entries|
  {
    if entries != [] {
      var init := entries[..|entries| - 1];
      var e := entries[|entries| - 1];
      assert entries == init + [e];
      assert DistinctNames(init) by {
        forall i, j | 0 <= i < j < |init| ensures init[i].0 != init[j].0 {
          assert init[i] == entries[i] && init[j] == entries[j];
        }
      }
      KeysDistinct(init, decode);
      RenamedSnoc(init, e, decode);
      if Written(e, decode) {
        var r := Renamed(init, decode);
        forall i | 0 <= i < |r| ensures r[i].0 != e.0 {
          assert r[i].0 in Keys(r);
          SavedKeys(init, decode, r[i].0);
          var m :| 0 <= m < |init| && init[m].0 == r[i].0 && Written(init[m], decode);
          assert init[m] == entries[m];
        }
      }
    }
  }

  /** Each map value names the file written for that attachment. */
  lemma {:induction false} PathsNameFiles(entries: seq<Entry>, decode: string -> Option<Bytes>)
    ensures var r := Renamed(entries, decode); var f := Files(entries, decode);
      forall k :: 0 <= k < |r| ==> r[k].1 == "images/" + f[k].0
    decreases |entries|
  {
    if entries != [] {
      var init := entries[..|entries| - 1];
      PathsNameFiles(init, decode);
      assert entries == init + [entries[|entries| - 1]];
      RenamedSnoc(init, entries[|entries| - 1], decode);
    }
  }

  /** The k-th saved file carries the number k + 1. */
  ghost predicate CountsUp(f: seq<(string, Bytes)>) {
    forall k :: 0 <= k < |f| ==> ImageNumber(f[k].0) == k + 1
  }

  /** The files saved after one more entry, and the name it opens. */
  lemma FilesLast(entries: seq<Entry>, decode: string -> Option<Bytes>) returns (fi: seq<(string, Bytes)>, name: string)
    requires entries != []
    ensures var e := entries[|entries| - 1]; var c := Contents(e.1, decode);
      fi == Files(entries[..|entries| - 1], decode) &&
      name == ImageName(|fi| + 1, AttachmentExt(e.0)) && ImageNumber(name) == |fi| + 1 &&
      Files(entries, decode) == (if c.Some? then fi + [(name, c.value)] else fi) &&
      Disk(entries, decode) ==
        Disk(entries[..|entries| - 1], decode)[name := if c.Some? then c.value else []]
  {
    var e := entries[|entries| - 1];
    var ext := AttachmentExt(e.0);
    fi := Files(entries[..|entries| - 1], decode);
    name := ImageName(|fi| + 1, ext);
    assert ext[0] == '.';
    ImageNameNumber(|fi| + 1, ext);
  }

  lemma CountsUpSnoc(fi: seq<(string, Bytes)>, x: (string, Bytes))
    requires CountsUp(fi) && ImageNumber(x.0) == |fi| + 1
    ensures CountsUp(fi + [x])
  {
  }

  lemma {:induction false} FilesNumbered(entries: seq<Entry>, decode: string -> Option<Bytes>)
    ensures CountsUp(Files(entries, decode))
    decreases |entries|
  {
    if entries != [] {
      FilesNumbered(entries[..|entries| - 1], decode);
      var fi, name := FilesLast(entries, decode);
      var c := Contents(entries[|entries| - 1].1, decode);
      if c.Some? {
        CountsUpSnoc(fi, (name, c.value));
      }
    }
  }

  /** Each saved file is in the directory with its bytes. */
  ghost predicate OnDisk(f: seq<(string, Bytes)>, d: map<string, Bytes>) {
    forall k :: 0 <= k < |f| ==> f[k].0 in d && d[f[k].0] == f[k].1
  }

  /** Every saved attachment's file holds its bytes at the end: a later
      failed attachment never empties it, since it opens a file under a
      number no saved attachment has. */
  lemma {:induction false} SavedOnDisk(entries: seq<Entry>, decode: string -> Option<Bytes>)
    ensures OnDisk(Files(entries, decode), Disk(entries, decode))
    decreases |entries|
  {
    if entries != [] {
      var init := entries[..|entries| - 1];
      SavedOnDisk(init, decode);
      FilesNumbered(init, decode);
      var fi, name := FilesLast(entries, decode);
      var c := Contents(entries[|entries| - 1].1, decode);
      if c.Some? {
        SavedKept(fi, Disk(init, decode), name, c.value, fi + [(name, c.value)]);
      } else {
        SavedKept(fi, Disk(init, decode), name, [], fi);
      }
    }
  }

  lemma SavedKept(fi: seq<(string, Bytes)>, di: map<string, Bytes>, name: string, b: Bytes,
                  f: seq<(string, Bytes)>)
    requires CountsUp(fi) && ImageNumber(name) == |fi| + 1 && OnDisk(fi, di)
    requires f == fi + [(name, b)] || f == fi
    ensures OnDisk(f, di[name := b])
  {
    assert forall k :: 0 <= k < |fi| ==> fi[k].0 != name;
  }

  /** Any other file under images/ is empty: it was opened for an
      attachment whose base64 did not decode. */
  lemma {:induction false} LeftoversEmpty(entries: seq<Entry>, decode: string -> Option<Bytes>)
    ensures var f := Files(entries, decode); var d := Disk(entries, decode);
      forall n :: n in d ==> d[n] == [] || exists k :: 0 <= k < |f| && f[k].0 == n
    decreases |entries|
  {
    if entries != [] {
      var init := entries[..|entries| - 1];
      LeftoversEmpty(init, decode);
      var fi, name := FilesLast(entries, decode);
      var c := Contents(entries[|entries| - 1].1, decode);
      var di := Disk(init, decode);
      if c.Some? {
        LeftoversStep(fi, di, name, c.value, fi + [(name, c.value)]);
      } else {
        LeftoversStep(fi, di, name, [], fi);
      }
    }
  }

  lemma LeftoversStep(fi: seq<(string, Bytes)>, di: map<string, Bytes>, name: string, b: Bytes,
                      f: seq<(string, Bytes)>)
    requires forall n :: n in di ==> di[n] == [] || exists k :: 0 <= k < |fi| && fi[k].0 == n
    requires f == fi + [(name, b)] || (b == [] && f == fi)
    ensures var d := di[name := b];
      forall n :: n in d ==> d[n] == [] || exists k :: 0 <= k < |f| && f[k].0 == n
  {
    var d := di[name := b];
    forall n | n in d && d[n] != [] ensures exists k :: 0 <= k < |f| && f[k].0 == n {
      if n == name {
        assert f[|fi|].0 == n;
      } else {
        var k :| 0 <= k < |fi| && fi[k].0 == n;
        assert f[k] == fi[k];
      }
    }
  }

  /** A PNG whose base64 fails to decode, followed by a JPEG given as
      bytes: the map holds only the JPEG, numbered 1, and images/ holds an
      empty image_001.png beside image_001.jpg. */
  lemma FailedThenJpeg(a: string, b: string, text: string, raw: Bytes, decode: string -> Option<Bytes>)
    requires decode(text).None?
    ensures var entries := [(a + ".png", Encoded(text)), (b + ".jpg", Raw(raw))];
      Renamed(entries, decode) == [(b + ".jpg", "images/image_001.jpg")]
    ensures var entries := [(a + ".png", Encoded(text)), (b + ".jpg", Raw(raw))];
      Disk(entries, decode) == map["image_001.png" := [], "image_001.jpg" := raw]
  {
    FailedFirst(a + ".png", b + ".jpg", text, raw, decode);
    PngIsPng(a);
    assert AsciiLower(".jpg") == ".jpg";
    JpegSuffixIsJpg(b, ".jpg");
    FirstImages();
  }

  /** The same with a second PNG: it reuses number 1 and overwrites the
      empty file, so nothing is left over. */
  lemma FailedThenPng(a: string, b: string, text: string, raw: Bytes, decode: string -> Option<Bytes>)
    requires decode(text).None?
    ensures var entries := [(a + ".png", Encoded(text)), (b + ".png", Raw(raw))];
      Renamed(entries, decode) == [(b + ".png", "images/image_001.png")]
    ensures var entries := [(a + ".png", Encoded(text)), (b + ".png", Raw(raw))];
      Disk(entries, decode) == map["image_001.png" := raw]
  {
    FailedFirst(a + ".png", b + ".png", text, raw, decode);
    PngIsPng(a);
    PngIsPng(b);
    FirstImages();
  }

  /** The names and paths number 1 gives. */
  lemma FirstImages()
    ensures ImageName(1, ".png") == "image_001.png" && ImageName(1, ".jpg") == "image_001.jpg"
    ensures "images/" + ImageName(1, ".png") == "images/image_001.png"
    ensures "images/" + ImageName(1, ".jpg") == "images/image_001.jpg"
  {
    assert Pad3(1) == "001";
  }

  /** A failed base64 entry and then raw bytes: the bytes get number 1. */
  lemma FailedFirst(n0: string, n1: string, text: string, raw: Bytes, decode: string -> Option<Bytes>)
    requires decode(text).None?
    ensures var entries := [(n0, Encoded(text)), (n1, Raw(raw))];
      Renamed(entries, decode) == [(n1, "images/" + ImageName(1, AttachmentExt(n1)))] &&
      Disk(entries, decode) ==
        map[ImageName(1, AttachmentExt(n0)) := []][ImageName(1, AttachmentExt(n1)) := raw]
  {
    var entries := [(n0, Encoded(text)), (n1, Raw(raw))];
    var one := entries[..1];
    assert one == [(n0, Encoded(text))] && one[..0] == [];
    assert Renamed(one, decode) == [];
    assert Disk(one, decode) == map[ImageName(1, AttachmentExt(n0)) := []];
  }

  // ---------------------------------------------------------------------
  // The extension rule.
  // ---------------------------------------------------------------------

  /** Lower-casing a text ends with the lower-cased end of it. */
  lemma AsciiLowerEnd(stem: string, t: string, lt: string)
    requires lt == AsciiLower(t)
    ensures EndsWith(AsciiLower(stem + t), lt)
  {
    AsciiLowerConcat(stem, t);
    EndsWithAppended(AsciiLower(stem), lt, AsciiLower(stem + t));
  }

  /** str.lower() works character by character, so it distributes over
      concatenation. */
  lemma {:induction false} AsciiLowerConcat(a: string, b: string)
    ensures AsciiLower(a + b) == AsciiLower(a) + AsciiLower(b)
  {
    if a == [] {
      assert a + b == b;
    } else {
      assert (a + b)[1..] == a[1..] + b;
      AsciiLowerConcat(a[1..], b);
    }
  }

  lemma EndsWithAppended(x: string, t: string, s: string)
    requires s == x + t
    ensures EndsWith(s, t)
  {
    assert s[|x|..] == t;
  }

  /** Only the lower-cased name decides the extension: names that differ
      in ASCII case alone get the same one. */
  lemma AttachmentExtCaseBlind(a: string, b: string)
    requires AsciiLower(a) == AsciiLower(b)
    ensures AttachmentExt(a) == AttachmentExt(b)
  {
  }

  /** Any name ending in .jpg or .jpeg, in any ASCII case, gets ".jpg",
      whatever comes before. */
  lemma JpegSuffixIsJpg(stem: string, x: string)
    requires AsciiLower(x) == ".jpg" || AsciiLower(x) == ".jpeg"
    ensures AttachmentExt(stem + x) == ".jpg"
  {
    AsciiLowerEnd(stem, x, AsciiLower(x));
  }

  /** ".JPEG" in capitals still gives ".jpg". */
  lemma UpperJpegIsJpg(stem: string)
    ensures AttachmentExt(stem + ".JPEG") == ".jpg"
  {
    assert AsciiLower(".JPEG") == ".jpeg";
    AsciiLowerEnd(stem, ".JPEG", ".jpeg");
  }

  /** A PNG name keeps ".png". */
  lemma PngIsPng(stem: string)
    ensures AttachmentExt(stem + ".png") == ".png"
  {
    var l := AsciiLower(stem + ".png");
    assert AsciiLower(".png") == ".png";
    AsciiLowerEnd(stem, ".png", ".png");
    assert l[|l| - 2] == 'n';
  }

  /** A GIF name gets ".png": only JPEG names keep their kind. */
  lemma GifIsPng(stem: string)
    ensures AttachmentExt(stem + ".gif") == ".png"
  {
    var l := AsciiLower(stem + ".gif");
    assert AsciiLower(".gif") == ".gif";
    AsciiLowerEnd(stem, ".gif", ".gif");
    assert l[|l| - 1] == 'f';
  }
}

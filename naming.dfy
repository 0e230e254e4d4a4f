/**
 * The file names both converter generations give to extracted images:
 * "image_" followed by the counter padded to three digits and an extension.
 */
module Naming {
  import opened Numbers

  /** File contents. */
  type Bytes = seq<bv8>

  /** f"image_{n:03d}{ext}". */
  function ImageName(n: nat, ext: string): (r: string)
    ensures |r| >= 9 + |ext|
  {
    "image_" + Pad3(n) + ext
  }

  /** The counter can be read back from the name when the extension does
      not start with a digit. */
  lemma {:induction false} ImageNameNumber(n: nat, ext: string)
    requires ext == [] || !IsDigit(ext[0])
    ensures ImageNumber(ImageName(n, ext)) == n
  {
    var r := ImageName(n, ext);
    assert r[6..] == Pad3(n) + ext;
    LeadingValuePad3(n, ext);
  }

  /** The counter an image name was made from: the digits after "image_". */
  function ImageNumber(name: string): nat {
    if |name| >= 6 then LeadingValue(name[6..]) else 0
  }

  /** Two different counters never give the same name, whatever the
      extensions. */
  lemma {:induction false} ImageNamesDistinct(n: nat, m: nat, e1: string, e2: string)
    requires n != m
    requires e1 == [] || !IsDigit(e1[0])
    requires e2 == [] || !IsDigit(e2[0])
    ensures ImageName(n, e1) != ImageName(m, e2)
  {
    ImageNameNumber(n, e1);
    ImageNameNumber(m, e2);
  }
}

/**
 * create_docmost_zip up to the archive: data-URI extraction followed by
 * clean_markdown.
 */
module Docmost {
  import opened Options
  import opened Text
  import opened Naming
  import opened Pattern
  import opened Renumber
  import opened Cleaner
  import opened DataUri

  /** create_docmost_zip up to the archive: the document written as
      document.md and the files written under images/, with distinct
      names. */
  method DocmostDocument<I>(md: string, images: Option<seq<I>>, title: Option<string>,
                            unescape: string -> string, decode: string -> Option<Bytes>)
    returns (document: string, files: seq<(string, Bytes)>)
    ensures var r := Render(Scan(md), PassedCount(images), ReplaceWith(decode));
      document == Strip(RenumberText(Prepare(Spell(r.pieces), title, unescape))) && files == Named(r.images)
    ensures DistinctKeys(files)
  {
    var newMarkdown;
    newMarkdown, files := ExtractDataUris(md, images, decode);
    document := CleanMarkdown(newMarkdown, title, unescape);
    ImageNamesUnique(Scan(md), PassedCount(images), decode);
  }
}

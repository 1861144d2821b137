/**
 * `applyFilters` (app.js:243-265): the folder selector, the free-text search
 * and the required tags, applied to the list `getAllImages` produces. The
 * values of the three search inputs are parameters.
 */
module Filter {
  import opened Seqs
  import opened Text
  import opened Tags
  import opened Records

  /** The folder selector's value meaning "All folders". */
  const AllFolders := "__ALL__"

  /** The search inputs as `applyFilters` reads them: the selector as it is,
      the text trimmed and lower-cased, the tags normalised. */
  datatype Query = Query(folder: string, text: string, tags: seq<string>)

  function ReadQuery(folderSel: string, text: string, tagsText: string): Query {
    Query(folderSel, Lower(Trim(text)), NormalizeTags(tagsText))
  }

  /** `(img.tags || []).map(t => String(t).toLowerCase())`. */
  function LowerAll(ts: seq<string>): (r: seq<string>)
    ensures |r| == |ts|
    ensures forall i :: 0 <= i < |ts| ==> r[i] == Lower(ts[i])
  {
    if ts == [] then [] else [Lower(ts[0])] + LowerAll(ts[1..])
  }

  /** The per-image test of the `filter` callback: folder, then name, then every query tag. */
  predicate Keep(q: Query, e: Entry) {
    && (q.folder == AllFolders || e.folder == q.folder)
    && (q.text == "" || Contains(Lower(e.image.name), q.text))
    && (forall t :: t in q.tags ==> t in LowerAll(e.image.tags))
  }

  /** `images.filter(...)`: the entries that pass, in their order. */
  function Select(q: Query, images: seq<Entry>): (r: seq<Entry>)
    ensures IsSubsequence(r, images)
    ensures forall e :: e in r <==> e in images && Keep(q, e)
  {
    if images == [] then []
    else
      var rest := Select(q, images[1..]);
      assert images == [images[0]] + images[1..];
      if Keep(q, images[0]) then [images[0]] + rest else rest
  }

  /** `applyFilters(images)` with the search inputs given as parameters. */
  function ApplyFilters(images: seq<Entry>, folderSel: string, text: string, tagsText: string): seq<Entry> {
    Select(ReadQuery(folderSel, text, tagsText), images)
  }

  /** What is kept and what is dropped: an order-preserving subsequence of the
      input that holds exactly the entries passing all three tests. */
  lemma ApplyFiltersKeeps(images: seq<Entry>, folderSel: string, text: string, tagsText: string)
    ensures IsSubsequence(ApplyFilters(images, folderSel, text, tagsText), images)
    ensures forall e :: e in ApplyFilters(images, folderSel, text, tagsText) <==>
      && e in images
      && (folderSel == AllFolders || e.folder == folderSel)
      && (Trim(text) == "" || Contains(Lower(e.image.name), Lower(Trim(text))))
      && (forall t :: t in NormalizeTags(tagsText) ==> t in LowerAll(e.image.tags))
  {
  }

  /** An entry that passes is kept as often as it occurs; one that fails, never. */
  lemma {:induction false} SelectCount(q: Query, images: seq<Entry>, e: Entry)
    ensures multiset(Select(q, images))[e] == if Keep(q, e) then multiset(images)[e] else 0
  {
    if images != [] {
      assert images == [images[0]] + images[1..];
      SelectCount(q, images[1..], e);
    }
  }

  lemma {:induction false} SelectAll(q: Query, images: seq<Entry>)
    requires forall e :: e in images ==> Keep(q, e)
    ensures Select(q, images) == images
  {
    if images != [] {
      assert forall e :: e in images[1..] ==> e in images;
      SelectAll(q, images[1..]);
    }
  }

  /** "All folders", blank text and no tags return the input unchanged. */
  lemma ShowAll(images: seq<Entry>, text: string, tagsText: string)
    requires Trim(text) == "" && NormalizeTags(tagsText) == []
    ensures ApplyFilters(images, AllFolders, text, tagsText) == images
  {
    SelectAll(ReadQuery(AllFolders, text, tagsText), images);
  }

  /** Filtering twice with the same inputs gives what filtering once gives. */
  lemma FilterIdempotent(images: seq<Entry>, folderSel: string, text: string, tagsText: string)
    ensures ApplyFilters(ApplyFilters(images, folderSel, text, tagsText), folderSel, text, tagsText)
         == ApplyFilters(images, folderSel, text, tagsText)
  {
    var q := ReadQuery(folderSel, text, tagsText);
    SelectAll(q, Select(q, images));
  }

  /** Clicking tag chip `t` narrows the search: an entry passes the new query
      exactly when it passed the old one and carries the clicked tag. */
  lemma ClickTagNarrows(folderSel: string, text: string, tagsText: string, t: string, e: Entry)
    requires IsTag(Lower(t))
    ensures Keep(ReadQuery(folderSel, text, ClickTag(tagsText, t)), e)
        <==> Keep(ReadQuery(folderSel, text, tagsText), e) && Lower(t) in LowerAll(e.image.tags)
  {
    ClickTagQuery(tagsText, t);
    AddedTagNarrows(ReadQuery(folderSel, text, tagsText), ReadQuery(folderSel, text, ClickTag(tagsText, t)), Lower(t), e);
  }

  /** A query that differs from another only by one more required tag passes
      exactly the entries the other passes that also carry that tag. */
  lemma AddedTagNarrows(q0: Query, q1: Query, tag: string, e: Entry)
    requires q1.folder == q0.folder && q1.text == q0.text
    requires forall x :: x in q1.tags <==> x in q0.tags || x == tag
    ensures Keep(q1, e) <==> Keep(q0, e) && tag in LowerAll(e.image.tags)
  {
  }
}

/**
 * `getAllImages` (app.js:231-241), as functions: every folder's records in
 * listing order, each annotated with its folder, then a stable sort newest first.
 */
module Timeline {
  import opened Seqs
  import opened Records

  /** `(img.createdAt || 0)`: the sort key, with a missing time counted as 0. */
  function Key(e: Entry): int {
    match e.image.createdAt
    case Some(t) => t
    case None => 0
  }

  /** `{ ...img, folder }` for every record of one folder, in its order. */
  function Annotate(folder: string, images: seq<Image>): (r: seq<Entry>)
    ensures |r| == |images|
  {
    if images == [] then [] else Annotate(folder, images[..|images| - 1]) + [Entry(folder, images[|images| - 1])]
  }

  /** The records of the folders `names`, folder after folder, as the nested loops push them. */
  function Flatten(folders: Folders, names: seq<string>): seq<Entry>
    requires forall n :: n in names ==> n in folders
  {
    if names == [] then []
    else Flatten(folders, names[..|names| - 1]) + Annotate(names[|names| - 1], folders[names[|names| - 1]])
  }

  lemma {:induction false} AnnotateCount(folder: string, images: seq<Image>, f: string, img: Image)
    ensures multiset(Annotate(folder, images))[Entry(f, img)] == if f == folder then multiset(images)[img] else 0
  {
    if images != [] {
      var init := images[..|images| - 1];
      AnnotateCount(folder, init, f, img);
      assert images == init + [images[|images| - 1]];
    }
  }

  /** Flattening distinct folders yields each record of folder `f` as often as
      `f` holds it, annotated with `f`, and nothing else. */
  lemma {:induction false} FlattenCount(folders: Folders, names: seq<string>, f: string, img: Image)
    requires forall n :: n in names ==> n in folders
    requires NoDup(names)
    ensures multiset(Flatten(folders, names))[Entry(f, img)] == if f in names then multiset(folders[f])[img] else 0
  {
    if names != [] {
      var init, last := names[..|names| - 1], names[|names| - 1];
      assert names == init + [last];
      assert last !in init by {
        forall j | 0 <= j < |init| ensures init[j] != last { assert init[j] == names[j]; }
      }
      assert NoDup(init) by {
        forall i, j | 0 <= i < j < |init| ensures init[i] != init[j] { assert init[i] == names[i] && init[j] == names[j]; }
      }
      FlattenCount(folders, init, f, img);
      AnnotateCount(last, folders[last], f, img);
    }
  }

  /** Non-increasing `createdAt`: newest first. */
  predicate NewestFirst(s: seq<Entry>) {
    forall i, j :: 0 <= i < j < |s| ==> Key(s[i]) >= Key(s[j])
  }

  /** A newest-first list stays newest-first behind an entry no older than any of it. */
  lemma NewestFirstCons(x: Entry, t: seq<Entry>)
    requires NewestFirst(t)
    requires forall y :: y in t ==> Key(x) >= Key(y)
    ensures NewestFirst([x] + t)
  {
    var r := [x] + t;
    forall i, j | 0 <= i < j < |r| ensures Key(r[i]) >= Key(r[j]) {
      assert r[j] == t[j - 1];
      if i > 0 { assert r[i] == t[i - 1]; }
    }
  }

  /** Dropping the newest entry leaves a newest-first list. */
  lemma NewestFirstTail(s: seq<Entry>)
    requires NewestFirst(s) && s != []
    ensures NewestFirst(s[1..])
    ensures forall y :: y in s ==> Key(s[0]) >= Key(y)
  {
    var tail := s[1..];
    forall i, j | 0 <= i < j < |tail| ensures Key(tail[i]) >= Key(tail[j]) {
      assert tail[i] == s[i + 1] && tail[j] == s[j + 1];
    }
    forall y | y in s ensures Key(s[0]) >= Key(y) {
      var j :| 0 <= j < |s| && s[j] == y;
      assert Key(s[0]) >= Key(s[j]);
    }
  }

  /** Inserts `e` into a newest-first list in front of every entry that is not newer. */
  function InsertNewestFirst(e: Entry, s: seq<Entry>): (r: seq<Entry>)
    requires NewestFirst(s)
    ensures NewestFirst(r)
    ensures multiset(r) == multiset(s) + multiset{e}
  {
    if s == [] then
      NewestFirstCons(e, s);
      [e]
    else if Key(s[0]) <= Key(e) then
      NewestFirstTail(s);
      NewestFirstCons(e, s);
      [e] + s
    else
      NewestFirstTail(s);
      var rest := InsertNewestFirst(e, s[1..]);
      assert s == [s[0]] + s[1..];
      InsertedBelow(s[0], e, s[1..], rest);
      NewestFirstCons(s[0], rest);
      [s[0]] + rest
  }

  /** An entry newer than `e` and than all of `t` is newer than all of `t` with `e` added. */
  lemma InsertedBelow(x: Entry, e: Entry, t: seq<Entry>, rest: seq<Entry>)
    requires Key(x) > Key(e)
    requires forall y :: y in t ==> Key(x) >= Key(y)
    requires multiset(rest) == multiset(t) + multiset{e}
    ensures forall y :: y in rest ==> Key(x) >= Key(y)
  {
    forall y | y in rest ensures Key(x) >= Key(y) {
      assert y in multiset(rest);
      assert y == e || y in multiset(t);
    }
  }

  /** `out.sort((a, b) => (b.createdAt || 0) - (a.createdAt || 0))`: a stable sort, newest first. */
  function SortNewestFirst(s: seq<Entry>): (r: seq<Entry>)
    ensures NewestFirst(r)
    ensures multiset(r) == multiset(s)
  {
    if s == [] then []
    else
      assert s == [s[0]] + s[1..];
      InsertNewestFirst(s[0], SortNewestFirst(s[1..]))
  }

  /** The entries with sort key `k`, in their order. */
  function WithKey(s: seq<Entry>, k: int): seq<Entry> {
    if s == [] then [] else (if Key(s[0]) == k then [s[0]] else []) + WithKey(s[1..], k)
  }

  lemma WithKeyCons(x: Entry, t: seq<Entry>, k: int)
    ensures WithKey([x] + t, k) == (if Key(x) == k then [x] else []) + WithKey(t, k)
  {
    assert ([x] + t)[0] == x && ([x] + t)[1..] == t;
  }

  /** One step of the insertion, when the head of `s` is newer than `e`. */
  lemma InsertBehindNewer(e: Entry, s: seq<Entry>)
    requires NewestFirst(s) && s != [] && Key(s[0]) > Key(e)
    ensures NewestFirst(s[1..])
    ensures InsertNewestFirst(e, s) == [s[0]] + InsertNewestFirst(e, s[1..])
  {
    NewestFirstTail(s);
  }

  lemma {:induction false} InsertWithKey(e: Entry, s: seq<Entry>, k: int)
    requires NewestFirst(s)
    ensures WithKey(InsertNewestFirst(e, s), k) == (if Key(e) == k then [e] else []) + WithKey(s, k)
  {
    if s == [] || Key(s[0]) <= Key(e) {
      assert InsertNewestFirst(e, s) == [e] + s;
      WithKeyCons(e, s, k);
    } else {
      InsertBehindNewer(e, s);
      var tail := s[1..];
      InsertWithKey(e, tail, k);
      WithKeyCons(s[0], InsertNewestFirst(e, tail), k);
      assert s == [s[0]] + tail;
      WithKeyCons(s[0], tail, k);
    }
  }

  /** The sort is stable: entries with equal times keep their relative order. */
  lemma {:induction false} SortIsStable(s: seq<Entry>, k: int)
    ensures WithKey(SortNewestFirst(s), k) == WithKey(s, k)
  {
    if s != [] {
      SortIsStable(s[1..], k);
      InsertWithKey(s[0], SortNewestFirst(s[1..]), k);
    }
  }
}

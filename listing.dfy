/**
 * `getFolderNames` (app.js:98-100): the keys of the folders map, sorted.
 * The `localeCompare` collation is replaced by lexicographic order on code points.
 */
module Listing {
  import opened Records
  import opened Seqs

  /** `a` sorts no later than `b`. */
  predicate Precedes(a: string, b: string) {
    if a == [] then true
    else if b == [] then false
    else a[0] < b[0] || (a[0] == b[0] && Precedes(a[1..], b[1..]))
  }

  lemma PrecedesReflexive(a: string)
    ensures Precedes(a, a)
  {
  }

  lemma {:induction false} PrecedesTotal(a: string, b: string)
    ensures Precedes(a, b) || Precedes(b, a)
  {
    if a != [] && b != [] && a[0] == b[0] {
      PrecedesTotal(a[1..], b[1..]);
    }
  }

  lemma {:induction false} PrecedesAntisymmetric(a: string, b: string)
    requires Precedes(a, b) && Precedes(b, a)
    ensures a == b
  {
    if a != [] && b != [] {
      PrecedesAntisymmetric(a[1..], b[1..]);
      assert a == [a[0]] + a[1..] && b == [b[0]] + b[1..];
    }
  }

  lemma {:induction false} PrecedesTransitive(a: string, b: string, c: string)
    requires Precedes(a, b) && Precedes(b, c)
    ensures Precedes(a, c)
  {
    if a != [] && b != [] && c != [] && a[0] == b[0] == c[0] {
      PrecedesTransitive(a[1..], b[1..], c[1..]);
    }
  }

  /** `m` is the first of `keys` in sorting order. */
  predicate IsLeast(m: string, keys: set<string>) {
    m in keys && forall k :: k in keys ==> Precedes(m, k)
  }

  lemma LeastExists(keys: set<string>)
    requires keys != {}
    ensures exists m :: IsLeast(m, keys)
    decreases |keys|
  {
    var x :| x in keys;
    PrecedesReflexive(x);
    if keys != {x} {
      LeastExists(keys - {x});
      var m :| IsLeast(m, keys - {x});
      PrecedesTotal(x, m);
      if Precedes(x, m) {
        forall k | k in keys ensures Precedes(x, k) {
          if k != x { PrecedesTransitive(x, m, k); }
        }
        assert IsLeast(x, keys);
      } else {
        assert IsLeast(m, keys);
      }
    } else {
      assert IsLeast(x, keys);
    }
  }

  lemma LeastUnique(keys: set<string>)
    ensures forall m, n :: IsLeast(m, keys) && IsLeast(n, keys) ==> m == n
  {
    forall m, n | IsLeast(m, keys) && IsLeast(n, keys) ensures m == n {
      PrecedesAntisymmetric(m, n);
    }
  }

  /** `r` holds exactly `keys`, each once, in strictly increasing order. */
  ghost predicate ListsInOrder(r: seq<string>, keys: set<string>) {
    && |r| == |keys|
    && (forall k :: k in r <==> k in keys)
    && (forall i, j :: 0 <= i < j < |r| ==> Precedes(r[i], r[j]) && r[i] != r[j])
  }

  /** The keys in increasing order: strictly sorted (hence without duplicates) and holding exactly the keys. */
  function SortedKeys(keys: set<string>): (r: seq<string>)
    ensures |r| == |keys|
    ensures forall k :: k in r <==> k in keys
    ensures forall i, j :: 0 <= i < j < |r| ==> Precedes(r[i], r[j]) && r[i] != r[j]
    decreases |keys|
  {
    if keys == {} then []
    else
      LeastExists(keys);
      LeastUnique(keys);
      var m :| IsLeast(m, keys);
      var rest := SortedKeys(keys - {m});
      PrependLeast(m, keys, rest);
      [m] + rest
  }

  /** The least key in front of the others listed in order lists all keys in order. */
  lemma PrependLeast(m: string, keys: set<string>, rest: seq<string>)
    requires IsLeast(m, keys) && ListsInOrder(rest, keys - {m})
    ensures ListsInOrder([m] + rest, keys)
  {
    var r := [m] + rest;
    forall i, j | 0 <= i < j < |r| ensures Precedes(r[i], r[j]) && r[i] != r[j] {
      assert r[j] == rest[j - 1] && r[j] in keys - {m};
      if i > 0 { assert r[i] == rest[i - 1]; }
    }
  }

  /** `getFolderNames`. */
  function FolderNames(folders: Folders): (r: seq<string>)
    ensures forall n :: n in r <==> n in folders
    ensures NoDup(r)
  {
    SortedKeys(folders.Keys)
  }

  /** A key occurs exactly once in the listing. */
  lemma ListedOnce(keys: set<string>, k: string)
    requires k in keys
    ensures multiset(SortedKeys(keys))[k] == 1
  {
    var r := SortedKeys(keys);
    assert NoDup(r);
    OnceWithoutDuplicates(r, k);
  }

  /** Adding a folder that was not there: the listing grows by one, keeps the
      earlier names, and holds the new name exactly once. */
  lemma CreatedFolderListedOnce(folders: Folders, name: string)
    requires name !in folders
    ensures |FolderNames(folders[name := []])| == |FolderNames(folders)| + 1
    ensures forall k :: k in FolderNames(folders[name := []]) <==> k in FolderNames(folders) || k == name
    ensures multiset(FolderNames(folders[name := []]))[name] == 1
  {
    assert folders[name := []].Keys == folders.Keys + {name};
    ListedOnce(folders[name := []].Keys, name);
  }
}

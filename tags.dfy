/**
 * Tags: `normalizeTags` (app.js:10-16), which turns the comma-separated text of
 * the tag inputs into a list of tags, and the query update made when a tag chip
 * of a gallery card is clicked (app.js:314-318).
 */
module Tags {
  import opened Seqs
  import opened Text

  /** A tag as `normalizeTags` produces it: non-empty, trimmed, comma-free, lower case. */
  predicate IsTag(t: string) {
    t != "" && IsTrimmed(t) && ',' !in t && Lower(t) == t
  }

  /** What one comma-separated piece contributes: nothing when it is blank, else its trimmed, lower-cased text. */
  function NormalizePiece(p: string): seq<string> {
    var t := Trim(p);
    if t == "" then [] else [Lower(t)]
  }

  /** Trimming and lower-casing a comma-free piece that is not blank yields a tag. */
  lemma PieceIsTag(p: string)
    requires ',' !in p && Trim(p) != ""
    ensures IsTag(Lower(Trim(p)))
  {
    var t := Trim(p);
    TrimMembers(p);
    LowerIdempotent(t);
    assert ',' !in Lower(t) by {
      forall i | 0 <= i < |t| ensures Lower(t)[i] != ',' {
        assert t[i] in t;
      }
    }
  }

  /** Pieces as `split(",")` yields them: none contains a comma. */
  predicate CommaFree(ps: seq<string>) {
    forall p :: p in ps ==> ',' !in p
  }

  /** The tags of a list of pieces, piece by piece. Pieces without a comma, as
      `split(",")` yields them, give tags. */
  function NormalizePieces(ps: seq<string>): (r: seq<string>)
    ensures |r| <= |ps|
    ensures CommaFree(ps) ==> forall t :: t in r ==> IsTag(t)
  {
    if ps == [] then []
    else
      assert CommaFree(ps) ==> ',' !in ps[0] && CommaFree(ps[1..]) by {
        assert ps[0] in ps;
        assert forall p :: p in ps[1..] ==> p in ps;
      }
      assert CommaFree(ps) && Trim(ps[0]) != "" ==> IsTag(Lower(Trim(ps[0]))) by {
        if CommaFree(ps) && Trim(ps[0]) != "" { PieceIsTag(ps[0]); }
      }
      NormalizePiece(ps[0]) + NormalizePieces(ps[1..])
  }

  /** The pieces of `a + b` normalise to those of `a` followed by those of `b`. */
  lemma {:induction false} NormalizePiecesAppend(a: seq<string>, b: seq<string>)
    ensures NormalizePieces(a + b) == NormalizePieces(a) + NormalizePieces(b)
  {
    if a == [] {
      assert a + b == b;
    } else {
      assert (a + b)[0] == a[0];
      assert (a + b)[1..] == a[1..] + b;
      NormalizePiecesAppend(a[1..], b);
      var x, y, z := NormalizePiece(a[0]), NormalizePieces(a[1..]), NormalizePieces(b);
      assert x + (y + z) == (x + y) + z;
    }
  }

  /** `normalizeTags`: split on commas, trim, drop the empty pieces, lower-case. */
  function NormalizeTags(s: string): (r: seq<string>)
    ensures forall t :: t in r ==> IsTag(t)
  {
    NormalizePieces(Split(s))
  }

  /** Tags keep the order of the input and duplicates are kept: the pieces on
      either side of a comma are normalised independently and concatenated. */
  lemma NormalizeTagsAtComma(a: string, b: string)
    ensures NormalizeTags(a + "," + b) == NormalizeTags(a) + NormalizeTags(b)
  {
    SplitAtComma(a, b);
    NormalizePiecesAppend(Split(a), Split(b));
  }

  /** Text without a comma yields at most one tag: its trimmed, lower-cased self, unless it is blank. */
  lemma NormalizeTagsOnePiece(p: string)
    requires ',' !in p
    ensures NormalizeTags(p) == if Trim(p) == "" then [] else [Lower(Trim(p))]
  {
    SplitNoComma(p);
  }

  /** White space in front of the text changes nothing. */
  lemma NormalizeTagsLeadingSpace(c: char, x: string)
    requires IsSpace(c)
    ensures NormalizeTags([c] + x) == NormalizeTags(x)
  {
    var ps := Split(x);
    SplitCons(c, x);
    TrimLeadingSpace(c, ps[0]);
    assert Split([c] + x)[1..] == ps[1..];
    assert ps == [ps[0]] + ps[1..];
    assert ',' !in [c] + ps[0] by { assert ps[0] in ps; }
  }

  /** A single tag normalises to itself. */
  lemma TagNormalizesToItself(t: string)
    requires IsTag(t)
    ensures NormalizeTags(t) == [t]
  {
    NormalizeTagsOnePiece(t);
    TrimOfTrimmed(t);
  }

  /** Duplicates are kept: a tag written twice is listed twice. */
  lemma NormalizeTagsKeepsDuplicates(t: string)
    requires IsTag(t)
    ensures NormalizeTags(t + "," + t) == [t, t]
  {
    NormalizeTagsAtComma(t, t);
    TagNormalizesToItself(t);
  }

  /** Round trip: a list of tags joined with ", " as the tag-click handler writes
      it back into the search box, normalises back to the same list. */
  lemma {:induction false} JoinNormalizeRoundTrip(ts: seq<string>)
    requires forall t :: t in ts ==> IsTag(t)
    ensures NormalizeTags(Join(ts, ", ")) == ts
  {
    if ts == [] {
      NormalizeTagsOnePiece("");
    } else if |ts| == 1 {
      TagNormalizesToItself(ts[0]);
    } else {
      var rest := Join(ts[1..], ", ");
      JoinCons(ts);
      assert IsTag(ts[0]) by { assert ts[0] in ts; }
      assert forall t :: t in ts[1..] ==> IsTag(t) by {
        forall t | t in ts[1..] ensures IsTag(t) { assert t in ts; }
      }
      calc {
        NormalizeTags(Join(ts, ", "));
        { NormalizeTagsAtComma(ts[0], " " + rest); }
        NormalizeTags(ts[0]) + NormalizeTags([' '] + rest);
        { TagNormalizesToItself(ts[0]); NormalizeTagsLeadingSpace(' ', rest); }
        [ts[0]] + NormalizeTags(rest);
        { JoinNormalizeRoundTrip(ts[1..]); }
        [ts[0]] + ts[1..];
      }
      assert ts == [ts[0]] + ts[1..];
    }
  }

  /** Joining two or more pieces with ", ": the first, a comma, then a space before the rest. */
  lemma JoinCons(ts: seq<string>)
    requires |ts| >= 2
    ensures Join(ts, ", ") == ts[0] + "," + ([' '] + Join(ts[1..], ", "))
  {
    var rest := Join(ts[1..], ", ");
    assert ts[0] + ", " + rest == ts[0] + "," + ([' '] + rest);
  }

  /** The distinct elements of `s` as a JavaScript `Set` built from it holds them. */
  function Dedup(s: seq<string>): (r: seq<string>)
    ensures NoDup(r)
    ensures forall x :: x in r <==> x in s
    ensures IsSubsequence(r, s)
  {
    if s == [] then []
    else
      var init := s[..|s| - 1];
      var last := s[|s| - 1];
      var d := Dedup(init);
      assert s == init + [last];
      SubsequenceSnoc(d, init, last);
      if last in d then d else d + [last]
  }

  /** Some occurrence of `x` in `s` comes before every occurrence of `y`. */
  ghost predicate OccursBefore(s: seq<string>, x: string, y: string) {
    exists k :: 0 <= k < |s| && s[k] == x && y !in s[..k]
  }

  /** The `Set` lists its members in order of first occurrence: of any two,
      the earlier one occurs in `s` before the later one first does. */
  lemma {:induction false} DedupFirstOccurrenceOrder(s: seq<string>)
    ensures forall i, j :: 0 <= i < j < |Dedup(s)| ==> OccursBefore(s, Dedup(s)[i], Dedup(s)[j])
  {
    if s != [] {
      var init, last := s[..|s| - 1], s[|s| - 1];
      var d, r := Dedup(init), Dedup(s);
      assert s == init + [last];
      DedupFirstOccurrenceOrder(init);
      forall i, j | 0 <= i < j < |r| ensures OccursBefore(s, r[i], r[j]) {
        if j < |d| {
          OccursBeforeSnoc(init, last, d[i], d[j]);
        } else {
          FirstBeforeNew(init, last, d[i]);
        }
      }
    }
  }

  lemma OccursBeforeSnoc(s: seq<string>, z: string, x: string, y: string)
    requires OccursBefore(s, x, y)
    ensures OccursBefore(s + [z], x, y)
  {
    var k :| 0 <= k < |s| && s[k] == x && y !in s[..k];
    assert (s + [z])[k] == x && (s + [z])[..k] == s[..k];
  }

  /** A member of `s` occurs before the first occurrence of an element appended after it. */
  lemma FirstBeforeNew(s: seq<string>, z: string, x: string)
    requires x in s && z !in s
    ensures OccursBefore(s + [z], x, z)
  {
    var k :| 0 <= k < |s| && s[k] == x;
    assert (s + [z])[k] == x && (s + [z])[..k] == s[..k];
    assert z !in s[..k] by {
      forall m | 0 <= m < k ensures s[..k][m] != z { assert s[m] in s; }
    }
  }

  /** `Set.prototype.add`: the tag goes at the end unless it is already there. */
  function AddTag(current: seq<string>, tag: string): (r: seq<string>)
    ensures forall x :: x in r <==> x in current || x == tag
    ensures NoDup(current) ==> NoDup(r)
  {
    if tag in current then current else current + [tag]
  }

  /** The search-tags text after a click on tag chip `t` with `query` in the box. */
  function ClickTag(query: string, t: string): string {
    Join(AddTag(Dedup(NormalizeTags(query)), Lower(t)), ", ")
  }

  /** After the click, the query's tags are the earlier ones, each once and in
      their order, followed by the clicked tag lower-cased unless it was there
      already; so a tag already present leaves the set of query tags unchanged. */
  lemma ClickTagQuery(query: string, t: string)
    requires IsTag(Lower(t))
    ensures NormalizeTags(ClickTag(query, t)) == AddTag(Dedup(NormalizeTags(query)), Lower(t))
    ensures NoDup(NormalizeTags(ClickTag(query, t)))
    ensures forall x :: x in NormalizeTags(ClickTag(query, t)) <==> x in NormalizeTags(query) || x == Lower(t)
    ensures Lower(t) in NormalizeTags(query) ==>
              forall x :: x in NormalizeTags(ClickTag(query, t)) <==> x in NormalizeTags(query)
  {
    var tags := AddTag(Dedup(NormalizeTags(query)), Lower(t));
    JoinNormalizeRoundTrip(tags);
  }
}

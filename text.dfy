/**
 * The string primitives the gallery uses: `trim`, `toLowerCase`, `split(",")`,
 * `join`, `includes`, and the character classes `\s` and `\w` of its regular
 * expressions. Strings are sequences of Unicode scalar values.
 */
module Text {
  import opened Seqs

  /** ECMAScript WhiteSpace and LineTerminator code points: the set that both
      `String.prototype.trim` and the regular-expression class `\s` use. */
  predicate IsSpace(c: char) {
    || c == '\t' || c == '\n' || c == '\U{B}' || c == '\U{C}' || c == '\r' || c == ' '
    || c == '\U{A0}' || c == '\U{1680}' || ('\U{2000}' <= c <= '\U{200A}')
    || c == '\U{2028}' || c == '\U{2029}' || c == '\U{202F}' || c == '\U{205F}'
    || c == '\U{3000}' || c == '\U{FEFF}'
  }

  /** The regular-expression class `\w` without the `u` flag: ASCII letters, digits and `_`. */
  predicate IsWordChar(c: char) {
    ('a' <= c <= 'z') || ('A' <= c <= 'Z') || ('0' <= c <= '9') || c == '_'
  }

  /** Lower-casing of one character (ASCII letters only). */
  function LowerChar(c: char): (d: char)
    ensures !('A' <= d <= 'Z')
    ensures IsSpace(d) <==> IsSpace(c)
    ensures d == ',' <==> c == ','
    ensures 'A' <= c <= 'Z' || d == c
  {
    if 'A' <= c <= 'Z' then (c as int + 32) as char else c
  }

  /** `toLowerCase`: every character lower-cased, the length kept. */
  function Lower(s: string): (r: string)
    ensures |r| == |s|
    ensures forall i :: 0 <= i < |s| ==> r[i] == LowerChar(s[i])
  {
    if s == [] then [] else [LowerChar(s[0])] + Lower(s[1..])
  }

  lemma LowerIdempotent(s: string)
    ensures Lower(Lower(s)) == Lower(s)
  {
  }

  /** No white space at either end. */
  predicate IsTrimmed(s: string) {
    s == [] || (!IsSpace(s[0]) && !IsSpace(s[|s| - 1]))
  }

  /** The number of white-space characters `s` starts with. */
  function LeadingSpaces(s: string): (n: nat)
    ensures n <= |s|
    ensures forall k :: 0 <= k < n ==> IsSpace(s[k])
    ensures n == |s| || !IsSpace(s[n])
  {
    if s != [] && IsSpace(s[0]) then 1 + LeadingSpaces(s[1..]) else 0
  }

  /** The number of white-space characters `s` ends with. */
  function TrailingSpaces(s: string): (n: nat)
    ensures n <= |s|
    ensures forall k :: |s| - n <= k < |s| ==> IsSpace(s[k])
    ensures n == |s| || !IsSpace(s[|s| - 1 - n])
  {
    if s != [] && IsSpace(s[|s| - 1]) then 1 + TrailingSpaces(s[..|s| - 1]) else 0
  }

  /** `r` is the slice of `s` at offset `i`, and everything of `s` around it is white space. */
  predicate PaddedBy(s: string, r: string, i: int) {
    && 0 <= i <= |s| - |r| && r == s[i..i + |r|]
    && (forall k :: 0 <= k < i ==> IsSpace(s[k]))
    && (forall k :: i + |r| <= k < |s| ==> IsSpace(s[k]))
  }

  /** `trim`: the slice of `s` left after removing white space from both ends. */
  function Trim(s: string): (r: string)
    ensures IsTrimmed(r)
    ensures exists i :: PaddedBy(s, r, i)
  {
    var a := LeadingSpaces(s);
    if a == |s| then
      assert PaddedBy(s, [], 0);
      []
    else
      var b := TrailingSpaces(s);
      assert a < |s| - b;
      var r := s[a..|s| - b];
      assert PaddedBy(s, r, a);
      r
  }

  /** The contract of `Trim` determines its result: at most one trimmed slice has only white space around it. */
  lemma TrimUnique(s: string, r: string, i: int)
    requires IsTrimmed(r) && PaddedBy(s, r, i)
    ensures r == Trim(s)
  {
    var t := Trim(s);
    var j :| PaddedBy(s, t, j);
    if r == [] || t == [] {
      assert forall k :: 0 <= k < |s| ==> IsSpace(s[k]);
    } else {
      assert !IsSpace(s[i]) && !IsSpace(s[j]);
      assert i == j;
      assert !IsSpace(s[i + |r| - 1]) && !IsSpace(s[j + |t| - 1]);
      assert |r| == |t|;
    }
  }

  /** Every character of the trimmed string occurs in the original. */
  lemma TrimMembers(s: string)
    ensures forall c :: c in Trim(s) ==> c in s
  {
    var r := Trim(s);
    var i :| PaddedBy(s, r, i);
    forall k | 0 <= k < |r| ensures r[k] in s {
      assert r[k] == s[i + k];
    }
  }

  /** Trimming removes only white space: any other character occurs as often as before. */
  lemma TrimCounts(s: string, c: char)
    requires !IsSpace(c)
    ensures multiset(Trim(s))[c] == multiset(s)[c]
  {
    var r := Trim(s);
    var i :| PaddedBy(s, r, i);
    var j := i + |r|;
    SliceCounts(s, i, j, c);
    SpacesHaveNo(s, 0, i, c);
    SpacesHaveNo(s, j, |s|, c);
  }

  /** A stretch of white space holds no other character. */
  lemma SpacesHaveNo(s: string, lo: int, hi: int, c: char)
    requires 0 <= lo <= hi <= |s| && !IsSpace(c)
    requires forall k :: lo <= k < hi ==> IsSpace(s[k])
    ensures multiset(s[lo..hi])[c] == 0
  {
    assert c !in s[lo..hi] by {
      forall k | 0 <= k < hi - lo ensures s[lo..hi][k] != c { assert IsSpace(s[lo + k]); }
    }
  }

  lemma TrimOfTrimmed(s: string)
    requires IsTrimmed(s)
    ensures Trim(s) == s
  {
    assert PaddedBy(s, s, 0);
    TrimUnique(s, s, 0);
  }

  /** A leading white-space character makes no difference to `trim`. */
  lemma TrimLeadingSpace(c: char, s: string)
    requires IsSpace(c)
    ensures Trim([c] + s) == Trim(s)
  {
    var r := Trim(s);
    var i :| PaddedBy(s, r, i);
    PaddedBySpace(c, s, r, i);
    TrimUnique([c] + s, r, i + 1);
  }

  lemma PaddedBySpace(c: char, s: string, r: string, i: int)
    requires IsSpace(c) && PaddedBy(s, r, i)
    ensures PaddedBy([c] + s, r, i + 1)
  {
    var cs := [c] + s;
    assert cs[i + 1..i + 1 + |r|] == s[i..i + |r|];
    forall k | 1 <= k < |cs| ensures cs[k] == s[k - 1] {}
  }

  /** `Array.prototype.join`: the empty list gives the empty string. */
  function Join(ts: seq<string>, sep: string): (r: string)
    ensures |ts| == 1 ==> r == ts[0]
  {
    if |ts| == 0 then "" else if |ts| == 1 then ts[0] else ts[0] + sep + Join(ts[1..], sep)
  }

  /** `split(",")`: the comma-free pieces between the commas, at least one. */
  function Split(s: string): (r: seq<string>)
    ensures |r| >= 1
    ensures forall p :: p in r ==> ',' !in p
  {
    if s == [] then [""]
    else if s[0] == ',' then
      var rest := Split(s[1..]);
      [""] + rest
    else
      var rest := Split(s[1..]);
      var r := [[s[0]] + rest[0]] + rest[1..];
      assert ',' !in [s[0]] + rest[0] by { assert rest[0] in rest; }
      assert forall p :: p in r ==> p == r[0] || p in rest[1..];
      r
  }

  /** Joining the pieces with commas gives back the text that was split. */
  lemma {:induction false} SplitJoin(s: string)
    ensures Join(Split(s), ",") == s
  {
    if s != [] {
      var rest := Split(s[1..]);
      SplitJoin(s[1..]);
      assert s == [s[0]] + s[1..];
      if s[0] == ',' {
        SplitLeadingComma(s[1..]);
        assert ([""] + rest)[1..] == rest;
      } else {
        SplitCons(s[0], s[1..]);
        JoinExtendFirst(s[0], rest);
      }
    }
  }

  /** Extending the first piece by `c` puts `c` in front of the joined text. */
  lemma JoinExtendFirst(c: char, ps: seq<string>)
    requires |ps| >= 1
    ensures Join([[c] + ps[0]] + ps[1..], ",") == [c] + Join(ps, ",")
  {
    var r := [[c] + ps[0]] + ps[1..];
    if |ps| == 1 {
      assert r == [[c] + ps[0]];
    } else {
      assert r[0] == [c] + ps[0] && r[1..] == ps[1..];
      var j := Join(ps[1..], ",");
      JoinUnfold(r);
      JoinUnfold(ps);
      AppendRegroup([c], ps[0], ",", j);
    }
  }

  /** More than one piece: the first, a comma, then the rest joined. */
  lemma JoinUnfold(ts: seq<string>)
    requires |ts| >= 2
    ensures Join(ts, ",") == ts[0] + "," + Join(ts[1..], ",")
  {
  }

  /** A comma-free string is one piece. */
  lemma SplitNoComma(s: string)
    requires ',' !in s
    ensures Split(s) == [s]
  {
    if s != [] {
      assert s == [s[0]] + s[1..];
      SplitNoComma(s[1..]);
    }
  }

  /** Splitting at a comma: the pieces before it, then the pieces after it. */
  lemma {:induction false} SplitAtComma(a: string, b: string)
    ensures Split(a + "," + b) == Split(a) + Split(b)
  {
    if a == [] {
      assert a + "," + b == [','] + b;
      SplitLeadingComma(b);
    } else {
      assert a + "," + b == [a[0]] + (a[1..] + "," + b);
      assert a == [a[0]] + a[1..];
      SplitAtComma(a[1..], b);
      SplitAtCommaStep(a[0], a[1..], b);
    }
  }

  /** One more character in front of the text before the comma keeps the split distributing over it. */
  lemma SplitAtCommaStep(c: char, a: string, b: string)
    requires Split(a + "," + b) == Split(a) + Split(b)
    ensures Split([c] + (a + "," + b)) == Split([c] + a) + Split(b)
  {
    var t := a + "," + b;
    if c == ',' {
      SplitLeadingComma(t);
      SplitLeadingComma(a);
    } else {
      SplitCons(c, t);
      SplitCons(c, a);
      ExtendFirstPiece(c, Split(a), Split(b));
    }
  }

  /** Extending the first of several pieces does not touch the pieces appended after them. */
  lemma ExtendFirstPiece(c: char, front: seq<string>, back: seq<string>)
    requires |front| >= 1
    ensures [[c] + (front + back)[0]] + (front + back)[1..] == ([[c] + front[0]] + front[1..]) + back
  {
    assert (front + back)[1..] == front[1..] + back;
  }

  /** A leading comma closes an empty first piece. */
  lemma SplitLeadingComma(s: string)
    ensures Split([','] + s) == [""] + Split(s)
  {
    assert ([','] + s)[1..] == s;
  }

  /** A leading character other than a comma extends the first piece. */
  lemma SplitCons(c: char, s: string)
    requires c != ','
    ensures Split([c] + s) == [[c] + Split(s)[0]] + Split(s)[1..]
  {
    assert ([c] + s)[1..] == s;
  }

  /** `includes`: `n` is a prefix of `h` or of one of its suffixes. */
  predicate Contains(h: string, n: string) {
    n <= h || (h != [] && Contains(h[1..], n))
  }

  /** `n` occurs in `h` at offset `i`. */
  predicate OccursAt(h: string, n: string, i: int) {
    0 <= i && i + |n| <= |h| && h[i..i + |n|] == n
  }

  /** `includes` agrees with the slice-based reading: `n` occurs at some offset of `h`. */
  lemma {:induction false} ContainsAt(h: string, n: string)
    ensures Contains(h, n) <==> exists i :: OccursAt(h, n, i)
  {
    if n <= h {
      assert OccursAt(h, n, 0);
    } else if h != [] {
      var t := h[1..];
      ContainsAt(t, n);
      if Contains(t, n) {
        var j :| OccursAt(t, n, j);
        OccursLater(h, n, j);
      } else {
        forall i | OccursAt(h, n, i) ensures false {
          if i > 0 {
            OccursEarlier(h, n, i);
          }
        }
      }
    }
  }

  lemma OccursLater(h: string, n: string, j: int)
    requires h != [] && OccursAt(h[1..], n, j)
    ensures OccursAt(h, n, j + 1)
  {
    assert h[j + 1..j + 1 + |n|] == h[1..][j..j + |n|];
  }

  lemma OccursEarlier(h: string, n: string, i: int)
    requires i > 0 && OccursAt(h, n, i)
    ensures OccursAt(h[1..], n, i - 1)
  {
    var t := h[1..];
    forall k | 0 <= k < |n| ensures t[i - 1..i - 1 + |n|][k] == n[k] {
      assert t[i - 1 + k] == h[i + k];
    }
  }
}

/**
 * `sanitizeFolderName` (app.js:18-25): the chain of replacements applied to the
 * text typed as a new folder's name.
 */
module FolderName {
  import opened Seqs
  import opened Text

  /** The Thai range `ก-๙` of the character class, U+0E01 to U+0E59. */
  predicate IsThai(c: char) {
    '\U{E01}' <= c <= '\U{E59}'
  }

  /** The characters the class `[^\wก-๙\s.-]` does not match, that is, the ones kept. */
  predicate IsAllowed(c: char) {
    IsWordChar(c) || IsThai(c) || IsSpace(c) || c == '.' || c == '-'
  }

  /** `.replace(/[\/\\]/g, "-")`: every path separator becomes a hyphen, everything else stays. */
  function ReplaceSeparators(s: string): (r: string)
    ensures |r| == |s|
    ensures '/' !in r && '\\' !in r
    ensures forall i :: 0 <= i < |s| && (s[i] == '/' || s[i] == '\\') ==> r[i] == '-'
    ensures forall i :: 0 <= i < |s| && s[i] != '/' && s[i] != '\\' ==> r[i] == s[i]
  {
    if s == [] then []
    else
      var t := ReplaceSeparators(s[1..]);
      var r := [if s[0] == '/' || s[0] == '\\' then '-' else s[0]] + t;
      assert forall i :: 1 <= i < |s| ==> r[i] == t[i - 1] && s[i] == s[1..][i - 1];
      r
  }

  /** Each separator counts as one more hyphen afterwards; no other count changes. */
  lemma {:induction false} ReplaceSeparatorsCounts(s: string, c: char)
    ensures multiset(ReplaceSeparators(s))[c] ==
      if c == '-' then multiset(s)['-'] + multiset(s)['/'] + multiset(s)['\\']
      else if c == '/' || c == '\\' then 0
      else multiset(s)[c]
  {
    if s != [] {
      var r := ReplaceSeparators(s);
      ReplaceSeparatorsCounts(s[1..], c);
      assert r[1..] == ReplaceSeparators(s[1..]);
      CountHead(r, c);
      CountHead(s, c);
      CountHead(s, '-');
      CountHead(s, '/');
      CountHead(s, '\\');
    }
  }

  /** No dot stands next to another dot. */
  predicate HasNoDotPair(s: string) {
    forall i :: 0 <= i < |s| - 1 ==> !(s[i] == '.' && s[i + 1] == '.')
  }

  /** `.replace(/(\.\.)/g, "")`: scanning from the left, every pair of dots is dropped. */
  function RemoveDoubleDots(s: string): (r: string)
    ensures |r| <= |s|
  {
    if |s| >= 2 && s[0] == '.' && s[1] == '.' then
      var r := RemoveDoubleDots(s[2..]);
      assert s == [s[0], s[1]] + s[2..];
      r
    else if s == [] then []
    else
      assert s == [s[0]] + s[1..];
      [s[0]] + RemoveDoubleDots(s[1..])
  }

  /** Dropping dot pairs only removes characters. */
  lemma RemoveDoubleDotsOnlyRemoves(s: string)
    ensures multiset(RemoveDoubleDots(s)) <= multiset(s)
  {
    forall c ensures multiset(RemoveDoubleDots(s))[c] <= multiset(s)[c] {
      RemoveDoubleDotsCounts(s, c);
    }
  }

  /** What is left keeps its order. */
  lemma {:induction false} RemoveDoubleDotsKeepsOrder(s: string)
    ensures IsSubsequence(RemoveDoubleDots(s), s)
  {
    var r := RemoveDoubleDots(s);
    if |s| >= 2 && s[0] == '.' && s[1] == '.' {
      RemoveDoubleDotsKeepsOrder(s[2..]);
      assert s[1..][1..] == s[2..];
      assert r != [] ==> IsSubsequence(r, s[1..]);
    } else if s != [] {
      RemoveDoubleDotsKeepsOrder(s[1..]);
      assert r[1..] == RemoveDoubleDots(s[1..]);
    }
  }

  /** The number of dot pairs the left-to-right scan removes. */
  function DroppedPairs(s: string): nat {
    if |s| >= 2 && s[0] == '.' && s[1] == '.' then 1 + DroppedPairs(s[2..])
    else if s == [] then 0
    else DroppedPairs(s[1..])
  }

  /** Only dots go, two for each pair removed: every other character is kept as often as it occurs. */
  lemma {:induction false} RemoveDoubleDotsCounts(s: string, c: char)
    ensures c != '.' ==> multiset(RemoveDoubleDots(s))[c] == multiset(s)[c]
    ensures c == '.' ==> multiset(s)[c] == multiset(RemoveDoubleDots(s))[c] + 2 * DroppedPairs(s)
  {
    if |s| >= 2 && s[0] == '.' && s[1] == '.' {
      RemoveDoubleDotsCounts(s[2..], c);
      CountTwo(s, c);
    } else if s != [] {
      var rest := RemoveDoubleDots(s[1..]);
      RemoveDoubleDotsCounts(s[1..], c);
      assert RemoveDoubleDots(s) == [s[0]] + rest;
      CountHead(s, c);
      CountCons(s[0], rest, c);
    }
  }

  /** No two dots are left side by side. */
  lemma {:induction false} RemoveDoubleDotsLeavesNoPair(s: string)
    ensures HasNoDotPair(RemoveDoubleDots(s))
  {
    if |s| >= 2 && s[0] == '.' && s[1] == '.' {
      RemoveDoubleDotsLeavesNoPair(s[2..]);
    } else if s != [] {
      var rest := RemoveDoubleDots(s[1..]);
      RemoveDoubleDotsLeavesNoPair(s[1..]);
      if s[0] == '.' && rest != [] {
        KeepsLeadingNonDot(s[1..]);
      }
      NoPairCons(s[0], rest);
    }
  }

  /** A character in front of text without dot pairs adds none unless both are dots. */
  lemma NoPairCons(x: char, rest: string)
    requires HasNoDotPair(rest)
    requires x == '.' && rest != [] ==> rest[0] != '.'
    ensures HasNoDotPair([x] + rest)
  {
    var r := [x] + rest;
    forall i | 0 <= i < |r| - 1 ensures !(r[i] == '.' && r[i + 1] == '.') {
      if i > 0 { assert r[i] == rest[i - 1] && r[i + 1] == rest[i]; }
    }
  }

  /** A character other than a dot is a barrier: the pairs on either side of it
      are removed independently and the character itself stays where it is. */
  lemma {:induction false} RemoveDoubleDotsAround(a: string, c: char, b: string)
    requires c != '.'
    ensures RemoveDoubleDots(a + [c] + b) == RemoveDoubleDots(a) + [c] + RemoveDoubleDots(b)
  {
    if a == [] {
      AroundEmpty(c, b);
    } else if |a| >= 2 && a[0] == '.' && a[1] == '.' {
      RemoveDoubleDotsAround(a[2..], c, b);
      AroundPair(a, c, b);
    } else {
      RemoveDoubleDotsAround(a[1..], c, b);
      AroundKept(a, c, b);
    }
  }

  lemma AroundEmpty(c: char, b: string)
    requires c != '.'
    ensures RemoveDoubleDots([] + [c] + b) == RemoveDoubleDots([]) + [c] + RemoveDoubleDots(b)
  {
    var s := [] + [c] + b;
    KeepsHead(s);
    assert s[1..] == b;
  }

  lemma AroundPair(a: string, c: char, b: string)
    requires |a| >= 2 && a[0] == '.' && a[1] == '.'
    requires RemoveDoubleDots(a[2..] + [c] + b) == RemoveDoubleDots(a[2..]) + [c] + RemoveDoubleDots(b)
    ensures RemoveDoubleDots(a + [c] + b) == RemoveDoubleDots(a) + [c] + RemoveDoubleDots(b)
  {
    var t := [c] + b;
    AppendAssoc(a, [c], b);
    AppendAssoc(a[2..], [c], b);
    DropsPairBefore(a, t);
    DropsPair(a);
  }

  /** A leading dot pair is dropped whatever follows it. */
  lemma DropsPairBefore(a: string, t: string)
    requires |a| >= 2 && a[0] == '.' && a[1] == '.'
    ensures RemoveDoubleDots(a + t) == RemoveDoubleDots(a[2..] + t)
  {
    DropFromAppend(a, t, 2);
    DropsPair(a + t);
  }

  lemma AroundKept(a: string, c: char, b: string)
    requires c != '.' && a != [] && !(|a| >= 2 && a[0] == '.' && a[1] == '.')
    requires RemoveDoubleDots(a[1..] + [c] + b) == RemoveDoubleDots(a[1..]) + [c] + RemoveDoubleDots(b)
    ensures RemoveDoubleDots(a + [c] + b) == RemoveDoubleDots(a) + [c] + RemoveDoubleDots(b)
  {
    var t := [c] + b;
    AppendAssoc(a, [c], b);
    AppendAssoc(a[1..], [c], b);
    KeepsHeadBeforeNonDot(a, t);
    KeepsHead(a);
    var x, y := RemoveDoubleDots(a[1..]), RemoveDoubleDots(b);
    AppendRegroup([a[0]], x, [c], y);
  }

  /** A first character that starts no dot pair is kept even when text not starting with a dot follows. */
  lemma KeepsHeadBeforeNonDot(a: string, t: string)
    requires a != [] && !(|a| >= 2 && a[0] == '.' && a[1] == '.')
    requires t != [] && t[0] != '.'
    ensures RemoveDoubleDots(a + t) == [a[0]] + RemoveDoubleDots(a[1..] + t)
  {
    assert |a| == 1 ==> (a + t)[1] == t[0];
    DropFromAppend(a, t, 1);
    KeepsHead(a + t);
  }

  /** A leading dot pair is dropped. */
  lemma DropsPair(s: string)
    requires |s| >= 2 && s[0] == '.' && s[1] == '.'
    ensures RemoveDoubleDots(s) == RemoveDoubleDots(s[2..])
  {
  }

  /** A leading character that does not start a dot pair is kept. */
  lemma KeepsHead(s: string)
    requires s != [] && !(|s| >= 2 && s[0] == '.' && s[1] == '.')
    ensures RemoveDoubleDots(s) == [s[0]] + RemoveDoubleDots(s[1..])
  {
  }

  /** Text that does not start with a dot keeps its first character. */
  lemma KeepsLeadingNonDot(s: string)
    requires s != [] && s[0] != '.'
    ensures RemoveDoubleDots(s) != [] && RemoveDoubleDots(s)[0] == s[0]
  {
  }

  /** `.replace(/[^\wก-๙\s.-]/g, "")`: the allowed characters of `s`, all of them and in order. */
  function KeepAllowed(s: string): (r: string)
    ensures forall c :: c in r ==> IsAllowed(c)
    ensures IsSubsequence(r, s)
  {
    if s == [] then []
    else
      var rest := KeepAllowed(s[1..]);
      assert s == [s[0]] + s[1..];
      if IsAllowed(s[0]) then [s[0]] + rest else rest
  }

  lemma KeepAllowedCons(c: char, s: string)
    ensures KeepAllowed([c] + s) == if IsAllowed(c) then [c] + KeepAllowed(s) else KeepAllowed(s)
  {
    assert ([c] + s)[1..] == s;
  }

  /** Nothing allowed is lost: each allowed character occurs as often as in `s`, every other one not at all. */
  lemma {:induction false} KeepAllowedCounts(s: string, c: char)
    ensures multiset(KeepAllowed(s))[c] == if IsAllowed(c) then multiset(s)[c] else 0
  {
    if s != [] {
      assert s == [s[0]] + s[1..];
      KeepAllowedCons(s[0], s[1..]);
      KeepAllowedCounts(s[1..], c);
    }
  }

  /** `sanitizeFolderName`. The result holds only allowed characters (so no path
      separator) and has no white space at either end. */
  function SanitizeFolderName(name: string): (r: string)
    ensures IsTrimmed(r)
    ensures forall c :: c in r ==> IsAllowed(c)
    ensures '/' !in r && '\\' !in r
  {
    var kept := KeepAllowed(RemoveDoubleDots(ReplaceSeparators(Trim(name))));
    TrimAllowed(kept);
    Trim(kept)
  }

  /** Apart from white space and dots, the name keeps every allowed character
      as often as the input has it, each separator becomes one more hyphen, and
      every other character is gone. */
  lemma SanitizeCounts(name: string, c: char)
    requires !IsSpace(c) && c != '.'
    ensures multiset(SanitizeFolderName(name))[c] ==
      if !IsAllowed(c) then 0
      else if c == '-' then multiset(name)['-'] + multiset(name)['/'] + multiset(name)['\\']
      else multiset(name)[c]
  {
    var b := RemoveDoubleDots(ReplaceSeparators(Trim(name)));
    var k := KeepAllowed(b);
    SeparatorsCountedBeforeFilter(name, c);
    KeepAllowedCounts(b, c);
    TrimCounts(k, c);
  }

  /** The counts after the first three replacements, for a character that is neither white space nor a dot. */
  lemma SeparatorsCountedBeforeFilter(name: string, c: char)
    requires !IsSpace(c) && c != '.'
    ensures multiset(RemoveDoubleDots(ReplaceSeparators(Trim(name))))[c] ==
      if c == '-' then multiset(name)['-'] + multiset(name)['/'] + multiset(name)['\\']
      else if c == '/' || c == '\\' then 0
      else multiset(name)[c]
  {
    var t := Trim(name);
    var a := ReplaceSeparators(t);
    TrimCounts(name, c);
    TrimCounts(name, '/');
    TrimCounts(name, '\\');
    ReplaceSeparatorsCounts(t, c);
    RemoveDoubleDotsCounts(a, c);
  }

  /** Trimming a string of allowed characters leaves allowed characters, none a separator. */
  lemma TrimAllowed(s: string)
    requires forall c :: c in s ==> IsAllowed(c)
    ensures forall c :: c in Trim(s) ==> IsAllowed(c)
    ensures '/' !in Trim(s) && '\\' !in Trim(s)
  {
    TrimMembers(s);
    assert !IsAllowed('/') && !IsAllowed('\\');
  }

  /** A name that is already trimmed, made of allowed characters and free of
      `..` comes through unchanged. */
  lemma SanitizeKeepsCleanName(name: string)
    requires IsTrimmed(name)
    requires forall c :: c in name ==> IsAllowed(c)
    requires HasNoDotPair(name)
    ensures SanitizeFolderName(name) == name
  {
    TrimOfTrimmed(name);
    ReplaceSeparatorsKeeps(name);
    RemoveDoubleDotsKeeps(name);
    KeepAllowedKeeps(name);
  }

  lemma ReplaceSeparatorsKeeps(s: string)
    requires '/' !in s && '\\' !in s
    ensures ReplaceSeparators(s) == s
  {
  }

  lemma {:induction false} RemoveDoubleDotsKeeps(s: string)
    requires HasNoDotPair(s)
    ensures RemoveDoubleDots(s) == s
  {
    if s != [] {
      RemoveDoubleDotsKeeps(s[1..]);
    }
  }

  lemma KeepAllowedKeeps(s: string)
    requires forall c :: c in s ==> IsAllowed(c)
    ensures KeepAllowed(s) == s
  {
    if s != [] {
      assert s[0] in s;
      KeepAllowedKeeps(s[1..]);
    }
  }

  /** The output may still contain `..`: the dot pairs are removed before the
      character filter, which can then delete what stood between two dots. */
  lemma SanitizeMayYieldDoubleDot()
    ensures SanitizeFolderName("a.@.b") == "a..b"
  {
    var s := "a.@.b";
    ExampleIsTrimmed();
    ExampleHasNoSeparatorOrPair();
    DropsTheCharacterBetweenDots();
    SanitizeVia(s, s, s, s, "a..b", "a..b");
  }

  lemma ExampleIsTrimmed()
    ensures Trim("a.@.b") == "a.@.b" && Trim("a..b") == "a..b"
  {
    TrimOfTrimmed("a.@.b");
    TrimOfTrimmed("a..b");
  }

  lemma ExampleHasNoSeparatorOrPair()
    ensures ReplaceSeparators("a.@.b") == "a.@.b"
    ensures RemoveDoubleDots("a.@.b") == "a.@.b"
  {
    ReplaceSeparatorsKeeps("a.@.b");
    RemoveDoubleDotsKeeps("a.@.b");
  }

  lemma DropsTheCharacterBetweenDots()
    ensures KeepAllowed("a.@.b") == "a..b"
  {
    KeepsLastTwo();
    DropsOne('@', ".b", ".b");
    KeepsOne('.', "@.b", ".b");
    KeepsOne('a', ".@.b", "..b");
  }

  lemma KeepsLastTwo()
    ensures KeepAllowed(".b") == ".b"
  {
    KeepsOne('b', "", "");
    KeepsOne('.', "b", "b");
  }

  lemma KeepsOne(c: char, s: string, k: string)
    requires IsAllowed(c) && KeepAllowed(s) == k
    ensures KeepAllowed([c] + s) == [c] + k
  {
    KeepAllowedCons(c, s);
  }

  lemma DropsOne(c: char, s: string, k: string)
    requires !IsAllowed(c) && KeepAllowed(s) == k
    ensures KeepAllowed([c] + s) == k
  {
    KeepAllowedCons(c, s);
  }

  lemma SanitizeVia(name: string, a: string, b: string, c: string, d: string, r: string)
    requires Trim(name) == a && ReplaceSeparators(a) == b && RemoveDoubleDots(b) == c
    requires KeepAllowed(c) == d && Trim(d) == r
    ensures SanitizeFolderName(name) == r
  {
  }
}

/** Model of `anagrams` in general-programming-knowledge/index.js: both
    strings lose every whitespace character (`replace(/\s/g, '')`), are
    lower-cased (`toLowerCase()`), are compared by length, and are finally
    compared after sorting their characters (`split('').sort().join('')`).
    A string is a sequence of characters; splitting it into one-character
    strings and joining them back are the identity on that sequence. */
module Anagram {

  /** The regular-expression class `\s`: ECMAScript's WhiteSpace and
      LineTerminator code points (tab, line feed, vertical tab, form feed,
      carriage return, space, no-break space, the Unicode space separators,
      the line and paragraph separators and the byte order mark). */
  predicate IsWhitespace(c: char) {
    var n := c as int;
    (0x09 <= n <= 0x0D) || n == 0x20 || n == 0xA0 || n == 0x1680
    || (0x2000 <= n <= 0x200A) || n == 0x2028 || n == 0x2029
    || n == 0x202F || n == 0x205F || n == 0x3000 || n == 0xFEFF
  }

  /** `s.replace(/\s/g, '')`: the non-whitespace characters of `s`, in order. */
  function StripWhitespace(s: string): (r: string)
    ensures |r| <= |s|
    ensures forall i :: 0 <= i < |r| ==> !IsWhitespace(r[i])
    ensures forall c :: c in r <==> c in s && !IsWhitespace(c)
    ensures (forall i :: 0 <= i < |s| ==> !IsWhitespace(s[i])) ==> r == s
  {
    if s == [] then []
    else if IsWhitespace(s[0]) then StripWhitespace(s[1..])
    else [s[0]] + StripWhitespace(s[1..])
  }

  /** Removing whitespace works piecewise over a concatenation. */
  lemma {:induction false} StripAppend(x: string, y: string)
    ensures StripWhitespace(x + y) == StripWhitespace(x) + StripWhitespace(y)
  {
    if x == [] {
      assert x + y == y;
    } else {
      assert (x + y)[0] == x[0] && (x + y)[1..] == x[1..] + y;
      StripAppend(x[1..], y);
    }
  }

  predicate IsUpper(c: char) {
    'A' <= c <= 'Z'
  }

  /** `toLowerCase` on one character, for the Latin letters A to Z. */
  function ToLower(c: char): (r: char)
    ensures !IsUpper(r)
    ensures !IsUpper(c) ==> r == c
    ensures IsUpper(c) ==> 'a' <= r <= 'z' && r as int - 'a' as int == c as int - 'A' as int
  {
    if IsUpper(c) then (c as int + ('a' as int - 'A' as int)) as char else c
  }

  /** Two characters that lower-case alike are both whitespace or both not:
      case mapping only touches letters. */
  lemma SameLowerSameWhitespace(c: char, d: char)
    requires ToLower(c) == ToLower(d)
    ensures IsWhitespace(c) <==> IsWhitespace(d)
  {
  }

  /** `s.toLowerCase()`: each character lower-cased in place. */
  function LowerCase(s: string): (r: string)
    ensures |r| == |s|
    ensures forall i :: 0 <= i < |s| ==> r[i] == ToLower(s[i])
    ensures forall i :: 0 <= i < |r| ==> !IsUpper(r[i])
  {
    if s == [] then [] else [ToLower(s[0])] + LowerCase(s[1..])
  }

  /** Lower-casing twice is lower-casing once. */
  lemma LowerCaseIdempotent(s: string)
    ensures LowerCase(LowerCase(s)) == LowerCase(s)
  {
  }

  /** The normalised form both arguments are brought to before comparison. */
  function Normalize(s: string): (r: string)
    ensures |r| <= |s|
    ensures forall i :: 0 <= i < |r| ==> !IsWhitespace(r[i]) && !IsUpper(r[i])
    ensures (forall i :: 0 <= i < |s| ==> !IsWhitespace(s[i]) && !IsUpper(s[i])) ==> r == s
  {
    LowerCase(StripWhitespace(s))
  }

  predicate Sorted(s: string) {
    forall i, j :: 0 <= i < j < |s| ==> s[i] <= s[j]
  }

  /** Inserting one character: the result holds exactly the old characters
      and the new one. */
  function Insert(x: char, s: string): (r: string)
    ensures |r| == |s| + 1
    ensures multiset(r) == multiset(s) + multiset{x}
  {
    if s == [] then [x]
    else if x <= s[0] then [x] + s
    else
      assert s == [s[0]] + s[1..];
      [s[0]] + Insert(x, s[1..])
  }

  /** A bound below the inserted character and below every old character
      stays below every character of the result. */
  lemma {:induction false} InsertKeepsLowerBound(b: char, x: char, s: string)
    requires b <= x
    requires forall k :: 0 <= k < |s| ==> b <= s[k]
    ensures forall k :: 0 <= k < |Insert(x, s)| ==> b <= Insert(x, s)[k]
  {
    if s != [] && x > s[0] {
      InsertKeepsLowerBound(b, x, s[1..]);
    }
  }

  /** A character no larger than every character of a sorted string can be
      put in front of it. */
  lemma ConsSorted(h: char, t: string)
    requires Sorted(t)
    requires forall k :: 0 <= k < |t| ==> h <= t[k]
    ensures Sorted([h] + t)
  {
  }

  /** Inserting into a sorted string keeps it sorted. */
  lemma {:induction false} InsertSorted(x: char, s: string)
    requires Sorted(s)
    ensures Sorted(Insert(x, s))
  {
    if s == [] {
    } else if x <= s[0] {
      ConsSorted(x, s);
    } else {
      InsertSorted(x, s[1..]);
      InsertKeepsLowerBound(s[0], x, s[1..]);
      ConsSorted(s[0], Insert(x, s[1..]));
    }
  }

  /** `split('').sort().join('')`: the default `Array.prototype.sort` orders
      the one-character strings by character code, so the result is the
      sorted rearrangement of the input. */
  function Sort(s: string): (r: string)
    ensures Sorted(r)
    ensures multiset(r) == multiset(s)
  {
    if s == [] then []
    else
      assert s == [s[0]] + s[1..];
      InsertSorted(s[0], Sort(s[1..]));
      Insert(s[0], Sort(s[1..]))
  }

  /** Two sorted strings with the same characters start with the same one:
      their least character. */
  lemma SortedSameHead(a: string, b: string)
    requires Sorted(a) && Sorted(b) && a != []
    requires multiset(a) == multiset(b)
    ensures b != [] && a[0] == b[0]
  {
    assert a[0] in multiset(b);
    var i :| 0 <= i < |b| && b[i] == a[0];
    assert b[0] in multiset(a);
    var j :| 0 <= j < |a| && a[j] == b[0];
  }

  /** A sorted string is determined by its multiset of characters. */
  lemma {:induction false} SortedUnique(a: string, b: string)
    requires Sorted(a) && Sorted(b)
    requires multiset(a) == multiset(b)
    ensures a == b
    decreases |a|
  {
    if a == [] {
      assert |b| == |multiset(b)| == 0;
    } else {
      SortedSameHead(a, b);
      assert a == [a[0]] + a[1..] && b == [b[0]] + b[1..];
      assert multiset(a[1..]) == multiset(a) - multiset{a[0]};
      assert multiset(b[1..]) == multiset(b) - multiset{b[0]};
      SortedUnique(a[1..], b[1..]);
    }
  }

  /** Comparing sorted forms is comparing multisets, in both directions. */
  lemma SortEqualIffSameMultiset(x: string, y: string)
    ensures Sort(x) == Sort(y) <==> multiset(x) == multiset(y)
  {
    if multiset(x) == multiset(y) {
      SortedUnique(Sort(x), Sort(y));
    }
  }

  /** `anagrams(stringOne, stringTwo)`: true exactly when the two normalised
      strings hold the same characters the same number of times; strings of
      different normalised length are never anagrams. */
  function Anagrams(stringOne: string, stringTwo: string): (r: bool)
    ensures r <==> multiset(Normalize(stringOne)) == multiset(Normalize(stringTwo))
    ensures |Normalize(stringOne)| != |Normalize(stringTwo)| ==> !r
  {
    var one := Normalize(stringOne);
    var two := Normalize(stringTwo);
    SortEqualIffSameMultiset(one, two);
    if |one| != |two| then
      assert |multiset(one)| != |multiset(two)|;
      false
    else
      Sort(one) == Sort(two)
  }

  /** The early length check is a shortcut only: without it the sorted
      comparison alone gives the same answer. */
  lemma LengthCheckIsShortcut(a: string, b: string)
    ensures Anagrams(a, b) == (Sort(Normalize(a)) == Sort(Normalize(b)))
  {
  }

  /** Every string is an anagram of itself. */
  lemma Reflexive(a: string)
    ensures Anagrams(a, a)
  {
  }

  /** The argument order does not matter. */
  lemma Symmetric(a: string, b: string)
    ensures Anagrams(a, b) == Anagrams(b, a)
  {
  }

  /** Being anagrams is transitive, so `anagrams` is an equivalence. */
  lemma Transitive(a: string, b: string, c: string)
    requires Anagrams(a, b) && Anagrams(b, c)
    ensures Anagrams(a, c)
  {
  }

  /** Deleting one whitespace character does not change the stripped string. */
  lemma StripWithout(x: string, y: string, w: char)
    requires IsWhitespace(w)
    ensures StripWhitespace(x + [w] + y) == StripWhitespace(x + y)
  {
    StripAppend(x + [w], y);
    StripAppend(x, [w]);
    StripAppend(x, y);
    assert StripWhitespace([w]) == StripWhitespace([w][1..]);
    assert StripWhitespace(x + [w]) == StripWhitespace(x);
  }

  /** Inserting a whitespace character anywhere in either argument does not
      change the answer. */
  lemma IgnoresWhitespace(x: string, y: string, w: char, other: string)
    requires IsWhitespace(w)
    ensures Anagrams(x + [w] + y, other) == Anagrams(x + y, other)
    ensures Anagrams(other, x + [w] + y) == Anagrams(other, x + y)
  {
    StripWithout(x, y, w);
  }

  /** Two strings that agree position by position up to letter case have the
      same normal form. */
  lemma {:induction false} NormalizeIgnoresCase(s: string, t: string)
    requires |s| == |t|
    requires forall i :: 0 <= i < |s| ==> ToLower(s[i]) == ToLower(t[i])
    ensures Normalize(s) == Normalize(t)
  {
    if s != [] {
      SameLowerSameWhitespace(s[0], t[0]);
      NormalizeIgnoresCase(s[1..], t[1..]);
      if !IsWhitespace(s[0]) {
        var rs, rt := StripWhitespace(s[1..]), StripWhitespace(t[1..]);
        assert LowerCase([s[0]] + rs) == [ToLower(s[0])] + LowerCase(rs);
        assert LowerCase([t[0]] + rt) == [ToLower(t[0])] + LowerCase(rt);
      }
    }
  }

  /** Changing the case of letters in either argument does not change the
      answer. */
  lemma IgnoresCase(s: string, t: string, other: string)
    requires |s| == |t|
    requires forall i :: 0 <= i < |s| ==> ToLower(s[i]) == ToLower(t[i])
    ensures Anagrams(s, other) == Anagrams(t, other)
    ensures Anagrams(other, s) == Anagrams(other, t)
  {
    NormalizeIgnoresCase(s, t);
  }

  lemma CatIsNormal()
    ensures Normalize("cat") == "cat"
  {
    var s := "cat";
    assert forall i :: 0 <= i < |s| ==> !IsWhitespace(s[i]) && !IsUpper(s[i]);
  }

  lemma DogIsNormal()
    ensures Normalize("dog") == "dog"
  {
    var s := "dog";
    assert forall i :: 0 <= i < |s| ==> !IsWhitespace(s[i]) && !IsUpper(s[i]);
  }

  lemma ListenIsNormal()
    ensures Normalize("listen") == "listen"
  {
    var s := "listen";
    assert forall i :: 0 <= i < |s| ==> !IsWhitespace(s[i]) && !IsUpper(s[i]);
  }

  lemma SilentIsNormal()
    ensures Normalize("silent") == "silent"
  {
    var s := "silent";
    assert forall i :: 0 <= i < |s| ==> !IsWhitespace(s[i]) && !IsUpper(s[i]);
  }

  /** `anagrams('cat', 'dog')` is false. */
  lemma ExampleCatDog()
    ensures !Anagrams("cat", "dog")
  {
    CatIsNormal();
    DogIsNormal();
    assert "cat"[0] == 'c' && 'c' !in "dog";
  }

  /** `anagrams('listen', 'silent')` is true. */
  lemma ExampleListenSilent()
    ensures Anagrams("listen", "silent")
  {
    ListenIsNormal();
    SilentIsNormal();
    assert multiset("listen") == multiset{'l', 'i', 's', 't', 'e', 'n'};
    assert multiset("silent") == multiset{'s', 'i', 'l', 'e', 'n', 't'};
  }
}

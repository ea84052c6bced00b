# General programming helpers: `sumEvenNumbers` and `anagrams`

This project models, in Dafny, the two helper functions of
`general-programming-knowledge/index.js`, and proves what they compute.

- `sumEvenNumbers(arr)` reduces an array with seed `0`. The reduce callback
  adds the current element to the running sum exactly when `num % 2 === 0`.
  The model (module `EvenSum`, file `even_sum.dfy`) writes the reduce out as
  a left fold, `FoldEven`. It writes JavaScript's truncating `%` out as
  `JsRemainder`. It proves that the result is the sum of exactly the even
  elements (a reference definition `Sum(Evens(arr))`), that the result is
  even, what appending one element does, that the sum splits over
  concatenation, and that it does not depend on element order. The two
  values printed by the file's test lines are proved too.
- `anagrams(stringOne, stringTwo)` removes every `\s` character from both
  strings, lower-cases them, answers `false` when the lengths differ, and
  otherwise compares the strings after sorting their characters. The model
  (module `Anagram`, file `anagram.dfy`) has one function per step:
  `StripWhitespace`, `LowerCase`, `Normalize` and `Sort` (an insertion sort,
  proved sorted and a permutation). It proves that `Anagrams` is true exactly
  when the two normalised strings have the same multiset of characters. It
  proves that the length check is only a shortcut, and that the relation is
  reflexive, symmetric and transitive. It proves that inserting whitespace
  or changing the case of the letters `A`..`Z` in either argument never changes
  the answer. The two printed examples are proved too.

The repository's `document-qa-system` directory holds no logic to model
beside these helpers: its `/add-data` handler
(`document-qa-system/backend/server.js:15-18`) contains only comments, and
its other backend and frontend files are schemas, a storage upload and UI
code (see "Left out").

## Model

| member | source | states |
|---|---|---|
| EvenSum.JsRemainder | general-programming-knowledge/index.js:10 | `num % 2` is JavaScript's truncating remainder: its magnitude is the remainder of the magnitudes, it takes the sign of the dividend or is zero, and it lies strictly between `-n` and `n` |
| EvenSum.IsEvenIffEuclidean | general-programming-knowledge/index.js:10 | the test `num % 2 === 0` holds exactly when the Euclidean remainder is zero, negative numbers included |
| EvenSum.FoldEven | general-programming-knowledge/index.js:4-13 | the reduce with the callback keeps the parity of its seed, since it only ever adds even numbers |
| EvenSum.Evens | general-programming-knowledge/index.js:10 | the reference filter keeps every element that passes `num % 2 === 0` as many times as it occurs, and nothing else |
| EvenSum.SumEvenNumbers | general-programming-knowledge/index.js:1-14 | `sumEvenNumbers(arr)` equals the sum of exactly the even elements of `arr`, and is even |
| EvenSum.FoldIsFilteredSum | general-programming-knowledge/index.js:4-13 | the reduce from any seed adds the sum of the even elements to that seed |
| EvenSum.EmptyIsZero | general-programming-knowledge/index.js:4-13 | an empty array gives the reduce seed `0` |
| EvenSum.FoldSnoc | general-programming-knowledge/index.js:4-13 | reducing `arr + [x]` is one more callback step after reducing `arr` |
| EvenSum.AppendElement | general-programming-knowledge/index.js:10 | appending an odd element leaves the result unchanged; appending an even element `e` adds exactly `e` |
| EvenSum.FoldAppend | general-programming-knowledge/index.js:4-13 | reducing a concatenation is reducing the second part from the first part's result |
| EvenSum.SumEvenAppend | general-programming-knowledge/index.js:1-14 | the result on `a + b` is the result on `a` plus the result on `b` |
| EvenSum.SumEvenPermutation | general-programming-knowledge/index.js:1-14 | two arrays with the same elements, in any order, give the same result |
| EvenSum.ExampleOneToFour | general-programming-knowledge/index.js:38 | `sumEvenNumbers([1, 2, 3, 4])` is `6` |
| EvenSum.ExampleAllEven | general-programming-knowledge/index.js:39 | `sumEvenNumbers([2, 2, 4, 4])` is `12` |
| Anagram.StripWhitespace | general-programming-knowledge/index.js:18-19 | `replace(/\s/g, '')` leaves no whitespace, keeps every other character, and returns a string with no whitespace unchanged |
| Anagram.StripAppend | general-programming-knowledge/index.js:18-19 | whitespace removal works piecewise over concatenation |
| Anagram.StripWithout | general-programming-knowledge/index.js:18-19 | deleting one whitespace character does not change the stripped string |
| Anagram.ToLower | general-programming-knowledge/index.js:18-19 | lower-casing a character leaves no capital letter, maps `A`..`Z` to `a`..`z` in order, and leaves every other character alone |
| Anagram.SameLowerSameWhitespace | general-programming-knowledge/index.js:18-19 | two characters that lower-case alike are both whitespace or both not |
| Anagram.LowerCase | general-programming-knowledge/index.js:18-19 | `toLowerCase()` keeps the length, lower-cases each position and leaves no capital letter |
| Anagram.LowerCaseIdempotent | general-programming-knowledge/index.js:18-19 | lower-casing twice is lower-casing once |
| Anagram.Normalize | general-programming-knowledge/index.js:18-19 | the normalised string is no longer than the input, holds no whitespace and no capital letter, and a string already in that form is its own normal form |
| Anagram.Insert | general-programming-knowledge/index.js:32-33 | inserting a character adds exactly that character to the string's multiset |
| Anagram.InsertKeepsLowerBound | general-programming-knowledge/index.js:32-33 | a character below the inserted one and below every old one stays below every character of the result |
| Anagram.ConsSorted | general-programming-knowledge/index.js:32-33 | a character no larger than every character of a sorted string can precede it |
| Anagram.InsertSorted | general-programming-knowledge/index.js:32-33 | inserting into a sorted string keeps it sorted |
| Anagram.Sort | general-programming-knowledge/index.js:32-33 | `split('').sort().join('')` is sorted and is a permutation of its input |
| Anagram.SortedSameHead | general-programming-knowledge/index.js:32-33 | two sorted strings with the same characters start with the same character |
| Anagram.SortedUnique | general-programming-knowledge/index.js:32-33 | two sorted strings with the same multiset of characters are equal |
| Anagram.SortEqualIffSameMultiset | general-programming-knowledge/index.js:28-33 | the sorted forms of two strings are equal if and only if the strings have the same multiset of characters |
| Anagram.Anagrams | general-programming-knowledge/index.js:16-35 | `anagrams(a, b)` is true if and only if the normalised strings have the same multiset of characters, and is false whenever their lengths differ |
| Anagram.LengthCheckIsShortcut | general-programming-knowledge/index.js:23-25 | the early `false` on different lengths gives the same answer as the sorted comparison alone |
| Anagram.Reflexive | general-programming-knowledge/index.js:32-33 | every string is an anagram of itself |
| Anagram.Symmetric | general-programming-knowledge/index.js:23 | `anagrams(a, b) == anagrams(b, a)` |
| Anagram.Transitive | general-programming-knowledge/index.js:32-33 | anagrams of anagrams are anagrams |
| Anagram.IgnoresWhitespace | general-programming-knowledge/index.js:18-19 | inserting a whitespace character anywhere in either argument does not change the answer |
| Anagram.NormalizeIgnoresCase | general-programming-knowledge/index.js:18-19 | strings that agree position by position up to letter case have the same normal form |
| Anagram.IgnoresCase | general-programming-knowledge/index.js:18-19 | changing the case of letters in either argument does not change the answer |
| Anagram.CatIsNormal | general-programming-knowledge/index.js:41 | `'cat'` is already normalised |
| Anagram.DogIsNormal | general-programming-knowledge/index.js:41 | `'dog'` is already normalised |
| Anagram.ListenIsNormal | general-programming-knowledge/index.js:42 | `'listen'` is already normalised |
| Anagram.SilentIsNormal | general-programming-knowledge/index.js:42 | `'silent'` is already normalised |
| Anagram.ExampleCatDog | general-programming-knowledge/index.js:41 | `anagrams('cat', 'dog')` is `false` |
| Anagram.ExampleListenSilent | general-programming-knowledge/index.js:42 | `anagrams('listen', 'silent')` is `true` |

## Left out

- EvenSum.SumEvenNumbers: array elements are unbounded integers. JavaScript numbers are IEEE doubles, so fractional elements (never `% 2 === 0` unless whole), `NaN`, and precision loss beyond 2^53 are not modelled. Non-number elements are not modelled either: `true`, `false` and `null` are turned into numbers by `%` and `+` (`null % 2 === 0` and `0 + null === 0`), while a string or object passing the test is concatenated (`"2"` passes and makes the sum `"02"`).
- Anagram.ToLower: only `A`..`Z` are lower-cased. JavaScript's `toLowerCase` follows the full Unicode case mapping. That includes non-Latin letters and mappings that change the length (U+0130 becomes two code units). It also includes context-dependent mappings: a final capital sigma lowers to `ς` (U+03C2), not `σ`, so in JavaScript `anagrams('οσ', 'σο')` is true but `anagrams('ΟΣ', 'σο')` is false. The case lemmas (`IgnoresCase`, `NormalizeIgnoresCase`) hold for the A–Z mapping only.
- Anagram.Anagrams: a string is a sequence of Unicode scalar values. JavaScript strings are UTF-16 code units, so `length`, `split('')` and `sort()` treat a character outside the Basic Multilingual Plane as two surrogate halves. The model compares such a character as one unit, so the answer itself can differ: `"\u{1F000}\u{1F401}"` and `"\u{1F001}\u{1F400}"` have no case mapping and split into the same code units (D83C DC00 D83D DC01), so JavaScript calls them anagrams, while the model's character multisets differ and `Anagrams` is false.
- The `\s` class (`IsWhitespace`) is fixed to ECMAScript's WhiteSpace and LineTerminator code points as listed in the current Unicode space-separator category; it does not follow later Unicode versions.
- Arguments that are not strings (where `replace` would throw a TypeError) are not modelled.
- The console test lines (`general-programming-knowledge/index.js:38-42`) print to standard output; only their values are kept, as example lemmas.
- `document-qa-system/frontend/app/page.js`, `frontend/components/ChatInterface.js` and `frontend/components/DocumentList.js` hold React UI state, `fetch` calls and rendering. They are presentation and network I/O. The one list operation, the delete `filter`, is a one-line library call.
- `document-qa-system/backend/utils/r2.js` is an object-storage upload through an SDK with a random UUID key. It is a foreign network call and nondeterministic.
- `document-qa-system/backend/models/article.js`, `DocumentVectors.js` and `ArticleVectors.js` are database schema declarations with no behaviour of their own.
- `document-qa-system/backend/server.js` and `document-qa-system/backend/routes.js` are server bootstrap and routing. The `/add-data` handler is an empty stub.
- The `document-qa-system` backend has no chunking, embedding, similarity filtering or citation code among its files (`backend/server.js:15-18` is an empty handler), so there is nothing of that kind to model.

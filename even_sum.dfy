/** Model of `sumEvenNumbers` in general-programming-knowledge/index.js:
    an `Array.prototype.reduce` over the input with seed 0 whose callback adds
    the current element to the accumulator exactly when `num % 2 === 0`.
    Array elements are integers; JavaScript's `%` is written out as the
    truncating remainder it is. */
module EvenSum {

  /** JavaScript's `a % n` on integers: the remainder of division truncated
      toward zero, so it takes the sign of `a` (or is zero). */
  function JsRemainder(a: int, n: int): (r: int)
    requires n > 0
    ensures -n < r < n
    ensures Abs(r) == Abs(a) % n
    ensures r == 0 || (r < 0 <==> a < 0)
  {
    if a >= 0 then a % n else -((-a) % n)
  }

  function Abs(x: int): nat {
    if x < 0 then -x else x
  }

  /** The callback's test `num % 2 === 0` (JavaScript's `-0 === 0` holds, so a
      negative even number passes too). */
  predicate IsEven(x: int) {
    JsRemainder(x, 2) == 0
  }

  /** The truncating test agrees with Dafny's Euclidean one, negatives included. */
  lemma IsEvenIffEuclidean(x: int)
    ensures IsEven(x) <==> x % 2 == 0
  {
  }

  /** The reduce callback `(sum, num) => num % 2 === 0 ? sum + num : sum`. */
  function Step(sum: int, num: int): int {
    if IsEven(num) then sum + num else sum
  }

  /** `arr.reduce(Step, acc)`: a left fold that visits the elements in index
      order. Everything it adds is even, so it keeps the parity of its seed. */
  function FoldEven(acc: int, arr: seq<int>): (r: int)
    ensures (r - acc) % 2 == 0
    decreases arr
  {
    if arr == [] then acc
    else
      IsEvenIffEuclidean(arr[0]);
      FoldEven(Step(acc, arr[0]), arr[1..])
  }

  /** Reference definition: the even elements of `s`, each as often as it
      occurs there. */
  function Evens(s: seq<int>): (r: seq<int>)
    ensures |r| <= |s|
    ensures forall i :: 0 <= i < |r| ==> IsEven(r[i])
    ensures forall x :: multiset(r)[x] == if IsEven(x) then multiset(s)[x] else 0
  {
    if s == [] then []
    else
      assert s == [s[0]] + s[1..];
      if IsEven(s[0]) then [s[0]] + Evens(s[1..])
      else Evens(s[1..])
  }

  /** Reference definition: the plain sum of a sequence. */
  function Sum(s: seq<int>): int {
    if s == [] then 0 else s[0] + Sum(s[1..])
  }

  /** `sumEvenNumbers(arr)`: the reduce with seed 0. Its value is the sum of
      exactly the even elements, and so is itself even. */
  function SumEvenNumbers(arr: seq<int>): (r: int)
    ensures r == Sum(Evens(arr))
    ensures r % 2 == 0
  {
    FoldIsFilteredSum(0, arr);
    FoldEven(0, arr)
  }

  /** The fold from any seed adds the sum of the even elements to that seed. */
  lemma {:induction false} FoldIsFilteredSum(acc: int, arr: seq<int>)
    ensures FoldEven(acc, arr) == acc + Sum(Evens(arr))
    decreases arr
  {
    if arr != [] {
      FoldIsFilteredSum(Step(acc, arr[0]), arr[1..]);
    }
  }

  /** An empty array reduces to the seed 0. */
  lemma EmptyIsZero()
    ensures SumEvenNumbers([]) == 0
  {
  }

  /** Folding over `arr + [x]` is one more callback after folding over `arr`. */
  lemma {:induction false} FoldSnoc(acc: int, arr: seq<int>, x: int)
    ensures FoldEven(acc, arr + [x]) == Step(FoldEven(acc, arr), x)
    decreases arr
  {
    if arr != [] {
      assert (arr + [x])[0] == arr[0] && (arr + [x])[1..] == arr[1..] + [x];
      FoldSnoc(Step(acc, arr[0]), arr[1..], x);
    }
  }

  /** Appending an odd element changes nothing; appending an even element
      adds exactly that element. */
  lemma AppendElement(arr: seq<int>, x: int)
    ensures !IsEven(x) ==> SumEvenNumbers(arr + [x]) == SumEvenNumbers(arr)
    ensures IsEven(x) ==> SumEvenNumbers(arr + [x]) == SumEvenNumbers(arr) + x
  {
    FoldSnoc(0, arr, x);
  }

  /** The fold distributes over concatenation: the first part's result seeds
      the second part. */
  lemma {:induction false} FoldAppend(acc: int, a: seq<int>, b: seq<int>)
    ensures FoldEven(acc, a + b) == FoldEven(FoldEven(acc, a), b)
    decreases a
  {
    if a != [] {
      assert (a + b)[0] == a[0] && (a + b)[1..] == a[1..] + b;
      calc {
        FoldEven(acc, a + b);
        FoldEven(Step(acc, a[0]), a[1..] + b);
        { FoldAppend(Step(acc, a[0]), a[1..], b); }
        FoldEven(FoldEven(Step(acc, a[0]), a[1..]), b);
        FoldEven(FoldEven(acc, a), b);
      }
    } else {
      assert a + b == b;
    }
  }

  /** The sum over a concatenation is the sum of the sums. */
  lemma SumEvenAppend(a: seq<int>, b: seq<int>)
    ensures SumEvenNumbers(a + b) == SumEvenNumbers(a) + SumEvenNumbers(b)
  {
    FoldAppend(0, a, b);
    FoldIsFilteredSum(SumEvenNumbers(a), b);
  }

  /** The result does not depend on the order of the elements. */
  lemma {:induction false} SumEvenPermutation(a: seq<int>, b: seq<int>)
    requires multiset(a) == multiset(b)
    ensures SumEvenNumbers(a) == SumEvenNumbers(b)
    decreases |a|
  {
    if a != [] {
      var x := a[0];
      assert x in multiset(b);
      var k :| 0 <= k < |b| && b[k] == x;
      var rest := b[..k] + b[k + 1..];
      assert b == b[..k] + [x] + b[k + 1..];
      assert a == [x] + a[1..];
      assert multiset(b) == multiset(b[..k]) + multiset{x} + multiset(b[k + 1..]);
      assert multiset(rest) == multiset(b[..k]) + multiset(b[k + 1..]);
      assert multiset(a) == multiset{x} + multiset(a[1..]);
      assert multiset(a[1..]) == multiset(a) - multiset{x};
      assert multiset(rest) == multiset(b) - multiset{x};
      assert multiset(a[1..]) == multiset(rest);
      SumEvenPermutation(a[1..], rest);
      SumEvenAppend([x], a[1..]);
      SumEvenAppend(b[..k] + [x], b[k + 1..]);
      SumEvenAppend(b[..k], [x]);
      SumEvenAppend(b[..k], b[k + 1..]);
    }
  }

  /** `sumEvenNumbers([1, 2, 3, 4])` is 6. */
  lemma ExampleOneToFour()
    ensures SumEvenNumbers([1, 2, 3, 4]) == 6
  {
  }

  /** `sumEvenNumbers([2, 2, 4, 4])` is 12. */
  lemma ExampleAllEven()
    ensures SumEvenNumbers([2, 2, 4, 4]) == 12
  {
  }
}

/**
 * The coroutine tutorial. A `Generator<T>` is consumed by a range-for loop,
 * so what each coroutine means is the sequence of values it `co_yield`s:
 * finite generators are modelled by that sequence, the endless Fibonacci
 * generator by the prefix a consumer reads before it `break`s.
 */
module Generators {
  import opened Seqs
  import opened CppInt
  import Fibonacci

  /** `range(start, end)`: yields every integer from `start` up to, not including, `end`. */
  function Range(start: int, end: int): (r: seq<int>)
    ensures |r| == if start < end then end - start else 0
    ensures forall i :: 0 <= i < |r| ==> r[i] == start + i
    decreases end - start
  {
    if start < end then [start] + Range(start + 1, end) else []
  }

  /** Membership in a range is the half-open interval test. */
  lemma RangeContains(start: int, end: int, x: int)
    ensures x in Range(start, end) <==> start <= x < end
  {
    if start <= x < end {
      assert Range(start, end)[x - start] == x;
    }
  }

  /** The two demos: 0..9 and 5..14. */
  lemma RangeExamples()
    ensures Range(0, 10) == [0, 1, 2, 3, 4, 5, 6, 7, 8, 9]
    ensures Range(5, 15) == [5, 6, 7, 8, 9, 10, 11, 12, 13, 14]
  {
  }

  /**
   * The first `count` values of `fibonacci()`, read by a loop that breaks
   * after `count` of them; the generator's state is the pair `(a, b)`.
   */
  method FibonacciPrefix(count: nat) returns (fibs: seq<int>)
    ensures |fibs| == count
    ensures forall i :: 0 <= i < count ==> fibs[i] == Fibonacci.Fib(i)
  {
    var a, b := 0, 1;
    fibs := [];
    while |fibs| < count
      invariant |fibs| <= count
      invariant a == Fibonacci.Fib(|fibs|) && b == Fibonacci.Fib(|fibs| + 1)
      invariant forall i :: 0 <= i < |fibs| ==> fibs[i] == Fibonacci.Fib(i)
    {
      ghost var n := |fibs|;
      assert Fibonacci.Fib(n + 2) == a + b;
      fibs := fibs + [a];
      assert |fibs| == n + 1;
      var tmp := a;
      a := b;
      b := tmp + b;
    }
  }

  /** The vector the exercise compares the first ten values against. */
  lemma FirstTenFibonacci()
    ensures seq(10, i => Fibonacci.Fib(i)) == [0, 1, 1, 2, 3, 5, 8, 13, 21, 34]
  {
    Fibonacci.FibExamples();
    assert Fibonacci.Fib(2) == 1 && Fibonacci.Fib(3) == 2 && Fibonacci.Fib(4) == 3;
    assert Fibonacci.Fib(6) == 8 && Fibonacci.Fib(7) == 13 && Fibonacci.Fib(8) == 21;
  }

  /** C++ `i % 2 == 0` is evenness for negative `i` as well. */
  lemma RemTwo(i: int)
    ensures Rem(i, 2) == 0 <==> i % 2 == 0
  {
    QuotRem(i, 2);
    var q := Quot(i, 2);
    if Rem(i, 2) != 0 {
      assert i == 2 * q + 1 || i == 2 * q - 1;
      assert i % 2 == 1 by {
        if i == 2 * q + 1 {
          DivModUnique(i, 2, q, 1);
        } else {
          DivModUnique(i, 2, q - 1, 1);
        }
      }
    } else {
      DivModUnique(i, 2, q, 0);
    }
  }

  /** `even_numbers(start, end)`: the loop of `range` with an `if (i % 2 == 0)` filter. */
  function EvenNumbers(start: int, end: int): seq<int>
    decreases end - start
  {
    if start >= end then []
    else (if Rem(start, 2) == 0 then [start] else []) + EvenNumbers(start + 1, end)
  }

  /** One step of the filtering loop, with C++ `%` replaced by Dafny's. */
  lemma EvenStep(start: int, end: int)
    requires start < end
    ensures EvenNumbers(start, end) == (if start % 2 == 0 then [start] else []) + EvenNumbers(start + 1, end)
  {
    RemTwo(start);
  }

  /** The yielded values are exactly the even numbers of the range, in increasing order. */
  lemma {:induction false} EvenNumbersSpec(start: int, end: int)
    ensures forall x :: x in EvenNumbers(start, end) <==> start <= x < end && x % 2 == 0
    ensures forall i, j :: 0 <= i < j < |EvenNumbers(start, end)| ==> EvenNumbers(start, end)[i] < EvenNumbers(start, end)[j]
    decreases end - start
  {
    if start < end {
      EvenStep(start, end);
      EvenNumbersSpec(start + 1, end);
      var rest := EvenNumbers(start + 1, end);
      assert forall k :: 0 <= k < |rest| ==> rest[k] in rest;
    }
  }

  /** From an even start, the yielded values are `start, start + 2, ...` below `end`. */
  lemma {:induction false} EvenNumbersFromEven(start: int, end: int)
    requires start % 2 == 0
    ensures |EvenNumbers(start, end)| == if start < end then (end - start + 1) / 2 else 0
    ensures forall i :: 0 <= i < |EvenNumbers(start, end)| ==> EvenNumbers(start, end)[i] == start + 2 * i
    decreases end - start
  {
    if start < end {
      EvenStep(start, end);
      if start + 1 < end {
        assert (start + 1) % 2 == 1;
        EvenStep(start + 1, end);
        var rest := EvenNumbers(start + 2, end);
        assert EvenNumbers(start, end) == [start] + rest;
        EvenNumbersFromEven(start + 2, end);
      } else {
        assert EvenNumbers(start + 1, end) == [];
      }
    }
  }

  /** The first ten even numbers, listed. */
  lemma FirstTenEvens(r: seq<int>)
    requires |r| == 10 && forall i :: 0 <= i < |r| ==> r[i] == 0 + 2 * i
    ensures r == [0, 2, 4, 6, 8, 10, 12, 14, 16, 18]
  {
  }

  /**
   * The demo: the even numbers below 20. The bound is a parameter so that
   * the proof goes through `EvenNumbersFromEven` instead of unrolling the filter.
   */
  lemma EvenNumbersExample(end: int)
    requires end == 20
    ensures EvenNumbers(0, end) == [0, 2, 4, 6, 8, 10, 12, 14, 16, 18]
  {
    EvenNumbersFromEven(0, end);
    FirstTenEvens(EvenNumbers(0, end));
  }

  /** Primality by definition: at least 2, and no divisor strictly between 1 and `n`. */
  ghost predicate IsPrimeNumber(n: int) {
    n >= 2 && forall d :: 2 <= d < n ==> n % d != 0
  }

  /** A divisor at or above the square root has a partner divisor below it. */
  lemma PartnerDivisor(n: int, d: int, i: int)
    requires 2 <= d < n && n % d == 0 && i >= 2 && i * i > n && d >= i
    ensures 2 <= n / d < i && n % (n / d) == 0
  {
    var e := n / d;
    assert n == e * d;
    if e >= i {
      MulAtMost(i, e, d);
      MulAtMost(i, d, i);
    }
    DivModUnique(n, e, d, 0);
  }

  /**
   * The `is_prime` lambda: trial division by every `i` with `i * i <= n`,
   * which decides primality.
   */
  method IsPrime(n: int) returns (prime: bool)
    ensures prime <==> IsPrimeNumber(n)
  {
    if n < 2 {
      return false;
    }
    var i := 2;
    while i * i <= n
      invariant 2 <= i
      invariant forall d :: 2 <= d < i ==> n % d != 0
      decreases n - i
    {
      if n % i == 0 {
        assert i < n by {
          MulAtMost(2, i, i);
        }
        return false;
      }
      MulAtMost(2, i, i);
      i := i + 1;
    }
    forall d | 2 <= d < n
      ensures n % d != 0
    {
      if d >= i && n % d == 0 {
        PartnerDivisor(n, d, i);
      }
    }
    return true;
  }

  /** `prime_numbers(max)`: the primes from 2 to `max`, in increasing order. */
  method PrimeNumbers(max: int) returns (primes: seq<int>)
    ensures forall x :: x in primes <==> 2 <= x <= max && IsPrimeNumber(x)
    ensures forall i, j :: 0 <= i < j < |primes| ==> primes[i] < primes[j]
  {
    primes := [];
    var i := 2;
    while i <= max
      invariant 2 <= i <= Max(max + 1, 2)
      invariant forall x :: x in primes <==> 2 <= x < i && IsPrimeNumber(x)
      invariant forall k :: 0 <= k < |primes| ==> primes[k] < i
      invariant forall a, b :: 0 <= a < b < |primes| ==> primes[a] < primes[b]
    {
      var p := IsPrime(i);
      if p {
        primes := primes + [i];
      }
      i := i + 1;
    }
    assert max >= 2 ==> i == max + 1;
  }

  /** `countdown(from)`: `from`, `from - 1`, ..., 0; nothing for a negative `from`. */
  function Countdown(from: int): (r: seq<int>)
    ensures |r| == if from >= 0 then from + 1 else 0
    ensures forall i :: 0 <= i < |r| ==> r[i] == from - i
    decreases from + 1
  {
    if from < 0 then [] else [from] + Countdown(from - 1)
  }

  /** A countdown is a range read backwards. */
  lemma CountdownReversesRange(from: int)
    ensures Countdown(from) == Reverse(Range(0, from + 1))
  {
    var down, up := Countdown(from), Range(0, from + 1);
    assert |down| == |Reverse(up)|;
    forall i | 0 <= i < |down|
      ensures down[i] == Reverse(up)[i]
    {
      assert up[|up| - 1 - i] == |up| - 1 - i;
    }
  }

  lemma CountdownExample()
    ensures Countdown(10) == [10, 9, 8, 7, 6, 5, 4, 3, 2, 1, 0]
  {
  }

  /** An `AnimationFrame` without its `float` time stamp. */
  datatype AnimationFrame = AnimationFrame(frameNumber: int, action: string)

  /** `animation_sequence`: the six frames of the jump, numbered from 0. */
  function AnimationSequence(): (frames: seq<AnimationFrame>)
    ensures |frames| == 6
    ensures forall i :: 0 <= i < |frames| ==> frames[i].frameNumber == i
  {
    [AnimationFrame(0, "Start"), AnimationFrame(1, "Jump"), AnimationFrame(2, "Peak"),
     AnimationFrame(3, "Fall"), AnimationFrame(4, "Land"), AnimationFrame(5, "End")]
  }

  /** A `Task` of the frame-distribution demo. */
  datatype Task = Task(name: string, progress: int)

  /** `process_task_incremental`: progress 0, 10, ..., 100 under one name. */
  method ProcessTaskIncremental(taskName: string) returns (tasks: seq<Task>)
    ensures |tasks| == 11
    ensures forall i :: 0 <= i < |tasks| ==> tasks[i] == Task(taskName, 10 * i)
  {
    tasks := [];
    var progress := 0;
    while progress <= 100
      invariant progress == 10 * |tasks| && progress <= 110
      invariant forall i :: 0 <= i < |tasks| ==> tasks[i] == Task(taskName, 10 * i)
      decreases 110 - progress
    {
      tasks := tasks + [Task(taskName, progress)];
      progress := progress + 10;
    }
  }

  /** `double_values(gen)`: each yielded value times two, in order. */
  method DoubleValues(gen: seq<int>) returns (doubled: seq<int>)
    ensures doubled == Doubled(gen)
  {
    doubled := [];
    for i := 0 to |gen|
      invariant |doubled| == i
      invariant forall k :: 0 <= k < i ==> doubled[k] == 2 * gen[k]
    {
      doubled := doubled + [gen[i] * 2];
    }
  }

  lemma DoubleValuesExample()
    ensures Doubled(Range(1, 6)) == [2, 4, 6, 8, 10]
  {
  }

  /** A `LoadProgress` without its `float` percentage. */
  datatype LoadProgress = LoadProgress(resourceName: string, bytesLoaded: int, totalBytes: int)

  /**
   * `load_resource_async`: `loaded` starts at 0 and grows by
   * `total_bytes / 10` while it is at most `total_bytes`. Below 10 bytes
   * (and at least 0) the step is 0 and the loop never ends, so those sizes
   * are excluded; a negative size yields nothing.
   */
  method LoadResourceAsync(name: string, totalBytes: int) returns (steps: seq<LoadProgress>)
    requires totalBytes >= 10 || totalBytes < 0
    ensures totalBytes < 0 ==> steps == []
    ensures totalBytes >= 0 ==> |steps| > 0
    ensures forall i :: 0 <= i < |steps| ==>
      steps[i] == LoadProgress(name, i * Quot(totalBytes, 10), totalBytes) && steps[i].bytesLoaded <= totalBytes
    ensures totalBytes >= 0 ==> |steps| * Quot(totalBytes, 10) > totalBytes
  {
    var chunk := Quot(totalBytes, 10);
    if totalBytes >= 0 {
      assert chunk >= 1;
    }
    steps := [];
    var loaded := 0;
    while loaded <= totalBytes
      invariant loaded == |steps| * chunk
      invariant totalBytes < 0 ==> steps == []
      invariant forall i :: 0 <= i < |steps| ==>
        steps[i] == LoadProgress(name, i * chunk, totalBytes) && steps[i].bytesLoaded <= totalBytes
      decreases totalBytes + chunk - loaded
    {
      steps := steps + [LoadProgress(name, loaded, totalBytes)];
      loaded := loaded + chunk;
    }
  }
}

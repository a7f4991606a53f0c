/**
 * The if/switch-with-initializer tutorial: a memo cache consulted with
 * lookup declared in the `if` statement's initializer, and the classifiers
 * whose results the `switch` statements dispatch on.
 */
module IfInit {
  import opened Seqs
  import opened CppInt
  import Fibonacci

  /**
   * `expensive_calculation`: the square of its argument, the magnitude of
   * `x` added to itself that many times.
   */
  function ExpensiveCalculation(x: int): (r: int)
    ensures r == Sum(Copies(Abs(x), Abs(x)))
    ensures r >= 0
    ensures r == 0 <==> x == 0
    ensures x != 0 ==> r >= Abs(x)
  {
    SumCopies(Abs(x), Abs(x));
    x * x
  }

  /** The two ways a lookup can go. */
  datatype Outcome = Hit | Miss

  /** What a lookup reports and the cache it leaves behind. */
  datatype Lookup = Lookup(outcome: Outcome, value: int, cache: map<int, int>)

  /**
   * The find-then-compute block: a hit returns the stored value and changes
   * nothing; a miss computes `f(input)` and stores it under `input`.
   */
  function CachedCall(cache: map<int, int>, input: int, f: int -> int): (r: Lookup)
    ensures r.outcome == Hit <==> input in cache
    ensures r.outcome == Hit ==> r.cache == cache
    ensures r.outcome == Miss ==> r.value == f(input)
    ensures input in r.cache && r.cache[input] == r.value
    ensures r.cache.Keys == cache.Keys + {input}
    ensures forall k :: k in cache ==> k in r.cache && r.cache[k] == cache[k]
  {
    if input in cache then Lookup(Hit, cache[input], cache)
    else Lookup(Miss, f(input), cache[input := f(input)])
  }

  /** Every stored entry is the value `f` gives for its key. */
  ghost predicate Faithful(cache: map<int, int>, f: int -> int) {
    forall k :: k in cache ==> cache[k] == f(k)
  }

  /**
   * A faithful cache answers with `f(input)` either way and stays faithful,
   * so caching never changes what the caller sees.
   */
  lemma CachedCallFaithful(cache: map<int, int>, input: int, f: int -> int)
    requires Faithful(cache, f)
    ensures CachedCall(cache, input, f).value == f(input)
    ensures Faithful(CachedCall(cache, input, f).cache, f)
  {
  }

  /** Looking the same input up again hits, returns the same value and changes nothing. */
  lemma SecondLookupHits(cache: map<int, int>, input: int, f: int -> int)
    ensures var first := CachedCall(cache, input, f);
      var second := CachedCall(first.cache, input, f);
      second.outcome == Hit && second.value == first.value && second.cache == first.cache
  {
  }

  /**
   * `exercise_1_2_1`: squaring 5 with an empty cache misses and stores 25,
   * and the second call hits with 25.
   */
  lemma SquareCacheExample()
    ensures CachedCall(map[], 5, ExpensiveCalculation) == Lookup(Miss, 25, map[5 := 25])
    ensures CachedCall(map[5 := 25], 5, ExpensiveCalculation) == Lookup(Hit, 25, map[5 := 25])
  {
  }

  /** `cache_example`: `fibonacci(10)` misses, stores 55 and then hits. */
  lemma FibonacciCacheExample()
    ensures CachedCall(map[], 10, Fibonacci.Fib) == Lookup(Miss, 55, map[10 := 55])
    ensures CachedCall(map[10 := 55], 10, Fibonacci.Fib).outcome == Hit
  {
    Fibonacci.FibExamples();
  }

  datatype StringType = Empty | Short | Medium | Long {
    /** The declaration order of the enumerators. */
    function Rank(): nat {
      match this
      case Empty => 0
      case Short => 1
      case Medium => 2
      case Long => 3
    }
  }

  /** `classify_string`: by length, at most 5 is short and at most 20 medium. */
  function ClassifyString(s: string): (t: StringType)
    ensures t == Empty <==> |s| == 0
    ensures t == Long <==> |s| > 20
  {
    var len := |s|;
    if len == 0 then Empty
    else if len <= 5 then Short
    else if len <= 20 then Medium
    else Long
  }

  /** The thresholds a length is compared against, in increasing order. */
  const LengthBounds: seq<nat> := [0, 5, 20]

  /** How many of the thresholds a length exceeds. */
  function Exceeded(len: nat, bounds: seq<nat>): nat {
    if |bounds| == 0 then 0 else (if len > bounds[0] then 1 else 0) + Exceeded(len, bounds[1..])
  }

  /** The category's rank is the number of thresholds the length exceeds. */
  lemma ClassifyByThresholds(s: string)
    ensures ClassifyString(s).Rank() == Exceeded(|s|, LengthBounds)
  {
    var b := LengthBounds;
    var len := |s|;
    assert b[1..] == [5, 20] && b[1..][1..] == [20] && b[1..][1..][1..] == [];
    assert Exceeded(len, b[1..][1..][1..]) == 0;
    assert Exceeded(len, b[1..][1..]) == if len > 20 then 1 else 0;
    assert Exceeded(len, b[1..]) == (if len > 5 then 1 else 0) + (if len > 20 then 1 else 0);
  }

  /** A longer string is never put in an earlier category. */
  lemma ClassifyMonotone(a: string, b: string)
    requires |a| <= |b|
    ensures ClassifyString(a).Rank() <= ClassifyString(b).Rank()
  {
  }

  /** `bonus_exercise`: "Hello, World!" has 13 characters and is medium. */
  lemma ClassifyExample()
    ensures ClassifyString("Hello, World!") == Medium
  {
    assert |"Hello, World!"| == 13;
  }

  datatype Status = Ok | Warning | Error

  /** `check_status`: 0 is fine, anything else below 100 (negatives too) a warning. */
  function CheckStatus(code: int): (st: Status)
    ensures st == Ok <==> code == 0
    ensures st == Error <==> code >= 100
    ensures code < 0 ==> st == Warning
  {
    if code == 0 then Ok
    else if code < 100 then Warning
    else Error
  }

  /** The demo code 42 is a warning. */
  lemma CheckStatusExample()
    ensures CheckStatus(42) == Warning
    ensures CheckStatus(0) == Ok && CheckStatus(100) == Error
  {
  }
}

/**
 * The fold-expression tutorial. A parameter pack `args...` is a sequence
 * of arguments; each template is a fold of one operator over that
 * sequence, or a comma fold that repeats a statement once per argument, in
 * order.
 */
module Folds {
  import opened Seqs
  import StringView

  /** `(args + ...)`: `a + (b + (c + d))`. An empty pack does not compile. */
  function SumRight(args: seq<int>): int
    requires |args| > 0
  {
    if |args| == 1 then args[0] else args[0] + SumRight(args[1..])
  }

  /** `(... + args)`: `((a + b) + c) + d`. An empty pack does not compile. */
  function SumLeft(args: seq<int>): int
    requires |args| > 0
  {
    if |args| == 1 then args[0] else SumLeft(args[..|args| - 1]) + args[|args| - 1]
  }

  /** `(0 + ... + args)`: `((0 + a) + b) + c`, which is 0 for an empty pack. */
  function SumWithInit(args: seq<int>): int {
    if |args| == 0 then 0 else SumWithInit(args[..|args| - 1]) + args[|args| - 1]
  }

  /** The right fold adds up the arguments. */
  lemma {:induction false} SumRightIsSum(args: seq<int>)
    requires |args| > 0
    ensures SumRight(args) == Sum(args)
  {
    if |args| > 1 {
      SumRightIsSum(args[1..]);
    }
  }

  /** The left fold from 0 adds up the arguments. */
  lemma {:induction false} SumWithInitIsSum(args: seq<int>)
    ensures SumWithInit(args) == Sum(args)
  {
    if |args| > 0 {
      var init := args[..|args| - 1];
      SumWithInitIsSum(init);
      SumAppend(init, [args[|args| - 1]]);
      assert init + [args[|args| - 1]] == args;
    }
  }

  /** The left fold adds up the arguments, so both folds of `+` agree. */
  lemma {:induction false} SumLeftIsSum(args: seq<int>)
    requires |args| > 0
    ensures SumLeft(args) == Sum(args)
    ensures SumLeft(args) == SumRight(args) == SumWithInit(args)
  {
    if |args| > 1 {
      var init := args[..|args| - 1];
      SumLeftIsSum(init);
      SumAppend(init, [args[|args| - 1]]);
      assert init + [args[|args| - 1]] == args;
    } else {
      assert args[..0] == [];
    }
    SumRightIsSum(args);
    SumWithInitIsSum(args);
  }

  /** The demo sums of 1..5, and the empty `sum_with_init()`. */
  lemma SumExamples()
    ensures SumRight([1, 2, 3, 4, 5]) == 15
    ensures SumLeft([1, 2, 3, 4, 5]) == 15
    ensures SumWithInit([1, 2, 3, 4, 5]) == 15
    ensures SumWithInit([]) == 0
  {
    SumLeftIsSum([1, 2, 3, 4, 5]);
  }

  /** `(args * ...)`: the product, folded from the right. */
  function Multiply(args: seq<int>): int
    requires |args| > 0
  {
    if |args| == 1 then args[0] else args[0] * Multiply(args[1..])
  }

  /** Splitting the pack in two multiplies the partial products. */
  lemma {:induction false} MultiplyAppend(a: seq<int>, b: seq<int>)
    requires |a| > 0 && |b| > 0
    ensures Multiply(a + b) == Multiply(a) * Multiply(b)
  {
    if |a| == 1 {
      assert (a + b)[1..] == b;
    } else {
      assert (a + b)[1..] == a[1..] + b;
      MultiplyAppend(a[1..], b);
      assert a[0] * (Multiply(a[1..]) * Multiply(b)) == (a[0] * Multiply(a[1..])) * Multiply(b);
    }
  }

  /** A zero argument makes the product zero. */
  lemma {:induction false} MultiplyZero(args: seq<int>, i: nat)
    requires i < |args| && args[i] == 0
    ensures Multiply(args) == 0
  {
    if i > 0 {
      MultiplyZero(args[1..], i - 1);
    }
  }

  lemma MultiplyExample()
    ensures Multiply([2, 3, 4]) == 24
  {
  }

  /** `(args && ...)`: true for an empty pack. */
  function AllTrue(args: seq<bool>): bool {
    if |args| == 0 then true else args[0] && AllTrue(args[1..])
  }

  /** `(args || ...)`: false for an empty pack. */
  function AnyTrue(args: seq<bool>): bool {
    if |args| == 0 then false else args[0] || AnyTrue(args[1..])
  }

  /** The `&&` fold holds exactly when every argument does, the `||` fold when one does. */
  lemma {:induction false} AllAnyMeaning(args: seq<bool>)
    ensures AllTrue(args) <==> forall i :: 0 <= i < |args| ==> args[i]
    ensures AnyTrue(args) <==> exists i :: 0 <= i < |args| && args[i]
  {
    if |args| > 0 {
      AllAnyMeaning(args[1..]);
      assert forall i :: 1 <= i < |args| ==> args[i] == args[1..][i - 1];
    }
  }

  /** De Morgan for the two folds. */
  lemma AllAnyDual(args: seq<bool>, negated: seq<bool>)
    requires |negated| == |args| && forall i :: 0 <= i < |args| ==> negated[i] == !args[i]
    ensures AllTrue(args) == !AnyTrue(negated)
  {
    AllAnyMeaning(args);
    AllAnyMeaning(negated);
  }

  lemma AllAnyExamples()
    ensures AllTrue([true, true, true]) && !AllTrue([true, false, true])
    ensures AnyTrue([false, false, true]) && !AnyTrue([false, false, false])
  {
  }

  /** `concatenate`: `((result += args), ...)` appends each argument in turn. */
  method Concatenate(args: seq<string>) returns (result: string)
    ensures result == Flatten(args)
    ensures |result| == 0 <==> forall i :: 0 <= i < |args| ==> |args[i]| == 0
  {
    result := "";
    for i := 0 to |args|
      invariant result == Flatten(args[..i])
    {
      FlattenAppend(args[..i], [args[i]]);
      assert args[..i + 1] == args[..i] + [args[i]];
      result := result + args[i];
    }
    assert args[..|args|] == args;
    FlattenEmpty(args);
  }

  /** The concatenation is empty exactly when every piece is. */
  lemma {:induction false} FlattenEmpty(parts: seq<string>)
    ensures |Flatten(parts)| == 0 <==> forall i :: 0 <= i < |parts| ==> |parts[i]| == 0
  {
    if |parts| > 0 {
      FlattenEmpty(parts[1..]);
      assert forall i :: 1 <= i < |parts| ==> parts[i] == parts[1..][i - 1];
    }
  }

  /** Joining one more piece appends the separator and the piece. */
  lemma {:induction false} JoinExtend(parts: seq<string>, t: string, sep: char)
    requires |parts| > 0
    ensures StringView.Join(parts + [t], sep) == StringView.Join(parts, sep) + [sep] + t
  {
    if |parts| == 1 {
      assert parts + [t] == [parts[0], t];
      assert [parts[0], t][1..] == [t];
    } else {
      assert (parts + [t])[1..] == parts[1..] + [t];
      JoinExtend(parts[1..], t, sep);
    }
  }

  /**
   * `join_with_space`: a lambda with a `first` flag puts a space before
   * every argument but the first, which is joining the arguments with ' '.
   */
  method JoinWithSpace(args: seq<string>) returns (result: string)
    ensures result == StringView.Join(args, ' ')
  {
    result := "";
    var first := true;
    for i := 0 to |args|
      invariant first <==> i == 0
      invariant i == 0 ==> result == ""
      invariant i > 0 ==> result == StringView.Join(args[..i], ' ')
    {
      if !first {
        JoinExtend(args[..i], args[i], ' ');
        assert args[..i + 1] == args[..i] + [args[i]];
        result := result + " ";
      } else {
        assert args[..1] == [args[i]];
      }
      result := result + args[i];
      first := false;
    }
    assert args[..|args|] == args;
  }

  /** The demo strings: "Hello World!" and "C++17 Fold Expressions". */
  lemma StringExamples()
    ensures Flatten(["Hello", " ", "World", "!"]) == "Hello World!"
    ensures StringView.Join(["C++17", "Fold", "Expressions"], ' ') == "C++17 Fold Expressions"
  {
    var words := ["C++17", "Fold", "Expressions"];
    assert words[1..] == ["Fold", "Expressions"] && words[1..][1..] == ["Expressions"];
    var pieces := ["Hello", " ", "World", "!"];
    assert pieces[1..] == [" ", "World", "!"] && pieces[1..][1..] == ["World", "!"];
    assert pieces[1..][1..][1..] == ["!"];
  }

  /** `push_back_all` and `append_all`: `(container.push_back(args), ...)`. */
  method PushBackAll<T>(container: seq<T>, args: seq<T>) returns (result: seq<T>)
    ensures |result| == |container| + |args|
    ensures result[..|container|] == container
    ensures forall i :: 0 <= i < |args| ==> result[|container| + i] == args[i]
  {
    result := container;
    for i := 0 to |args|
      invariant result == container + args[..i]
    {
      assert args[..i + 1] == args[..i] + [args[i]];
      result := result + [args[i]];
    }
  }

  /** `all_match` and `all_predicates`: `(predicates(value) && ...)`. */
  function AllMatch<T>(value: T, predicates: seq<T -> bool>): bool {
    if |predicates| == 0 then true else predicates[0](value) && AllMatch(value, predicates[1..])
  }

  /** `any_match`: `(predicates(value) || ...)`. */
  function AnyMatch<T>(value: T, predicates: seq<T -> bool>): bool {
    if |predicates| == 0 then false else predicates[0](value) || AnyMatch(value, predicates[1..])
  }

  /** Each predicate fold is the matching boolean fold over the predicates' answers. */
  lemma {:induction false} MatchIsFold<T>(value: T, predicates: seq<T -> bool>, answers: seq<bool>)
    requires |answers| == |predicates|
    requires forall i :: 0 <= i < |predicates| ==> answers[i] == predicates[i](value)
    ensures AllMatch(value, predicates) == AllTrue(answers)
    ensures AnyMatch(value, predicates) == AnyTrue(answers)
  {
    if |predicates| > 0 {
      MatchIsFold(value, predicates[1..], answers[1..]);
    }
  }

  /** A value matches them all exactly when no predicate rejects it. */
  lemma {:induction false} AllMatchMeaning<T>(value: T, predicates: seq<T -> bool>)
    ensures AllMatch(value, predicates) <==> forall i :: 0 <= i < |predicates| ==> predicates[i](value)
    ensures AnyMatch(value, predicates) <==> exists i :: 0 <= i < |predicates| && predicates[i](value)
  {
    if |predicates| > 0 {
      AllMatchMeaning(value, predicates[1..]);
      assert forall i :: 1 <= i < |predicates| ==> predicates[i] == predicates[1..][i - 1];
    }
  }

  function IsPositive(x: int): bool { x > 0 }
  function IsEven(x: int): bool { x % 2 == 0 }
  function IsSmall(x: int): bool { x < 100 }

  /** The demos: 42 passes all three tests, -10 is not positive, 101 is not small. */
  lemma MatchExamples()
    ensures AllMatch(42, [IsPositive, IsEven, IsSmall])
    ensures AnyMatch(42, [IsPositive, IsSmall])
    ensures !AllMatch(-10, [IsPositive, IsEven, IsSmall])
    ensures !AllMatch(101, [IsPositive, IsSmall])
  {
    var three: seq<int -> bool> := [IsPositive, IsEven, IsSmall];
    assert three[1..] == [IsEven, IsSmall] && three[1..][1..] == [IsSmall];
    assert AllMatch(42, three[1..][1..]);
    assert AllMatch(42, three[1..]);
    var two: seq<int -> bool> := [IsPositive, IsSmall];
    assert two[1..] == [IsSmall];
  }

  /** `all_equal(first, args...)`: `((first == args) && ...)`. */
  function AllEqual(first: int, args: seq<int>): bool {
    if |args| == 0 then true else first == args[0] && AllEqual(first, args[1..])
  }

  lemma {:induction false} AllEqualMeaning(first: int, args: seq<int>)
    ensures AllEqual(first, args) <==> forall i :: 0 <= i < |args| ==> args[i] == first
  {
    if |args| > 0 {
      AllEqualMeaning(first, args[1..]);
      assert forall i :: 1 <= i < |args| ==> args[i] == args[1..][i - 1];
    }
  }

  lemma AllEqualExamples()
    ensures AllEqual(5, [5, 5, 5])
    ensures !AllEqual(5, [5, 6, 5])
  {
  }

  /**
   * `is_sorted(first, rest...)` as written: `((first < rest) && ...)`
   * compares only the first argument with each later one.
   */
  function FirstBelowRest(first: int, rest: seq<int>): bool {
    if |rest| == 0 then true else first < rest[0] && FirstBelowRest(first, rest[1..])
  }

  lemma {:induction false} FirstBelowRestMeaning(first: int, rest: seq<int>)
    ensures FirstBelowRest(first, rest) <==> forall i :: 0 <= i < |rest| ==> first < rest[i]
  {
    if |rest| > 0 {
      FirstBelowRestMeaning(first, rest[1..]);
      assert forall i :: 1 <= i < |rest| ==> rest[i] == rest[1..][i - 1];
    }
  }

  /** Strictly ascending: every argument is below every later one. */
  ghost predicate Ascending(s: seq<int>) {
    forall i, j :: 0 <= i < j < |s| ==> s[i] < s[j]
  }

  /** The as-written fold accepts `1, 3, 2, 4, 5`, which is not in ascending order. */
  lemma IsSortedAsWrittenAcceptsUnsorted()
    ensures FirstBelowRest(1, [3, 2, 4, 5])
    ensures !Ascending([1, 3, 2, 4, 5])
  {
    var s := [1, 3, 2, 4, 5];
    assert s[1] > s[2];
  }

  /**
   * The evidently intended `is_sorted`: each argument is below the next
   * one, `first < r0 && r0 < r1 && ...`.
   */
  function IsSorted(first: int, rest: seq<int>): bool
    decreases |rest|
  {
    if |rest| == 0 then true else first < rest[0] && IsSorted(rest[0], rest[1..])
  }

  /** The corrected check holds exactly when the arguments ascend strictly. */
  lemma {:induction false} IsSortedMeaning(first: int, rest: seq<int>)
    ensures IsSorted(first, rest) <==> Ascending([first] + rest)
    decreases |rest|
  {
    var s := [first] + rest;
    if |rest| > 0 {
      IsSortedMeaning(rest[0], rest[1..]);
      assert [rest[0]] + rest[1..] == rest;
      assert forall i :: 1 <= i < |s| ==> s[i] == rest[i - 1];
      if IsSorted(first, rest) {
        forall i, j | 0 <= i < j < |s| ensures s[i] < s[j] {
          if i == 0 && j > 1 {
            assert rest[0] < rest[j - 1];
          }
        }
      }
      if Ascending(s) {
        assert s[0] < s[1];
        assert Ascending(rest) by {
          forall i, j | 0 <= i < j < |rest| ensures rest[i] < rest[j] {
            assert s[i + 1] < s[j + 1];
          }
        }
      }
    }
  }

  /** The corrected check implies the as-written one and rejects the counterexample. */
  lemma IsSortedStrengthensAsWritten(first: int, rest: seq<int>)
    ensures IsSorted(first, rest) ==> FirstBelowRest(first, rest)
    ensures IsSorted(1, [2, 3, 4, 5]) && !IsSorted(1, [3, 2, 4, 5])
  {
    IsSortedMeaning(first, rest);
    FirstBelowRestMeaning(first, rest);
    if IsSorted(first, rest) {
      var s := [first] + rest;
      forall i | 0 <= i < |rest| ensures first < rest[i] {
        assert s[0] < s[i + 1];
      }
    }
  }
}

/**
 * The attributes tutorial's runtime behaviour: the functions whose results
 * `[[nodiscard]]` protects, and the `switch` statements whose cases
 * `[[fallthrough]]` chains. A `switch` is modelled by a small interpreter
 * over its case list, and each printed phrase is one string of the output.
 */
module Attributes {
  import opened Wrappers
  import opened Seqs

  /** `Result` of the exercise. */
  datatype Result = Success | Error

  /** `process_data`: only a negative value is an error. */
  function ProcessData(value: int): (r: Result)
    ensures r == Error <==> value < 0
    ensures r == Result.Success <==> value >= 0
  {
    if value < 0 then Error else Result.Success
  }

  datatype ErrorCode = Success | FileNotFound | PermissionDenied | InvalidArgument

  /**
   * `open_file`: an empty name is rejected first, the one name assumed
   * missing is not found, and every other name opens.
   */
  function OpenFile(filename: string): (r: ErrorCode)
    ensures r != PermissionDenied
    ensures r == InvalidArgument <==> |filename| == 0
    ensures r == FileNotFound <==> filename == "nonexistent.txt"
    ensures r == ErrorCode.Success <==> |filename| > 0 && filename != "nonexistent.txt"
  {
    if |filename| == 0 then InvalidArgument
    else if filename == "nonexistent.txt" then FileNotFound
    else ErrorCode.Success
  }

  lemma OpenFileExamples()
    ensures OpenFile("test.txt") == ErrorCode.Success
    ensures OpenFile("nonexistent.txt") == FileNotFound
    ensures OpenFile("") == InvalidArgument
  {
  }

  /** A `case` label, what its body prints, and whether the body ends in `break`. */
  datatype Case<L> = Case(tag: L, text: string, breaks: bool)

  /** The index of the first case carrying `key`. */
  function FindCase<L(==)>(cases: seq<Case<L>>, key: L): Option<nat>
  {
    if |cases| == 0 then None
    else if cases[0].tag == key then Some(0)
    else match FindCase(cases[1..], key)
      case None => None
      case Some(i) => Some(i + 1)
  }

  /** `FindCase` finds the first case with the key, and fails only when no case has it. */
  lemma {:induction false} FindCaseSpec<L>(cases: seq<Case<L>>, key: L)
    ensures FindCase(cases, key).Some? ==> FindCase(cases, key).value < |cases|
    ensures FindCase(cases, key).Some? ==> cases[FindCase(cases, key).value].tag == key
    ensures FindCase(cases, key).Some? ==> forall k :: 0 <= k < FindCase(cases, key).value ==> cases[k].tag != key
    ensures FindCase(cases, key).None? <==> forall k :: 0 <= k < |cases| ==> cases[k].tag != key
  {
    if |cases| > 0 && cases[0].tag != key {
      FindCaseSpec(cases[1..], key);
      assert forall k :: 1 <= k < |cases| ==> cases[k] == cases[1..][k - 1];
    }
  }

  /** Running the bodies from case `i` on, falling through until a `break`. */
  function RunFrom<L>(cases: seq<Case<L>>, i: nat): seq<string>
    decreases |cases| - i
  {
    if i >= |cases| then []
    else [cases[i].text] + (if cases[i].breaks then [] else RunFrom(cases, i + 1))
  }

  /**
   * What a run from case `i` prints: the texts of consecutive cases from
   * `i`, none of them breaking except possibly the last, which breaks or
   * is the last case of the `switch`.
   */
  lemma {:induction false} RunFromSpec<L>(cases: seq<Case<L>>, i: nat)
    ensures i < |cases| <==> |RunFrom(cases, i)| > 0
    ensures i + |RunFrom(cases, i)| <= |cases| || RunFrom(cases, i) == []
    ensures forall k :: 0 <= k < |RunFrom(cases, i)| ==> i + k < |cases| && RunFrom(cases, i)[k] == cases[i + k].text
    ensures forall j :: i <= j < i + |RunFrom(cases, i)| - 1 ==> !cases[j].breaks
    ensures |RunFrom(cases, i)| > 0 ==> cases[i + |RunFrom(cases, i)| - 1].breaks || i + |RunFrom(cases, i)| == |cases|
    decreases |cases| - i
  {
    if i < |cases| && !cases[i].breaks {
      var rest := RunFrom(cases, i + 1);
      RunFromSpec(cases, i + 1);
      assert RunFrom(cases, i) == [cases[i].text] + rest;
      assert forall k :: 1 <= k <= |rest| ==> RunFrom(cases, i)[k] == rest[k - 1];
    }
  }

  /**
   * A `switch` with a `default` that prints one phrase and breaks. The
   * `default` is modelled as a fallback taken only when no case matches, so
   * a last case without `break` ends the run rather than falling into a
   * `default` written after it; every `switch` modelled here breaks in its
   * last case, where the two readings agree.
   */
  function Switch<L(==)>(cases: seq<Case<L>>, fallback: string, key: L): seq<string>
  {
    match FindCase(cases, key)
    case None => [fallback]
    case Some(i) => RunFrom(cases, i)
  }

  /**
   * A `switch` prints something: the run from the first matching case, or
   * the `default` phrase exactly when no case matches.
   */
  lemma SwitchSpec<L>(cases: seq<Case<L>>, fallback: string, key: L)
    ensures |Switch(cases, fallback, key)| > 0
    ensures (forall k :: 0 <= k < |cases| ==> cases[k].tag != key) ==> Switch(cases, fallback, key) == [fallback]
    ensures forall i :: 0 <= i < |cases| && cases[i].tag == key && (forall k :: 0 <= k < i ==> cases[k].tag != key) ==>
      Switch(cases, fallback, key) == RunFrom(cases, i)
  {
    FindCaseSpec(cases, key);
    if FindCase(cases, key).Some? {
      RunFromSpec(cases, FindCase(cases, key).value);
    }
  }

  /**
   * Falling through: a case without `break` prints its phrase and then
   * exactly what the next case prints.
   */
  lemma FallThroughChains<L>(cases: seq<Case<L>>, i: nat)
    requires i < |cases| && !cases[i].breaks
    ensures RunFrom(cases, i) == [cases[i].text] + RunFrom(cases, i + 1)
  {
  }

  /** A case that breaks prints its own phrase only. */
  lemma BreakStops<L>(cases: seq<Case<L>>, i: nat)
    requires i < |cases| && cases[i].breaks
    ensures RunFrom(cases, i) == [cases[i].text]
  {
  }

  /** The `switch` of `process_grade`. */
  const GradeCases: seq<Case<char>> := [
    Case('A', "優秀、", false),
    Case('B', "良好、", false),
    Case('C', "合格", true),
    Case('D', "不合格", true)
  ]

  /** `process_grade`: the phrases printed after the "成績 <grade>: " prefix. */
  function ProcessGrade(grade: char): (out: seq<string>)
    ensures grade == 'A' ==> out == ["優秀、", "良好、", "合格"]
    ensures grade == 'B' ==> out == ["良好、", "合格"]
    ensures grade == 'C' ==> out == ["合格"]
    ensures grade == 'D' ==> out == ["不合格"]
    ensures grade !in "ABCD" ==> out == ["不明な成績"]
  {
    Switch(GradeCases, "不明な成績", grade)
  }

  /** Each better grade prints its own praise and then everything the next grade prints. */
  lemma GradesFallThrough()
    ensures ProcessGrade('A') == ["優秀、"] + ProcessGrade('B')
    ensures ProcessGrade('B') == ["良好、"] + ProcessGrade('C')
  {
  }

  /** The `switch` of `process_number`. */
  const NumberCases: seq<Case<int>> := [
    Case(1, "1は素数、", false),
    Case(2, "小さい数、", false),
    Case(3, "3以下", true),
    Case(4, "4は偶数", false),
    Case(5, "、5以下", true)
  ]

  /** The case of `value` is at index `value - 1`, and values outside 1..5 reach `default`. */
  lemma NumberCaseFound(value: int)
    ensures FindCase(NumberCases, value) == if 1 <= value <= 5 then Some(value - 1) else None
  {
    assert forall k :: 0 <= k < |NumberCases| ==> NumberCases[k].tag == k + 1;
  }

  /** `process_number`: the phrases printed after the "数値 <value> を処理: " prefix. */
  function ProcessNumber(value: int): (out: seq<string>)
    ensures value == 1 ==> out == ["1は素数、", "小さい数、", "3以下"]
    ensures value == 2 ==> out == ["小さい数、", "3以下"]
    ensures value == 3 ==> out == ["3以下"]
    ensures value == 4 ==> out == ["4は偶数", "、5以下"]
    ensures value == 5 ==> out == ["、5以下"]
    ensures (value < 1 || value > 5) ==> out == ["その他"]
  {
    var cs := NumberCases;
    NumberCaseFound(value);
    assert RunFrom(cs, 4) == ["、5以下"];
    assert RunFrom(cs, 3) == ["4は偶数"] + RunFrom(cs, 4);
    assert RunFrom(cs, 2) == ["3以下"];
    assert RunFrom(cs, 1) == ["小さい数、"] + RunFrom(cs, 2);
    assert RunFrom(cs, 0) == ["1は素数、"] + RunFrom(cs, 1);
    Switch(cs, "その他", value)
  }

  /** Printing two phrases one after another. */
  lemma FlattenTwo<T>(a: seq<T>, b: seq<T>)
    ensures Flatten([a, b]) == a + b
  {
    assert [a, b][1..] == [b];
    assert [b][1..] == [];
    assert Flatten([b]) == b + Flatten([]);
    assert b + [] == b;
  }

  /** Printing three phrases one after another. */
  lemma FlattenThree<T>(a: seq<T>, b: seq<T>, c: seq<T>)
    ensures Flatten([a, b, c]) == a + b + c
  {
    assert [a, b, c][1..] == [b, c];
    FlattenTwo(b, c);
  }

  /** The lines `process_number(1)` and `process_number(4)` print after their prefixes. */
  lemma ProcessNumberLine()
    ensures Flatten(ProcessNumber(1)) == "1は素数、小さい数、3以下"
    ensures Flatten(ProcessNumber(4)) == "4は偶数、5以下"
  {
    FlattenThree("1は素数、", "小さい数、", "3以下");
    FlattenTwo("4は偶数", "、5以下");
  }
}

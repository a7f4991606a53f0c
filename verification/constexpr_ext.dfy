/**
 * The C++20 constexpr tutorial: compile-time tables (damage and
 * multiplication), the FNV-1a-style hash over signed `char`s used
 * as `switch` labels, a palindrome check over `std::string_view`, and
 * small `consteval` helpers.
 * The recursive `fibonacci` it also defines is `Fibonacci.Fib`.
 */
module ConstexprExt {
  import opened Seqs
  import opened CppInt
  import Fibonacci

  /**
   * `square_consteval` and `square_constexpr`, which share one body: the
   * magnitude of `x` added to itself that many times.
   */
  function Square(x: int): (r: int)
    ensures r == Sum(Copies(Abs(x), Abs(x)))
    ensures r >= 0
    ensures x != 0 ==> r >= Abs(x)
  {
    SumCopies(Abs(x), Abs(x));
    x * x
  }

  /** `square_consteval(5)` and `square_constexpr(5)` in the demo. */
  lemma SquareExample(x: int)
    ensures Square(5) == 25
    ensures Square(-x) == Square(x)
  {
  }

  /** `sum_vector`: a running total over the vector `{1, 2, 3, 4, 5}`. */
  method SumVector() returns (sum: int)
    ensures sum == Sum([1, 2, 3, 4, 5])
    ensures sum == 15
  {
    var v := [1, 2, 3, 4, 5];
    sum := 0;
    for i := 0 to |v|
      invariant sum == Sum(v[..i])
    {
      SumAppend(v[..i], [v[i]]);
      assert v[..i + 1] == v[..i] + [v[i]];
      sum := sum + v[i];
    }
    assert v[..|v|] == v;
  }

  /** The number of levels both damage tables cover. */
  const Levels: nat := 100

  /** Damage at `level` in the exercise's table: base 20, growth 3, plus level^2 / 10. */
  function CurvedDamage(level: int): int {
    20 + level * 3 + (level * level) / 10
  }

  /** Damage at `level` in the walkthrough's table: base 10 plus 5 per level. */
  function LinearDamage(level: int): int {
    10 + level * 5
  }

  /** `generate_damage_table` of the exercise, filled for levels 0..99. */
  const CurvedTable: seq<int> := Tabulate(Levels, CurvedDamage)

  /** `generate_damage_table` of the walkthrough, filled for levels 0..99. */
  const LinearTable: seq<int> := Tabulate(Levels, LinearDamage)

  /** `get_damage`: 0 outside the table, the table entry inside it. */
  function GetDamage(table: seq<int>, level: int): (d: int)
    requires |table| == Levels
  {
    if level < 0 || level >= Levels then 0 else table[level]
  }

  /** The exercise's lookup gives the curve inside 0..99 and 0 outside. */
  lemma CurvedLookup(level: int)
    ensures 0 <= level < Levels ==> GetDamage(CurvedTable, level) == CurvedDamage(level)
    ensures !(0 <= level < Levels) ==> GetDamage(CurvedTable, level) == 0
  {
  }

  /** The walkthrough's lookup gives the line inside 0..99 and 0 outside. */
  lemma LinearLookup(level: int)
    ensures 0 <= level < Levels ==> GetDamage(LinearTable, level) == LinearDamage(level)
    ensures !(0 <= level < Levels) ==> GetDamage(LinearTable, level) == 0
  {
  }

  /** A higher level never deals less damage inside the table. */
  lemma DamageMonotone(a: int, b: int)
    requires 0 <= a <= b < Levels
    ensures GetDamage(CurvedTable, a) <= GetDamage(CurvedTable, b)
    ensures GetDamage(LinearTable, a) < GetDamage(LinearTable, b) || a == b
  {
    assert a * a <= b * b by {
      assert a * a <= a * b <= b * b;
    }
    assert (a * a) / 10 <= (b * b) / 10;
  }

  /** The levels the exercise's demo prints. */
  lemma CurvedExamples()
    ensures GetDamage(CurvedTable, 1) == 23 && GetDamage(CurvedTable, 10) == 60
    ensures GetDamage(CurvedTable, 25) == 157 && GetDamage(CurvedTable, 50) == 420
    ensures GetDamage(CurvedTable, 99) == 1297
  {
    CurvedLookup(1);
    CurvedLookup(10);
    CurvedLookup(25);
    CurvedLookup(50);
    CurvedLookup(99);
  }

  /** The levels the walkthrough's demo prints. */
  lemma LinearExamples()
    ensures GetDamage(LinearTable, 1) == 15 && GetDamage(LinearTable, 10) == 60
    ensures GetDamage(LinearTable, 25) == 135 && GetDamage(LinearTable, 50) == 260
    ensures GetDamage(LinearTable, 99) == 505
  {
    LinearLookup(1);
    LinearLookup(10);
    LinearLookup(25);
    LinearLookup(50);
    LinearLookup(99);
  }

  /** `generate_multiplication_table`: row `i`, column `j` holds `(i + 1) * (j + 1)`. */
  function Product(i: int, j: int): int {
    (i + 1) * (j + 1)
  }

  function MultiplicationRow(i: int): (row: seq<int>)
    ensures |row| == 10
    ensures forall j :: 0 <= j < 10 ==> row[j] == Product(i, j)
  {
    Tabulate(10, j => Product(i, j))
  }

  const MultiplicationTable: seq<seq<int>> := Tabulate(10, i => MultiplicationRow(i))

  /** The table is 10 by 10, holds the products and is symmetric. */
  lemma MultiplicationTableFacts(i: int, j: int)
    requires 0 <= i < 10 && 0 <= j < 10
    ensures |MultiplicationTable| == 10 && |MultiplicationTable[i]| == 10
    ensures MultiplicationTable[i][j] == (i + 1) * (j + 1)
    ensures MultiplicationTable[i][j] == MultiplicationTable[j][i]
  {
    assert |MultiplicationTable| == 10;
    assert MultiplicationTable[i] == MultiplicationRow(i);
    assert MultiplicationTable[j] == MultiplicationRow(j);
    assert MultiplicationRow(i)[j] == Product(i, j);
    assert MultiplicationRow(j)[i] == Product(j, i);
    assert Product(i, j) == Product(j, i);
  }

  /** FNV-1a 32-bit parameters; `unsigned int` arithmetic wraps modulo 2^32. */
  const OffsetBasis: bv32 := 2166136261
  const FnvPrime: bv32 := 16777619

  /** The 8 bits a `char` stores: the low byte of the character code. */
  function CharOctet(c: char): bv8 {
    ((c as bv32) & 0xFF) as bv8
  }

  /** The value of a signed 8-bit `char` holding the bits `o`, in two's complement. */
  function SignedValue(o: bv8): int {
    if o < 128 then o as int else o as int - 256
  }

  /**
   * The unsigned 32-bit word a character enters the hash as, on a platform
   * where `char` is signed: a stored byte of 128 or more is sign-extended.
   */
  function CharWord(c: char): bv32 {
    SignExtend(CharOctet(c))
  }

  /** Sign extension of a byte to 32 bits: a byte of 128 or more gets its upper 24 bits set. */
  function SignExtend(o: bv8): bv32 {
    var b := o as bv32;
    if b < 128 then b else b | 0xFFFF_FF00
  }

  /**
   * Converting a signed `char` to `unsigned int` takes its value modulo
   * 2^32, so a negative `char` becomes 2^32 plus its value: that is what
   * sign extension computes.
   */
  lemma SignExtendValue(o: bv8)
    ensures SignExtend(o) as int == SignedValue(o) % 0x1_0000_0000
  {
    ZeroExtend(o);
    if o >= 128 {
      SetHighBits(o as bv32);
    }
  }

  /** Widening a byte to 32 bits keeps its value. */
  lemma ZeroExtend(o: bv8)
    ensures (o as bv32) as int == o as int
    ensures (o as bv32 < 128) == (o < 128)
  {
  }

  /** Setting the upper 24 bits of a byte adds 0xFFFFFF00. */
  lemma SetHighBits(b: bv32)
    requires 128 <= b < 256
    ensures (b | 0xFFFF_FF00) as int == b as int + 0xFFFF_FF00
  {
    assert b | 0xFFFF_FF00 == b + 0xFFFF_FF00;
  }

  /** One FNV-1a round on a 32-bit word: xor it in, then multiply by the prime modulo 2^32. */
  function Round(hash: bv32, word: bv32): bv32 {
    (hash ^ word) * FnvPrime
  }

  /** One pass of the loop body of `hash_string` on character `c`. */
  function FnvStep(hash: bv32, c: char): bv32 {
    Round(hash, CharWord(c))
  }

  /** The hashing loop, consuming characters until it reaches a NUL. */
  function HashFrom(hash: bv32, s: string): bv32
    decreases |s|
  {
    if |s| == 0 || s[0] == '\0' then hash else HashFrom(FnvStep(hash, s[0]), s[1..])
  }

  /** `hash_string`: the loop started from the offset basis. */
  function HashString(s: string): bv32 {
    HashFrom(OffsetBasis, s)
  }

  /**
   * 32-bit FNV-1a over octets, as the FNV reference defines it: from the
   * offset basis, each octet is xor-ed into the hash, which is then
   * multiplied by the FNV prime modulo 2^32.
   */
  function Fnv1a(octets: seq<bv8>): bv32 {
    if |octets| == 0 then OffsetBasis
    else OctetStep(Fnv1a(octets[..|octets| - 1]), octets[|octets| - 1])
  }

  /** One FNV-1a round on an octet. */
  function OctetStep(hash: bv32, octet: bv8): bv32 {
    Round(hash, octet as bv32)
  }

  /** The octets a string's `char`s store. */
  function Octets(s: string): (octets: seq<bv8>)
    ensures |octets| == |s|
    ensures forall i :: 0 <= i < |s| ==> octets[i] == CharOctet(s[i])
  {
    seq(|s|, i requires 0 <= i < |s| => CharOctet(s[i]))
  }

  lemma {:induction false} HashFromSnoc(hash: bv32, s: string, c: char)
    requires '\0' !in s && c != '\0'
    ensures HashFrom(hash, s + [c]) == FnvStep(HashFrom(hash, s), c)
    decreases |s|
  {
    if |s| > 0 {
      assert (s + [c])[1..] == s[1..] + [c];
      HashFromSnoc(FnvStep(hash, s[0]), s[1..], c);
    }
  }

  /** A character whose stored byte is below 128 enters the hash as that octet. */
  lemma AsciiRound(hash: bv32, c: char)
    requires CharOctet(c) < 128
    ensures FnvStep(hash, c) == OctetStep(hash, CharOctet(c))
  {
    assert CharWord(c) == CharOctet(c) as bv32;
  }

  /**
   * On a NUL-free string whose stored bytes are all below 128 (no `char`
   * is negative), `hash_string` is 32-bit FNV-1a of the string's octets.
   */
  lemma {:induction false} HashStringIsFnv1a(s: string)
    requires '\0' !in s
    requires forall i :: 0 <= i < |s| ==> CharOctet(s[i]) < 128
    ensures HashString(s) == Fnv1a(Octets(s))
  {
    if |s| > 0 {
      var init := s[..|s| - 1];
      var c := s[|s| - 1];
      assert s == init + [c];
      var octets := Octets(s);
      assert octets[..|s| - 1] == Octets(init);
      assert octets[|s| - 1] == CharOctet(c);
      assert Fnv1a(octets) == OctetStep(Fnv1a(Octets(init)), CharOctet(c));
      HashStringIsFnv1a(init);
      HashFromSnoc(OffsetBasis, init, c);
      AsciiRound(HashString(init), c);
    }
  }

  /**
   * Where `char` is signed, a byte of 128 or more is sign-extended before
   * the xor, so for it `hash_string` departs from octet FNV-1a: "\xE9"
   * hashes differently.
   */
  lemma HashStringHighByte(s: string)
    requires s == [0xE9 as char]
    ensures HashString(s) == 3958606660
    ensures Fnv1a(Octets(s)) == 1812687940
  {
    var c := 0xE9 as char;
    assert CharOctet(c) == 0xE9;
    assert CharWord(c) == 0xFFFF_FFE9;
    assert Round(OffsetBasis, 0xFFFF_FFE9) == 3958606660;
    assert Round(OffsetBasis, 0xE9) == 1812687940;
    HashFromCons(OffsetBasis, s);
    assert s[1..] == [];
    var octets := Octets(s);
    assert octets == [0xE9];
    assert octets[..0] == [];
  }

  /** The empty string hashes to the offset basis, and each character is one FNV-1a round. */
  lemma HashStringRecurrence(s: string, c: char)
    requires '\0' !in s && c != '\0'
    ensures HashString("") == 2166136261
    ensures HashString(s + [c]) == FnvStep(HashString(s), c)
  {
    HashFromSnoc(OffsetBasis, s, c);
  }

  /** The hash ignores everything from the first NUL on, as a C string ends there. */
  lemma {:induction false} HashStopsAtNul(hash: bv32, s: string, t: string)
    requires '\0' !in s
    ensures HashFrom(hash, s + ['\0'] + t) == HashFrom(hash, s)
    decreases |s|
  {
    if |s| > 0 {
      assert (s + ['\0'] + t)[1..] == s[1..] + ['\0'] + t;
      HashStopsAtNul(FnvStep(hash, s[0]), s[1..], t);
    }
  }

  /** Consuming one non-NUL character is one FNV-1a round. */
  lemma HashFromCons(hash: bv32, s: string)
    requires |s| > 0 && s[0] != '\0'
    ensures HashFrom(hash, s) == HashFrom(FnvStep(hash, s[0]), s[1..])
  {
  }

  /** The FNV-1a rounds of "Player" and "Enemy", one character each. */
  lemma PlayerRound1()
    ensures FnvStep(OffsetBasis, 'P') == 3574337935
  {
    assert CharWord('P') == 80 by {}
    assert (OffsetBasis ^ 80) * FnvPrime == 3574337935;
  }

  lemma PlayerRound2()
    ensures FnvStep(3574337935, 'l') == 1157638233
  {
    assert CharWord('l') == 108 by {}
    assert ((3574337935 as bv32) ^ 108) * FnvPrime == 1157638233;
  }

  lemma PlayerRound3()
    ensures FnvStep(1157638233, 'a') == 3611250728
  {
    assert CharWord('a') == 97 by {}
    assert ((1157638233 as bv32) ^ 97) * FnvPrime == 3611250728;
  }

  lemma PlayerRound4()
    ensures FnvStep(3611250728, 'y') == 699101059
  {
    assert CharWord('y') == 121 by {}
    assert ((3611250728 as bv32) ^ 121) * FnvPrime == 699101059;
  }

  lemma PlayerRound5()
    ensures FnvStep(699101059, 'e') == 2128684818
  {
    assert CharWord('e') == 101 by {}
    assert ((699101059 as bv32) ^ 101) * FnvPrime == 2128684818;
  }

  lemma PlayerRound6()
    ensures FnvStep(2128684818, 'r') == 477166624
  {
    assert CharWord('r') == 114 by {}
    assert ((2128684818 as bv32) ^ 114) * FnvPrime == 477166624;
  }

  lemma EnemyRound1()
    ensures FnvStep(OffsetBasis, 'E') == 3222007936
  {
    assert CharWord('E') == 69 by {}
    assert (OffsetBasis ^ 69) * FnvPrime == 3222007936;
  }

  lemma EnemyRound2()
    ensures FnvStep(3222007936, 'n') == 1087129258
  {
    assert CharWord('n') == 110 by {}
    assert ((3222007936 as bv32) ^ 110) * FnvPrime == 1087129258;
  }

  lemma EnemyRound3()
    ensures FnvStep(1087129258, 'e') == 3499325405
  {
    assert CharWord('e') == 101 by {}
    assert ((1087129258 as bv32) ^ 101) * FnvPrime == 3499325405;
  }

  lemma EnemyRound4()
    ensures FnvStep(3499325405, 'm') == 136669712
  {
    assert CharWord('m') == 109 by {}
    assert ((3499325405 as bv32) ^ 109) * FnvPrime == 136669712;
  }

  lemma EnemyRound5()
    ensures FnvStep(136669712, 'y') == 1004962635
  {
    assert CharWord('y') == 121 by {}
    assert ((136669712 as bv32) ^ 121) * FnvPrime == 1004962635;
  }

  lemma PlayerHash()
    ensures HashString("Player") == 477166624
  {
    var p := "Player";
    PlayerRound1(); PlayerRound2(); PlayerRound3();
    PlayerRound4(); PlayerRound5(); PlayerRound6();
    assert p[0] == 'P' && p[1] == 'l' && p[2] == 'a' && p[3] == 'y' && p[4] == 'e' && p[5] == 'r';
    HashFromCons(OffsetBasis, p);
    HashFromCons(3574337935, p[1..]);
    HashFromCons(1157638233, p[2..]);
    HashFromCons(3611250728, p[3..]);
    HashFromCons(699101059, p[4..]);
    HashFromCons(2128684818, p[5..]);
    assert p[5..][1..] == [];
  }

  lemma EnemyHash()
    ensures HashString("Enemy") == 1004962635
  {
    var e := "Enemy";
    EnemyRound1(); EnemyRound2(); EnemyRound3();
    EnemyRound4(); EnemyRound5();
    assert e[0] == 'E' && e[1] == 'n' && e[2] == 'e' && e[3] == 'm' && e[4] == 'y';
    HashFromCons(OffsetBasis, e);
    HashFromCons(3222007936, e[1..]);
    HashFromCons(1087129258, e[2..]);
    HashFromCons(3499325405, e[3..]);
    HashFromCons(136669712, e[4..]);
    assert e[4..][1..] == [];
  }

  /** "Player" and "Enemy" hash apart, so they can label cases of one `switch`. */
  lemma SwitchLabelsDistinct()
    ensures HashString("Player") != HashString("Enemy")
  {
    PlayerHash();
    EnemyHash();
  }

  /**
   * `is_palindrome`: `left` and `right` walk inwards while the characters
   * they point at agree. `right` starts at `size() - 1`, which is -1 for
   * the empty string, so the loop body never runs for sizes 0 and 1.
   */
  method IsPalindrome(str: string) returns (r: bool)
    ensures r <==> str == Reverse(str)
    ensures |str| <= 1 ==> r
  {
    var left := 0;
    var right := |str| - 1;
    while left < right
      invariant 0 <= left && right == |str| - 1 - left
      invariant left <= |str|
      invariant forall i :: 0 <= i < left ==> str[i] == str[|str| - 1 - i]
      decreases right - left
    {
      if str[left] != str[right] {
        assert str != Reverse(str) by {
          assert Reverse(str)[left] == str[right];
        }
        return false;
      }
      left := left + 1;
      right := right - 1;
    }
    assert forall i :: 0 <= i < |str| ==> str[i] == str[|str| - 1 - i] by {
      forall i | 0 <= i < |str| ensures str[i] == str[|str| - 1 - i] {
        if i >= left && |str| - 1 - i >= left {
          assert i == |str| - 1 - i;
        }
      }
    }
    return true;
  }

  /** The demo inputs: "racecar" reads the same backwards, "hello" does not. */
  lemma PalindromeExamples()
    ensures "racecar" == Reverse("racecar")
    ensures "hello" != Reverse("hello")
  {
    assert Reverse("hello")[0] == 'o';
  }

  /** `fibonacci_consteval`, the variant evaluated only at compile time. */
  function FibConsteval(n: int): int
    decreases n
  {
    if n <= 1 then n else FibConsteval(n - 1) + FibConsteval(n - 2)
  }

  /** `fibonacci_constexpr`, the variant also callable at run time. */
  function FibConstexpr(n: int): int
    decreases n
  {
    if n <= 1 then n else FibConstexpr(n - 1) + FibConstexpr(n - 2)
  }

  /**
   * Both variants compute the Fibonacci numbers of the shared definition,
   * so the compile-time and the run-time result agree for every argument.
   */
  lemma {:induction false} FibonacciVariants(n: int)
    ensures FibConsteval(n) == Fibonacci.Fib(n)
    ensures FibConstexpr(n) == Fibonacci.Fib(n)
    decreases n
  {
    if n > 1 {
      FibonacciVariants(n - 1);
      FibonacciVariants(n - 2);
    }
  }

  /** `fibonacci_consteval(10)` and `fibonacci_constexpr(10)` in the demo are both 55. */
  lemma FibonacciVariantsExample()
    ensures FibConsteval(10) == 55 && FibConstexpr(10) == 55
  {
    FibonacciVariants(10);
    Fibonacci.FibExamples();
  }
}

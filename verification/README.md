# cpp-playground in Dafny

cpp-playground is a set of C++17 and C++20 tutorials. Each topic folder holds an annotated
`example.cpp` and a reference `solution.cpp`. This project models the runtime logic those
programs contain and proves what it does. There is one Dafny module per topic:

- `StringView`: CSV and delimiter splitting, whitespace trimming, path decomposition, extension
  lookup and case-insensitive comparison, all over `std::string_view`.
- `ConstexprIf`: the `if constexpr` byte serializer. Integral values are written little-endian in
  `sizeof(T)` bytes. Strings get a 4-byte length prefix followed by their characters. The
  integral branch of `calculate` is modelled too.
- `ConstexprExt`: the constexpr/consteval functions: squares, `sum_vector`, the damage and
  multiplication tables, the 32-bit `hash_string` (FNV-1a over `char`s sign-extended, on a platform where `char` is signed), `is_palindrome` and the two Fibonacci
  variants.
- `Fibonacci`: the recursive Fibonacci definition, which two source files define identically. The
  `fibonacci_consteval` / `fibonacci_constexpr` pair is modelled in `ConstexprExt` and proved equal to it.
- `ThreeWay`: the `operator<=>` orderings of points, versions, characters, players and tasks,
  and the orders `std::sort` produces from them.
- `Span`: totals, `first`-prefixes, fixed-size batches, in-place doubling, min/max/sum
  statistics and row views of a flat 2-D array.
- `Folds`: the fold-expression templates, each as a fold over a sequence of arguments.
- `OptionalLookup`: the `std::optional` searches, the pair-list `Config` and the map-backed
  `ConfigParser`.
- `IfInit`: the memo cache driven by `if (auto it = cache.find(x); ...)`, plus the string and
  status classifiers.
- `Generators`: each coroutine generator as the sequence of values it yields. Infinite
  generators are modelled by their first `count` values.
- `Concepts`: `SaveData`'s "level,score" text form and the LIFO `TActorPool`.
- `FileSystem`: the filtering, aggregation and sorting done on top of a directory walk. The
  walk itself is input.
- `Attributes`: `process_data`, `open_file`, and the `[[fallthrough]]` switches as a small case
  interpreter.
- `Variant`: the `std::variant<Success, Error>` returned by `divide`.
- `StructuredBindings`: the functions returning several values at once.

Shared helper modules:

| Module | Holds |
|---|---|
| `Wrappers` | `Option` |
| `Seqs` | sums, flattening, tables |
| `CppInt` | C++ truncating `/` and `%`, `size_t` conversion, powers of 256 |
| `Ascii` | `isspace`, `tolower` in the C locale |
| `Decimal` | `operator<<` / `operator>>` for `int` text |
| `Ordering` | three-way results and lexicographic comparison |
| `Sorting` | sorting by key; a sorted permutation with distinct keys is unique |

Machine integers are unbounded except where width is the point:

- the serializer's bytes
- `hash_string`'s 32-bit arithmetic
- the `size_t` conversion of a negative count
- `std::uintmax_t` totals wrapping at 2^64

`std::sort` is not stable. A sorted demo list is therefore modelled as "every sorted permutation
of the input". Where the keys are distinct, that permutation is proved unique.

Three definitions appear twice in the sources and are modelled once:

- `serialize`: 04-constexpr-if `example.cpp` and `solution.cpp`
- `Version`: 07-three-way-comparison `example.cpp` and `solution.cpp`
- the recursive `fibonacci`: 02-if-init `example.cpp` and 08-constexpr-extensions `solution.cpp`

The two `double_values` (span and coroutines) differ in how they return their result and are
modelled separately, as `Span.DoubleValues` and `Generators.DoubleValues`.

In several places a source comment and the code disagree. The model follows the code:

- `sum_with_init` is commented as a right fold with an initial value. `(0 + ... + args)` is a
  binary left fold.
- `is_sorted` is commented as checking ascending order. It only compares the first argument
  with each later one; see "## Findings".

## Model

| member | source | states |
|---|---|---|
| StringView.Find | cpp17/exercises/09-string-view/example.cpp:163-168 | `string_view::find` from a position: the first occurrence at or after it, or none exactly when the character does not occur there |
| StringView.RFind | cpp17/exercises/09-string-view/solution.cpp:102-104 | `rfind`: the last occurrence of the character, or none exactly when it does not occur |
| StringView.Split | cpp17/exercises/09-string-view/example.cpp:159-175 | `split` yields one more token than there are delimiters, no token contains the delimiter, and joining the tokens with the delimiter gives back the input |
| StringView.JoinInjective | cpp17/exercises/09-string-view/example.cpp:159-175 | tokens free of the delimiter are determined by their join, so `split`'s tokens are the only delimiter-free reading of the input, in input order |
| StringView.ParseCsvLine | cpp17/exercises/09-string-view/solution.cpp:13-29 | `parse_csv_line` gives (number of commas + 1) comma-free fields that join with "," back to the line; an empty line gives one empty field |
| StringView.TrimFront | cpp17/exercises/09-string-view/solution.cpp:60-63 | the first loop drops only leading white space and stops at a non-space or the end |
| StringView.TrimBack | cpp17/exercises/09-string-view/solution.cpp:65-68 | the second loop drops only trailing white space and stops at a non-space or the end |
| StringView.TrimLoops | cpp17/exercises/09-string-view/solution.cpp:59-71 | the two loops together cut white space only, and the result starts and ends with a non-space |
| StringView.Trim | cpp17/exercises/09-string-view/solution.cpp:59-71 | `trim` returns a contiguous piece of its input with only white space cut on either side, whose ends are not white space |
| StringView.TrimUnique | cpp17/exercises/09-string-view/solution.cpp:59-71 | any non-empty piece with those two properties is `trim`'s result, and an all-space input trims to empty |
| StringView.TrimKeepsTrimmed | cpp17/exercises/09-string-view/solution.cpp:59-71 | a string with no white space at either end is left unchanged |
| StringView.TrimIdempotent | cpp17/exercises/09-string-view/solution.cpp:59-71 | trimming twice is trimming once |
| StringView.SplitDirectory | cpp17/exercises/09-string-view/solution.cpp:101-113 | directory ++ filename is the path; the directory ends at the last '/' when there is one; '\\' is looked for only when there is no '/'; with neither, the directory is empty |
| StringView.SplitExtension | cpp17/exercises/09-string-view/solution.cpp:115-123 | stem ++ extension is the filename; the extension is non-empty exactly when a '.' occurs after index 0, and it then starts at the last '.' |
| StringView.ParsePath | cpp17/exercises/09-string-view/solution.cpp:98-126 | `parse_path` combines both splits: all the directory and extension properties above hold for its `PathInfo` |
| StringView.ParsePathExample | cpp17/exercises/09-string-view/solution.cpp:131-132 | "/home/user/document.txt" splits into "/home/user/", "document.txt", "document", ".txt" |
| StringView.ArchiveExample | cpp17/exercises/09-string-view/solution.cpp:135 | "archive.tar.gz" has stem "archive.tar" and extension ".gz", and `get_extension` also gives ".gz" |
| StringView.GetExtension | cpp17/exercises/09-string-view/example.cpp:220-226 | `get_extension` returns a suffix of the path that is empty exactly when the path has no '.', and otherwise starts at the last '.' |
| StringView.DotFileExample | cpp17/exercises/09-string-view/example.cpp:220-226 | `get_extension` has no leading-dot guard: ".bashrc" is its own extension, while `parse_path` gives it none |
| StringView.NoExtensionExample | cpp17/exercises/09-string-view/example.cpp:232 | "noextension" has an empty extension |
| StringView.EqualIgnoreCase | cpp17/exercises/09-string-view/solution.cpp:156-168 | `equal_ignore_case` holds exactly when the lower-cased strings are equal; strings of different lengths are never equal; every string equals itself |
| ConstexprIf.ByteAt | cpp17/exercises/04-constexpr-if/solution.cpp:19 | the byte extracted at position `i` is the base-256 digit of the value there: put at weight 256^i on top of `v mod 256^i` it gives `v mod 256^(i+1)` |
| ConstexprIf.LittleEndian | cpp17/exercises/04-constexpr-if/solution.cpp:18-20 | the integral loop emits exactly `n` bytes, byte `i` being digit `i` |
| ConstexprIf.LittleEndianRoundTrip | cpp17/exercises/04-constexpr-if/solution.cpp:16-20 | reading the bytes back as a base-256 number gives the value modulo 2^(8n) |
| ConstexprIf.CharBytes | cpp17/exercises/04-constexpr-if/solution.cpp:29-31 | one byte per character, in order, equal to the character's code when it fits in a byte |
| ConstexprIf.Serialize | cpp17/exercises/04-constexpr-if/solution.cpp:12-38 | integral and string arguments serialize and every other type is refused; integral: `LittleEndian(value, sizeof(T))`; string: 4 + size bytes, the length little-endian, then the characters |
| ConstexprIf.DecodeUnsigned | cpp17/exercises/04-constexpr-if/solution.cpp:18-20 | the decoder of the integral encoding reads a number below 256^n from `n` bytes |
| ConstexprIf.DecodeText | cpp17/exercises/04-constexpr-if/solution.cpp:21-31 | the decoder of the string encoding, used to state the round trip: a decoded string accounts for every byte, the 4-byte prefix plus one byte per character |
| ConstexprIf.TextPrefix | cpp17/exercises/04-constexpr-if/solution.cpp:23-27 | the 4-byte prefix holds the length modulo 2^32 |
| ConstexprIf.TextRoundTrip | cpp17/exercises/04-constexpr-if/solution.cpp:21-31 | a string under 2^32 bytes whose characters fit in a byte decodes back to itself |
| ConstexprIf.IntegralRoundTrip | cpp17/exercises/04-constexpr-if/solution.cpp:16-20 | a non-negative value below 256^sizeof(T) decodes back to itself |
| ConstexprIf.NegativeRoundTrip | cpp17/exercises/04-constexpr-if/solution.cpp:16-20 | a negative value decodes to its two's-complement reading, value + 256^sizeof(T) |
| ConstexprIf.SerializeExamples | cpp17/exercises/04-constexpr-if/example.cpp:180-188 | `serialize(42)` is [42, 0, 0, 0], `serialize("Hi")` is [2, 0, 0, 0, 72, 105], and "test" gets the prefix [4, 0, 0, 0] |
| ConstexprIf.Calculate | cpp17/exercises/04-constexpr-if/solution.cpp:66-75 | the integral branch alone yields a value, and that value is twice the argument |
| ConstexprExt.Square | cpp20/exercises/08-constexpr-extensions/example.cpp:62-65 | `square_consteval` / `square_constexpr` give |x| added to itself |x| times (the square of x); never negative, and at least the magnitude of a non-zero argument |
| ConstexprExt.SquareExample | cpp20/exercises/08-constexpr-extensions/example.cpp:71-80 | the square of 5 is 25, and a square ignores the sign of its argument |
| ConstexprExt.SumVector | cpp20/exercises/08-constexpr-extensions/example.cpp:114-122 | `sum_vector`'s loop adds up {1, 2, 3, 4, 5} to 15 |
| ConstexprExt.CurvedDamage | cpp20/exercises/08-constexpr-extensions/solution.cpp:79-80 | the exercise table entry 20 + 3l + l·l/10; CurvedLookup states what `get_damage` returns from it |
| ConstexprExt.LinearDamage | cpp20/exercises/08-constexpr-extensions/example.cpp:170-171 | the walkthrough table entry 10 + 5l; LinearLookup states what `get_damage` returns from it |
| ConstexprExt.GetDamage | cpp20/exercises/08-constexpr-extensions/solution.cpp:88-91 | `get_damage`: 0 outside levels 0..99, the table entry inside; its contract is carried by CurvedLookup, LinearLookup and DamageMonotone |
| ConstexprExt.CurvedLookup | cpp20/exercises/08-constexpr-extensions/solution.cpp:79-93 | `get_damage` is 20 + 3l + l·l/10 for levels 0..99 and 0 outside |
| ConstexprExt.LinearLookup | cpp20/exercises/08-constexpr-extensions/example.cpp:170-184 | `get_damage` is 10 + 5l for levels 0..99 and 0 outside |
| ConstexprExt.DamageMonotone | cpp20/exercises/08-constexpr-extensions/solution.cpp:79-93 | inside the tables, damage never falls as the level rises, and the linear table strictly rises |
| ConstexprExt.CurvedExamples | cpp20/exercises/08-constexpr-extensions/solution.cpp:99-102 | the demo levels 1, 10, 25, 50, 99 deal 23, 60, 157, 420, 1297 |
| ConstexprExt.LinearExamples | cpp20/exercises/08-constexpr-extensions/example.cpp:190-193 | the demo levels 1, 10, 25, 50, 99 deal 15, 60, 135, 260, 505 |
| ConstexprExt.MultiplicationTableFacts | cpp20/exercises/08-constexpr-extensions/example.cpp:139-147 | the table is 10 by 10, entry (i, j) is (i+1)(j+1), and it is symmetric |
| ConstexprExt.SignExtendValue | cpp20/exercises/08-constexpr-extensions/solution.cpp:117 | converting a signed `char` to `unsigned int` gives its two's-complement value (−128 .. 127) modulo 2^32 |
| ConstexprExt.HashString | cpp20/exercises/08-constexpr-extensions/solution.cpp:114-121 | `hash_string`; its contract is carried by HashStringRecurrence, HashStopsAtNul, HashStringIsFnv1a and HashStringHighByte |
| ConstexprExt.HashStringIsFnv1a | cpp20/exercises/08-constexpr-extensions/solution.cpp:114-121 | for a NUL-free string of non-negative `char`s, `hash_string` equals standard 32-bit FNV-1a over the string's octets |
| ConstexprExt.HashStringHighByte | cpp20/exercises/08-constexpr-extensions/solution.cpp:114-121 | on a platform where `char` is signed, for the one-byte string 0xE9 `hash_string` gives 3958606660 while octet FNV-1a gives 1812687940: a byte of 128 or more enters sign-extended |
| ConstexprExt.HashStringRecurrence | cpp20/exercises/08-constexpr-extensions/solution.cpp:114-121 | the empty string hashes to 2166136261, and appending a character xors it in and multiplies by 16777619 modulo 2^32 |
| ConstexprExt.HashStopsAtNul | cpp20/exercises/08-constexpr-extensions/solution.cpp:116 | `while (*str)` stops at the first NUL: nothing after it affects the hash |
| ConstexprExt.PlayerHash | cpp20/exercises/08-constexpr-extensions/solution.cpp:127 | "Player" hashes to 477166624 |
| ConstexprExt.EnemyHash | cpp20/exercises/08-constexpr-extensions/solution.cpp:128 | "Enemy" hashes to 1004962635 |
| ConstexprExt.SwitchLabelsDistinct | cpp20/exercises/08-constexpr-extensions/solution.cpp:145-152 | the two `case hash_string(...)` labels differ, so the `switch` compiles |
| Seqs.Reverse | cpp20/exercises/08-constexpr-extensions/example.cpp:202-214 | the reference against which `is_palindrome` is judged, and through which first-match lookup is related to last-write-wins: same length, element `i` is element `n-1-i` of the input |
| ConstexprExt.IsPalindrome | cpp20/exercises/08-constexpr-extensions/example.cpp:202-214 | the two-index loop returns true exactly when the string equals its reverse; strings of length 0 or 1 are palindromes |
| ConstexprExt.PalindromeExamples | cpp20/exercises/08-constexpr-extensions/example.cpp:220-221 | "racecar" is its own reverse and "hello" is not |
| ConstexprExt.FibConsteval | cpp20/exercises/08-constexpr-extensions/example.cpp:234-237 | `fibonacci_consteval`; FibonacciVariants proves it equal to the shared `fibonacci` |
| ConstexprExt.FibConstexpr | cpp20/exercises/08-constexpr-extensions/example.cpp:240-243 | `fibonacci_constexpr`; FibonacciVariants proves it equal to the shared `fibonacci` |
| ConstexprExt.FibonacciVariants | cpp20/exercises/08-constexpr-extensions/example.cpp:234-243 | `fibonacci_consteval` and `fibonacci_constexpr` both equal the shared recursive `fibonacci` for every n |
| ConstexprExt.FibonacciVariantsExample | cpp20/exercises/08-constexpr-extensions/example.cpp:248-255 | both variants give 55 for n = 10, at compile time and at run time |
| Fibonacci.Fib | cpp17/exercises/02-if-init/example.cpp:188-192 | the recursive `fibonacci` (also cpp20/exercises/08-constexpr-extensions/solution.cpp:56-59); its contract is carried by FibMonotone, FibExamples and, for the iterative generator, FibStateIsFib |
| Fibonacci.FibMonotone | cpp20/exercises/08-constexpr-extensions/solution.cpp:56-59 | from 0 on, Fibonacci numbers are non-negative and never decrease |
| Fibonacci.FibExamples | cpp20/exercises/08-constexpr-extensions/solution.cpp:64-66 | fibonacci(5) = 5, fibonacci(10) = 55, fibonacci(15) = 610 |
| Fibonacci.FibStateIsFib | cpp20/exercises/03-coroutines/solution.cpp:84-93 | after k rounds of `tmp = a; a = b; b = tmp + b` the pair (a, b) is (fib(k), fib(k+1)) |
| ThreeWay.ComparePoints | cpp20/exercises/07-three-way-comparison/solution.cpp:17 | the defaulted `<=>` over (x, y); PointOrder states it is lexicographic and agrees with `==` |
| ThreeWay.PointOrder | cpp20/exercises/07-three-way-comparison/solution.cpp:13-18 | the defaulted `<=>` of `Point2D` / `Point` is lexicographic on (x, y) and says equal exactly when the defaulted `==` holds |
| ThreeWay.PointExamples | cpp20/exercises/07-three-way-comparison/solution.cpp:23-30 | (10,20) < (30,40), (30,40) > (10,20), (10,20) == (10,20) and != (30,40); (1,2) < (3,4) |
| ThreeWay.CompareVersions | cpp20/exercises/07-three-way-comparison/solution.cpp:45-49 | `Version`'s `<=>`; VersionKeyCompare and VersionTotalOrder state its meaning |
| ThreeWay.VersionKeyCompare | cpp20/exercises/07-three-way-comparison/solution.cpp:45-49 | `Version`'s hand-written `<=>` is the lexicographic comparison of (major, minor, patch) |
| ThreeWay.VersionTotalOrder | cpp20/exercises/07-three-way-comparison/solution.cpp:45-51 | it is a strong total order: antisymmetric under swap, transitive, total, and equal exactly when `==` holds |
| ThreeWay.VersionExamples | cpp20/exercises/07-three-way-comparison/solution.cpp:57-112 | the printed comparisons hold: 1.0.0 < 1.0.1 < 1.1.0 < 2.0.0, 5.5.0 < 5.6.0, and 5.6.0 < 5.7.0, which takes the "older than required" branch; so do the example file's 1.2.3 < 1.2.4 and 1.2.3 < 2.0.0 |
| ThreeWay.VersionSortExample | cpp20/exercises/07-three-way-comparison/solution.cpp:67-69 | every ascending sorted permutation of {2.0.0, 1.0.1, 1.0.0, 1.1.0} is 1.0.0, 1.0.1, 1.1.0, 2.0.0 |
| ThreeWay.CompareCharacters | cpp20/exercises/07-three-way-comparison/solution.cpp:134-141 | `Character`'s `<=>`; CharacterKeyCompare states its meaning |
| ThreeWay.CharacterKeyCompare | cpp20/exercises/07-three-way-comparison/solution.cpp:134-141 | `Character`'s `<=>` compares level, then attack, then defense, and never the name |
| ThreeWay.CharacterEqualityDiffers | cpp20/exercises/07-three-way-comparison/solution.cpp:134-143 | `<=>` can say equal while the defaulted `==`, which compares names too, says the characters differ |
| ThreeWay.PartySortExample | cpp20/exercises/07-three-way-comparison/solution.cpp:149-163 | every ordering of the party sorted with `a > b` is Rogue, Wizard, Paladin, Knight |
| ThreeWay.ComparePlayers | cpp20/exercises/07-three-way-comparison/example.cpp:108-113 | `Player`'s `<=>`; PlayerKeyCompare states its meaning |
| ThreeWay.PlayerKeyCompare | cpp20/exercises/07-three-way-comparison/example.cpp:108-113 | `Player`'s `<=>` compares score then level and ignores the name |
| ThreeWay.PlayerSortExample | cpp20/exercises/07-three-way-comparison/example.cpp:119-126 | sorting with `a > b` ranks Dave, Bob, Carol, Alice, Eve |
| ThreeWay.CompareTasks | cpp20/exercises/07-three-way-comparison/example.cpp:189-194 | `Task`'s `<=>`; TaskOrder states its meaning |
| ThreeWay.TaskOrder | cpp20/exercises/07-three-way-comparison/example.cpp:181-194 | `Task`'s `<=>` puts higher priority (enum order) greater and, within a priority, the earlier deadline greater |
| ThreeWay.TaskSortExample | cpp20/exercises/07-three-way-comparison/example.cpp:202-212 | sorting with `a > b` lists Critical fix, Fix bug, Review PR, Refactor, Write docs |
| Span.Accumulate | cpp20/exercises/05-span/solution.cpp:20-23 | `sum` and `sum_values` (`std::accumulate` from 0) return the total of the elements, 0 for an empty span |
| Span.TakeFirst | cpp20/exercises/05-span/solution.cpp:67-76 | `GetNearestActors` / `ProcessNearbyActors` keep the first min(max_count, size) elements in order; a negative count converts to a huge `size_t` and keeps all |
| Span.TakeFirstExamples | cpp20/exercises/05-span/example.cpp:240-256 | three of six actors are 1, 2, 3, and three of the seven ids are 101, 102, 103 |
| Span.ProcessActorsBatch | cpp20/exercises/05-span/solution.cpp:79-100 | with a positive size the loop visits exactly the fixed-size pieces of the span; a negative size gives one batch holding everything |
| Span.ChunksPartition | cpp20/exercises/05-span/solution.cpp:84-90 | the batches are non-empty, concatenate back to the span, and number ceil(n / b) |
| Span.ChunkAt | cpp20/exercises/05-span/solution.cpp:84-90 | batch k starts at offset k·b and holds min(b, n − k·b) elements |
| Span.DoubleValues | cpp20/exercises/05-span/example.cpp:67-71 | `double_values` / `safe_process` double every element in place, keeping length and order, so the total doubles |
| Span.MinElement | cpp20/exercises/05-span/example.cpp:195 | `*std::min_element` is an element no larger than any element |
| Span.MaxElement | cpp20/exercises/05-span/example.cpp:196 | `*std::max_element` is an element no smaller than any element |
| Span.CalculateStats | cpp20/exercises/05-span/example.cpp:190-201 | all zero for an empty span; otherwise min and max are elements bounding every element, and sum is the total |
| Span.Rows | cpp20/exercises/05-span/example.cpp:310-317 | `process_2d_data` visits `height` rows, which needs width·height ≤ size |
| Span.RowAt | cpp20/exercises/05-span/example.cpp:314 | row y is `data.subspan(y * width, width)` |
| Span.RowsCoverData | cpp20/exercises/05-span/example.cpp:310-317 | the rows, read in order, are exactly the first width·height elements |
| Span.RowsExample | cpp20/exercises/05-span/example.cpp:322-325 | the 3 x 4 matrix of the demo splits into 1..4, 5..8, 9..12 |
| Folds.SumRight | cpp17/exercises/05-fold-expressions/example.cpp:14-17 | `sum_right`, `(args + ...)`; SumRightIsSum states it is the sum |
| Folds.SumLeft | cpp17/exercises/05-fold-expressions/example.cpp:21-24 | `sum_left`, `(... + args)`; SumLeftIsSum states it is the sum |
| Folds.SumWithInit | cpp17/exercises/05-fold-expressions/example.cpp:28-31 | `sum_with_init`, `(0 + ... + args)`; SumWithInitIsSum states it is the sum |
| Folds.SumRightIsSum | cpp17/exercises/05-fold-expressions/example.cpp:14-17 | `(args + ...)` is the sum of the arguments |
| Folds.SumWithInitIsSum | cpp17/exercises/05-fold-expressions/example.cpp:28-31 | `(0 + ... + args)` is the sum of the arguments, and 0 for none |
| Folds.SumLeftIsSum | cpp17/exercises/05-fold-expressions/example.cpp:14-31 | `(... + args)` is the sum too, so the three folds agree |
| Folds.SumExamples | cpp17/exercises/05-fold-expressions/example.cpp:37-46 | each fold of 1..5 gives 15, and `sum_with_init()` gives 0 |
| Folds.Multiply | cpp17/exercises/05-fold-expressions/example.cpp:56-59 | `multiply`, `(args * ...)`; its contract is carried by MultiplyAppend and MultiplyZero |
| Folds.MultiplyAppend | cpp17/exercises/05-fold-expressions/example.cpp:56-59 | the product of a split pack is the product of the parts' products |
| Folds.MultiplyZero | cpp17/exercises/05-fold-expressions/example.cpp:56-59 | a zero argument makes `(args * ...)` zero |
| Folds.MultiplyExample | cpp17/exercises/05-fold-expressions/example.cpp:77 | `multiply(2, 3, 4)` is 24 |
| Folds.AllTrue | cpp17/exercises/05-fold-expressions/example.cpp:62-65 | `all_true`; AllAnyMeaning states when it holds |
| Folds.AnyTrue | cpp17/exercises/05-fold-expressions/example.cpp:68-71 | `any_true`; AllAnyMeaning states when it holds |
| Folds.AllAnyMeaning | cpp17/exercises/05-fold-expressions/example.cpp:62-71 | `all_true` holds exactly when every argument does, `any_true` exactly when one does |
| Folds.AllAnyDual | cpp17/exercises/05-fold-expressions/example.cpp:62-71 | `all_true` of the arguments is the negation of `any_true` of their negations |
| Folds.AllAnyExamples | cpp17/exercises/05-fold-expressions/example.cpp:80-85 | the four printed `all_true` / `any_true` results |
| Folds.Concatenate | cpp17/exercises/05-fold-expressions/solution.cpp:11-16 | `concatenate` (in both files) gives the pieces joined in order, and is empty exactly when every piece is |
| Folds.JoinWithSpace | cpp17/exercises/05-fold-expressions/example.cpp:130-140 | `join_with_space` is the arguments joined with one ' ' between neighbours and none at either end |
| Folds.StringExamples | cpp17/exercises/05-fold-expressions/example.cpp:145-149 | "Hello World!" and "C++17 Fold Expressions" |
| Folds.PushBackAll | cpp17/exercises/05-fold-expressions/solution.cpp:116-119 | `push_back_all` / `append_all` keep the existing elements and append the arguments in order |
| Folds.AllMatch | cpp17/exercises/05-fold-expressions/example.cpp:207-210 | `all_match` (and `all_predicates`); MatchIsFold and AllMatchMeaning state its meaning |
| Folds.AnyMatch | cpp17/exercises/05-fold-expressions/example.cpp:213-216 | `any_match`; MatchIsFold and AllMatchMeaning state its meaning |
| Folds.MatchIsFold | cpp17/exercises/05-fold-expressions/example.cpp:206-216 | `all_match` / `any_match` are the `&&` / `||` folds of the predicates' answers |
| Folds.AllMatchMeaning | cpp17/exercises/05-fold-expressions/solution.cpp:34-37 | `all_predicates` holds exactly when every predicate accepts the value; `any_match` when one does |
| Folds.MatchExamples | cpp17/exercises/05-fold-expressions/solution.cpp:46-56 | 42 passes (positive, even, < 100), -10 fails, 101 fails (positive, < 100) |
| Folds.AllEqual | cpp17/exercises/05-fold-expressions/example.cpp:243-246 | `all_equal`; AllEqualMeaning states when it holds |
| Folds.AllEqualMeaning | cpp17/exercises/05-fold-expressions/example.cpp:243-246 | `all_equal(first, rest...)` holds exactly when every later argument equals the first |
| Folds.AllEqualExamples | cpp17/exercises/05-fold-expressions/example.cpp:257-258 | (5, 5, 5, 5) are all equal; (5, 5, 6, 5) are not |
| Folds.FirstBelowRest | cpp17/exercises/05-fold-expressions/example.cpp:249-252 | `is_sorted` as written; FirstBelowRestMeaning states when it holds |
| Folds.FirstBelowRestMeaning | cpp17/exercises/05-fold-expressions/example.cpp:249-252 | `is_sorted` as written holds exactly when the first argument is below every later one |
| Folds.IsSortedAsWrittenAcceptsUnsorted | cpp17/exercises/05-fold-expressions/example.cpp:249-261 | the as-written check accepts (1, 3, 2, 4, 5), which does not ascend |
| Folds.IsSorted | cpp17/exercises/05-fold-expressions/example.cpp:248-252 | the corrected `is_sorted`, comparing each argument with the next; IsSortedMeaning states when it holds |
| Folds.IsSortedMeaning | cpp17/exercises/05-fold-expressions/example.cpp:248-252 | the corrected check holds exactly when the arguments strictly ascend |
| Folds.IsSortedStrengthensAsWritten | cpp17/exercises/05-fold-expressions/example.cpp:249-261 | the corrected check implies the as-written one, accepts (1, 2, 3, 4, 5) and rejects (1, 3, 2, 4, 5) |
| OptionalLookup.FirstIndex | cpp17/exercises/07-optional/example.cpp:45-50 | a range-for search with early return finds the first matching index, and none exactly when no element matches |
| OptionalLookup.FindFirstIsFirst | cpp17/exercises/07-optional/example.cpp:45-50 | an index that matches with no match before it is what the search returns |
| OptionalLookup.FindValue | cpp17/exercises/07-optional/example.cpp:44-51 | `find_value` returns something exactly when the target occurs, and then the target itself |
| OptionalLookup.FindValueExamples | cpp17/exercises/07-optional/example.cpp:56-70 | 5 is found, 4 is not, and `value_or(-1)` on a miss for 10 gives -1 |
| OptionalLookup.FindName | cpp17/exercises/07-optional/example.cpp:79-87 | `find_name` returns the first non-empty name starting with the letter, never reading index 0 of an empty name, and none exactly when there is no such name |
| OptionalLookup.FindNameExamples | cpp17/exercises/07-optional/example.cpp:92-102 | 'C' finds "Carol"; 'Z' falls back to "(not found)" |
| OptionalLookup.FindPlayerById | cpp17/exercises/07-optional/solution.cpp:115-122 | the first player with the id, or none exactly when no player has it |
| OptionalLookup.FindPlayerByMinScore | cpp17/exercises/07-optional/solution.cpp:125-132 | the first player in list order whose score reaches the minimum, or none exactly when no score does |
| OptionalLookup.PlayerExamples | cpp17/exercises/07-optional/solution.cpp:137-150 | id 2 is Bob, id 999 is absent, and the first score ≥ 90 is Alice's |
| OptionalLookup.ConfigGet | cpp17/exercises/07-optional/example.cpp:145-152 | `Config::get` returns the value of the first pair with the key, or none exactly when no pair has it |
| OptionalLookup.ConfigExamples | cpp17/exercises/07-optional/example.cpp:155-171 | "width" gives "1920" and "title" falls back to "Untitled Game" |
| OptionalLookup.FirstMatchIsLastWrite | cpp17/exercises/07-optional/example.cpp:145-152 | first-match lookup in the pair list is last-write-wins over the reversed list: earlier duplicates win |
| OptionalLookup.Get | cpp17/exercises/07-optional/solution.cpp:23-29 | `get` returns something exactly when the key is stored |
| OptionalLookup.Set | cpp17/exercises/07-optional/solution.cpp:18-20 | after `set`, `get` of the key gives the new value, every other key reads as before, and the key set grows by the key |
| OptionalLookup.SetAll | cpp17/exercises/07-optional/solution.cpp:18-20 | a run of `set` calls in order; GetAfterSetAll states what `get` then returns |
| OptionalLookup.GetAfterSetAll | cpp17/exercises/07-optional/solution.cpp:18-29 | after a run of `set`s from empty, `get` returns the value last written for the key, and none for a key never written |
| OptionalLookup.GetBool | cpp17/exercises/07-optional/solution.cpp:46-58 | true exactly for the text "true", false exactly for "false", and none for a missing key or any other text (case-sensitive) |
| OptionalLookup.ParserExamples | cpp17/exercises/07-optional/solution.cpp:64-93 | the exercise's title is found, "developer" falls back to its default, "fullscreen" reads true, and "abc" is no bool |
| IfInit.ExpensiveCalculation | cpp17/exercises/02-if-init/solution.cpp:13-16 | `expensive_calculation` gives |x| added to itself |x| times (the square of x); never negative, zero only for 0, and at least the magnitude of a non-zero x |
| IfInit.CachedCall | cpp17/exercises/02-if-init/solution.cpp:24-33 | a hit exactly when the input is cached, leaving the cache unchanged; a miss computes f(input) and stores it; either way no other entry changes |
| IfInit.CachedCallFaithful | cpp17/exercises/02-if-init/solution.cpp:24-46 | a cache that holds only true results keeps doing so, and every lookup returns f(input) |
| IfInit.SecondLookupHits | cpp17/exercises/02-if-init/solution.cpp:35-46 | the lookup after a miss hits, with the same value and cache |
| IfInit.SquareCacheExample | cpp17/exercises/02-if-init/solution.cpp:18-46 | the first call for 5 misses and stores 25; the second hits with 25 |
| IfInit.FibonacciCacheExample | cpp17/exercises/02-if-init/example.cpp:195-215 | the first lookup of fibonacci(10) misses and stores 55; the second hits |
| IfInit.ClassifyString | cpp17/exercises/02-if-init/solution.cpp:57-66 | Empty exactly for length 0, Long exactly above 20 |
| IfInit.ClassifyByThresholds | cpp17/exercises/02-if-init/solution.cpp:57-66 | the category's rank is the number of thresholds 0, 5, 20 the length exceeds: 0 → Empty, 1–5 → Short, 6–20 → Medium, ≥ 21 → Long |
| IfInit.ClassifyMonotone | cpp17/exercises/02-if-init/solution.cpp:57-66 | a longer string never gets a smaller category |
| IfInit.ClassifyExample | cpp17/exercises/02-if-init/solution.cpp:71-74 | "Hello, World!" is Medium |
| IfInit.CheckStatus | cpp17/exercises/02-if-init/example.cpp:51-57 | OK exactly for 0, Error exactly for 100 and above, and every negative code is a Warning |
| IfInit.CheckStatusExample | cpp17/exercises/02-if-init/example.cpp:62-66 | 42 is a Warning; 0 is OK and 100 an Error |
| Generators.Range | cpp20/exercises/03-coroutines/example.cpp:90-94 | `range(start, end)` yields end − start consecutive values from start, and nothing when start ≥ end |
| Generators.RangeContains | cpp20/exercises/03-coroutines/example.cpp:90-94 | a value is yielded exactly when start ≤ value < end |
| Generators.RangeExamples | cpp20/exercises/03-coroutines/example.cpp:100-106 | range(0, 10) and range(5, 15) |
| Generators.FibonacciPrefix | cpp20/exercises/03-coroutines/solution.cpp:84-93 | the first `count` values `fibonacci()` yields (in both files) are fib(0), ..., fib(count−1) |
| Generators.FirstTenFibonacci | cpp20/exercises/03-coroutines/solution.cpp:109-119 | the first ten are {0, 1, 1, 2, 3, 5, 8, 13, 21, 34}, the vector the exercise compares them with |
| Generators.EvenNumbers | cpp20/exercises/03-coroutines/example.cpp:210-216 | `even_numbers`; EvenNumbersSpec and EvenNumbersFromEven state what it yields |
| Generators.EvenNumbersSpec | cpp20/exercises/03-coroutines/example.cpp:210-216 | `even_numbers` yields exactly the even values of [start, end), in increasing order |
| Generators.EvenNumbersFromEven | cpp20/exercises/03-coroutines/example.cpp:210-216 | from an even start it yields start, start+2, ... and ceil((end − start)/2) values |
| Generators.EvenNumbersExample | cpp20/exercises/03-coroutines/example.cpp:222 | even_numbers(0, 20) is 0, 2, ..., 18 |
| Generators.IsPrime | cpp20/exercises/03-coroutines/solution.cpp:173-179 | the trial division up to i·i ≤ n says prime exactly when n ≥ 2 has no divisor strictly between 1 and n |
| Generators.PrimeNumbers | cpp20/exercises/03-coroutines/solution.cpp:172-186 | `prime_numbers(max)` yields exactly the primes in [2, max], increasing |
| Generators.Countdown | cpp20/exercises/03-coroutines/solution.cpp:189-193 | `countdown(from)` yields from, from−1, ..., 0, and nothing for a negative from |
| Generators.CountdownReversesRange | cpp20/exercises/03-coroutines/solution.cpp:189-193 | a countdown is range(0, from+1) read backwards |
| Generators.CountdownExample | cpp20/exercises/03-coroutines/solution.cpp:207 | countdown(10) is 10, 9, ..., 0 |
| Generators.AnimationSequence | cpp20/exercises/03-coroutines/solution.cpp:225-232 | six frames, numbered 0 to 5 in order |
| Generators.ProcessTaskIncremental | cpp20/exercises/03-coroutines/example.cpp:240-245 | eleven tasks with the given name and progress 0, 10, ..., 100 |
| Generators.DoubleValues | cpp20/exercises/03-coroutines/example.cpp:264-268 | each yielded value doubled, same length and order |
| Generators.DoubleValuesExample | cpp20/exercises/03-coroutines/example.cpp:280 | double_values(range(1, 6)) yields 2, 4, 6, 8, 10 |
| Generators.LoadResourceAsync | cpp20/exercises/03-coroutines/example.cpp:302-309 | nothing for a negative total; otherwise loaded = 0, c, 2c, ... with c = total / 10 truncated, every step ≤ total, stopping at the first step past it |
| Concepts.Serialize | cpp20/exercises/01-concepts/solution.cpp:57-61 | `serialize` is the decimal level, then ',', then the decimal score |
| Concepts.SerializedLevel | cpp20/exercises/01-concepts/solution.cpp:67 | `iss >> level` reads the level back and stops at the comma |
| Concepts.SerializedComma | cpp20/exercises/01-concepts/solution.cpp:67 | `iss >> comma` then reads the ',' |
| Concepts.SerializedScore | cpp20/exercises/01-concepts/solution.cpp:67 | `iss >> score` reads the score back up to the end |
| Concepts.SerializeRoundTrip | cpp20/exercises/01-concepts/solution.cpp:57-68 | `deserialize(serialize(d))` restores both fields, whatever the target held |
| Concepts.Deserialize | cpp20/exercises/01-concepts/solution.cpp:63-68 | text holding only white space leaves the object unchanged; a first extraction that meets a character but no digits stores 0 in `level` and keeps `score`; a level read is stored, and with no separator after it `score` is kept |
| Decimal.ExtractInt | cpp20/exercises/01-concepts/solution.cpp:67 | `iss >> n` for an `int` ends in one of three ways: the end of the text is reached while skipping white space (field kept), a character is met but no digits follow (field set to 0), or a value is read |
| Concepts.LoadFromString | cpp20/exercises/01-concepts/solution.cpp:77-82 | `load_from_string` of blank text is the default {1, 0}; of text starting with a non-number it is {0, 0} |
| Concepts.DeserializeAtEnd | cpp20/exercises/01-concepts/solution.cpp:63-82 | "" leaves any object unchanged and loads as {1, 0}; "5," sets the level to 5 and keeps the score |
| Concepts.DeserializeGarbage | cpp20/exercises/01-concepts/solution.cpp:63-68 | text with no leading digits gives level 0 and keeps the score |
| Concepts.SaveDataExample | cpp20/exercises/01-concepts/solution.cpp:87-97 | level 5, score 1000 serializes to "5,1000" and loads back into a default `SaveData` |
| Concepts.PoolSize | cpp20/exercises/01-concepts/solution.cpp:227 | `GetPoolSize`; Release, Acquire and PoolExample state how it changes |
| Concepts.Release | cpp20/exercises/01-concepts/solution.cpp:225-227 | `Release` pushes the actor on top and increases the pool size by one |
| Concepts.Acquire | cpp20/exercises/01-concepts/solution.cpp:216-223 | a non-empty pool gives its top actor and shrinks by one; an empty pool makes a fresh actor and stays empty |
| Concepts.AcquireUndoesRelease | cpp20/exercises/01-concepts/solution.cpp:216-227 | LIFO: acquiring right after a release hands back that actor and the pool as it was |
| Concepts.AcquireKeepsValid | cpp20/exercises/01-concepts/solution.cpp:216-227 | a pool of distinct created actors stays so through acquire and release, and the acquired actor is not still pooled |
| Concepts.PoolExample | cpp20/exercises/01-concepts/solution.cpp:241-252 | two acquires from empty give distinct actors, and releasing both leaves pool size 2 |
| FileSystem.ToLowerIdempotent | cpp17/exercises/10-filesystem/solution.cpp:24-29 | `to_lower` keeps length, is idempotent, and changes nothing exactly when there is no upper-case letter |
| FileSystem.FindImageFiles | cpp17/exercises/10-filesystem/solution.cpp:31-51 | a file is listed exactly when it is regular and its lower-cased extension is .png, .jpg, .jpeg, .bmp or .gif |
| FileSystem.ImageCaseExample | cpp17/exercises/10-filesystem/solution.cpp:39-45 | ".PNG" matches, but the listed extension keeps its upper case; non-image and directory entries are skipped |
| FileSystem.CalculateTotalSize | cpp17/exercises/10-filesystem/solution.cpp:53-59 | the sum of the sizes modulo 2^64, which is the plain sum below that |
| FileSystem.StatsKey | cpp17/exercises/10-filesystem/solution.cpp:103-106 | the key is the lower-cased extension, or "(no extension)" for an empty one |
| FileSystem.AnalyzeByExtension | cpp17/exercises/10-filesystem/solution.cpp:97-115 | `analyze_by_extension`; AnalyzeByExtensionGroups and AnalyzeCountsTotal state the map it builds |
| FileSystem.AnalyzeByExtensionGroups | cpp17/exercises/10-filesystem/solution.cpp:97-115 | a key is present exactly when some regular file has it, with that group's file count and total size (mod 2^64) |
| FileSystem.AnalyzeCountsTotal | cpp17/exercises/10-filesystem/solution.cpp:101-111 | the counts, summed over all keys, are the number of regular files |
| FileSystem.AddEntry | cpp17/exercises/10-filesystem/solution.cpp:108-110 | the loop body for one entry; AddEntryEffect states its effect |
| FileSystem.AddEntryEffect | cpp17/exercises/10-filesystem/solution.cpp:108-110 | `stats[ext]` creates a zero entry when missing; one file changes only its own key's entry |
| FileSystem.StatsKeyShape | cpp17/exercises/10-filesystem/solution.cpp:103-106 | a key is either the label or a lower-cased extension with no upper-case letter |
| FileSystem.AnalyzeExample | cpp17/exercises/10-filesystem/solution.cpp:97-115 | ".TXT" and ".txt" share one key and a file without extension is labelled, directories are skipped |
| FileSystem.LargeCandidates | cpp17/exercises/10-filesystem/solution.cpp:140-145 | a file is collected exactly when it is regular and at least the minimum size |
| FileSystem.FindLargeFiles | cpp17/exercises/10-filesystem/solution.cpp:136-154 | a permutation of the collected files ordered by non-increasing size |
| FileSystem.TreeBeforeIsKeyOrder | cpp17/exercises/10-filesystem/solution.cpp:197-203 | the comparator is "directory flag, then filename" compared lexicographically |
| FileSystem.TreeBeforeStrictOrder | cpp17/exercises/10-filesystem/solution.cpp:197-203 | the comparator is irreflexive, asymmetric and transitive, as `std::sort` requires |
| FileSystem.SortTreeEntries | cpp17/exercises/10-filesystem/solution.cpp:191-203 | a permutation of the entries with every directory before every other entry, and names in order within each kind |
| Attributes.ProcessData | cpp17/exercises/06-attributes/solution.cpp:15-24 | Error exactly for a negative value, Success for every other |
| Attributes.OpenFile | cpp17/exercises/06-attributes/example.cpp:192-206 | InvalidArgument exactly for an empty name, FileNotFound exactly for "nonexistent.txt", Success for every other name, never PermissionDenied |
| Attributes.OpenFileExamples | cpp17/exercises/06-attributes/example.cpp:212-220 | "test.txt" opens and "nonexistent.txt" is not found |
| Attributes.FindCase | cpp17/exercises/06-attributes/solution.cpp:114 | the case a `switch` enters; FindCaseSpec states which |
| Attributes.RunFrom | cpp17/exercises/06-attributes/solution.cpp:114-130 | the bodies run from the entered case; RunFromSpec states which |
| Attributes.Switch | cpp17/exercises/06-attributes/solution.cpp:114-130 | a whole `switch` with `default`; SwitchSpec states what it prints |
| Attributes.FindCaseSpec | cpp17/exercises/06-attributes/solution.cpp:114 | the `switch` jumps to the first case with the value, and to `default` exactly when no case has it |
| Attributes.RunFromSpec | cpp17/exercises/06-attributes/solution.cpp:114-130 | from the entered case, the bodies run in order through cases without `break`, ending at the first `break` or the last case |
| Attributes.SwitchSpec | cpp17/exercises/06-attributes/solution.cpp:114-130 | a `switch` prints the run from the first matching case, or the `default` phrase exactly when none matches |
| Attributes.FallThroughChains | cpp17/exercises/06-attributes/solution.cpp:116-120 | a case ending in `[[fallthrough]]` prints its phrase and then exactly what the next case prints |
| Attributes.BreakStops | cpp17/exercises/06-attributes/solution.cpp:121-126 | a case ending in `break` prints only its own phrase |
| Attributes.ProcessGrade | cpp17/exercises/06-attributes/solution.cpp:111-133 | 'A' prints 優秀、良好、合格; 'B' 良好、合格; 'C' 合格; 'D' 不合格; anything else 不明な成績 |
| Attributes.GradesFallThrough | cpp17/exercises/06-attributes/solution.cpp:115-123 | each better grade prints its praise and then all the next grade prints |
| Attributes.NumberCaseFound | cpp17/exercises/06-attributes/example.cpp:88-107 | values 1 to 5 enter their own case; every other value reaches `default` |
| Attributes.ProcessNumber | cpp17/exercises/06-attributes/example.cpp:85-110 | 1 prints 1は素数、小さい数、3以下; 2 and 3 their tails; 4 prints 4は偶数、5以下; 5 、5以下; others その他 |
| Attributes.ProcessNumberLine | cpp17/exercises/06-attributes/example.cpp:85-109 | the lines printed for 1 and 4, as one string each |
| Variant.Divide | cpp17/exercises/08-variant/example.cpp:204-218 | Error("Division by zero") exactly for a zero divisor, otherwise Success holding the quotient; the result is always one alternative |
| Variant.DivideTruncates | cpp17/exercises/08-variant/example.cpp:217 | the quotient truncates toward zero: it leaves a remainder smaller than the divisor with the sign of the dividend, and is the only such quotient |
| Variant.DivideFits | cpp17/exercises/08-variant/example.cpp:217 | for 32-bit operands the quotient fits in an `int` except for INT_MIN / -1 |
| Variant.DivideExamples | cpp17/exercises/08-variant/example.cpp:223-224 | divide(10, 2) is Success 5 and divide(10, 0) is the error; -7 / 2 is -3 |
| StructuredBindings.CalculateStats | cpp17/exercises/01-structured-bindings/solution.cpp:60-66 | min is one of a, b, c and no larger than any; max is one of them and no smaller than any |
| StructuredBindings.CalculateStatsSymmetric | cpp17/exercises/01-structured-bindings/solution.cpp:60-66 | the result ignores argument order, and min ≤ max |
| StructuredBindings.CalculateStatsExample | cpp17/exercises/01-structured-bindings/solution.cpp:71 | (10, 20, 15) gives min 10 and max 20 |
| StructuredBindings.DivideWithRemainder | cpp17/exercises/01-structured-bindings/example.cpp:112-114 | quotient · divisor + remainder = dividend, \|remainder\| < \|divisor\|, and a non-zero remainder has the dividend's sign |
| StructuredBindings.DivideWithRemainderExamples | cpp17/exercises/01-structured-bindings/example.cpp:119 | 17 ÷ 5 is (3, 2); negative operands truncate toward zero |

## Left out

- Coroutine machinery: `Generator`, `promise_type`, handle resumption and destruction are the language feature being taught. Only the yielded sequences are modelled. `read_lines` is file I/O.
- All console output: prompts, prefixes such as "成績 A: " and `std::endl`. Printed phrase sequences are returned as strings.
- Directory walks, `file_size`, `ofstream` and the I/O wrappers of the filesystem example. The walk is an input sequence of entries, and each entry's extension is taken as `std::filesystem` reports it.
- Floating point:
  - span, fold and stats averages
  - the `double` field of `calculate_stats`
  - `AnimationFrame::time`
  - `LoadProgress::percentage`
  - `Position`'s `partial_ordering`
  - the floating branch of `calculate` and the `reinterpret_cast` float branch of `serialize`
- `std::stoi`-based functions (`ConfigParser::get_int`) and `std::format`: their library semantics are not part of this model.
- Concept constraints, CTAD, designated initializers, `[[nodiscard]]` / `[[deprecated]]` warnings, `constinit`, and the modules demos. They have no runtime behaviour beyond trivial arithmetic.
- The mutex / `lock_guard` demo: concurrency.
- The `exercise.cpp` skeletons: their finished parts duplicate `solution.cpp`.
- `isspace` and `tolower` are taken in the C locale on ASCII. Other locales are not modelled.
- Fibonacci.Fib: no 32-bit overflow; all demo values fit in an `int`.
- Folds.SumRightIsSum: folds, products, sums and `Span.Accumulate` use unbounded integers, with no 32-bit overflow.
- Generators.LoadResourceAsync: requires a total of at least 10 or below 0. For 0 to 9 the chunk is 0 and the source loop never ends. The `int` overflow of `loaded` near `INT_MAX` is not modelled.
- Span.ProcessActorsBatch: requires a non-zero batch size for a non-empty span, because a zero size never advances the offset.
- Span.TakeFirst: requires the span to be shorter than 2^63 elements and `max_count` to be an `int`, which every real span meets.
- Concepts.Deserialize: `int` overflow in stream extraction is not modelled. The character read into `comma` is never checked, and the model does not check it either.
- FileSystem.AnalyzeByExtensionGroups: `ExtensionStats::count` is an `int`, and its overflow is not modelled.
- FileSystem.StatsKey: the key is not injective. An extension literally spelled "(no extension)" would share the label's key. The count lemmas are stated per key rather than per extension.
- FileSystem.FindLargeFiles: `std::sort` is unstable, so the order of equal sizes is not pinned down. The contract gives any size-ordered permutation.
- Variant.Divide: INT_MIN / -1 is undefined behaviour in C++. The model returns the mathematical quotient 2^31, and DivideFits marks it as the one quotient that does not fit.
- StructuredBindings.DivideWithRemainder: requires a non-zero divisor, which the source needs too. INT_MIN / -1 is left out as above.
- Generators.AnimationSequence: the contract states the frame count and numbering. The actions Start, Jump, Peak, Fall, Land and End are given by the definition only.
- ConstexprIf.TextRoundTrip: requires a length below 2^32, because the source truncates the length to its 4-byte prefix, and characters below 256, because a Dafny `char` is wider than the source's one-byte `char` and wider codes have no counterpart there.
- ConstexprExt.HashStringIsFnv1a: requires a NUL-free string, since `hash_string` stops at the first NUL (HashStopsAtNul), and `char`s below 128, since where `char` is signed a byte of 128 or more is sign-extended and the result is then not standard FNV-1a (HashStringHighByte).
- ConstexprExt.HashString: assumes `char` is signed, as on x86-64; where plain `char` is unsigned (as on AArch64 Linux) no byte is sign-extended and `hash_string` is octet FNV-1a for every string, which is not modelled. A Dafny `char` wider than a byte enters the hash as its low byte only, while a C++ string would hold the several bytes of its UTF-8 encoding.
- Fibonacci examples beyond the demo values, and `print_all` / `print_each` / `apply_to_all`: these only print.
- The "greetings" and `print_span` helpers: they only print.

## Findings

| source | as written | input that shows it | evidently intended | confidence | as-written member | corrected member |
|---|---|---|---|---|---|---|
| cpp17/exercises/05-fold-expressions/example.cpp:249-252 | `is_sorted(first, rest...)` is `((first < rest) && ...)`, which compares only the first argument with each later one | `is_sorted(1, 3, 2, 4, 5)` is true although 3 > 2 | true exactly when the arguments strictly ascend (`first < r0 && r0 < r1 && ...`) | high; not executed | Folds.IsSortedAsWrittenAcceptsUnsorted | Folds.IsSortedMeaning |

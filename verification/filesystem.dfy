/**
 * The filesystem tutorial's logic over a directory walk. The walk itself
 * is input: the sequence of entries a `recursive_directory_iterator`
 * visits, each with the path, filename and extension `std::filesystem`
 * reports and its size and type. What is modelled is the filtering,
 * aggregation and sorting done on top of it.
 */
module FileSystem {
  import opened Ascii
  import opened Seqs
  import opened CppInt
  import opened Ordering
  import opened Sorting

  /** A `directory_entry` as the tutorial reads it. */
  datatype Entry = Entry(path: string, filename: string, extension: string, size: nat,
                         isRegular: bool, isDirectory: bool)

  /** `ImageFileInfo`: path, size and the extension as the entry spelled it. */
  datatype FileInfo = FileInfo(path: string, size: nat, extension: string)

  function Info(e: Entry): FileInfo {
    FileInfo(e.path, e.size, e.extension)
  }

  /** `to_lower` is idempotent and leaves a string without upper-case letters alone. */
  lemma ToLowerIdempotent(s: string)
    ensures |LowerString(s)| == |s|
    ensures LowerString(LowerString(s)) == LowerString(s)
    ensures LowerString(s) == s <==> forall i :: 0 <= i < |s| ==> !IsUpper(s[i])
  {
    if LowerString(s) == s {
      forall i | 0 <= i < |s|
        ensures !IsUpper(s[i])
      {
        assert LowerString(s)[i] == s[i];
      }
    }
    if forall i :: 0 <= i < |s| ==> !IsUpper(s[i]) {
      forall i | 0 <= i < |s|
        ensures LowerString(s)[i] == s[i]
      {
        ToLowerFacts(s[i]);
      }
    }
  }

  /** The image extensions, in lower case. */
  const ImageExtensions: seq<string> := [".png", ".jpg", ".jpeg", ".bmp", ".gif"]

  /** A regular file whose extension, lower-cased, is an image extension. */
  predicate IsImage(e: Entry) {
    e.isRegular && LowerString(e.extension) in ImageExtensions
  }

  /** `find_image_files`: the image files in the order of the walk. */
  function FindImageFiles(entries: seq<Entry>): (images: seq<FileInfo>)
    ensures |images| <= |entries|
    ensures forall x :: x in images <==> exists e :: e in entries && IsImage(e) && x == Info(e)
  {
    if |entries| == 0 then []
    else
      var init := entries[..|entries| - 1];
      var last := entries[|entries| - 1];
      var rest := FindImageFiles(init);
      assert entries == init + [last];
      if IsImage(last) then rest + [Info(last)] else rest
  }

  /** Matching ignores case, but the stored extension keeps the spelling of the file. */
  lemma ImageCaseExample()
    ensures var upper := Entry("a/B.PNG", "B.PNG", ".PNG", 300, true, false);
      var text := Entry("a/c.txt", "c.txt", ".txt", 10, true, false);
      var folder := Entry("a/d.gif", "d.gif", ".gif", 0, false, true);
      FindImageFiles([upper, text, folder]) == [FileInfo("a/B.PNG", 300, ".PNG")]
  {
    var upper := Entry("a/B.PNG", "B.PNG", ".PNG", 300, true, false);
    var text := Entry("a/c.txt", "c.txt", ".txt", 10, true, false);
    var folder := Entry("a/d.gif", "d.gif", ".gif", 0, false, true);
    assert LowerString(".PNG") == ".png";
    assert IsImage(upper);
    assert LowerString(".txt") == ".txt";
    assert !IsImage(text);
    assert [upper][..0] == [];
    assert FindImageFiles([upper]) == [Info(upper)];
    assert [upper, text][..1] == [upper];
    assert FindImageFiles([upper, text]) == [Info(upper)];
    assert [upper, text, folder][..2] == [upper, text];
  }

  /** The sizes of a list of files, as integers. */
  function Sizes(files: seq<FileInfo>): (sizes: seq<int>)
    ensures |sizes| == |files|
    ensures forall i :: 0 <= i < |files| ==> sizes[i] == files[i].size
  {
    seq(|files|, i requires 0 <= i < |files| => files[i].size as int)
  }

  /**
   * `calculate_total_size`: the sizes added into a `std::uintmax_t`, which
   * wraps modulo 2^64; below that bound the result is the plain total.
   */
  method CalculateTotalSize(images: seq<FileInfo>) returns (total: nat)
    ensures total == Sum(Sizes(images)) % SizeTModulus
    ensures Sum(Sizes(images)) < SizeTModulus ==> total == Sum(Sizes(images))
  {
    total := 0;
    for i := 0 to |images|
      invariant total == Sum(Sizes(images[..i])) % SizeTModulus
    {
      var before := Sum(Sizes(images[..i]));
      var size := images[i].size;
      assert Sum(Sizes(images[..i + 1])) == before + size by {
        assert images[..i + 1] == images[..i] + [images[i]];
        SumSizesSnoc(images[..i], images[i]);
      }
      assert (total + size) % SizeTModulus == (before + size) % SizeTModulus by {
        ModAddStep(before, size, SizeTModulus);
      }
      total := (total + size) % SizeTModulus;
    }
    assert images[..|images|] == images;
    SizesNonNegative(images);
  }

  /** A total of sizes is never negative. */
  lemma {:induction false} SizesNonNegative(files: seq<FileInfo>)
    ensures Sum(Sizes(files)) >= 0
  {
    if |files| > 0 {
      assert Sizes(files)[1..] == Sizes(files[1..]);
      SizesNonNegative(files[1..]);
    }
  }

  /** The key `analyze_by_extension` files an entry under. */
  function StatsKey(extension: string): (key: string)
    ensures |extension| == 0 ==> key == "(no extension)"
    ensures |extension| > 0 ==> key == LowerString(extension)
  {
    var lower := LowerString(extension);
    if |lower| == 0 then "(no extension)" else lower
  }

  /** `ExtensionStats`. */
  datatype ExtensionStats = ExtensionStats(count: int, totalSize: nat)

  /** One iteration of the walk: a regular file adds one and its size to its key's entry. */
  function AddEntry(stats: map<string, ExtensionStats>, e: Entry): map<string, ExtensionStats> {
    if !e.isRegular then stats
    else
      var key := StatsKey(e.extension);
      var stat := if key in stats then stats[key] else ExtensionStats(0, 0);
      stats[key := ExtensionStats(stat.count + 1, (stat.totalSize + e.size) % SizeTModulus)]
  }

  /** `analyze_by_extension`: the walk folded through `AddEntry`. */
  function AnalyzeByExtension(entries: seq<Entry>): map<string, ExtensionStats> {
    if |entries| == 0 then map[]
    else AddEntry(AnalyzeByExtension(entries[..|entries| - 1]), entries[|entries| - 1])
  }

  /** The regular files a key collects, in the order of the walk. */
  function Group(entries: seq<Entry>, key: string): (group: seq<FileInfo>)
    ensures |group| <= |entries|
  {
    if |entries| == 0 then []
    else
      var e := entries[|entries| - 1];
      Group(entries[..|entries| - 1], key) +
        (if e.isRegular && StatsKey(e.extension) == key then [Info(e)] else [])
  }

  /** One iteration changes only the entry of the visited file's key. */
  lemma AddEntryEffect(stats: map<string, ExtensionStats>, e: Entry, key: string)
    ensures var counted := e.isRegular && StatsKey(e.extension) == key;
      var after := AddEntry(stats, e);
      (key in after <==> key in stats || counted) &&
      (!counted && key in stats ==> after[key] == stats[key]) &&
      (counted && key in stats ==>
        after[key] == ExtensionStats(stats[key].count + 1, (stats[key].totalSize + e.size) % SizeTModulus)) &&
      (counted && key !in stats ==> after[key] == ExtensionStats(1, e.size % SizeTModulus))
  {
  }

  /** The sum of sizes grows by the size of an appended file. */
  lemma SumSizesSnoc(files: seq<FileInfo>, f: FileInfo)
    ensures Sum(Sizes(files + [f])) == Sum(Sizes(files)) + f.size
  {
    assert Sizes(files + [f]) == Sizes(files) + [f.size];
    SumAppend(Sizes(files), [f.size]);
  }

  /**
   * Every key of the statistics is the key of some regular file, and its
   * entry holds the number of that key's files and the sum of their sizes
   * (modulo 2^64, as `total_size` is a `std::uintmax_t`).
   */
  lemma {:induction false} AnalyzeByExtensionGroups(entries: seq<Entry>, key: string)
    ensures key in AnalyzeByExtension(entries) <==> |Group(entries, key)| > 0
    ensures key in AnalyzeByExtension(entries) ==>
      AnalyzeByExtension(entries)[key] ==
        ExtensionStats(|Group(entries, key)|, Sum(Sizes(Group(entries, key))) % SizeTModulus)
  {
    if |entries| > 0 {
      var init := entries[..|entries| - 1];
      var e := entries[|entries| - 1];
      var stats := AnalyzeByExtension(init);
      var after := AnalyzeByExtension(entries);
      assert after == AddEntry(stats, e);
      AnalyzeByExtensionGroups(init, key);
      AddEntryEffect(stats, e, key);
      var before := Group(init, key);
      if e.isRegular && StatsKey(e.extension) == key {
        assert Group(entries, key) == before + [Info(e)];
        SumSizesSnoc(before, Info(e));
        if key in stats {
          ModAddStep(Sum(Sizes(before)), e.size, SizeTModulus);
        } else {
          assert Sizes(before) == [];
        }
      } else {
        assert Group(entries, key) == before;
      }
    }
  }

  /** How many regular files the walk visits. */
  function RegularCount(entries: seq<Entry>): nat {
    if |entries| == 0 then 0
    else RegularCount(entries[..|entries| - 1]) + (if entries[|entries| - 1].isRegular then 1 else 0)
  }

  /** The counts of the keys listed in `keys` (a key without an entry counts 0). */
  function CountOver(stats: map<string, ExtensionStats>, keys: seq<string>): int {
    if |keys| == 0 then 0
    else (if keys[0] in stats then stats[keys[0]].count else 0) + CountOver(stats, keys[1..])
  }

  /** One iteration adds one to the counts of any duplicate-free key list holding its key. */
  lemma {:induction false} CountOverAdd(stats: map<string, ExtensionStats>, e: Entry, keys: seq<string>)
    requires forall i, j :: 0 <= i < j < |keys| ==> keys[i] != keys[j]
    ensures CountOver(AddEntry(stats, e), keys) ==
      CountOver(stats, keys) + (if e.isRegular && StatsKey(e.extension) in keys then 1 else 0)
  {
    if |keys| > 0 {
      AddEntryEffect(stats, e, keys[0]);
      CountOverAdd(stats, e, keys[1..]);
      assert keys == [keys[0]] + keys[1..];
      assert keys[0] !in keys[1..];
    }
  }

  /** No statistics, no counts. */
  lemma {:induction false} CountOverEmpty(keys: seq<string>)
    ensures CountOver(map[], keys) == 0
  {
    if |keys| > 0 {
      CountOverEmpty(keys[1..]);
    }
  }

  /** The counts, summed over all keys (each listed once), are the number of regular files. */
  lemma {:induction false} AnalyzeCountsTotal(entries: seq<Entry>, keys: seq<string>)
    requires forall i, j :: 0 <= i < j < |keys| ==> keys[i] != keys[j]
    requires forall k :: k in AnalyzeByExtension(entries) ==> k in keys
    ensures CountOver(AnalyzeByExtension(entries), keys) == RegularCount(entries)
  {
    if |entries| > 0 {
      var init := entries[..|entries| - 1];
      var e := entries[|entries| - 1];
      var stats := AnalyzeByExtension(init);
      assert AnalyzeByExtension(entries) == AddEntry(stats, e);
      forall k | k in stats
        ensures k in keys
      {
        AddEntryEffect(stats, e, k);
      }
      AnalyzeCountsTotal(init, keys);
      CountOverAdd(stats, e, keys);
      AddEntryEffect(stats, e, StatsKey(e.extension));
    } else {
      CountOverEmpty(keys);
    }
  }

  /** A key names a group exactly when it is the lower-cased extension or the empty-extension label. */
  lemma StatsKeyShape(extension: string)
    ensures StatsKey(extension) == "(no extension)" || StatsKey(extension) == LowerString(extension)
    ensures forall i :: 0 <= i < |StatsKey(extension)| && |extension| > 0 ==> !IsUpper(StatsKey(extension)[i])
  {
  }

  /** Two walks: ".TXT" and ".txt" share a key, and a file without an extension gets the label. */
  lemma AnalyzeExample()
    ensures var walk := [Entry("a.TXT", "a.TXT", ".TXT", 5, true, false),
                         Entry("b.txt", "b.txt", ".txt", 7, true, false),
                         Entry("sub", "sub", "", 0, false, true),
                         Entry("Makefile", "Makefile", "", 3, true, false)];
      AnalyzeByExtension(walk) == map[".txt" := ExtensionStats(2, 12), "(no extension)" := ExtensionStats(1, 3)]
  {
    var walk := [Entry("a.TXT", "a.TXT", ".TXT", 5, true, false),
                 Entry("b.txt", "b.txt", ".txt", 7, true, false),
                 Entry("sub", "sub", "", 0, false, true),
                 Entry("Makefile", "Makefile", "", 3, true, false)];
    assert LowerString(".TXT") == ".txt";
    assert LowerString(".txt") == ".txt";
    assert StatsKey("") == "(no extension)";
    assert walk[..0] == [];
    assert walk[..1][..0] == [];
    assert AnalyzeByExtension(walk[..1]) == map[".txt" := ExtensionStats(1, 5)];
    assert walk[..2][..1] == walk[..1];
    assert AnalyzeByExtension(walk[..2]) == map[".txt" := ExtensionStats(2, 12)];
    assert walk[..3][..2] == walk[..2];
    assert AnalyzeByExtension(walk[..3]) == map[".txt" := ExtensionStats(2, 12)];
    assert walk[..3] == walk[..|walk| - 1];
  }

  /** The files `find_large_files` collects before sorting, in the order of the walk. */
  function LargeCandidates(entries: seq<Entry>, minSize: nat): (files: seq<FileInfo>)
    ensures forall x :: x in files <==> exists e :: e in entries && e.isRegular && e.size >= minSize && x == Info(e)
  {
    if |entries| == 0 then []
    else
      var init := entries[..|entries| - 1];
      var last := entries[|entries| - 1];
      assert entries == init + [last];
      LargeCandidates(init, minSize) + (if last.isRegular && last.size >= minSize then [Info(last)] else [])
  }

  /** The key of the `a.size > b.size` comparator. */
  function SizeKey(f: FileInfo): seq<int> {
    [f.size]
  }

  /** On one-element keys the lexicographic order is the order of the numbers. */
  lemma LexLeSingle(a: int, b: int)
    ensures LexLe([a], [b]) <==> a <= b
  {
    LexCons(a, [], b, []);
    assert [a] + [] == [a] && [b] + [] == [b];
  }

  /**
   * `find_large_files`: the regular files of at least `minSize` bytes,
   * largest first. `std::sort` is not stable, so files of equal size may
   * come in any order: the result is any sorted permutation, of which
   * `SortByKey` is one.
   */
  function FindLargeFiles(entries: seq<Entry>, minSize: nat): (large: seq<FileInfo>)
    ensures forall x :: x in large <==> exists e :: e in entries && e.isRegular && e.size >= minSize && x == Info(e)
    ensures multiset(large) == multiset(LargeCandidates(entries, minSize))
    ensures forall i, j :: 0 <= i < j < |large| ==> large[i].size >= large[j].size
  {
    var candidates := LargeCandidates(entries, minSize);
    var large := SortByKey(candidates, SizeKey, true);
    forall i, j | 0 <= i < j < |large|
      ensures large[i].size >= large[j].size
    {
      assert InOrder(SizeKey(large[i]), SizeKey(large[j]), true);
      LexLeSingle(large[j].size, large[i].size);
    }
    forall x
      ensures x in large <==> x in candidates
    {
      assert x in multiset(large) <==> x in multiset(candidates);
    }
    large
  }

  /** The character codes of a filename, which `operator<` on paths compares. */
  function Codes(s: string): (codes: seq<int>)
    ensures |codes| == |s|
    ensures forall i :: 0 <= i < |s| ==> codes[i] == s[i] as int
  {
    seq(|s|, i requires 0 <= i < |s| => s[i] as int)
  }

  /** The tree listing's comparator: directories first, then by filename. */
  predicate TreeBefore(a: Entry, b: Entry) {
    if a.isDirectory != b.isDirectory then a.isDirectory
    else LexCompare(Codes(a.filename), Codes(b.filename)) == Less
  }

  /** The comparator as a key: a directory flag that sorts directories first, then the name. */
  function TreeKey(e: Entry): seq<int> {
    [if e.isDirectory then 0 else 1] + Codes(e.filename)
  }

  /** `TreeBefore` is exactly "the tree key compares less", so it is a strict weak order. */
  lemma TreeBeforeIsKeyOrder(a: Entry, b: Entry)
    ensures TreeBefore(a, b) <==> LexCompare(TreeKey(a), TreeKey(b)) == Less
  {
    LexCons(if a.isDirectory then 0 else 1, Codes(a.filename), if b.isDirectory then 0 else 1, Codes(b.filename));
  }

  /** `TreeBefore` is irreflexive, asymmetric and transitive. */
  lemma TreeBeforeStrictOrder(a: Entry, b: Entry, c: Entry)
    ensures !TreeBefore(a, a)
    ensures TreeBefore(a, b) ==> !TreeBefore(b, a)
    ensures TreeBefore(a, b) && TreeBefore(b, c) ==> TreeBefore(a, c)
  {
    TreeBeforeIsKeyOrder(a, a);
    TreeBeforeIsKeyOrder(a, b);
    TreeBeforeIsKeyOrder(b, a);
    TreeBeforeIsKeyOrder(b, c);
    TreeBeforeIsKeyOrder(a, c);
    LexEqual(TreeKey(a), TreeKey(a));
    LexFlip(TreeKey(a), TreeKey(b));
    if TreeBefore(a, b) && TreeBefore(b, c) {
      LexTransitive(TreeKey(a), TreeKey(b), TreeKey(c));
    }
  }

  /**
   * The listing order: a permutation of the directory's entries in which
   * every directory comes before every other entry, and entries of the
   * same kind are in filename order.
   */
  function SortTreeEntries(entries: seq<Entry>): (sorted: seq<Entry>)
    ensures multiset(sorted) == multiset(entries)
    ensures forall i, j :: 0 <= i < j < |sorted| && sorted[j].isDirectory ==> sorted[i].isDirectory
    ensures forall i, j :: 0 <= i < j < |sorted| && sorted[i].isDirectory == sorted[j].isDirectory ==>
      LexLe(Codes(sorted[i].filename), Codes(sorted[j].filename))
  {
    var sorted := SortByKey(entries, TreeKey, false);
    forall i, j | 0 <= i < j < |sorted|
      ensures sorted[j].isDirectory ==> sorted[i].isDirectory
      ensures sorted[i].isDirectory == sorted[j].isDirectory ==>
        LexLe(Codes(sorted[i].filename), Codes(sorted[j].filename))
    {
      var a, b := sorted[i], sorted[j];
      assert LexLe(TreeKey(a), TreeKey(b));
      LexCons(if a.isDirectory then 0 else 1, Codes(a.filename), if b.isDirectory then 0 else 1, Codes(b.filename));
    }
    sorted
  }
}

/**
 * The `std::string_view` utilities of the string_view tutorial: CSV and
 * delimiter splitting, whitespace trimming, path decomposition, extension
 * extraction and case-insensitive comparison. A view is modelled by the
 * characters it shows.
 */
module StringView {
  import opened Wrappers
  import opened Ascii

  /** `find(c, from)`: the first index at or after `from` that holds `c`. */
  function Find(s: string, c: char, from: nat): (r: Option<nat>)
    requires from <= |s|
    ensures r.Some? ==> from <= r.value < |s| && s[r.value] == c && c !in s[from..r.value]
    ensures r.None? ==> c !in s[from..]
    decreases |s| - from
  {
    if from == |s| then None
    else if s[from] == c then Some(from)
    else Find(s, c, from + 1)
  }

  /** `rfind(c)`: the last index that holds `c`. */
  function RFind(s: string, c: char): (r: Option<nat>)
    ensures r.Some? ==> r.value < |s| && s[r.value] == c && c !in s[r.value + 1..]
    ensures r.None? ==> c !in s
  {
    if |s| == 0 then None
    else if s[|s| - 1] == c then Some(|s| - 1)
    else
      var r := RFind(s[..|s| - 1], c);
      assert r.Some? ==> s[r.value + 1..] == s[..|s| - 1][r.value + 1..] + [s[|s| - 1]];
      assert s == s[..|s| - 1] + [s[|s| - 1]];
      r
  }

  /** How many times `c` occurs in `s`. */
  function Count(s: string, c: char): nat {
    if |s| == 0 then 0 else (if s[0] == c then 1 else 0) + Count(s[1..], c)
  }

  lemma {:induction false} CountAppend(a: string, b: string, c: char)
    ensures Count(a + b, c) == Count(a, c) + Count(b, c)
  {
    if |a| == 0 {
      assert a + b == b;
    } else {
      assert (a + b)[1..] == a[1..] + b;
      CountAppend(a[1..], b, c);
    }
  }

  lemma {:induction false} CountAbsent(s: string, c: char)
    requires c !in s
    ensures Count(s, c) == 0
  {
    if |s| > 0 {
      CountAbsent(s[1..], c);
    }
  }

  /** The tokens put back together with one separator between neighbours. */
  function Join(parts: seq<string>, sep: char): string {
    if |parts| == 0 then ""
    else if |parts| == 1 then parts[0]
    else parts[0] + [sep] + Join(parts[1..], sep)
  }

  /** Each token followed by the separator: what the split loop has consumed. */
  function Terminated(parts: seq<string>, sep: char): string {
    if |parts| == 0 then "" else parts[0] + [sep] + Terminated(parts[1..], sep)
  }

  lemma {:induction false} TerminatedSnoc(parts: seq<string>, t: string, sep: char)
    ensures Terminated(parts + [t], sep) == Terminated(parts, sep) + t + [sep]
  {
    if |parts| == 0 {
      assert parts + [t] == [t];
    } else {
      assert (parts + [t])[1..] == parts[1..] + [t];
      TerminatedSnoc(parts[1..], t, sep);
    }
  }

  lemma {:induction false} JoinSnoc(parts: seq<string>, t: string, sep: char)
    ensures Join(parts + [t], sep) == Terminated(parts, sep) + t
  {
    if |parts| == 0 {
      assert parts + [t] == [t];
    } else {
      assert (parts + [t])[1..] == parts[1..] + [t];
      JoinSnoc(parts[1..], t, sep);
    }
  }

  /** Cutting the token that ends at the delimiter at `end` extends what the loop has consumed. */
  lemma SplitStep(str: string, delimiter: char, tokens: seq<string>, start: nat, end: nat)
    requires start <= end < |str| && str[end] == delimiter && delimiter !in str[start..end]
    requires Terminated(tokens, delimiter) == str[..start] && |tokens| == Count(str[..start], delimiter)
    ensures Terminated(tokens + [str[start..end]], delimiter) == str[..end + 1]
    ensures |tokens + [str[start..end]]| == Count(str[..end + 1], delimiter)
  {
    var token := str[start..end];
    TerminatedSnoc(tokens, token, delimiter);
    assert str[..end + 1] == str[..start] + token + [delimiter];
    CountAppend(str[..start] + token, [delimiter], delimiter);
    CountAppend(str[..start], token, delimiter);
    CountAbsent(token, delimiter);
  }

  /** The remainder after the last delimiter completes the join. */
  lemma SplitLast(str: string, delimiter: char, tokens: seq<string>, start: nat)
    requires start <= |str| && delimiter !in str[start..]
    requires Terminated(tokens, delimiter) == str[..start] && |tokens| == Count(str[..start], delimiter)
    ensures Join(tokens + [str[start..]], delimiter) == str
    ensures |tokens + [str[start..]]| == Count(str, delimiter) + 1
  {
    var last := str[start..];
    JoinSnoc(tokens, last, delimiter);
    assert str == str[..start] + last;
    CountAppend(str[..start], last, delimiter);
    CountAbsent(last, delimiter);
  }

  /**
   * `split(str, delimiter)`: the loop of the tutorial, which cuts at every
   * delimiter and keeps the remainder as the last token.
   */
  method Split(str: string, delimiter: char) returns (tokens: seq<string>)
    ensures |tokens| == Count(str, delimiter) + 1
    ensures Join(tokens, delimiter) == str
    ensures forall i :: 0 <= i < |tokens| ==> delimiter !in tokens[i]
  {
    tokens := [];
    var start := 0;
    var end := Find(str, delimiter, 0);
    while end.Some?
      invariant start <= |str|
      invariant end.Some? ==> start <= end.value < |str| && str[end.value] == delimiter
      invariant end.Some? ==> delimiter !in str[start..end.value]
      invariant end.None? ==> delimiter !in str[start..]
      invariant Terminated(tokens, delimiter) == str[..start]
      invariant |tokens| == Count(str[..start], delimiter)
      invariant forall i :: 0 <= i < |tokens| ==> delimiter !in tokens[i]
      decreases |str| - start
    {
      SplitStep(str, delimiter, tokens, start, end.value);
      tokens := tokens + [str[start..end.value]];
      start := end.value + 1;
      end := Find(str, delimiter, start);
    }
    SplitLast(str, delimiter, tokens, start);
    tokens := tokens + [str[start..]];
  }

  /** Where the first token ends inside a join of two or more tokens. */
  lemma JoinHead(parts: seq<string>, sep: char)
    requires |parts| >= 2
    ensures Join(parts, sep)[..|parts[0]|] == parts[0]
    ensures Join(parts, sep)[|parts[0]|] == sep
    ensures Join(parts, sep)[|parts[0]| + 1..] == Join(parts[1..], sep)
  {
  }

  /**
   * Joining is injective on delimiter-free tokens, so the tokens `Split`
   * returns are the only ones that satisfy its contract.
   */
  lemma {:induction false} JoinInjective(ts: seq<string>, us: seq<string>, sep: char)
    requires |ts| > 0 && |us| > 0
    requires forall i :: 0 <= i < |ts| ==> sep !in ts[i]
    requires forall i :: 0 <= i < |us| ==> sep !in us[i]
    requires Join(ts, sep) == Join(us, sep)
    ensures ts == us
  {
    var s := Join(ts, sep);
    if |ts| == 1 && |us| == 1 {
    } else if |ts| == 1 {
      JoinHead(us, sep);
      assert false;
    } else if |us| == 1 {
      JoinHead(ts, sep);
      assert false;
    } else {
      JoinHead(ts, sep);
      JoinHead(us, sep);
      JoinInjective(ts[1..], us[1..], sep);
      assert ts == [ts[0]] + ts[1..];
      assert us == [us[0]] + us[1..];
    }
  }

  /** `parse_csv_line`: the same loop as `split`, cutting at commas. */
  method ParseCsvLine(line: string) returns (fields: seq<string>)
    ensures |fields| == Count(line, ',') + 1
    ensures Join(fields, ',') == line
    ensures forall i :: 0 <= i < |fields| ==> ',' !in fields[i]
    ensures line == "" ==> fields == [""]
  {
    fields := Split(line, ',');
  }

  /** Every character of `s` at an index in `[from, to)` is whitespace. */
  predicate SpacesBetween(s: string, from: int, to: int)
    requires 0 <= from && to <= |s|
  {
    forall i :: from <= i < to ==> IsSpace(s[i])
  }

  /** `r` sits at offset `lo` of `s` with only whitespace around it. */
  predicate TrimSplit(s: string, r: string, lo: int) {
    && 0 <= lo <= |s| - |r|
    && r == s[lo..lo + |r|]
    && SpacesBetween(s, 0, lo)
    && SpacesBetween(s, lo + |r|, |s|)
  }

  /** Neither end of `s` is whitespace. */
  predicate Trimmed(s: string) {
    s == [] || (!IsSpace(s[0]) && !IsSpace(s[|s| - 1]))
  }

  /** The first loop of `trim`: `remove_prefix(1)` while the front is whitespace. */
  function TrimFront(s: string): (r: string)
    ensures |r| <= |s| && r == s[|s| - |r|..]
    ensures SpacesBetween(s, 0, |s| - |r|)
    ensures r == [] || !IsSpace(r[0])
  {
    if |s| > 0 && IsSpace(s[0]) then
      var t := s[1..];
      var r := TrimFront(t);
      assert t[|t| - |r|..] == s[|s| - |r|..];
      assert forall i :: 1 <= i < |s| ==> s[i] == t[i - 1];
      r
    else s
  }

  /** The second loop of `trim`: `remove_suffix(1)` while the back is whitespace. */
  function TrimBack(s: string): (r: string)
    ensures |r| <= |s| && r == s[..|r|]
    ensures SpacesBetween(s, |r|, |s|)
    ensures r == [] || !IsSpace(r[|r| - 1])
  {
    if |s| > 0 && IsSpace(s[|s| - 1]) then
      var t := s[..|s| - 1];
      var r := TrimBack(t);
      assert t[..|r|] == s[..|r|];
      assert forall i :: 0 <= i < |t| ==> s[i] == t[i];
      r
    else s
  }

  /**
   * Cutting whitespace from the front of `s` to get `f`, then from the back
   * of `f` to get `r`, leaves `r` in `s` with only whitespace around it.
   */
  lemma CutBothEnds(s: string, f: string, r: string)
    requires |f| <= |s| && f == s[|s| - |f|..] && SpacesBetween(s, 0, |s| - |f|)
    requires f == [] || !IsSpace(f[0])
    requires |r| <= |f| && r == f[..|r|] && SpacesBetween(f, |r|, |f|)
    requires r == [] || !IsSpace(r[|r| - 1])
    ensures Trimmed(r) && TrimSplit(s, r, |s| - |f|)
  {
    var lo := |s| - |f|;
    assert r == s[lo..lo + |r|];
    forall i | lo + |r| <= i < |s|
      ensures IsSpace(s[i])
    {
      assert s[i] == f[i - lo];
    }
  }

  /** The two loops leave a middle part with only whitespace cut from either side. */
  lemma TrimLoops(s: string)
    ensures Trimmed(TrimBack(TrimFront(s)))
    ensures TrimSplit(s, TrimBack(TrimFront(s)), |s| - |TrimFront(s)|)
  {
    CutBothEnds(s, TrimFront(s), TrimBack(TrimFront(s)));
  }

  /** `trim`: the longest middle part of `s` with no whitespace at either end. */
  function Trim(s: string): (r: string)
    ensures Trimmed(r)
    ensures exists lo :: TrimSplit(s, r, lo)
  {
    TrimLoops(s);
    TrimBack(TrimFront(s))
  }

  /** Two cuts of `s` with no whitespace at their ends agree when one of them is not empty. */
  lemma SameCut(s: string, r: string, lo: int, t: string, lo': int)
    requires TrimSplit(s, r, lo) && Trimmed(r) && r != []
    requires TrimSplit(s, t, lo') && Trimmed(t)
    ensures t == r
  {
    assert !IsSpace(s[lo]) && !IsSpace(s[lo + |r| - 1]);
    if t != [] {
      assert !IsSpace(s[lo']) && !IsSpace(s[lo' + |t| - 1]);
      assert lo == lo' && |r| == |t|;
    }
  }

  /**
   * The cut is unique: a non-empty middle part without whitespace at its
   * ends, surrounded only by whitespace, is the trimmed view; and a view
   * that is whitespace throughout trims to nothing.
   */
  lemma TrimUnique(s: string, r: string, lo: int)
    requires TrimSplit(s, r, lo) && Trimmed(r)
    ensures r != [] ==> Trim(s) == r
    ensures SpacesBetween(s, 0, |s|) ==> Trim(s) == []
  {
    var t := Trim(s);
    var lo' :| TrimSplit(s, t, lo');
    if r != [] {
      SameCut(s, r, lo, t, lo');
    }
    if t != [] {
      assert !IsSpace(s[lo']);
    }
  }

  /** A view whose ends are not whitespace is left as it is. */
  lemma TrimKeepsTrimmed(s: string)
    requires Trimmed(s)
    ensures Trim(s) == s
  {
    assert s[0..0 + |s|] == s;
    TrimUnique(s, s, 0);
  }

  /** Trimming twice is trimming once. */
  lemma TrimIdempotent(s: string)
    ensures Trim(Trim(s)) == Trim(s)
  {
    TrimKeepsTrimmed(Trim(s));
  }

  /** The four parts of a path: `directory + filename`, `filename == stem + extension`. */
  datatype PathInfo = PathInfo(directory: string, filename: string, stem: string, extension: string)

  /**
   * The directory part of `parse_path`: cut after the last '/', or after
   * the last '\\' when there is no '/'.
   */
  function SplitDirectory(path: string): (parts: (string, string))
    ensures parts.0 + parts.1 == path
    ensures '/' in path ==> parts.0 != [] && parts.0[|parts.0| - 1] == '/' && '/' !in parts.1
    ensures '/' !in path ==> '\\' !in parts.1
    ensures '/' !in path && '\\' in path ==> parts.0 != [] && parts.0[|parts.0| - 1] == '\\'
    ensures '/' !in path && '\\' !in path ==> parts.0 == []
  {
    var slash := RFind(path, '/');
    var sep := if slash.None? then RFind(path, '\\') else slash;
    if sep.Some? then
      assert path[..sep.value + 1] + path[sep.value + 1..] == path;
      (path[..sep.value + 1], path[sep.value + 1..])
    else ("", path)
  }

  /**
   * The extension part of `parse_path`: split at the last '.' unless that
   * '.' is the first character.
   */
  function SplitExtension(filename: string): (parts: (string, string))
    ensures parts.0 + parts.1 == filename
    ensures parts.1 != [] <==> |filename| > 0 && '.' in filename[1..]
    ensures parts.1 != [] ==> parts.1[0] == '.' && '.' !in parts.1[1..]
  {
    var dot := RFind(filename, '.');
    if dot.Some? && dot.value > 0 then
      assert filename[1..] == filename[1..dot.value] + filename[dot.value..];
      assert filename[dot.value..][0] == '.';
      assert filename[dot.value..][1..] == filename[dot.value + 1..];
      assert filename[..dot.value] + filename[dot.value..] == filename;
      (filename[..dot.value], filename[dot.value..])
    else
      assert dot.Some? ==> filename[1..] == filename[dot.value + 1..];
      (filename, "")
  }

  /** `parse_path`: directory, filename, stem and extension of a path. */
  function ParsePath(path: string): (info: PathInfo)
    ensures info.directory + info.filename == path
    ensures '/' in path ==> info.directory != [] && info.directory[|info.directory| - 1] == '/' && '/' !in info.filename
    ensures '/' !in path ==> '\\' !in info.filename
    ensures '/' !in path && '\\' in path ==> info.directory != [] && info.directory[|info.directory| - 1] == '\\'
    ensures '/' !in path && '\\' !in path ==> info.directory == []
    ensures info.stem + info.extension == info.filename
    ensures info.extension != [] <==> |info.filename| > 0 && '.' in info.filename[1..]
    ensures info.extension != [] ==> info.extension[0] == '.' && '.' !in info.extension[1..]
  {
    var d := SplitDirectory(path);
    var e := SplitExtension(d.1);
    PathInfo(d.0, d.1, e.0, e.1)
  }

  /** `get_extension`: everything from the last '.', with no leading-dot or separator guard. */
  function GetExtension(path: string): (ext: string)
    ensures |ext| <= |path| && ext == path[|path| - |ext|..]
    ensures ext == [] <==> '.' !in path
    ensures ext != [] ==> ext[0] == '.' && '.' !in ext[1..]
  {
    match RFind(path, '.')
    case Some(pos) =>
      assert path[pos..][1..] == path[pos + 1..];
      path[pos..]
    case None => ""
  }

  /** `equal_ignore_case`: equal lengths and equal after `tolower` at every index. */
  method EqualIgnoreCase(sv1: string, sv2: string) returns (equal: bool)
    ensures equal <==> LowerString(sv1) == LowerString(sv2)
    ensures |sv1| != |sv2| ==> !equal
    ensures sv1 == sv2 ==> equal
  {
    if |sv1| != |sv2| {
      return false;
    }
    var i := 0;
    while i < |sv1|
      invariant i <= |sv1|
      invariant forall j :: 0 <= j < i ==> ToLower(sv1[j]) == ToLower(sv2[j])
    {
      if ToLower(sv1[i]) != ToLower(sv2[i]) {
        assert LowerString(sv1)[i] != LowerString(sv2)[i];
        return false;
      }
      i := i + 1;
    }
    return true;
  }

  /** An occurrence with none after it is the one `rfind` reports. */
  lemma RFindAt(s: string, c: char, k: nat)
    requires k < |s| && s[k] == c && c !in s[k + 1..]
    ensures RFind(s, c) == Some(k)
  {
    assert s[k] in s;
  }

  /** A path whose last '/' is at `k` splits right after it. */
  lemma SplitDirectoryAt(path: string, k: nat)
    requires k < |path| && path[k] == '/' && '/' !in path[k + 1..]
    ensures SplitDirectory(path) == (path[..k + 1], path[k + 1..])
  {
    RFindAt(path, '/', k);
  }

  /** A name whose last '.' is at `k > 0` has the extension from `k` on. */
  lemma SplitExtensionAt(filename: string, k: nat)
    requires 0 < k < |filename| && filename[k] == '.' && '.' !in filename[k + 1..]
    ensures SplitExtension(filename) == (filename[..k], filename[k..])
  {
    RFindAt(filename, '.', k);
  }

  /** Where the last '/' of "/home/user/document.txt" is. */
  lemma DocumentPathText(p: string)
    requires p == "/home/user/document.txt"
    ensures |p| == 23 && p[10] == '/' && p[..11] == "/home/user/" && p[11..] == "document.txt"
  {
  }

  /** Where the last '.' of "document.txt" is, and that it holds no '/'. */
  lemma DocumentNameText(f: string)
    requires f == "document.txt"
    ensures '/' !in f && f[8] == '.' && f[..8] == "document" && f[8..] == ".txt" && '.' !in f[9..]
  {
    assert forall i :: 0 <= i < |f| ==> f[i] != '/';
    assert f[9..] == "txt";
  }

  /** "/home/user/document.txt" splits into "/home/user/", "document", ".txt". */
  lemma ParsePathExample()
    ensures ParsePath("/home/user/document.txt") == PathInfo("/home/user/", "document.txt", "document", ".txt")
  {
    var p := "/home/user/document.txt";
    DocumentPathText(p);
    var f := p[11..];
    DocumentNameText(f);
    SplitDirectoryAt(p, 10);
    SplitExtensionAt(f, 8);
  }

  /** "archive.tar.gz" has no separator and its last '.' before "gz". */
  lemma ArchiveText(p: string)
    requires p == "archive.tar.gz"
    ensures '/' !in p && '\\' !in p
    ensures p[11] == '.' && '.' !in p[12..] && p[..11] == "archive.tar" && p[11..] == ".gz"
  {
    assert forall i :: 0 <= i < |p| ==> p[i] != '/' && p[i] != '\\';
    assert p[12..] == "gz";
  }

  /** "archive.tar.gz" keeps only ".gz" as its extension. */
  lemma ArchiveExample()
    ensures ParsePath("archive.tar.gz") == PathInfo("", "archive.tar.gz", "archive.tar", ".gz")
    ensures GetExtension("archive.tar.gz") == ".gz"
  {
    var p := "archive.tar.gz";
    ArchiveText(p);
    SplitExtensionAt(p, 11);
    RFindAt(p, '.', 11);
  }

  /** ".bashrc" has its only '.' in front and no separator, and "noextension" has no '.'. */
  lemma DotFileText(p: string, q: string)
    requires p == ".bashrc" && q == "noextension"
    ensures p[0] == '.' && '.' !in p[1..] && p[0..] == p
    ensures '/' !in p && '\\' !in p
    ensures '.' !in q
  {
    assert p[1..] == "bashrc";
    assert forall i :: 0 <= i < |p| ==> p[i] != '/' && p[i] != '\\';
    assert forall i :: 0 <= i < |q| ==> q[i] != '.';
  }

  /**
   * A leading dot: `get_extension(".bashrc")` is the whole name, while
   * `parse_path` gives it no extension.
   */
  lemma DotFileExample()
    ensures GetExtension(".bashrc") == ".bashrc"
    ensures ParsePath(".bashrc").extension == ""
  {
    var p := ".bashrc";
    DotFileText(p, "noextension");
    RFindAt(p, '.', 0);
    assert SplitDirectory(p) == ("", p);
  }

  /** A name without a '.' has no extension. */
  lemma NoExtensionExample()
    ensures GetExtension("noextension") == ""
  {
    DotFileText(".bashrc", "noextension");
  }
}

/** The file filter of the default file-filter factory: a pattern with at
    most one meaningful `*` matched against the last path component of a
    file. */
module FileFilters {
  import opened Wrappers
  import JavaStrings

  /** The trimmed pattern, `None` when constructed from `null`. */
  datatype FileFilter = FileFilter(pattern: Option<string>)

  function NewFileFilter(filterString: Option<string>): (f: FileFilter)
    ensures filterString.None? <==> f.pattern.None?
    ensures filterString.Some? ==> f.pattern.value == JavaStrings.Trim(filterString.value)
  {
    match filterString
    case None => FileFilter(None)
    case Some(s) => FileFilter(Some(JavaStrings.Trim(s)))
  }

  /** The part of a path after its last separator, or the whole path when
      it has none. */
  function BaseName(path: string, sep: char): (r: string)
    ensures sep !in r
    ensures JavaStrings.EndsWith(path, r)
    ensures sep !in path ==> r == path
    ensures sep in path ==> path[|path| - |r| - 1] == sep
  {
    var i := JavaStrings.LastIndexOfChar(path, sep);
    if i == -1 then path else path[i + 1..]
  }

  /** The basename `accept` compares: that of the trimmed absolute path. */
  function FileName(absolutePath: string, sep: char): string {
    BaseName(JavaStrings.Trim(absolutePath), sep)
  }

  /** `accept` as written: no `*` asks for equality, a lone `*` takes
      everything, a leading `*` asks for the rest as a suffix, a trailing
      one for the rest as a prefix, and an interior one for the part before
      as a prefix and the part after as a suffix.  Only the first `*` is
      special.  A `null` pattern or path accepts. */
  function AcceptAsWritten(f: FileFilter, absolutePath: Option<string>, sep: char): (r: bool)
    ensures f.pattern.None? || absolutePath.None? ==> r
  {
    f.pattern.None? || absolutePath.None?
    || NameAcceptedAsWritten(f.pattern.value, FileName(absolutePath.value, sep))
  }

  /** The test `accept` makes on the file name. */
  function NameAcceptedAsWritten(pattern: string, file: string): bool {
    var index := JavaStrings.IndexOfChar(pattern, '*');
    if index == -1 then pattern == file
    else if index == 0 then
      if |pattern| == 1 then true else JavaStrings.EndsWith(file, pattern[1..])
    else if index == |pattern| - 1 then JavaStrings.StartsWith(file, pattern[..|pattern| - 1])
    else JavaStrings.StartsWith(file, pattern[..index]) && JavaStrings.EndsWith(file, pattern[index + 1..])
  }

  /** What a one-star pattern means: the name is the part before the star,
      then anything, then the part after it. */
  ghost predicate GlobMatch(pre: string, post: string, name: string) {
    exists mid :: Glue(pre, mid, post) == name
  }

  function Glue(pre: string, mid: string, post: string): string {
    pre + mid + post
  }

  /** The reference meaning of a pattern: literal without a star,
      otherwise a glob on its first star. */
  ghost predicate Matches(pattern: string, name: string) {
    var index := JavaStrings.IndexOfChar(pattern, '*');
    if index == -1 then pattern == name
    else GlobMatch(pattern[..index], pattern[index + 1..], name)
  }

  /** A name is matched exactly when it is long enough for both parts,
      starts with the first and ends with the second. */
  lemma GlobMatchIff(pre: string, post: string, name: string)
    ensures GlobMatch(pre, post, name) <==>
      |pre| + |post| <= |name| && JavaStrings.StartsWith(name, pre) && JavaStrings.EndsWith(name, post)
  {
    if |pre| + |post| <= |name| && JavaStrings.StartsWith(name, pre) && JavaStrings.EndsWith(name, post) {
      var mid := name[|pre|..|name| - |post|];
      assert Glue(pre, mid, post) == name;
    }
  }

  /** `accept` with the length check that keeps the two parts from
      overlapping. */
  function Accept(f: FileFilter, absolutePath: Option<string>, sep: char): (r: bool)
    ensures r <==> (f.pattern.None? || absolutePath.None? ||
                    Matches(f.pattern.value, FileName(absolutePath.value, sep)))
  {
    f.pattern.None? || absolutePath.None?
    || NameAccepted(f.pattern.value, FileName(absolutePath.value, sep))
  }

  function NameAccepted(pattern: string, file: string): (r: bool)
    ensures r <==> Matches(pattern, file)
  {
    var index := JavaStrings.IndexOfChar(pattern, '*');
    if index == -1 then pattern == file
    else
      GlobMatchIff(pattern[..index], pattern[index + 1..], file);
      |pattern| - 1 <= |file|
      && JavaStrings.StartsWith(file, pattern[..index]) && JavaStrings.EndsWith(file, pattern[index + 1..])
  }

  /** The two agree except when the star is interior and the name is too
      short for both parts. */
  lemma AcceptAgreesAsWritten(f: FileFilter, absolutePath: Option<string>, sep: char)
    requires f.pattern.Some? && absolutePath.Some?
    requires var i := JavaStrings.IndexOfChar(f.pattern.value, '*');
      i <= 0 || i == |f.pattern.value| - 1 || |f.pattern.value| - 1 <= |FileName(absolutePath.value, sep)|
    ensures Accept(f, absolutePath, sep) == AcceptAsWritten(f, absolutePath, sep)
  {
    NameTestsAgree(f.pattern.value, FileName(absolutePath.value, sep));
  }

  lemma NameTestsAgree(pattern: string, file: string)
    requires var i := JavaStrings.IndexOfChar(pattern, '*');
      i <= 0 || i == |pattern| - 1 || |pattern| - 1 <= |file|
    ensures NameAccepted(pattern, file) == NameAcceptedAsWritten(pattern, file)
  {
    var index := JavaStrings.IndexOfChar(pattern, '*');
    if index >= 0 {
      var pre, post := pattern[..index], pattern[index + 1..];
      assert |pre| + |post| == |pattern| - 1;
      var guarded := |pattern| - 1 <= |file|
        && JavaStrings.StartsWith(file, pre) && JavaStrings.EndsWith(file, post);
      assert NameAccepted(pattern, file) == guarded;
      if index == 0 {
        assert pre == [] && post == pattern[1..];
        assert JavaStrings.StartsWith(file, pre);
      } else if index == |pattern| - 1 {
        assert post == [] && pre == pattern[..|pattern| - 1];
        assert JavaStrings.EndsWith(file, post);
      }
    }
  }

  /** A path with no blank at either end is its own trimmed form. */
  lemma TrimUnblank(s: string)
    requires |s| > 0 && s[0] > ' ' && s[|s| - 1] > ' '
    ensures JavaStrings.Trim(s) == s
  {
    assert JavaStrings.LeadingBlank(s) == 0;
    assert s[0..] == s;
    assert JavaStrings.TrailingBlank(s) == 0;
  }

  lemma OverlapFileName()
    ensures FileName("/tmp/aba", '/') == "aba"
  {
    var path := "/tmp/aba";
    TrimUnblank(path);
    assert path[4] == '/' && '/' !in path[5..];
    assert JavaStrings.LastIndexOfChar(path, '/') == 4;
  }

  /** The as-written check lets the prefix and suffix overlap: `ab*ba`
      accepts `aba`, which it does not match. */
  lemma AcceptAsWrittenOverlap()
    ensures AcceptAsWritten(FileFilter(Some("ab*ba")), Some("/tmp/aba"), '/')
    ensures !Accept(FileFilter(Some("ab*ba")), Some("/tmp/aba"), '/')
  {
    OverlapFileName();
    OverlapName();
  }

  lemma OverlapName()
    ensures NameAcceptedAsWritten("ab*ba", "aba") && !NameAccepted("ab*ba", "aba")
  {
    var p := "ab*ba";
    assert p[2] == '*' && '*' !in p[..2];
    assert JavaStrings.IndexOfChar(p, '*') == 2;
    assert p[..2] == "ab" && p[3..] == "ba";
  }
}

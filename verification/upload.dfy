/**
  The upload filter of the SIEM dashboard: a file may be uploaded only when
  its name has an extension, taken after the LAST `.`, that is `json` or
  `csv` in any letter case.
 */
module Upload {
  import opened Wrappers
  import opened AsciiText

  /** The extensions an upload may carry, in lower case. */
  const AllowedExtensions: set<string> := {"json", "csv"}

  /** Python's `s.rfind(c)`, with `None` for Python's `-1`. */
  function LastIndexOf(s: string, c: char): (r: Option<nat>)
    ensures r.None? <==> c !in s
    ensures r.Some? ==> r.value < |s| && s[r.value] == c && c !in s[r.value + 1..]
  {
    if s == [] then None
    else if s[|s| - 1] == c then Some(|s| - 1)
    else
      var r := LastIndexOf(s[..|s| - 1], c);
      assert r.Some? ==> s[r.value + 1..] == s[..|s| - 1][r.value + 1..] + [s[|s| - 1]];
      assert s == s[..|s| - 1] + [s[|s| - 1]];
      r
  }

  /** Python's `s.rsplit(sep, 1)`: the whole string when `sep` does not
      occur, otherwise the text before and the text after its last
      occurrence. Joining the parts gives back `s`. */
  function RSplitOnce(s: string, sep: char): (parts: seq<string>)
    ensures 1 <= |parts| <= 2
    ensures |parts| == 1 <==> sep !in s
    ensures |parts| == 1 ==> parts[0] == s
    ensures |parts| == 2 ==> s == parts[0] + [sep] + parts[1] && sep !in parts[1]
  {
    match LastIndexOf(s, sep)
    case None => [s]
    case Some(k) =>
      assert s == s[..k] + [sep] + s[k + 1..];
      [s[..k], s[k + 1..]]
  }

  /** Splitting undoes joining: a string built as `stem + sep + tail` with no
      `sep` in `tail` splits back into `stem` and `tail`, whatever `stem` holds. */
  lemma RSplitOnceOfJoin(stem: string, sep: char, tail: string)
    requires sep !in tail
    ensures RSplitOnce(stem + [sep] + tail, sep) == [stem, tail]
  {
    var s := stem + [sep] + tail;
    assert s[|stem|] == sep;
    var parts := RSplitOnce(s, sep);
    assert |parts| == 2;
    var k := |parts[0]|;
    assert s[k] == sep;
    assert sep !in s[k + 1..];
    assert k == |stem|;
    assert parts[0] == s[..k] == stem;
    assert parts[1] == s[k + 1..] == tail;
  }

  /** Python's `allowed_file(filename)`. */
  function AllowedFile(filename: string): (ok: bool)
    ensures '.' !in filename ==> !ok
  {
    '.' in filename && Lower(RSplitOnce(filename, '.')[1]) in AllowedExtensions
  }

  /** Reference definition: some `.` in the name is followed by no other `.`
      and by text that lower-cases to an allowed extension. */
  ghost predicate HasAllowedExtension(filename: string)
  {
    exists k :: 0 <= k < |filename| && filename[k] == '.' && '.' !in filename[k + 1..]
      && Lower(filename[k + 1..]) in AllowedExtensions
  }

  /** For a name written as `stem.ext` with no `.` in `ext`, acceptance depends
      on `ext` alone, whatever the stem (it may be empty or hold dots). */
  lemma AllowedFileOfParts(stem: string, ext: string)
    requires '.' !in ext
    ensures AllowedFile(stem + "." + ext) <==> Lower(ext) in AllowedExtensions
  {
    RSplitOnceOfJoin(stem, '.', ext);
  }

  /** The allowed extensions are exactly `json` and `csv`: a name `stem.ext`
      is accepted exactly when `ext` lower-cases to one of the two. */
  lemma AllowedExtensionsJsonCsv(stem: string, ext: string)
    requires '.' !in ext
    ensures AllowedFile(stem + "." + ext) <==> Lower(ext) == "json" || Lower(ext) == "csv"
  {
    AllowedFileOfParts(stem, ext);
  }

  /** `allowed_file` accepts exactly the names whose text after the last `.`
      is an allowed extension up to case. */
  lemma AllowedFileIff(filename: string)
    ensures AllowedFile(filename) <==> HasAllowedExtension(filename)
  {
    if HasAllowedExtension(filename) {
      var k :| 0 <= k < |filename| && filename[k] == '.' && '.' !in filename[k + 1..]
        && Lower(filename[k + 1..]) in AllowedExtensions;
      assert filename == filename[..k] + "." + filename[k + 1..];
      AllowedFileOfParts(filename[..k], filename[k + 1..]);
    }
    if AllowedFile(filename) {
      var parts := RSplitOnce(filename, '.');
      var k := |parts[0]|;
      assert filename[k] == '.';
      assert filename[k + 1..] == parts[1];
    }
  }

  /** The extension test ignores case: upper-casing the extension does not
      change the verdict. */
  lemma ExtensionCaseInsensitive(stem: string, ext: string)
    requires '.' !in ext
    ensures AllowedFile(stem + "." + Upper(ext)) == AllowedFile(stem + "." + ext)
  {
    CaseKeepsNonLetters(ext, '.');
    assert '.' !in Upper(ext);
    AllowedFileOfParts(stem, ext);
    AllowedFileOfParts(stem, Upper(ext));
    LowerOfUpper(ext);
  }

  /** Upper-casing distributes over a `stem.ext` split. */
  lemma UpperOfJoin(stem: string, ext: string)
    ensures Upper(stem + "." + ext) == Upper(stem) + "." + Upper(ext)
  {
    var l, r := Upper(stem + "." + ext), Upper(stem) + "." + Upper(ext);
    assert forall i :: 0 <= i < |l| ==> l[i] == r[i];
  }

  /** Upper-casing the whole name does not change the verdict either. */
  lemma NameCaseInsensitive(filename: string)
    ensures AllowedFile(Upper(filename)) == AllowedFile(filename)
  {
    CaseKeepsNonLetters(filename, '.');
    if '.' in filename {
      var parts := RSplitOnce(filename, '.');
      var stem, ext := parts[0], parts[1];
      UpperOfJoin(stem, ext);
      ExtensionCaseInsensitive(stem, ext);
      CaseKeepsNonLetters(ext, '.');
      AllowedFileOfParts(stem, Upper(ext));
      AllowedFileOfParts(Upper(stem), Upper(ext));
    } else {
      assert '.' !in Upper(filename) by {
        assert forall i :: 0 <= i < |filename| ==> Upper(filename)[i] != '.';
      }
    }
  }

  /** A name ending in `.` has an empty extension and is refused. */
  lemma EmptyExtensionRejected(stem: string)
    ensures !AllowedFile(stem + ".")
  {
    AllowedFileOfParts(stem, "");
  }

  /** Only the last extension counts: a name with an allowed extension
      after another one is accepted ... */
  lemma InnerExtensionIgnored()
    ensures AllowedFile("a.tar.json")
  {
    assert "a.tar" + "." + "json" == "a.tar.json";
    AllowedFileOfParts("a.tar", "json");
    assert Lower("json") == [ToLower('j'), ToLower('s'), ToLower('o'), ToLower('n')];
  }

  /** ... and a name whose allowed extension is followed by another is refused. */
  lemma OuterExtensionDecides()
    ensures !AllowedFile("a.json.exe")
  {
    assert "a.json" + "." + "exe" == "a.json.exe";
    AllowedFileOfParts("a.json", "exe");
    assert Lower("exe") == [ToLower('e'), ToLower('x'), ToLower('e')];
  }

  /** An upper-case extension is accepted. */
  lemma UpperCaseExtensionAccepted()
    ensures AllowedFile("LOG.JSON")
  {
    assert "LOG" + "." + "JSON" == "LOG.JSON";
    AllowedFileOfParts("LOG", "JSON");
    assert Lower("JSON") == [ToLower('J'), ToLower('S'), ToLower('O'), ToLower('N')];
  }

  /** A name that is nothing but an extension is accepted. */
  lemma EmptyStemAccepted()
    ensures AllowedFile(".csv")
  {
    assert "" + "." + "csv" == ".csv";
    AllowedFileOfParts("", "csv");
    assert Lower("csv") == [ToLower('c'), ToLower('s'), ToLower('v')];
  }

}

/** The upload extension rule: a file is accepted when the text after the last
    '.' of its name, lower-cased, is "xlsx". */
module Filenames {

  /** The only allowed extension. */
  const AllowedExtension: string := "xlsx"

  /** Lower-cases the ASCII capitals A-Z and leaves every other character as it is. */
  function LowerChar(ch: char): char {
    if 'A' <= ch <= 'Z' then (ch as int - 'A' as int + 'a' as int) as char else ch
  }

  function Lower(s: string): (r: string)
    ensures |r| == |s|
    ensures forall i :: 0 <= i < |s| ==> r[i] == LowerChar(s[i])
  {
    if s == [] then [] else [LowerChar(s[0])] + Lower(s[1..])
  }

  /** Splits s at its last occurrence of sep, at most once, as Python's
      s.rsplit(sep, 1): one piece when sep does not occur, two otherwise. */
  function RSplitOnce(s: string, sep: char): (parts: seq<string>)
    ensures sep !in s ==> parts == [s]
    ensures sep in s ==> |parts| == 2 && s == parts[0] + [sep] + parts[1] && sep !in parts[1]
  {
    if s == [] then [s]
    else if s[|s| - 1] == sep then [s[..|s| - 1], []]
    else
      var init := RSplitOnce(s[..|s| - 1], sep);
      assert s == s[..|s| - 1] + [s[|s| - 1]];
      if |init| == 1 then [s] else [init[0], init[1] + [s[|s| - 1]]]
  }

  /** The extension rule of the upload route. */
  predicate AllowedFile(filename: string) {
    '.' in filename && Lower(RSplitOnce(filename, '.')[1]) in {AllowedExtension}
  }

  /** A name is allowed exactly when its last five characters are '.' followed
      by "xlsx" in any mix of letter case. */
  lemma {:induction false} AllowedFileIffEndsWithXlsx(filename: string)
    ensures AllowedFile(filename) <==>
              (|filename| >= 5 && filename[|filename| - 5] == '.'
               && Lower(filename[|filename| - 4..]) == AllowedExtension)
  {
    var n := |filename|;
    if AllowedFile(filename) {
      var parts := RSplitOnce(filename, '.');
      assert |parts[1]| == 4;
      assert filename[n - 4..] == parts[1];
      assert filename[n - 5] == '.' by {
        assert filename == parts[0] + ['.'] + parts[1];
      }
    }
    if n >= 5 && filename[n - 5] == '.' && Lower(filename[n - 4..]) == AllowedExtension {
      var tail := filename[n - 4..];
      assert '.' !in tail by {
        forall i | 0 <= i < 4 ensures tail[i] != '.' {
          assert Lower(tail)[i] == LowerChar(tail[i]);
          assert AllowedExtension[i] != '.';
        }
      }
      assert filename == filename[..n - 5] + ['.'] + tail;
      assert '.' in filename by { assert filename[n - 5] == '.'; }
      var parts := RSplitOnce(filename, '.');
      SplitAtLastOccurrence(filename[..n - 5], tail, parts[0], parts[1], '.');
    }
  }

  /** The piece after the last separator is determined by the string. */
  lemma {:induction false} SplitAtLastOccurrence(a: string, b: string, c: string, d: string, sep: char)
    requires a + [sep] + b == c + [sep] + d
    requires sep !in b && sep !in d
    ensures b == d
  {
    var s := a + [sep] + b;
    forall i | |a| < i < |s| ensures s[i] != sep {
      assert s[i] == b[i - |a| - 1];
    }
    forall i | |c| < i < |s| ensures s[i] != sep {
      assert s[i] == (c + [sep] + d)[i] == d[i - |c| - 1];
    }
    assert s[|a|] == sep && s[|c|] == sep;
    assert |a| == |c|;
    assert b == s[|a| + 1..] == d;
  }

  /** The extension is compared case-insensitively. */
  lemma UpperCaseExtensionAllowed()
    ensures AllowedFile("a.XLSX")
  {
    var parts := RSplitOnce("a.XLSX", '.');
    assert "a.XLSX" == "a" + ['.'] + "XLSX";
    assert '.' !in "XLSX";
    SplitAtLastOccurrence("a", "XLSX", parts[0], parts[1], '.');
    var l := Lower("XLSX");
    assert l[0] == 'x' && l[1] == 'l' && l[2] == 's' && l[3] == 'x';
    assert l == "xlsx";
  }

  /** A name without a '.' is refused, even when it is the extension itself. */
  lemma BareExtensionRefused()
    ensures !AllowedFile("xlsx")
  {
    assert "xlsx"[0] != '.' && "xlsx"[1] != '.' && "xlsx"[2] != '.' && "xlsx"[3] != '.';
  }

  /** Only the last extension counts. */
  lemma InnerExtensionRefused()
    ensures !AllowedFile("a.xlsx.csv")
  {
    AllowedFileIffEndsWithXlsx("a.xlsx.csv");
    assert "a.xlsx.csv"[5] == 'x';
  }
}

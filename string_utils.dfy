/**
 * The commons-lang `StringUtils.substringAfterLast` the Maven file
 * converter uses, specialised to a one-character separator.
 */
module StringUtils {

  /** `String.lastIndexOf`: the position of the last `c` in `s`, or -1. */
  function LastIndexOf(s: string, c: char): (r: int)
    ensures r == -1 <==> c !in s
    ensures r != -1 ==> 0 <= r < |s| && s[r] == c
    ensures r != -1 ==> forall j :: r < j < |s| ==> s[j] != c
  {
    if |s| == 0 then -1
    else if s[|s| - 1] == c then |s| - 1
    else
      assert s == s[..|s| - 1] + [s[|s| - 1]];
      LastIndexOf(s[..|s| - 1], c)
  }

  /**
   * The text after the last `separator`: empty when `str` is empty, has no
   * separator, or ends with it.
   */
  function SubstringAfterLast(str: string, separator: char): (r: string)
    ensures separator !in r
    ensures separator !in str ==> r == ""
    ensures separator in str ==> |r| < |str| && str == str[..|str| - |r| - 1] + [separator] + r
  {
    if |str| == 0 then str
    else
      var pos := LastIndexOf(str, separator);
      if pos == -1 || pos == |str| - 1 then ""
      else
        assert str == str[..pos] + [separator] + str[pos + 1..];
        str[pos + 1..]
  }

  lemma ExtensionOfReportZip()
    ensures SubstringAfterLast("report.zip", '.') == "zip"
  {
    LastDotAt("report.zip", 6);
  }

  lemma ExtensionOfFileZip()
    ensures SubstringAfterLast("file.zip", '.') == "zip"
  {
    LastDotAt("file.zip", 4);
  }

  lemma NoExtensionWithoutDot()
    ensures SubstringAfterLast("README", '.') == ""
  {
  }

  lemma ExtensionOfArchiveTarGz()
    ensures SubstringAfterLast("archive.tar.gz", '.') == "gz"
  {
    LastDotAt("archive.tar.gz", 11);
  }

  /** When the last `.` of `s` is at `k`, the text after the last `.` starts at `k + 1`. */
  lemma LastDotAt(s: string, k: nat)
    requires k < |s| && s[k] == '.'
    requires forall j :: k < j < |s| ==> s[j] != '.'
    ensures SubstringAfterLast(s, '.') == s[k + 1..]
  {
    var r := SubstringAfterLast(s, '.');
    assert s == s[..|s| - |r| - 1] + ['.'] + r;
    assert s[|s| - |r| - 1] == '.';
    assert |s| - |r| - 1 == k;
  }
}

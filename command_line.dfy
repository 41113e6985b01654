/**
 * CommandLine: the file named on the command line at start-up. The raw
 * command line is a NUL-terminated wide string that may be absent; one pair
 * of surrounding double quotes is removed with std::wstring::substr, whose
 * count argument is a size_t.
 */
module CommandLine {

  import opened Wrappers
  import Sequences

  /** size_t is 64 bits wide: arithmetic on it wraps modulo 2^64. */
  const SizeTModulus: int := 0x1_0000_0000_0000_0000

  /** An int converted to size_t. */
  function SizeT(n: int): (r: nat)
    ensures r < SizeTModulus
    ensures 0 <= n < SizeTModulus ==> r == n
    ensures -SizeTModulus <= n < 0 ==> r == n + SizeTModulus
  {
    n % SizeTModulus
  }

  /** std::wstring::substr(pos, count): at most count characters from pos on. */
  function SubStr(s: string, pos: nat, count: nat): (r: string)
    requires pos <= |s|
    ensures |r| <= count && pos + |r| <= |s| && r == s[pos..pos + |r|]
    ensures |r| < count ==> pos + |r| == |s|
  {
    if count <= |s| - pos then s[pos..pos + count] else s[pos..]
  }

  /** The std::wstring built from a NUL-terminated buffer: the characters before the first NUL. */
  function WideString(buffer: string): (r: string)
    ensures |r| <= |buffer| && r == buffer[..|r|] && '\0' !in r
    ensures |r| < |buffer| ==> buffer[|r|] == '\0'
  {
    buffer[..Sequences.FirstIndex(buffer, '\0')]
  }

  predicate IsQuoted(s: string) {
    s != [] && s[0] == '"' && s[|s| - 1] == '"'
  }

  /** The quote removal: substr(1, length() - 2) on a string that starts and ends with a quote. */
  function StripQuotes(s: string): (r: string)
    ensures |r| <= |s|
  {
    if IsQuoted(s) then SubStr(s, 1, SizeT(|s| - 2)) else s
  }

  /** The initial file: empty for an absent or empty command line, else the string with one pair of quotes removed. */
  function InitialFile(cmdLine: Option<string>): (r: string)
    ensures '\0' !in r
    ensures cmdLine.Some? ==> |r| <= |cmdLine.value|
  {
    if cmdLine.Some? && cmdLine.value != [] && cmdLine.value[0] != '\0' then StripQuotes(WideString(cmdLine.value))
    else ""
  }

  /** An absent or empty command line names no file. */
  lemma NoCommandLine(cmdLine: Option<string>)
    requires cmdLine.None? || cmdLine.value == [] || cmdLine.value[0] == '\0'
    ensures InitialFile(cmdLine) == ""
  {
  }

  /** Characters after the terminating NUL are never read. */
  lemma {:induction false} StopsAtNul(a: string, b: string)
    requires a != [] && '\0' !in a
    ensures InitialFile(Some(a + ['\0'] + b)) == InitialFile(Some(a))
  {
    var buf := a + ['\0'] + b;
    assert buf[|a|] == '\0';
    assert forall j :: 0 <= j < |a| ==> buf[j] == a[j];
    assert Sequences.FirstIndex(buf, '\0') == |a|;
    assert buf[..|a|] == a;
    assert WideString(a) == a by {
      assert a[..|a|] == a;
    }
  }

  /**
   * A quoted string of at least two characters loses exactly its first and
   * last character (a std::wstring's length is itself a size_t).
   */
  lemma QuotedStripped(s: string)
    requires '\0' !in s && 2 <= |s| < SizeTModulus && s[0] == '"' && s[|s| - 1] == '"'
    ensures InitialFile(Some(s)) == s[1..|s| - 1]
  {
    assert WideString(s) == s;
    assert SizeT(|s| - 2) == |s| - 2;
    assert StripQuotes(s) == SubStr(s, 1, |s| - 2) == s[1..|s| - 1];
  }

  /** Any other string is kept as it is. */
  lemma UnquotedKept(s: string)
    requires '\0' !in s && s != [] && !IsQuoted(s)
    ensures InitialFile(Some(s)) == s
  {
    assert WideString(s) == s;
  }

  /** Quote removal changes the string exactly when it is quoted. */
  lemma StripQuotesChangesIffQuoted(s: string)
    ensures StripQuotes(s) != s <==> IsQuoted(s)
  {
    if IsQuoted(s) {
      assert |StripQuotes(s)| < |s|;
    }
  }

  /** A lone quote becomes the empty string: length() - 2 wraps to the largest size_t. */
  lemma LoneQuoteEmpty()
    ensures SizeT(|"\""| - 2) == SizeTModulus - 1
    ensures InitialFile(Some("\"")) == ""
  {
    assert WideString("\"") == "\"";
  }

  /** Only one layer of quotes goes: ""a"" becomes "a". */
  lemma OneLayerOnly()
    ensures InitialFile(Some("\"\"a\"\"")) == "\"a\""
  {
    var s := "\"\"a\"\"";
    assert '\0' !in s;
    QuotedStripped(s);
  }
}

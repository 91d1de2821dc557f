/**
  The fixed string tests of the copier: `String.startsWith`, the series-description
  test for sagittal T1 and T2-FLAIR series, and the file-name pattern
  `^i\d+\.MRDC\.\d+$` (GE scanner image files such as "i1234.MRDC.12").
 */
module DicomNames {

  /** `s.startsWith(prefix)`. */
  predicate StartsWith(s: string, prefix: string)
  {
    |prefix| <= |s| && s[..|prefix|] == prefix
  }

  /** A series description of the wanted protocols: it starts with "t1sag" or "t2flairsag". */
  predicate IsRightSeries(description: string)
  {
    StartsWith(description, "t1sag") || StartsWith(description, "t2flairsag")
  }

  /** `\d` in a Java regular expression without UNICODE_CHARACTER_CLASS. */
  predicate IsDigit(c: char)
  {
    '0' <= c <= '9'
  }

  predicate AllDigits(s: string)
  {
    forall i :: 0 <= i < |s| ==> IsDigit(s[i])
  }

  /** Length of the longest run of digits at the start of `s` (what a greedy `\d*` consumes). */
  function DigitRun(s: string): (n: nat)
    ensures n <= |s|
    ensures AllDigits(s[..n])
    ensures n < |s| ==> !IsDigit(s[n])
  {
    if s == [] || !IsDigit(s[0]) then 0
    else
      var m := DigitRun(s[1..]);
      assert s[..m + 1] == [s[0]] + s[1..][..m];
      m + 1
  }

  const Infix := ".MRDC."

  /**
    `name.matches("^i\\d+\\.MRDC\\.\\d+$")`: an "i", a run of digits, ".MRDC."
    and a run of digits that ends the name. The first run is taken greedily;
    since "." is not a digit, that is the only way to split the name.
   */
  predicate MatchesDicomFileRegex(name: string)
  {
    |name| > 0 && name[0] == 'i' &&
    var n := DigitRun(name[1..]);
    var rest := name[1 + n..];
    n > 0 && StartsWith(rest, Infix) && |rest| > |Infix| && AllDigits(rest[|Infix|..])
  }

  /** `name` is "i", then `first`, then ".MRDC.", then `second`, both non-empty digit strings. */
  ghost predicate SpelledAsDicomFileName(name: string, first: string, second: string)
  {
    && |first| > 0 && AllDigits(first)
    && |second| > 0 && AllDigits(second)
    && name == "i" + first + Infix + second
  }

  /** The language of `^i\d+\.MRDC\.\d+$`, stated by decomposition. */
  ghost predicate IsDicomFileName(name: string)
  {
    exists first, second :: SpelledAsDicomFileName(name, first, second)
  }

  /** A digit string followed by a non-digit: the greedy run stops exactly at its end. */
  lemma {:induction false} DigitRunOfDigitsThenOther(digits: string, rest: string)
    requires AllDigits(digits)
    requires rest != [] && !IsDigit(rest[0])
    ensures DigitRun(digits + rest) == |digits|
  {
    if digits != [] {
      assert (digits + rest)[0] == digits[0];
      assert (digits + rest)[1..] == digits[1..] + rest;
      DigitRunOfDigitsThenOther(digits[1..], rest);
    }
  }

  /** A name the matcher accepts splits into the pattern's two digit runs. */
  lemma MatchedNameIsSpelled(name: string) returns (first: string, second: string)
    requires MatchesDicomFileRegex(name)
    ensures SpelledAsDicomFileName(name, first, second)
  {
    var n := DigitRun(name[1..]);
    var rest := name[1 + n..];
    first, second := name[1..][..n], rest[|Infix|..];
    assert rest == Infix + second;
    assert name == [name[0]] + first + rest;
  }

  /** A name spelled as the pattern says is accepted by the matcher. */
  lemma SpelledNameMatches(name: string, first: string, second: string)
    requires SpelledAsDicomFileName(name, first, second)
    ensures MatchesDicomFileRegex(name)
  {
    assert name[1..] == first + (Infix + second);
    DigitRunOfDigitsThenOther(first, Infix + second);
    assert name[1 + |first|..] == Infix + second;
  }

  /** The matcher accepts exactly the names of the pattern's language. */
  lemma DicomFileRegexMeaning(name: string)
    ensures MatchesDicomFileRegex(name) <==> IsDicomFileName(name)
  {
    if MatchesDicomFileRegex(name) {
      var first, second := MatchedNameIsSpelled(name);
    }
    if IsDicomFileName(name) {
      var first, second :| SpelledAsDicomFileName(name, first, second);
      SpelledNameMatches(name, first, second);
    }
  }

  /** Every name the pattern accepts starts with "i", the only test the directory scan makes. */
  lemma DicomFileNameStartsWithI(name: string)
    ensures MatchesDicomFileRegex(name) ==> StartsWith(name, "i")
  {
    if MatchesDicomFileRegex(name) {
      assert name[..1] == [name[0]];
    }
  }

  /** The converse fails: "i1.dcm" starts with "i" but is not a name the pattern accepts. */
  lemma StartingWithIIsNotEnough()
    ensures StartsWith("i1.dcm", "i") && !MatchesDicomFileRegex("i1.dcm")
  {
    var rest := "1.dcm";
    assert "i1.dcm"[1..] == rest;
    DigitRunOfDigitsThenOther("1", ".dcm");
    assert "1" + ".dcm" == rest;
    assert "i1.dcm"[2..] == ".dcm";
  }
}

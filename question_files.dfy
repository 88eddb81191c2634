/** The file-name protocol between the stages: divide_questions.py writes each row crop
    as `question_<n>.jpg`, and the scanners recover n from the name, either by deleting
    the fixed parts (`name.replace('question_', '').replace('.jpg', '')`) or by taking
    the last `_`-separated piece of the stem (`Path(name).stem.split('_')[-1]`), and
    then calling `int()` on what is left. */
module QuestionFiles {
  import opened Basics

  const Prefix: string := "question_"
  const Extension: string := ".jpg"
  const OrigSuffix: string := "_orig.jpg"

  predicate IsDigit(c: char) { '0' <= c <= '9' }

  predicate AllDigits(s: string) { forall i :: 0 <= i < |s| ==> IsDigit(s[i]) }

  function DigitChar(d: nat): (c: char)
    requires d < 10
    ensures IsDigit(c)
  {
    ('0' as int + d) as char
  }

  function DigitValue(c: char): (d: nat)
    requires IsDigit(c)
    ensures d < 10
  {
    c as int - '0' as int
  }

  /** `str(n)` for a natural number: its decimal digits, most significant first. */
  function Decimal(n: nat): (s: string)
    ensures |s| > 0 && AllDigits(s)
  {
    if n < 10 then [DigitChar(n)] else Decimal(n / 10) + [DigitChar(n % 10)]
  }

  /** The value of a string of decimal digits, read most significant first. */
  function DigitsValue(s: string): nat
    requires AllDigits(s)
  {
    if s == [] then 0 else DigitsValue(s[..|s| - 1]) * 10 + DigitValue(s[|s| - 1])
  }

  /** `int(s)`: a non-empty string of decimal digits parses (leading zeros allowed);
      anything else is the ValueError path, None. */
  function ParseInt(s: string): (r: Option<nat>)
    ensures r.Some? <==> |s| > 0 && AllDigits(s)
  {
    if |s| > 0 && AllDigits(s) then Some(DigitsValue(s)) else None
  }

  lemma {:induction false} DecimalRoundTrip(n: nat)
    ensures ParseInt(Decimal(n)) == Some(n)
  {
    var s := Decimal(n);
    if n >= 10 {
      DecimalRoundTrip(n / 10);
      assert s[..|s| - 1] == Decimal(n / 10);
      assert DigitValue(s[|s| - 1]) == n % 10;
    } else {
      assert s == [DigitChar(n)];
      assert DigitValue(s[0]) == n;
      assert s[..0] == [];
      assert DigitsValue(s) == DigitsValue(s[..0]) * 10 + DigitValue(s[0]);
    }
  }

  predicate StartsWith(s: string, p: string) { |p| <= |s| && s[..|p|] == p }

  predicate EndsWith(s: string, p: string) { |p| <= |s| && s[|s| - |p|..] == p }

  /** `s.replace(pat, '')`: deletes the non-overlapping occurrences of `pat`, scanning
      from the left. The contract gives only the length bound; what the deletions leave
      of a `question_<n>.jpg` name (its decimal digits) is proved in `StripFileName`. */
  function RemoveAll(s: string, pat: string): (r: string)
    requires |pat| > 0
    ensures |r| <= |s|
    decreases |s|
  {
    if |s| < |pat| then s
    else if s[..|pat|] == pat then RemoveAll(s[|pat|..], pat)
    else [s[0]] + RemoveAll(s[1..], pat)
  }

  /** The name divide_questions.py gives to the crop of question n. */
  function FileName(n: nat): string
  {
    Prefix + Decimal(n) + Extension
  }

  /** `int(name.replace('question_', '').replace('.jpg', ''))`, as bubble_scanner.py and
      evaluate_questions_bubble_detection.py compute the number in a file name. */
  function FileNumber(name: string): (r: Option<nat>)
    ensures forall n: nat :: name == FileName(n) ==> r == Some(n)
  {
    var digits := RemoveAll(RemoveAll(name, Prefix), Extension);
    assert forall n: nat :: name == FileName(n) ==> ParseInt(digits) == Some(n) by {
      forall n: nat | name == FileName(n) ensures ParseInt(digits) == Some(n) {
        StripFileName(n);
        DecimalRoundTrip(n);
      }
    }
    ParseInt(digits)
  }

  /** The index of the last occurrence of `c` in `s` (Python's `rfind`). */
  function LastIndex(s: string, c: char): (r: Option<nat>)
    ensures r.Some? ==> r.value < |s| && s[r.value] == c &&
                        forall i :: r.value < i < |s| ==> s[i] != c
    ensures r.None? ==> c !in s
  {
    if s == [] then None
    else if s[|s| - 1] == c then Some(|s| - 1)
    else LastIndex(s[..|s| - 1], c)
  }

  /** `pathlib.PurePath(name).stem`: the name without its last suffix, where a suffix
      starts at the last '.' provided that dot is neither the first nor the last character. */
  function Stem(name: string): string
  {
    match LastIndex(name, '.')
    case Some(i) => if 0 < i < |name| - 1 then name[..i] else name
    case None => name
  }

  /** `s.split(c)[-1]`: what follows the last occurrence of `c`, or all of `s`. */
  function AfterLast(s: string, c: char): string
  {
    match LastIndex(s, c)
    case Some(i) => s[i + 1..]
    case None => s
  }

  /** `int(Path(name).stem.split('_')[-1])`, as evaluate_questions.py computes it. */
  function StemNumber(name: string): (r: Option<nat>)
    ensures forall n: nat :: name == FileName(n) ==> r == Some(n)
  {
    var piece := AfterLast(Stem(name), '_');
    assert forall n: nat :: name == FileName(n) ==> ParseInt(piece) == Some(n) by {
      forall n: nat | name == FileName(n) ensures ParseInt(piece) == Some(n) {
        LastPieceOfFileName(n);
        DecimalRoundTrip(n);
      }
    }
    ParseInt(piece)
  }

  /** The files bubble_scanner.py reads: `question_*` except the `*_orig.jpg` copies. */
  predicate IsScannerInput(name: string)
  {
    StartsWith(name, Prefix) && !EndsWith(name, OrigSuffix)
  }

  /** The files the evaluation scripts read: `question_*.jpg`. */
  predicate IsQuestionImage(name: string)
  {
    StartsWith(name, Prefix) && EndsWith(name, Extension)
  }

  lemma {:induction false} RemoveAllAbsent(s: string, pat: string)
    requires |pat| > 0 && pat[0] !in s
    ensures RemoveAll(s, pat) == s
    decreases |s|
  {
    if |s| >= |pat| {
      assert s[..|pat|][0] == s[0];
      RemoveAllAbsent(s[1..], pat);
      assert s == [s[0]] + s[1..];
    }
  }

  lemma {:induction false} RemoveTrailing(d: string, pat: string)
    requires |pat| > 0 && pat[0] !in d
    ensures RemoveAll(d + pat, pat) == d
    decreases |d|
  {
    var s := d + pat;
    if d == [] {
      assert s[..|pat|] == pat && s[|pat|..] == [];
    } else {
      assert s[..|pat|][0] == d[0];
      assert s[1..] == d[1..] + pat;
      RemoveTrailing(d[1..], pat);
      assert d == [d[0]] + d[1..];
    }
  }

  /** Deleting the fixed parts of a crop name leaves the decimal digits of its number. */
  lemma StripFileName(n: nat)
    ensures RemoveAll(RemoveAll(FileName(n), Prefix), Extension) == Decimal(n)
  {
    var d := Decimal(n);
    var name := FileName(n);
    assert name[..|Prefix|] == Prefix && name[|Prefix|..] == d + Extension;
    assert 'q' !in d + Extension by {
      forall i | 0 <= i < |d + Extension| ensures (d + Extension)[i] != 'q' {
        if i < |d| { assert IsDigit(d[i]); }
      }
    }
    RemoveAllAbsent(d + Extension, Prefix);
    assert RemoveAll(name, Prefix) == d + Extension;
    assert '.' !in d by {
      forall i | 0 <= i < |d| ensures d[i] != '.' { assert IsDigit(d[i]); }
    }
    RemoveTrailing(d, Extension);
  }

  /** The last `_` piece of a crop name's stem is the decimal digits of its number. */
  lemma LastPieceOfFileName(n: nat)
    ensures AfterLast(Stem(FileName(n)), '_') == Decimal(n)
  {
    var d := Decimal(n);
    var name := FileName(n);
    var stem := Prefix + d;
    assert name == stem + Extension;
    assert forall i :: 0 <= i < |d| ==> IsDigit(d[i]);
    var li := LastIndex(name, '.');
    assert name[|stem|] == '.';
    assert li.Some? && li.value == |stem|;
    assert Stem(name) == stem;
    assert stem[8] == '_';
    var lu := LastIndex(stem, '_');
    assert lu.Some? && lu.value == 8;
    assert AfterLast(stem, '_') == d;
  }

  /** The crops divide_questions.py writes pass both readers' file filters. */
  lemma FileNamePassesFilters(n: nat)
    ensures IsScannerInput(FileName(n)) && IsQuestionImage(FileName(n))
  {
    var name := FileName(n);
    var d := Decimal(n);
    assert name[..|Prefix|] == Prefix;
    assert name[|name| - |Extension|..] == Extension;
    assert |d| >= 1 && IsDigit(d[|d| - 1]);
    assert name[|name| - |OrigSuffix|..][4] == d[|d| - 1];
  }
}

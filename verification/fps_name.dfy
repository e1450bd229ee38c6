/** Reading a frame rate out of a clip's file name.

    Two readers exist in the source: `_extract_fps` (fps_result.py), which
    prefers a `<digits>fps` token and falls back to the first digit run, and
    the ad-hoc parses of `run_pipeline` (fps_check.py), which read the base
    rate from the last `_`-separated segment of the stem and each clip's rate
    from its first digit run. */
module FpsName {
  import opened Common
  import opened Text

  /** End of the maximal digit run that starts at `i` (`i` itself when
      `s[i]` is not a digit). */
  function RunEnd(s: string, i: nat): (j: nat)
    requires i <= |s|
    ensures i <= j <= |s|
    ensures forall k :: i <= k < j ==> IsDigit(s[k])
    ensures j == |s| || !IsDigit(s[j])
    decreases |s| - i
  {
    if i < |s| && IsDigit(s[i]) then RunEnd(s, i + 1) else i
  }

  /** End of the maximal whitespace run that starts at `i`. */
  function SpaceEnd(s: string, i: nat): (j: nat)
    requires i <= |s|
    ensures i <= j <= |s|
    ensures forall k :: i <= k < j ==> IsSpace(s[k])
    ensures j == |s| || !IsSpace(s[j])
    decreases |s| - i
  {
    if i < |s| && IsSpace(s[i]) then SpaceEnd(s, i + 1) else i
  }

  /** `c.lower() == l` for an ASCII lower-case letter `l`. */
  predicate LowersTo(c: char, l: char)
    requires 'a' <= l <= 'z'
  {
    c == l || c as int == l as int - 32
  }

  /** The lower-cased text at `j` starts with "fps". */
  predicate FpsAt(s: string, j: nat) {
    j + 3 <= |s| && LowersTo(s[j], 'f') && LowersTo(s[j + 1], 'p') && LowersTo(s[j + 2], 's')
  }

  /** The pattern `(\d+)\s*fps` matches the lower-cased name at position `i`.
      The digit group is greedy, and giving digits back cannot help: a
      shorter group is followed by a digit, which is neither whitespace nor
      `f`. Likewise for the whitespace. */
  predicate TokenAt(s: string, i: nat) {
    i < |s| && IsDigit(s[i]) && FpsAt(s, SpaceEnd(s, RunEnd(s, i)))
  }

  /** The integer that `int()` makes of the digit run starting at `i`. */
  function RunValue(s: string, i: nat): nat
    requires i <= |s|
  {
    DecimalValue(s[i..RunEnd(s, i)])
  }

  /** Leftmost match of `(\d+)\s*fps` at or after `from`, as `re.search` scans. */
  function FirstTokenFrom(s: string, from: nat): (r: Option<nat>)
    requires from <= |s|
    ensures r.Some? ==> from <= r.value < |s| && TokenAt(s, r.value)
    ensures r.Some? ==> forall k :: from <= k < r.value ==> !TokenAt(s, k)
    ensures r.None? ==> forall k :: from <= k < |s| ==> !TokenAt(s, k)
    decreases |s| - from
  {
    if from == |s| then None
    else if TokenAt(s, from) then Some(from)
    else FirstTokenFrom(s, from + 1)
  }

  /** Leftmost match of `(\d+)` at or after `from`: the first digit. */
  function FirstDigitFrom(s: string, from: nat): (r: Option<nat>)
    requires from <= |s|
    ensures r.Some? ==> from <= r.value < |s| && IsDigit(s[r.value])
    ensures r.Some? ==> forall k :: from <= k < r.value ==> !IsDigit(s[k])
    ensures r.None? ==> forall k :: from <= k < |s| ==> !IsDigit(s[k])
    decreases |s| - from
  {
    if from == |s| then None
    else if IsDigit(s[from]) then Some(from)
    else FirstDigitFrom(s, from + 1)
  }

  predicate HasDigit(s: string) {
    exists k :: 0 <= k < |s| && IsDigit(s[k])
  }

  /** The first digit run of `s`, as pandas `str.extract(r"(\d+)")` followed
      by `astype(int)`; a name without digits gives NaN, whose cast raises. */
  function FirstRunValue(s: string): (r: Result<nat>)
    ensures r.Err? <==> !HasDigit(s)
    ensures r.Err? ==> r.error == FpsTokenMissing
  {
    match FirstDigitFrom(s, 0)
    case Some(i) => Ok(RunValue(s, i))
    case None => Err(FpsTokenMissing)
  }

  /** The value read is that of the run starting at the first digit. */
  lemma FirstRunValueAt(s: string, i: nat)
    requires i < |s| && IsDigit(s[i]) && forall k :: 0 <= k < i ==> !IsDigit(s[k])
    ensures FirstRunValue(s) == Ok(RunValue(s, i))
  {
    FirstDigitIsUnique(s, i);
  }

  /** There is only one first digit. */
  lemma FirstDigitIsUnique(s: string, i: nat)
    requires i < |s| && IsDigit(s[i]) && forall k :: 0 <= k < i ==> !IsDigit(s[k])
    ensures forall j :: 0 <= j < |s| && IsDigit(s[j]) && (forall k :: 0 <= k < j ==> !IsDigit(s[k])) ==> j == i
  {
  }

  /** There is only one leftmost match. */
  lemma FirstTokenIsUnique(s: string, i: nat)
    requires i < |s| && TokenAt(s, i) && forall k :: 0 <= k < i ==> !TokenAt(s, k)
    ensures forall j :: 0 <= j < |s| && TokenAt(s, j) && (forall k :: 0 <= k < j ==> !TokenAt(s, k)) ==> j == i
  {
  }

  /** `_extract_fps`: the number in the first `<digits>fps` token (any case,
      whitespace allowed before "fps"); failing that, the first digit run;
      failing that, an error. */
  function ExtractFps(name: string): (r: Result<nat>)
    ensures r.Err? <==> !HasDigit(name)
    ensures r.Err? ==> r.error == FpsTokenMissing
    ensures (forall k :: 0 <= k < |name| ==> !TokenAt(name, k)) ==> r == FirstRunValue(name)
  {
    match FirstTokenFrom(name, 0)
    case Some(i) => Ok(RunValue(name, i))
    case None => FirstRunValue(name)
  }

  /** The value read is that of the run starting the leftmost token. */
  lemma ExtractFpsAt(name: string, i: nat)
    requires i < |name| && TokenAt(name, i) && forall k :: 0 <= k < i ==> !TokenAt(name, k)
    ensures ExtractFps(name) == Ok(RunValue(name, i))
  {
    FirstTokenIsUnique(name, i);
  }

  /** The value of a digit run, written back without leading zeros, occurs
      in the text: it ends where the run ends. */
  lemma RunValueIsContained(s: string, i: nat)
    requires i < |s| && IsDigit(s[i])
    ensures Contains(s, NatToString(RunValue(s, i)))
  {
    var j := RunEnd(s, i);
    var run := s[i..j];
    assert |run| > 0 && AllDigits(run);
    CanonicalIsSuffix(run);
    var n := NatToString(DecimalValue(run));
    assert s[j - |n|..j] == run[|run| - |n|..];
    assert OccursAt(s, n, j - |n|);
  }

  /** `str(_extract_fps(name))` occurs in `name`, so `choose_fps` always
      finds a row for the largest rate it reads. */
  lemma ExtractFpsIsContained(name: string)
    requires ExtractFps(name).Ok?
    ensures Contains(name, NatToString(ExtractFps(name).value))
  {
    match FirstTokenFrom(name, 0)
    case Some(i) =>
      RunValueIsContained(name, i);
    case None =>
      match FirstDigitFrom(name, 0)
      case Some(i) =>
        RunValueIsContained(name, i);
      case None =>
        assert false;
  }

  /** A match never starts in the middle of a digit run: if the pattern
      matched one position later it also matched here, so the leftmost match
      reads the whole run. */
  lemma TokenExtendsLeft(s: string, i: nat)
    requires 0 < i < |s| && IsDigit(s[i - 1]) && TokenAt(s, i)
    ensures TokenAt(s, i - 1)
  {
    assert RunEnd(s, i - 1) == RunEnd(s, i);
  }

  /** A run that stops where the left text ends stops there in any longer
      text whose continuation starts with a non-digit. */
  lemma RunEndOfConcat(a: string, b: string, i: nat)
    requires i <= |a| && |b| > 0 && !IsDigit(b[0])
    ensures RunEnd(a + b, i) == RunEnd(a, i)
  {
    var s := a + b;
    var j1 := RunEnd(s, i);
    var j2 := RunEnd(a, i);
    assert s[|a|] == b[0];
    assert forall k :: 0 <= k < |a| ==> s[k] == a[k];
  }

  lemma SpaceEndOfConcat(a: string, b: string, i: nat)
    requires i <= |a| && |b| > 0 && !IsSpace(b[0])
    ensures SpaceEnd(a + b, i) == SpaceEnd(a, i)
  {
    var s := a + b;
    var j1 := SpaceEnd(s, i);
    var j2 := SpaceEnd(a, i);
    assert s[|a|] == b[0];
    assert forall k :: 0 <= k < |a| ==> s[k] == a[k];
  }

  /** Whether a token starts inside `a` does not depend on what follows `a`
      when that starts with an underscore: the underscore ends every digit
      and whitespace run and is none of the letters of "fps". */
  lemma TokenAtOfConcat(a: string, b: string, i: nat)
    requires i < |a| && |b| > 0 && b[0] == '_'
    ensures TokenAt(a + b, i) <==> TokenAt(a, i)
  {
    var s := a + b;
    assert s[i] == a[i];
    RunEndOfConcat(a, b, i);
    var r := RunEnd(a, i);
    SpaceEndOfConcat(a, b, r);
    var j := SpaceEnd(a, r);
    assert s[|a|] == '_';
    if j + 3 <= |a| {
      assert s[j] == a[j] && s[j + 1] == a[j + 1] && s[j + 2] == a[j + 2];
    }
  }

  /** A name whose first digits form a `<n>fps` token reads as `n`:
      'baseline_30fps.mp4' gives 30 and 'clip_25fps.mp4' gives 25. */
  lemma ExtractFpsOfToken(prefix: string, n: nat, rest: string)
    requires !HasDigit(prefix)
    ensures ExtractFps(prefix + NatToString(n) + "fps" + rest) == Ok(n)
  {
    var digits := NatToString(n);
    var s := prefix + digits + "fps" + rest;
    var i := |prefix|;
    assert forall k :: i <= k < i + |digits| ==> s[k] == digits[k - i];
    assert s[i + |digits|] == 'f';
    assert RunEnd(s, i) == i + |digits|;
    assert SpaceEnd(s, i + |digits|) == i + |digits|;
    assert TokenAt(s, i);
    assert forall k :: 0 <= k < i ==> s[k] == prefix[k] && !IsDigit(s[k]);
    assert s[i..RunEnd(s, i)] == digits;
    ExtractFpsAt(s, i);
  }

  /** Without an fps token the first digit run is read: 'baseline_30' gives 30. */
  lemma ExtractFpsOfBareNumber(prefix: string, n: nat, rest: string)
    requires !HasDigit(prefix) && !HasDigit(rest)
    requires |rest| == 0 || (!IsSpace(rest[0]) && !LowersTo(rest[0], 'f'))
    ensures ExtractFps(prefix + NatToString(n) + rest) == Ok(n)
  {
    var digits := NatToString(n);
    var s := prefix + digits + rest;
    var i := |prefix|;
    assert forall k :: 0 <= k < i ==> s[k] == prefix[k] && !IsDigit(s[k]);
    BareNumberHasNoToken(prefix, digits, rest);
    assert forall k :: i <= k < i + |digits| ==> s[k] == digits[k - i];
    assert RunEnd(s, i) == i + |digits| by {
      assert s[i + |digits|..] == rest;
    }
    assert s[i..RunEnd(s, i)] == digits;
    FirstRunValueAt(s, i);
  }

  lemma BareNumberHasNoToken(prefix: string, digits: string, rest: string)
    requires !HasDigit(prefix) && !HasDigit(rest) && AllDigits(digits)
    requires |rest| == 0 || (!IsSpace(rest[0]) && !LowersTo(rest[0], 'f'))
    ensures forall k :: 0 <= k < |prefix + digits + rest| ==> !TokenAt(prefix + digits + rest, k)
  {
    var s := prefix + digits + rest;
    var e := |prefix| + |digits|;
    assert forall k :: 0 <= k < |prefix| ==> s[k] == prefix[k];
    assert forall k :: e <= k < |s| ==> s[k] == rest[k - e];
    assert e < |s| ==> s[e] == rest[0];
    forall k | |prefix| <= k < e
      ensures !TokenAt(s, k)
    {
      assert forall m :: k <= m < e ==> s[m] == digits[m - |prefix|];
      assert RunEnd(s, k) == e;
      assert SpaceEnd(s, e) == e;
    }
  }

  /** A name without digits has no rate: 'no_number_here.mp4' raises. */
  lemma ExtractFpsWithoutDigits(name: string)
    requires !HasDigit(name)
    ensures ExtractFps(name) == Err(FpsTokenMissing)
  {
  }

  /** The examples `_extract_fps` documents, and the fallback and error cases. */
  lemma ExtractFpsExamples()
    ensures ExtractFps("baseline_" + NatToString(30) + "fps" + ".mp4") == Ok(30)
    ensures ExtractFps("clip_" + NatToString(25) + "fps" + ".mp4") == Ok(25)
    ensures ExtractFps("baseline_" + NatToString(30) + "") == Ok(30)
  {
    assert !HasDigit("baseline_") by {
      assert forall k :: 0 <= k < 9 ==> !IsDigit("baseline_"[k]);
    }
    assert !HasDigit("clip_") by {
      assert forall k :: 0 <= k < 5 ==> !IsDigit("clip_"[k]);
    }
    ExtractFpsOfToken("baseline_", 30, ".mp4");
    ExtractFpsOfToken("clip_", 25, ".mp4");
    ExtractFpsOfBareNumber("baseline_", 30, "");
  }

  // ---------------------------------------------------------------------
  // The ad-hoc parses of run_pipeline.

  /** Position of the last `c` in `s`, or -1, as `str.rfind`. */
  function LastIndexOf(s: string, c: char): (r: int)
    ensures -1 <= r < |s|
    ensures r >= 0 ==> s[r] == c
    ensures forall k :: r < k < |s| ==> s[k] != c
    decreases |s|
  {
    if |s| == 0 then -1
    else if s[|s| - 1] == c then |s| - 1
    else LastIndexOf(s[..|s| - 1], c)
  }

  /** The position of the last `c` is the one after which no `c` follows. */
  lemma LastIndexOfIs(s: string, c: char, i: int)
    requires 0 <= i < |s| && s[i] == c
    requires forall k :: i < k < |s| ==> s[k] != c
    ensures LastIndexOf(s, c) == i
  {
  }

  /** The final component of a POSIX path, `Path(p).name`. */
  function FileName(path: string): (r: string)
    ensures '/' !in r
    ensures IsSuffix(r, path)
    ensures r == path || path[|path| - |r| - 1] == '/'
  {
    path[LastIndexOf(path, '/') + 1..]
  }

  /** `Path.stem`: the name without its last suffix, where a suffix starts at
      the last dot, which must be neither the first nor the last character. */
  function Stem(name: string): (r: string)
    ensures r <= name
    ensures r == name || (0 < |r| < |name| - 1 && name[|r|] == '.' && '.' !in name[|r| + 1..])
  {
    var i := LastIndexOf(name, '.');
    if 0 < i < |name| - 1 then name[..i] else name
  }

  /** `s.split(sep)[-1]`: the text after the last separator. */
  function LastSegment(s: string, sep: char): (r: string)
    ensures sep !in r
    ensures IsSuffix(r, s)
    ensures r == s || s[|s| - |r| - 1] == sep
  {
    s[LastIndexOf(s, sep) + 1..]
  }

  /** `s.replace("fps", "")`: every non-overlapping occurrence, scanned left
      to right, is deleted. */
  function RemoveFps(s: string): (r: string)
    ensures |r| <= |s| && (|s| - |r|) % 3 == 0
    ensures !HasFps(s) <==> r == s
    decreases |s|
  {
    if |s| >= 3 && s[..3] == "fps" then
      RemoveFps(s[3..])
    else if |s| == 0 then s
    else
      var rest := RemoveFps(s[1..]);
      assert s == [s[0]] + s[1..];
      assert ([s[0]] + rest)[1..] == rest;
      [s[0]] + rest
  }

  /** "fps" occurs in `s`, scanning from the left. */
  predicate HasFps(s: string)
    decreases |s|
  {
    |s| >= 3 && (s[..3] == "fps" || HasFps(s[1..]))
  }

  /** The scan finds "fps" exactly when it occurs at some position. */
  lemma {:induction false} HasFpsIffOccurs(s: string)
    ensures HasFps(s) <==> exists i :: OccursAt(s, "fps", i)
    decreases |s|
  {
    if |s| >= 3 {
      HasFpsIffOccurs(s[1..]);
      if s[..3] == "fps" {
        assert OccursAt(s, "fps", 0);
      } else {
        if HasFps(s[1..]) {
          var i :| OccursAt(s[1..], "fps", i);
          assert s[1..][i..i + 3] == s[i + 1..i + 4];
          assert OccursAt(s, "fps", i + 1);
        }
        if exists i :: OccursAt(s, "fps", i) {
          var i :| OccursAt(s, "fps", i);
          assert s[1..][i - 1..i + 2] == s[i..i + 3];
          assert OccursAt(s[1..], "fps", i - 1);
        }
      }
    }
  }

  /** Leading C whitespace removed. */
  function StripLeft(s: string): (r: string)
    ensures IsSuffix(r, s)
    ensures |r| == 0 || !IsCSpace(r[0])
    ensures forall k :: 0 <= k < |s| - |r| ==> IsCSpace(s[k])
    decreases |s|
  {
    if |s| > 0 && IsCSpace(s[0]) then StripLeft(s[1..]) else s
  }

  /** Trailing C whitespace removed. */
  function StripRight(s: string): (r: string)
    ensures r <= s
    ensures |r| == 0 || !IsCSpace(r[|r| - 1])
    ensures forall k :: |r| <= k < |s| ==> IsCSpace(s[k])
    decreases |s|
  {
    if |s| > 0 && IsCSpace(s[|s| - 1]) then StripRight(s[..|s| - 1]) else s
  }

  /** Python's `int(s)` for a string: surrounding whitespace, an optional
      sign, then at least one decimal digit and nothing else. */
  function ParseInt(s: string): (r: Result<int>)
    ensures r.Ok? <==> IntLiteral(StripRight(StripLeft(s)))
    ensures r.Err? ==> r.error == NotAnInteger
  {
    ParseLiteral(StripRight(StripLeft(s)))
  }

  /** The value of a literal without surrounding whitespace. */
  function ParseLiteral(t: string): (r: Result<int>)
    ensures r.Ok? <==> IntLiteral(t)
    ensures r.Err? ==> r.error == NotAnInteger
  {
    if |t| > 0 && (t[0] == '+' || t[0] == '-') then
      var d := t[1..];
      if |d| > 0 && AllDigits(d) then
        Ok(if t[0] == '-' then -(DecimalValue(d) as int) else DecimalValue(d) as int)
      else Err(NotAnInteger)
    else if |t| > 0 && AllDigits(t) then Ok(DecimalValue(t))
    else Err(NotAnInteger)
  }

  /** A string with no whitespace at either end is read as it stands. */
  lemma ParseIntUnpadded(t: string)
    requires |t| > 0 && !IsCSpace(t[0]) && !IsCSpace(t[|t| - 1])
    ensures ParseInt(t) == ParseLiteral(t)
  {
    assert StripLeft(t) == t;
    assert StripRight(t) == t;
  }

  /** The literals `int()` accepts once the whitespace is stripped: an
      optional sign and then one or more decimal digits. */
  predicate IntLiteral(t: string) {
    || (|t| > 0 && AllDigits(t))
    || (|t| > 1 && (t[0] == '+' || t[0] == '-') && AllDigits(t[1..]))
  }

  /** A sign in front of a digit run: `+` changes nothing, `-` negates. */
  lemma ParseIntOfSigned(t: string)
    requires |t| > 1 && (t[0] == '+' || t[0] == '-') && AllDigits(t[1..])
    ensures ParseInt(t) == Ok(if t[0] == '-' then -(DecimalValue(t[1..]) as int) else DecimalValue(t[1..]) as int)
  {
    assert IsDigit(t[1..][|t| - 2]);
    ParseIntUnpadded(t);
  }

  /** Leading zeros do not change the value `int()` reads. */
  lemma ParseIntLeadingZero(d: string)
    requires |d| > 0 && AllDigits(d)
    ensures ParseInt("0" + d) == ParseInt(d)
  {
    assert IsDigit(d[0]) && IsDigit(d[|d| - 1]);
    var z := "0" + d;
    DecimalLeadingZero(d);
    assert z[0] == '0' && z[|z| - 1] == d[|d| - 1];
    ParseIntUnpadded(z);
    ParseIntUnpadded(d);
  }

  lemma {:induction false} DecimalLeadingZero(d: string)
    requires AllDigits(d)
    ensures AllDigits("0" + d) && DecimalValue("0" + d) == DecimalValue(d)
    decreases |d|
  {
    if |d| > 0 {
      var n := |d| - 1;
      DecimalLeadingZero(d[..n]);
      assert ("0" + d)[..|d|] == "0" + d[..n];
      assert ("0" + d)[|d|] == d[n];
    }
  }

  /** Whitespace in front of a literal is skipped. */
  lemma ParseIntSkipsSpace(ws: string, s: string)
    requires forall k :: 0 <= k < |ws| ==> IsCSpace(ws[k])
    ensures ParseInt(ws + s) == ParseInt(s)
  {
    StripLeftSpace(ws, s);
  }

  lemma {:induction false} StripLeftSpace(ws: string, s: string)
    requires forall k :: 0 <= k < |ws| ==> IsCSpace(ws[k])
    ensures StripLeft(ws + s) == StripLeft(s)
    decreases |ws|
  {
    if |ws| > 0 {
      assert (ws + s)[0] == ws[0];
      assert (ws + s)[1..] == ws[1..] + s;
      StripLeftSpace(ws[1..], s);
    } else {
      assert ws + s == s;
    }
  }

  /** `int` reads back what `str` writes, for every integer. */
  lemma ParseIntRoundTrip(n: int)
    ensures ParseInt(IntToString(n)) == Ok(n)
  {
    var s := IntToString(n);
    assert StripLeft(s) == s;
    assert StripRight(s) == s;
    if n < 0 {
      assert s[1..] == NatToString(-n);
    }
  }

  /** `run_pipeline`'s base rate: the last `_` segment of the video's stem,
      with "fps" removed, read by `int()`. */
  function BaseFps(videoPath: string): (r: Result<int>)
    ensures r.Err? ==> r.error == NotAnInteger
  {
    ParseInt(RemoveFps(LastSegment(Stem(FileName(videoPath)), '_')))
  }

  lemma FileNameOfJoin(dir: string, name: string)
    requires '/' !in name
    ensures FileName(dir + "/" + name) == name
  {
    var path := dir + "/" + name;
    assert forall k :: |dir| < k < |path| ==> path[k] == name[k - |dir| - 1];
    LastIndexOfIs(path, '/', |dir|);
  }

  lemma StemOfSuffixed(stem: string, ext: string)
    requires |stem| > 0 && |ext| > 0 && '.' !in ext
    ensures Stem(stem + "." + ext) == stem
  {
    var name := stem + "." + ext;
    assert forall k :: |stem| < k < |name| ==> name[k] == ext[k - |stem| - 1];
    LastIndexOfIs(name, '.', |stem|);
  }

  lemma LastSegmentOfJoin(prefix: string, sep: char, segment: string)
    requires sep !in segment
    ensures LastSegment(prefix + [sep] + segment, sep) == segment
  {
    var s := prefix + [sep] + segment;
    assert forall k :: |prefix| < k < |s| ==> s[k] == segment[k - |prefix| - 1];
    LastIndexOfIs(s, sep, |prefix|);
  }

  /** A name ending in `_<n>fps.<ext>` gives back `n`. */
  lemma BaseFpsOfRateTaggedName(dir: string, prefix: string, n: nat, ext: string)
    requires '/' !in prefix && '/' !in ext && '.' !in ext && |ext| > 0
    ensures BaseFps(dir + "/" + prefix + "_" + NatToString(n) + "fps." + ext) == Ok(n)
  {
    var digits := NatToString(n);
    var stem := prefix + "_" + digits + "fps";
    var path := dir + "/" + stem + "." + ext;
    assert dir + "/" + prefix + "_" + digits + "fps." + ext == path;
    assert Stem(FileName(path)) == stem by {
      assert '/' !in stem by {
        assert forall k :: |prefix| < k < |prefix| + 1 + |digits| ==> IsDigit(stem[k]);
      }
      StemOfPath(dir, stem, ext);
    }
    assert ParseInt(RemoveFps(LastSegment(stem, '_'))) == Ok(n) by {
      SegmentOfRateStem(prefix, digits);
    }
  }

  lemma SegmentOfRateStem(prefix: string, digits: string)
    requires |digits| > 0 && AllDigits(digits)
    ensures ParseInt(RemoveFps(LastSegment(prefix + "_" + digits + "fps", '_'))) == Ok(DecimalValue(digits))
  {
    RateSegment(prefix, digits);
    ParseRateSegment(digits);
  }

  lemma RateSegment(prefix: string, digits: string)
    requires AllDigits(digits)
    ensures LastSegment(prefix + "_" + digits + "fps", '_') == digits + "fps"
  {
    assert '_' !in digits + "fps" by {
      assert forall k :: 0 <= k < |digits| ==> IsDigit(digits[k]);
    }
    assert prefix + "_" + digits + "fps" == prefix + "_" + (digits + "fps");
    LastSegmentOfJoin(prefix, '_', digits + "fps");
  }

  lemma ParseRateSegment(digits: string)
    requires |digits| > 0 && AllDigits(digits)
    ensures ParseInt(RemoveFps(digits + "fps")) == Ok(DecimalValue(digits))
  {
    RemoveFpsAfterDigits(digits);
    ParseDigits(digits);
  }

  /** `int()` of a plain numeral is its value. */
  lemma ParseDigits(digits: string)
    requires |digits| > 0 && AllDigits(digits)
    ensures ParseInt(digits) == Ok(DecimalValue(digits))
  {
    assert IsDigit(digits[0]) && IsDigit(digits[|digits| - 1]);
    assert StripLeft(digits) == digits;
    assert StripRight(digits) == digits;
  }

  /** Deleting "fps" from a numeral followed by "fps" leaves the numeral. */
  lemma {:induction false} RemoveFpsAfterDigits(digits: string)
    requires AllDigits(digits)
    ensures RemoveFps(digits + "fps") == digits
    decreases |digits|
  {
    if |digits| == 0 {
      assert RemoveFps("") == "";
    } else {
      var s := digits + "fps";
      assert s[0] == digits[0] && IsDigit(digits[0]);
      RemoveFpsCons(s);
      assert s[1..] == digits[1..] + "fps";
      RemoveFpsAfterDigits(digits[1..]);
      assert digits == [digits[0]] + digits[1..];
    }
  }

  /** `str.replace` scans from the left: everything before the first
      "fps" is kept as it is, that occurrence is dropped, and the scan
      resumes right after it, so the letters of a removed "fps" never
      start another match. */
  lemma {:induction false} RemoveFpsLeftmost(s: string, i: nat)
    requires OccursAt(s, "fps", i)
    requires forall j :: 0 <= j < i ==> !OccursAt(s, "fps", j)
    ensures RemoveFps(s) == s[..i] + RemoveFps(s[i + 3..])
    decreases i
  {
    if i == 0 {
      assert s[..0] == [];
    } else {
      assert !OccursAt(s, "fps", 0);
      var t := s[1..];
      assert OccursAt(t, "fps", i - 1) by {
        assert t[i - 1..i + 2] == s[i..i + 3];
      }
      forall j | 0 <= j < i - 1
        ensures !OccursAt(t, "fps", j)
      {
        assert t[j..j + 3] == s[j + 1..j + 4];
        assert !OccursAt(s, "fps", j + 1);
      }
      calc {
        RemoveFps(s);
        { RemoveFpsSkip(s); }
        [s[0]] + RemoveFps(t);
        { RemoveFpsLeftmost(t, i - 1); }
        [s[0]] + (t[..i - 1] + RemoveFps(t[i + 2..]));
        { assert t[i + 2..] == s[i + 3..]; }
        [s[0]] + t[..i - 1] + RemoveFps(s[i + 3..]);
        { assert [s[0]] + t[..i - 1] == s[..i]; }
        s[..i] + RemoveFps(s[i + 3..]);
      }
    }
  }

  /** Where no "fps" starts, the first letter is kept. */
  lemma RemoveFpsSkip(s: string)
    requires |s| > 0 && !OccursAt(s, "fps", 0)
    ensures RemoveFps(s) == [s[0]] + RemoveFps(s[1..])
  {
  }

  lemma RemoveFpsCons(s: string)
    requires |s| > 0 && s[0] != 'f'
    ensures RemoveFps(s) == [s[0]] + RemoveFps(s[1..])
  {
    if |s| >= 3 {
      assert s[..3][0] == s[0];
    }
  }

  /** The stem of `<dir>/<stem>.<ext>`. */
  lemma StemOfPath(dir: string, stem: string, ext: string)
    requires '/' !in stem && '/' !in ext && '.' !in ext && |stem| > 0 && |ext| > 0
    ensures Stem(FileName(dir + "/" + stem + "." + ext)) == stem
  {
    assert dir + "/" + stem + "." + ext == dir + "/" + (stem + "." + ext);
    FileNameOfJoin(dir, stem + "." + ext);
    StemOfSuffixed(stem, ext);
  }

  /** A recording named `<prefix>_camera<k>.mp4`, as the two-camera recorder
      names its files, has no base rate: its last segment "camera<k>" is not
      an integer, so `int()` raises. */
  lemma CameraRecordingHasNoBaseRate(dir: string, prefix: string, camera: nat)
    requires '/' !in prefix
    ensures BaseFps(dir + "/" + prefix + "_camera" + NatToString(camera) + ".mp4") == Err(NotAnInteger)
  {
    var segment := "camera" + NatToString(camera);
    var stem := prefix + "_" + segment;
    assert dir + "/" + prefix + "_camera" + NatToString(camera) + ".mp4" == dir + "/" + stem + "." + "mp4";
    assert '/' !in stem && '_' !in segment && 'f' !in segment by {
      assert forall k :: 6 <= k < |segment| ==> IsDigit(segment[k]);
    }
    var path := dir + "/" + stem + "." + "mp4";
    StemOfPath(dir, stem, "mp4");
    assert BaseFps(path) == ParseInt(RemoveFps(LastSegment(stem, '_')));
    SegmentOfWordStem(prefix, segment);
  }

  lemma SegmentOfWordStem(prefix: string, segment: string)
    requires '_' !in segment && 'f' !in segment && |segment| > 0 && 'a' <= segment[0] <= 'z'
    ensures ParseInt(RemoveFps(LastSegment(prefix + "_" + segment, '_'))) == Err(NotAnInteger)
  {
    LastSegmentOfJoin(prefix, '_', segment);
    RemoveFpsWithoutF(segment);
    ParseIntOfWord(segment);
  }

  /** Text that starts with a letter is not an integer. */
  lemma ParseIntOfWord(s: string)
    requires |s| > 0 && ('a' <= s[0] <= 'z' || 'A' <= s[0] <= 'Z')
    ensures ParseInt(s) == Err(NotAnInteger)
  {
    assert StripLeft(s) == s;
    var t := StripRight(s);
    assert |t| > 0 && t[0] == s[0];
  }

  /** The recording hard-coded in the `run_pipeline` script. */
  const ScriptRecording: string := "recordings" + "/" + "forward_20250506_162415" + "_camera" + NatToString(2) + ".mp4"

  /** That recording is a camera name, so the script raises before it
      selects a rate. */
  lemma ScriptRecordingHasNoBaseRate()
    ensures BaseFps(ScriptRecording) == Err(NotAnInteger)
  {
    CameraRecordingHasNoBaseRate("recordings", "forward_20250506_162415", 2);
  }

  /** Text without an `f` has no "fps" to delete. */
  lemma RemoveFpsWithoutF(s: string)
    requires 'f' !in s
    ensures RemoveFps(s) == s
  {
    HasFpsIffOccurs(s);
    assert forall i :: OccursAt(s, "fps", i) ==> s[i] == s[i..i + 3][0];
  }
}

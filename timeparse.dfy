/**
 * time_to_seconds of app/timeparse.py: a start time as seconds, from H:MM:SS, MM:SS, a plain
 * decimal, or the first number found in the text. Python's float() on a segment is modelled
 * on ASCII decimals digits(.digits)?; any other segment is the ValueError float() raises.
 */
module TimeParse {
  import opened Wrappers
  import opened Text

  /** What time_to_seconds accepts: None, a number (int or float), or a string. */
  datatype TimeInput = NoTime | Number(x: real) | Str(s: string)

  /** float(segment) raised ValueError on this segment. */
  datatype TimeError = ValueError(segment: string)

  predicate IsDigit(c: char) {
    '0' <= c <= '9'
  }

  /** s matches \d+ (ASCII digits). */
  predicate AllDigits(s: string) {
    |s| > 0 && forall i :: 0 <= i < |s| ==> IsDigit(s[i])
  }

  function DigitValue(c: char): nat
    requires IsDigit(c)
  {
    c as int - '0' as int
  }

  /** The value of a string of decimal digits; the empty string is 0. */
  function DigitsValue(ds: string): nat
    requires forall i :: 0 <= i < |ds| ==> IsDigit(ds[i])
  {
    if ds == [] then 0 else DigitsValue(ds[..|ds| - 1]) * 10 + DigitValue(ds[|ds| - 1])
  }

  function Pow10(n: nat): (p: nat)
    ensures p > 0
  {
    if n == 0 then 1 else 10 * Pow10(n - 1)
  }

  /** The index of the first c in s, or |s| when s holds none. */
  function IndexOf(s: string, c: char): (k: nat)
    ensures k <= |s|
    ensures k < |s| ==> s[k] == c
    ensures forall i :: 0 <= i < k ==> s[i] != c
  {
    if s == [] then 0 else if s[0] == c then 0 else 1 + IndexOf(s[1..], c)
  }

  /** s matches digits(.digits)? in full: the reference reading of the regular expression. */
  ghost predicate IsDecimal(s: string) {
    || AllDigits(s)
    || exists k :: 0 < k < |s| - 1 && s[k] == '.' && AllDigits(s[..k]) && AllDigits(s[k + 1..])
  }

  /** float(s) for a string matching digits(.digits)?, None for any other string. */
  function ParseDecimal(s: string): (r: Option<real>)
    ensures r.Some? ==> s != [] && IsDigit(s[0]) && IsDigit(s[|s| - 1])
  {
    var k := IndexOf(s, '.');
    if k == |s| then
      if AllDigits(s) then Some(DigitsValue(s) as real) else None
    else if AllDigits(s[..k]) && AllDigits(s[k + 1..]) then
      assert s[0] == s[..k][0] && s[|s| - 1] == s[k + 1..][|s| - k - 2];
      Some(DigitsValue(s[..k]) as real + DigitsValue(s[k + 1..]) as real / Pow10(|s| - k - 1) as real)
    else None
  }

  /** What ParseDecimal accepts matches digits(.digits)?. */
  lemma ParseDecimalSound(s: string)
    ensures ParseDecimal(s).Some? ==> IsDecimal(s)
  {
    var k := IndexOf(s, '.');
    if k < |s| && AllDigits(s[..k]) && AllDigits(s[k + 1..]) {
      assert 0 < k < |s| - 1 && s[k] == '.';
    }
  }

  /** Every string matching digits(.digits)? is accepted. */
  lemma ParseDecimalComplete(s: string)
    ensures IsDecimal(s) ==> ParseDecimal(s).Some?
  {
    if AllDigits(s) {
      assert forall i :: 0 <= i < |s| ==> s[i] != '.';
    } else if IsDecimal(s) {
      var k' :| 0 < k' < |s| - 1 && s[k'] == '.' && AllDigits(s[..k']) && AllDigits(s[k' + 1..]);
      assert forall i :: 0 <= i < k' ==> s[i] == s[..k'][i] != '.';
      assert IndexOf(s, '.') == k';
    }
  }

  /** A parsed value is never negative. */
  lemma ParseDecimalNonNegative(s: string)
    ensures ParseDecimal(s).Some? ==> ParseDecimal(s).value >= 0.0
  {
    var k := IndexOf(s, '.');
    if k < |s| && AllDigits(s[..k]) && AllDigits(s[k + 1..]) {
      var d := Pow10(|s| - k - 1) as real;
      assert d > 0.0;
      assert DigitsValue(s[k + 1..]) as real / d >= 0.0;
    }
  }

  /** ParseDecimal accepts exactly the strings matching digits(.digits)?, with a non-negative value. */
  lemma ParseDecimalMatches(s: string)
    ensures ParseDecimal(s).Some? <==> IsDecimal(s)
    ensures ParseDecimal(s).Some? ==> ParseDecimal(s).value >= 0.0
  {
    ParseDecimalSound(s);
    ParseDecimalComplete(s);
    ParseDecimalNonNegative(s);
  }

  /** The decimal numeral of n, without leading zeros. */
  function NatString(n: nat): (s: string)
    ensures AllDigits(s)
  {
    if n < 10 then ['0' + n as char] else NatString(n / 10) + ['0' + (n % 10) as char]
  }

  /** Reading the numeral of n back gives n. */
  lemma {:induction false} NatStringValue(n: nat)
    ensures DigitsValue(NatString(n)) == n
  {
    if n >= 10 {
      NatStringValue(n / 10);
      var s := NatString(n);
      assert s[..|s| - 1] == NatString(n / 10);
    }
  }

  /** A run of digits, leading zeros included, parses as its value. */
  lemma ParseDigits(a: string)
    requires AllDigits(a)
    ensures ParseDecimal(a) == Some(DigitsValue(a) as real)
  {
    assert forall i :: 0 <= i < |a| ==> a[i] != '.';
  }

  /** A numeral parses back to its number: ParseDecimal inverts NatString. */
  lemma ParseNatString(n: nat)
    ensures ParseDecimal(NatString(n)) == Some(n as real)
  {
    ParseDigits(NatString(n));
    NatStringValue(n);
  }

  /** str.split(":"): the pieces between colons, empty ones included. */
  function SplitColons(s: string): (parts: seq<string>)
    ensures |parts| >= 1
    ensures forall i :: 0 <= i < |parts| ==> ':' !in parts[i]
    decreases |s|
  {
    var k := IndexOf(s, ':');
    if k == |s| then [s] else [s[..k]] + SplitColons(s[k + 1..])
  }

  /** ":".join(parts). */
  function JoinColons(parts: seq<string>): string
    requires |parts| >= 1
  {
    if |parts| == 1 then parts[0] else parts[0] + ":" + JoinColons(parts[1..])
  }

  /** Splitting loses nothing: joining the pieces with colons gives the string back. */
  lemma {:induction false} JoinSplitColons(s: string)
    ensures JoinColons(SplitColons(s)) == s
    decreases |s|
  {
    var k := IndexOf(s, ':');
    if k < |s| {
      var p, rest := s[..k], s[k + 1..];
      var parts := SplitColons(rest);
      JoinSplitColons(rest);
      assert SplitColons(s) == [p] + parts;
      assert ([p] + parts)[1..] == parts;
      assert s == p + ":" + rest;
    }
  }

  /** The first c in a string is where the c-free prefix p ends. */
  lemma IndexOfAfter(p: string, c: char, rest: string)
    requires c !in p
    ensures IndexOf(p, c) == |p|
    ensures IndexOf(p + [c] + rest, c) == |p|
  {
    assert forall i :: 0 <= i < |p| ==> p[i] in p;
    var s := p + [c] + rest;
    assert forall i :: 0 <= i < |p| ==> s[i] == p[i];
    assert s[|p|] == c;
  }

  /** Splitting at the first colon: the colon-free piece before it, then the split of the rest. */
  lemma SplitFirstPiece(p: string, rest: string)
    requires ':' !in p
    ensures SplitColons(p + ":" + rest) == [p] + SplitColons(rest)
  {
    var s := p + ":" + rest;
    IndexOfAfter(p, ':', rest);
    assert s[..|p|] == p && s[|p| + 1..] == rest;
  }

  /** Splitting a colon-join of colon-free pieces gives the pieces back. */
  lemma {:induction false} SplitJoinColons(parts: seq<string>)
    requires |parts| >= 1
    requires forall i :: 0 <= i < |parts| ==> ':' !in parts[i]
    ensures SplitColons(JoinColons(parts)) == parts
  {
    var p := parts[0];
    if |parts| == 1 {
      IndexOfAfter(p, ':', "");
    } else {
      var tail := parts[1..];
      assert forall i :: 0 <= i < |tail| ==> tail[i] == parts[i + 1];
      SplitJoinColons(tail);
      assert JoinColons(parts) == p + ":" + JoinColons(tail);
      SplitFirstPiece(p, JoinColons(tail));
      assert parts == [p] + tail;
    }
  }

  /** [p.strip() for p in parts if p.strip() != ""]. */
  function Segments(parts: seq<string>): (segs: seq<string>)
    ensures |segs| <= |parts|
  {
    if parts == [] then []
    else
      var p := Strip(parts[|parts| - 1]);
      Segments(parts[..|parts| - 1]) + (if p != "" then [p] else [])
  }

  /** float(segment) on a colon segment. */
  function Float(segment: string): Result<real, TimeError> {
    match ParseDecimal(segment)
    case Some(v) => Success(v)
    case None => Failure(ValueError(segment))
  }

  /** The first index at or after i holding a digit, or |s|. */
  function FirstDigit(s: string, i: nat): (j: nat)
    requires i <= |s|
    ensures i <= j <= |s|
    ensures forall k :: i <= k < j ==> !IsDigit(s[k])
    ensures j < |s| ==> IsDigit(s[j])
    decreases |s| - i
  {
    if i == |s| || IsDigit(s[i]) then i else FirstDigit(s, i + 1)
  }

  /** The end of the run of digits starting at i. */
  function DigitRunEnd(s: string, i: nat): (j: nat)
    requires i <= |s|
    ensures i <= j <= |s|
    ensures forall k :: i <= k < j ==> IsDigit(s[k])
    ensures j == |s| || !IsDigit(s[j])
    decreases |s| - i
  {
    if i < |s| && IsDigit(s[i]) then DigitRunEnd(s, i + 1) else i
  }

  /** The span [i, j) of the first match of re.search(r"(\d+(\.\d+)?)", s), if any. */
  function NumberSpan(s: string): (r: Option<(nat, nat)>)
    ensures r.Some? ==> r.value.0 < r.value.1 <= |s| && IsDigit(s[r.value.0])
  {
    var i := FirstDigit(s, 0);
    if i == |s| then None
    else
      var j := DigitRunEnd(s, i);
      if j + 1 < |s| && s[j] == '.' && IsDigit(s[j + 1]) then Some((i, DigitRunEnd(s, j + 1)))
      else Some((i, j))
  }

  /** A run of digits holds no dot. */
  lemma DigitsNoDot(m: string)
    requires AllDigits(m)
    ensures '.' !in m
  {
    forall k | 0 <= k < |m| ensures m[k] != '.' {
      assert IsDigit(m[k]);
    }
  }

  /** The run starting at a digit is a non-empty run of digits. */
  lemma DigitRun(s: string, i: nat)
    requires i < |s| && IsDigit(s[i])
    ensures i < DigitRunEnd(s, i) && AllDigits(s[i..DigitRunEnd(s, i)])
  {
  }

  /** A run, a dot and a second run make a decimal. */
  lemma DottedRun(s: string, i: nat, j: nat, e: nat)
    requires i < j < j + 1 < e <= |s| && s[j] == '.'
    requires AllDigits(s[i..j]) && AllDigits(s[j + 1..e])
    ensures IsDecimal(s[i..e])
  {
    var n := s[i..e];
    var k := j - i;
    assert n[..k] == s[i..j] && n[k] == '.' && n[k + 1..] == s[j + 1..e];
  }

  /** The search finds nothing exactly when s holds no digit. */
  lemma NumberSpanNone(s: string)
    ensures NumberSpan(s).None? <==> forall k :: 0 <= k < |s| ==> !IsDigit(s[k])
  {
  }

  /** A match starts at the first digit, matches digits(.digits)?, and is as long as the greedy expression makes it. */
  lemma NumberSpanMatch(s: string)
    requires NumberSpan(s).Some?
    ensures
      var (i, j) := NumberSpan(s).value;
      && i < j <= |s|
      && (forall k :: 0 <= k < i ==> !IsDigit(s[k]))
      && IsDecimal(s[i..j])
      && (j == |s| || !IsDigit(s[j]))
      && ('.' !in s[i..j] ==> !(j + 1 < |s| && s[j] == '.' && IsDigit(s[j + 1])))
  {
    var i := FirstDigit(s, 0);
    var j := DigitRunEnd(s, i);
    DigitRun(s, i);
    if j + 1 < |s| && s[j] == '.' && IsDigit(s[j + 1]) {
      var e := DigitRunEnd(s, j + 1);
      assert NumberSpan(s).value == (i, e);
      DigitRun(s, j + 1);
      DottedRun(s, i, j, e);
      assert s[i..e][j - i] == '.';
    } else {
      assert NumberSpan(s).value == (i, j);
      DigitsNoDot(s[i..j]);
    }
  }

  /**
   * The search finds nothing exactly when s holds no digit; otherwise the match starts at the
   * first digit, matches digits(.digits)?, and is as long as the greedy regular expression makes it.
   */
  lemma NumberSpanShape(s: string)
    ensures NumberSpan(s).None? <==> forall k :: 0 <= k < |s| ==> !IsDigit(s[k])
    ensures NumberSpan(s).Some? ==>
      var (i, j) := NumberSpan(s).value;
      && i < j <= |s|
      && (forall k :: 0 <= k < i ==> !IsDigit(s[k]))
      && IsDecimal(s[i..j])
      && (j == |s| || !IsDigit(s[j]))
      && ('.' !in s[i..j] ==> !(j + 1 < |s| && s[j] == '.' && IsDigit(s[j + 1])))
  {
    NumberSpanNone(s);
    if NumberSpan(s).Some? {
      NumberSpanMatch(s);
    }
  }

  /** The value of the first number in s, or 0 when s holds no digit. */
  function FirstNumber(s: string): (v: real)
    ensures v >= 0.0
  {
    NumberSpanShape(s);
    match NumberSpan(s)
    case None => 0.0
    case Some((i, j)) =>
      ParseDecimalMatches(s[i..j]);
      ParseDecimal(s[i..j]).value
  }

  /** The colon branches: h * 3600 + m * 60 + sec for three segments, m * 60 + sec for two. */
  function FromSegments(parts: seq<string>): (r: Result<real, TimeError>)
    requires |parts| == 2 || |parts| == 3
    ensures r.Failure? ==> r.error.segment in parts
  {
    if |parts| == 3 then
      var h :- Float(parts[0]);
      var m :- Float(parts[1]);
      var sec :- Float(parts[2]);
      Success(h * 3600.0 + m * 60.0 + sec)
    else
      var m :- Float(parts[0]);
      var sec :- Float(parts[1]);
      Success(m * 60.0 + sec)
  }

  /** The colon branches fail exactly when a segment is not a decimal, naming the first such segment. */
  lemma FromSegmentsFails(parts: seq<string>)
    requires |parts| == 2 || |parts| == 3
    ensures FromSegments(parts).Failure? <==> exists i :: 0 <= i < |parts| && ParseDecimal(parts[i]).None?
    ensures FromSegments(parts).Failure? ==>
      exists i :: 0 <= i < |parts| && ParseDecimal(parts[i]).None?
        && FromSegments(parts).error == ValueError(parts[i])
        && forall k :: 0 <= k < i ==> ParseDecimal(parts[k]).Some?
  {
    if ParseDecimal(parts[0]).None? {
      assert FromSegments(parts).error == ValueError(parts[0]);
    } else if ParseDecimal(parts[1]).None? {
      assert FromSegments(parts).error == ValueError(parts[1]);
    } else if |parts| == 3 && ParseDecimal(parts[2]).None? {
      assert FromSegments(parts).error == ValueError(parts[2]);
    }
  }

  /** time_to_seconds. */
  function TimeToSeconds(t: TimeInput): (r: Result<real, TimeError>)
    ensures !t.Str? ==> r.Success?
  {
    match t
    case NoTime => Success(0.0)
    case Number(x) => Success(x)
    case Str(raw) =>
      var s := Strip(raw);
      if s == "" then Success(0.0)
      else if ParseDecimal(s).Some? then Success(ParseDecimal(s).value)
      else
        var parts := Segments(SplitColons(s));
        if |parts| == 2 || |parts| == 3 then FromSegments(parts)
        else Success(FirstNumber(s))
  }

  /** A numeral has no surrounding whitespace and holds neither a colon nor a dot. */
  lemma NumeralShape(s: string)
    requires AllDigits(s)
    ensures IsTrimmed(s) && Strip(s) == s
    ensures ':' !in s && '.' !in s
  {
    assert forall i :: 0 <= i < |s| ==> s[i] != ':' && s[i] != '.';
    StripShape(s);
  }

  /** Surrounding whitespace does not matter: the input is stripped first. */
  lemma {:induction false} TimeIgnoresSurroundingSpace(raw: string)
    ensures TimeToSeconds(Str(Strip(raw))) == TimeToSeconds(Str(raw))
  {
    StripShape(raw);
    StripShape(Strip(raw));
  }

  /** Every time read from a string is non-negative. */
  lemma TimeNonNegative(raw: string)
    ensures TimeToSeconds(Str(raw)).Success? ==> TimeToSeconds(Str(raw)).value >= 0.0
  {
    var s := Strip(raw);
    var parts := Segments(SplitColons(s));
    ParseDecimalMatches(s);
    if |parts| >= 2 {
      ParseDecimalMatches(parts[0]);
      ParseDecimalMatches(parts[1]);
    }
    if |parts| == 3 {
      ParseDecimalMatches(parts[2]);
    }
  }

  /**
   * time_to_seconds fails only in the colon branches, and exactly when one of the two or three
   * segments is not a decimal number.
   */
  lemma TimeFailsOnlyOnSegments(raw: string)
    ensures TimeToSeconds(Str(raw)).Failure? <==>
      var s := Strip(raw);
      var parts := Segments(SplitColons(s));
      && s != ""
      && ParseDecimal(s).None?
      && (|parts| == 2 || |parts| == 3)
      && exists i :: 0 <= i < |parts| && ParseDecimal(parts[i]).None?
  {
    var s := Strip(raw);
    var parts := Segments(SplitColons(s));
    if |parts| == 2 || |parts| == 3 {
      FromSegmentsFails(parts);
    }
  }

  /** Segments keeps a list whose pieces are already stripped and non-empty. */
  lemma {:induction false} SegmentsOfClean(parts: seq<string>)
    requires forall i :: 0 <= i < |parts| ==> parts[i] != "" && Strip(parts[i]) == parts[i]
    ensures Segments(parts) == parts
  {
    if parts != [] {
      SegmentsOfClean(parts[..|parts| - 1]);
      assert parts == parts[..|parts| - 1] + [parts[|parts| - 1]];
    }
  }

  /** A string with a colon is not a plain decimal. */
  lemma ColonNotDecimal(s: string, k: nat)
    requires k < |s| && s[k] == ':'
    ensures ParseDecimal(s).None?
  {
    var d := IndexOf(s, '.');
    assert !IsDigit(s[k]);
    if d < |s| {
      if k < d {
        assert s[..d][k] == s[k];
      } else {
        assert s[d + 1..][k - d - 1] == s[k];
      }
    }
  }

  /** Joining two trimmed non-empty strings with a colon gives a trimmed string. */
  lemma ColonJoinTrimmed(x: string, y: string)
    requires x != [] && y != [] && IsTrimmed(x) && IsTrimmed(y)
    ensures IsTrimmed(x + ":" + y) && x + ":" + y != []
  {
    var s := x + ":" + y;
    assert s[0] == x[0] && s[|s| - 1] == y[|y| - 1];
  }

  /** str.split(":") cuts at the first colon. */
  lemma SplitAtFirstColon(a: string, rest: string)
    requires ':' !in a
    ensures SplitColons(a) == [a]
    ensures SplitColons(a + ":" + rest) == [a] + SplitColons(rest)
  {
    IndexOfAfter(a, ':', rest);
    var s := a + ":" + rest;
    assert s[..|a|] == a && s[|a| + 1..] == rest;
  }

  /** H:MM:SS of digit runs splits at its two colons into the three runs. */
  lemma HmsSplit(a: string, b: string, c: string)
    requires AllDigits(a) && AllDigits(b) && AllDigits(c)
    ensures SplitColons(a + ":" + b + ":" + c) == [a, b, c]
  {
    NumeralShape(a);
    NumeralShape(b);
    NumeralShape(c);
    var parts := [a, b, c];
    assert parts[1..] == [b, c] && parts[1..][1..] == [c];
    assert JoinColons([b, c]) == b + ":" + c;
    assert JoinColons(parts) == a + ":" + b + ":" + c;
    SplitJoinColons(parts);
  }

  /** H:MM:SS of digit runs is trimmed, is no plain decimal, and has exactly the three runs as segments. */
  lemma HmsShape(a: string, b: string, c: string)
    requires AllDigits(a) && AllDigits(b) && AllDigits(c)
    ensures Strip(a + ":" + b + ":" + c) == a + ":" + b + ":" + c
    ensures ParseDecimal(a + ":" + b + ":" + c).None?
    ensures Segments(SplitColons(a + ":" + b + ":" + c)) == [a, b, c]
  {
    var s := a + ":" + b + ":" + c;
    NumeralShape(a);
    NumeralShape(b);
    NumeralShape(c);
    ColonJoinTrimmed(a, b);
    ColonJoinTrimmed(a + ":" + b, c);
    StripShape(s);
    ColonNotDecimal(s, |a|);
    HmsSplit(a, b, c);
    SegmentsOfClean([a, b, c]);
  }

  /** A trimmed, non-blank text that is no plain decimal and has two or three segments takes a colon branch. */
  lemma ColonBranch(s: string)
    requires s != "" && Strip(s) == s && ParseDecimal(s).None?
    requires |Segments(SplitColons(s))| == 2 || |Segments(SplitColons(s))| == 3
    ensures TimeToSeconds(Str(s)) == FromSegments(Segments(SplitColons(s)))
  {
  }

  /** Three decimal segments combine as hours, minutes and seconds. */
  lemma ThreeSegments(a: string, b: string, c: string, x: real, y: real, z: real)
    requires ParseDecimal(a) == Some(x) && ParseDecimal(b) == Some(y) && ParseDecimal(c) == Some(z)
    ensures FromSegments([a, b, c]) == Success(x * 3600.0 + y * 60.0 + z)
  {
  }

  /** A trimmed text that is no plain decimal and splits into three decimals reads as H:MM:SS. */
  lemma ThreeRuns(s: string, a: string, b: string, c: string, x: real, y: real, z: real)
    requires s != "" && Strip(s) == s && ParseDecimal(s).None? && Segments(SplitColons(s)) == [a, b, c]
    requires ParseDecimal(a) == Some(x) && ParseDecimal(b) == Some(y) && ParseDecimal(c) == Some(z)
    ensures TimeToSeconds(Str(s)) == Success(x * 3600.0 + y * 60.0 + z)
  {
    ColonBranch(s);
    ThreeSegments(a, b, c, x, y, z);
  }

  /** Two decimal segments combine as minutes and seconds. */
  lemma TwoSegments(b: string, c: string, y: real, z: real)
    requires ParseDecimal(b) == Some(y) && ParseDecimal(c) == Some(z)
    ensures FromSegments([b, c]) == Success(y * 60.0 + z)
  {
  }

  /** A trimmed text that is no plain decimal and splits into two decimals reads as MM:SS. */
  lemma TwoRuns(s: string, b: string, c: string, y: real, z: real)
    requires s != "" && Strip(s) == s && ParseDecimal(s).None? && Segments(SplitColons(s)) == [b, c]
    requires ParseDecimal(b) == Some(y) && ParseDecimal(c) == Some(z)
    ensures TimeToSeconds(Str(s)) == Success(y * 60.0 + z)
  {
    ColonBranch(s);
    TwoSegments(b, c, y, z);
  }

  /** H:MM:SS, leading zeros allowed, reads as h * 3600 + m * 60 + sec, with no range check on m or sec. */
  lemma HmsValue(a: string, b: string, c: string)
    requires AllDigits(a) && AllDigits(b) && AllDigits(c)
    ensures TimeToSeconds(Str(a + ":" + b + ":" + c)).Success?
    ensures TimeToSeconds(Str(a + ":" + b + ":" + c)).value
      == DigitsValue(a) as real * 3600.0 + DigitsValue(b) as real * 60.0 + DigitsValue(c) as real
  {
    HmsShape(a, b, c);
    ParseDigits(a);
    ParseDigits(b);
    ParseDigits(c);
    ThreeRuns(a + ":" + b + ":" + c, a, b, c, DigitsValue(a) as real, DigitsValue(b) as real, DigitsValue(c) as real);
  }

  /** MM:SS of digit runs is trimmed, is no plain decimal, and has exactly the two runs as segments. */
  lemma MsShape(b: string, c: string)
    requires AllDigits(b) && AllDigits(c)
    ensures Strip(b + ":" + c) == b + ":" + c
    ensures ParseDecimal(b + ":" + c).None?
    ensures Segments(SplitColons(b + ":" + c)) == [b, c]
  {
    var s := b + ":" + c;
    NumeralShape(b);
    NumeralShape(c);
    ColonJoinTrimmed(b, c);
    StripShape(s);
    ColonNotDecimal(s, |b|);
    assert [b, c][1..] == [c];
    assert JoinColons([b, c]) == s;
    SplitJoinColons([b, c]);
    SegmentsOfClean([b, c]);
  }

  /** MM:SS, leading zeros allowed, reads as m * 60 + sec. */
  lemma MsValue(b: string, c: string)
    requires AllDigits(b) && AllDigits(c)
    ensures TimeToSeconds(Str(b + ":" + c)).Success?
    ensures TimeToSeconds(Str(b + ":" + c)).value == DigitsValue(b) as real * 60.0 + DigitsValue(c) as real
  {
    MsShape(b, c);
    ParseDigits(b);
    ParseDigits(c);
    TwoRuns(b + ":" + c, b, c, DigitsValue(b) as real, DigitsValue(c) as real);
  }

  /** Formatting H:MM:SS and reading it back gives h * 3600 + m * 60 + sec seconds. */
  lemma HmsRoundTrip(h: nat, m: nat, sec: nat)
    ensures TimeToSeconds(Str(NatString(h) + ":" + NatString(m) + ":" + NatString(sec))).Success?
    ensures TimeToSeconds(Str(NatString(h) + ":" + NatString(m) + ":" + NatString(sec))).value
      == h as real * 3600.0 + m as real * 60.0 + sec as real
  {
    HmsValue(NatString(h), NatString(m), NatString(sec));
    NatStringValue(h);
    NatStringValue(m);
    NatStringValue(sec);
  }

  /** Formatting MM:SS and reading it back gives m * 60 + sec seconds. */
  lemma MsRoundTrip(m: nat, sec: nat)
    ensures TimeToSeconds(Str(NatString(m) + ":" + NatString(sec))).Success?
    ensures TimeToSeconds(Str(NatString(m) + ":" + NatString(sec))).value == m as real * 60.0 + sec as real
  {
    MsValue(NatString(m), NatString(sec));
    NatStringValue(m);
    NatStringValue(sec);
  }

  /** A plain numeral reads as that many seconds. */
  lemma SecondsRoundTrip(n: nat)
    ensures TimeToSeconds(Str(NatString(n))) == Success(n as real)
  {
    NumeralShape(NatString(n));
    ParseNatString(n);
  }

  /** "0:01:41" (leading zeros) reads as 101 seconds. */
  lemma ExampleHms()
    ensures TimeToSeconds(Str("0:01:41")).Success?
    ensures TimeToSeconds(Str("0:01:41")).value == 101.0
  {
    assert "0" + ":" + "01" + ":" + "41" == "0:01:41";
    HmsValue("0", "01", "41");
    assert DigitsValue("01") == 1 && DigitsValue("41") == 41;
  }

  /** "1:41" reads as 101 seconds. */
  lemma ExampleMs()
    ensures TimeToSeconds(Str("1:41")).Success?
    ensures TimeToSeconds(Str("1:41")).value == 101.0
  {
    assert "1" + ":" + "41" == "1:41";
    MsValue("1", "41");
    assert DigitsValue("41") == 41;
  }

  /** "101" reads as 101 seconds. */
  lemma ExampleSeconds()
    ensures TimeToSeconds(Str("101")).Success?
    ensures TimeToSeconds(Str("101")).value == 101.0
  {
    NumeralShape("101");
    ParseDigits("101");
    assert "101"[..2] == "10" && "10"[..1] == "1" && "1"[..0] == "";
    assert DigitsValue("1") == 1;
    assert DigitsValue("10") == 10;
  }

  /** None and a blank string read as 0; a number is already in seconds. */
  lemma NonTextInputs(x: real, raw: string)
    ensures TimeToSeconds(NoTime) == Success(0.0)
    ensures TimeToSeconds(Number(x)) == Success(x)
    ensures IsBlank(raw) ==> TimeToSeconds(Str(raw)) == Success(0.0)
  {
    StripShape(raw);
  }

  /** M::SS splits into M, an empty piece, and SS. */
  lemma EmptyPieceSplit(b: string, c: string)
    requires ':' !in b && ':' !in c
    ensures SplitColons(b + "::" + c) == [b, "", c]
  {
    var parts := [b, "", c];
    assert parts[1..] == ["", c] && parts[1..][1..] == [c];
    assert JoinColons(["", c]) == ":" + c;
    assert JoinColons(parts) == b + "::" + c;
    SplitJoinColons(parts);
  }

  /** The comprehension filters out a blank middle piece. */
  lemma SegmentsDropEmpty(b: string, c: string)
    requires b != "" && Strip(b) == b && c != "" && Strip(c) == c
    ensures Segments([b, "", c]) == [b, c]
  {
    assert [b, "", c][..2] == [b, ""] && [b, ""][..1] == [b] && [b][..0] == [];
    assert Segments([b]) == [b];
    assert Strip("") == "";
    assert Segments([b, ""]) == [b];
  }

  /** M::SS of digit runs is trimmed, is no plain decimal, and has the two runs as segments. */
  lemma EmptyPieceShape(b: string, c: string)
    requires AllDigits(b) && AllDigits(c)
    ensures Strip(b + "::" + c) == b + "::" + c
    ensures ParseDecimal(b + "::" + c).None?
    ensures Segments(SplitColons(b + "::" + c)) == [b, c]
  {
    var s := b + "::" + c;
    NumeralShape(b);
    NumeralShape(c);
    assert s == b + ":" + (":" + c);
    assert IsTrimmed(":" + c) by {
      assert (":" + c)[|c|] == c[|c| - 1];
    }
    ColonJoinTrimmed(b, ":" + c);
    StripShape(s);
    ColonNotDecimal(s, |b|);
    EmptyPieceSplit(b, c);
    SegmentsDropEmpty(b, c);
  }

  /** M::SS reads like M:SS: the empty piece is filtered out before the colon branches. */
  lemma EmptyPieceDropped(b: string, c: string)
    requires AllDigits(b) && AllDigits(c)
    ensures TimeToSeconds(Str(b + "::" + c)) == TimeToSeconds(Str(b + ":" + c))
  {
    EmptyPieceShape(b, c);
    MsShape(b, c);
    ColonBranch(b + "::" + c);
    ColonBranch(b + ":" + c);
  }
}

/** The text parsing of the main process's `get-video-info` handler (main.js):
    the fallback that reads the encoder's banner on standard error (the
    `Duration: HH:MM:SS.ss` and `N fps` patterns, searched leftmost-first as a
    regular-expression `match` does) and the `r_frame_rate` field `"num/den"`
    of the structured probe. */
module VideoProbe {
  import opened Wrappers
  import opened Text

  /** What the handler resolves with. The duration is in seconds. */
  datatype VideoInfo = VideoInfo(duration: real, width: nat, height: nat, fps: real)

  /** The two patterns searched for in the banner. */
  datatype Pattern = DurationPattern | FpsPattern

  const DefaultFps: real := 30.0

  /** The length of the run of decimal digits that starts at i. */
  function DigitRun(t: string, i: nat): (n: nat)
    requires i <= |t|
    ensures i + n <= |t|
    ensures forall k | i <= k < i + n :: IsDigit(t[k])
    ensures i + n < |t| ==> !IsDigit(t[i + n])
    decreases |t| - i
  {
    if i < |t| && IsDigit(t[i]) then 1 + DigitRun(t, i + 1) else 0
  }

  /** Two decimal digits at j. */
  predicate TwoDigitsAt(t: string, j: nat) {
    j + 2 <= |t| && IsDigit(t[j]) && IsDigit(t[j + 1])
  }

  /** `Duration: (\d{2}):(\d{2}):(\d{2}\.\d{2})` matches at i. */
  predicate DurationAt(t: string, i: nat) {
    i + 21 <= |t| && t[i..i + 10] == "Duration: "
    && TwoDigitsAt(t, i + 10) && t[i + 12] == ':'
    && TwoDigitsAt(t, i + 13) && t[i + 15] == ':'
    && TwoDigitsAt(t, i + 16) && t[i + 18] == '.'
    && TwoDigitsAt(t, i + 19)
  }

  predicate FpsSuffixAt(t: string, j: nat) {
    j + 4 <= |t| && t[j..j + 4] == " fps"
  }

  /** The length of the `.digits` part that follows position j, or 0 when there is none. */
  function FractionRun(t: string, j: nat): (n: nat)
    requires j <= |t|
    ensures n > 0 ==> j + 1 + n <= |t| && t[j] == '.'
  {
    if j < |t| && t[j] == '.' then DigitRun(t, j + 1) else 0
  }

  /** `(\d+(?:\.\d+)?) fps` matches at i. A digit run can only be followed by
      `.` or ` `, so backtracking never shortens a run: the match, if any, takes
      the whole run and either a whole fraction run before ` fps` or none. */
  predicate FpsAt(t: string, i: nat) {
    i <= |t| && DigitRun(t, i) > 0 &&
    ((FractionRun(t, i + DigitRun(t, i)) > 0 &&
      FpsSuffixAt(t, i + DigitRun(t, i) + 1 + FractionRun(t, i + DigitRun(t, i))))
     || FpsSuffixAt(t, i + DigitRun(t, i)))
  }

  predicate MatchesAt(p: Pattern, t: string, i: nat) {
    match p
    case DurationPattern => DurationAt(t, i)
    case FpsPattern => FpsAt(t, i)
  }

  /** Whether the pattern matches at each position of the banner, 0 to |t|. */
  function Scan(p: Pattern, t: string): seq<bool>
  {
    seq(|t| + 1, k requires 0 <= k => MatchesAt(p, t, k))
  }

  /** The first hit at or after `from`. */
  function FirstHit(hits: seq<bool>, from: nat): (r: Option<nat>)
    requires from <= |hits|
    ensures r.Some? ==> from <= r.value < |hits| && hits[r.value]
    decreases |hits| - from
  {
    if from == |hits| then None
    else if hits[from] then Some(from)
    else FirstHit(hits, from + 1)
  }

  /** The hit found is the first one, and none is found only when there is none. */
  lemma {:induction false} FirstHitLeftmost(hits: seq<bool>, from: nat)
    requires from <= |hits|
    ensures FirstHit(hits, from).Some? ==> forall k | from <= k < FirstHit(hits, from).value :: !hits[k]
    ensures FirstHit(hits, from).None? ==> forall k | from <= k < |hits| :: !hits[k]
    decreases |hits| - from
  {
    if from < |hits| && !hits[from] {
      FirstHitLeftmost(hits, from + 1);
    }
  }

  /** The leftmost position where the pattern matches, as a regular-expression search reports it. */
  function FirstMatch(p: Pattern, t: string): (r: Option<nat>)
    ensures r.Some? ==> r.value <= |t| && MatchesAt(p, t, r.value)
  {
    FirstHit(Scan(p, t), 0)
  }

  /** The match found is the leftmost one, and none is found only when the
      pattern matches nowhere. */
  lemma FirstMatchLeftmost(p: Pattern, t: string)
    ensures FirstMatch(p, t).Some? ==> forall k | 0 <= k < FirstMatch(p, t).value :: !MatchesAt(p, t, k)
    ensures FirstMatch(p, t).None? ==> forall k | 0 <= k <= |t| :: !MatchesAt(p, t, k)
  {
    var hits := Scan(p, t);
    assert |hits| == |t| + 1 && forall k | 0 <= k <= |t| :: hits[k] == MatchesAt(p, t, k);
    FirstHitLeftmost(hits, 0);
  }

  /** The value of the two-digit field at j, as `parseInt` reads it. */
  function FieldValue(t: string, j: nat): (n: nat)
    requires TwoDigitsAt(t, j)
    ensures n < 100
  {
    DigitValue(t[j]) * 10 + DigitValue(t[j + 1])
  }

  /** The duration matched at i, in hundredths of a second:
      hours * 3600 + minutes * 60 + seconds, with the seconds field `SS.ss`. */
  function DurationCentis(t: string, i: nat): nat
    requires DurationAt(t, i)
  {
    FieldValue(t, i + 10) * 360000 + FieldValue(t, i + 13) * 6000
    + FieldValue(t, i + 16) * 100 + FieldValue(t, i + 19)
  }

  /** The rate matched at i, as `parseFloat` reads the digits and the optional fraction. */
  function FpsValue(t: string, i: nat): real
    requires FpsAt(t, i)
  {
    var whole := DigitRun(t, i);
    var frac := FractionRun(t, i + whole);
    assert AllDigits(t[i..i + whole]);
    if frac > 0 && FpsSuffixAt(t, i + whole + 1 + frac) then
      assert AllDigits(t[i + whole + 1..i + whole + 1 + frac]);
      DigitsValue(t[i..i + whole]) as real + DecimalFraction(t[i + whole + 1..i + whole + 1 + frac])
    else
      DigitsValue(t[i..i + whole]) as real
  }

  /** The value of the digits after a decimal point: k digits F denote F / 10^k,
      so `.25` is 25 / 100. */
  function DecimalFraction(digits: string): (f: real)
    requires AllDigits(digits)
    ensures 0.0 <= f < 1.0
  {
    var n, p := DigitsValue(digits) as real, Pow10(|digits|) as real;
    assert n < p;
    FractionBelowOne(n, p);
    n / p
  }

  lemma FractionBelowOne(n: real, p: real)
    requires 0.0 <= n < p
    ensures 0.0 <= n / p < 1.0
  {
    assert n / p * p == n;
  }

  /** The banner's duration in hundredths of a second, if the pattern occurs. */
  function ParseDuration(t: string): Option<nat> {
    match FirstMatch(DurationPattern, t)
    case None => None
    case Some(i) => Some(DurationCentis(t, i))
  }

  /** There is no duration exactly when the pattern occurs nowhere; otherwise
      it is the value of the leftmost occurrence. */
  lemma DurationFound(t: string)
    ensures ParseDuration(t).None? <==> forall k | 0 <= k <= |t| :: !DurationAt(t, k)
    ensures ParseDuration(t).Some? ==>
              exists i | 0 <= i <= |t| :: DurationAt(t, i) && ParseDuration(t).value == DurationCentis(t, i)
                                          && forall k | 0 <= k < i :: !DurationAt(t, k)
  {
    FirstMatchLeftmost(DurationPattern, t);
    if FirstMatch(DurationPattern, t).Some? {
      var i := FirstMatch(DurationPattern, t).value;
      assert forall k | 0 <= k < i :: !DurationAt(t, k) by {
        forall k | 0 <= k < i ensures !DurationAt(t, k) {
          assert !MatchesAt(DurationPattern, t, k);
        }
      }
      assert DurationAt(t, i);
    } else {
      forall k | 0 <= k <= |t| ensures !DurationAt(t, k) {
        assert !MatchesAt(DurationPattern, t, k);
      }
    }
  }

  /** The banner's frame rate, if the pattern occurs. */
  function ParseFps(t: string): Option<real> {
    match FirstMatch(FpsPattern, t)
    case None => None
    case Some(i) => Some(FpsValue(t, i))
  }

  /** There is no rate exactly when the pattern occurs nowhere; otherwise it
      is the value of the leftmost occurrence. */
  lemma FpsFound(t: string)
    ensures ParseFps(t).None? <==> forall k | 0 <= k <= |t| :: !FpsAt(t, k)
    ensures ParseFps(t).Some? ==>
              exists i | 0 <= i <= |t| :: FpsAt(t, i) && ParseFps(t).value == FpsValue(t, i)
                                          && forall k | 0 <= k < i :: !FpsAt(t, k)
  {
    FirstMatchLeftmost(FpsPattern, t);
    if FirstMatch(FpsPattern, t).Some? {
      var i := FirstMatch(FpsPattern, t).value;
      assert forall k | 0 <= k < i :: !FpsAt(t, k) by {
        forall k | 0 <= k < i ensures !FpsAt(t, k) {
          assert !MatchesAt(FpsPattern, t, k);
        }
      }
      assert FpsAt(t, i);
    } else {
      forall k | 0 <= k <= |t| ensures !FpsAt(t, k) {
        assert !MatchesAt(FpsPattern, t, k);
      }
    }
  }

  /** The fallback probe: read the video information from the encoder's
      banner. `dims` is the outcome of the `Video: ...WxH` pattern, which this
      model takes as given. Without a duration or dimensions the probe fails;
      without a frame rate it reports 30. */
  function ProbeFromBanner(banner: string, dims: Option<(nat, nat)>): Result<VideoInfo> {
    var duration := ParseDuration(banner);
    if duration.None? || dims.None? then
      Failure("Could not parse video information from ffmpeg output")
    else
      var fps := ParseFps(banner);
      Success(VideoInfo(duration.value as real / 100.0, dims.value.0, dims.value.1,
                        if fps.Some? then fps.value else DefaultFps))
  }

  /** The probe fails exactly when the dimensions or the duration are missing;
      otherwise it reports the dimensions found, the leftmost duration in
      seconds, and the leftmost rate, or 30 fps when no rate occurs. */
  lemma ProbeOutcome(banner: string, dims: Option<(nat, nat)>)
    ensures var r := ProbeFromBanner(banner, dims);
      r.Failure? <==> dims.None? || forall k | 0 <= k <= |banner| :: !DurationAt(banner, k)
    ensures var r := ProbeFromBanner(banner, dims);
      r.Success? ==> r.value.width == dims.value.0 && r.value.height == dims.value.1 && r.value.duration >= 0.0
    ensures var r := ProbeFromBanner(banner, dims);
      r.Success? ==> ParseDuration(banner).Some? && r.value.duration == ParseDuration(banner).value as real / 100.0
    ensures var r := ProbeFromBanner(banner, dims);
      r.Success? && ParseFps(banner).Some? ==> r.value.fps == ParseFps(banner).value
    ensures var r := ProbeFromBanner(banner, dims);
      r.Success? && (forall k | 0 <= k <= |banner| :: !FpsAt(banner, k)) ==> r.value.fps == DefaultFps
  {
    DurationFound(banner);
    FpsFound(banner);
  }

  // Round trips: text written in the banner's format reads back as its values.

  function TwoDigits(n: nat): (s: string)
    requires n < 100
    ensures |s| == 2 && AllDigits(s)
  {
    [DigitChar(n / 10), DigitChar(n % 10)]
  }

  /** Two digits written for n read back as n. */
  lemma FieldReadsBack(t: string, j: nat, n: nat)
    requires n < 100 && j + 2 <= |t| && t[j..j + 2] == TwoDigits(n)
    ensures TwoDigitsAt(t, j) && FieldValue(t, j) == n
  {
    assert t[j] == TwoDigits(n)[0] && t[j + 1] == TwoDigits(n)[1];
  }

  function DurationText(hours: nat, minutes: nat, seconds: nat, centis: nat): string
    requires hours < 100 && minutes < 100 && seconds < 100 && centis < 100
  {
    "Duration: " + TwoDigits(hours) + ":" + TwoDigits(minutes) + ":" + TwoDigits(seconds)
    + "." + TwoDigits(centis)
  }

  /** A banner that begins with a duration field reads back as
      hours * 3600 + minutes * 60 + seconds.centis, in hundredths. */
  lemma DurationRoundTrip(t: string, hours: nat, minutes: nat, seconds: nat, centis: nat)
    requires hours < 100 && minutes < 100 && seconds < 100 && centis < 100
    requires 21 <= |t| && t[..21] == DurationText(hours, minutes, seconds, centis)
    ensures ParseDuration(t) == Some(hours * 360000 + minutes * 6000 + seconds * 100 + centis)
  {
    DurationFields(t, hours, minutes, seconds, centis);
    ParseDurationLeading(t, hours * 360000 + minutes * 6000 + seconds * 100 + centis);
  }

  lemma DurationFields(t: string, hours: nat, minutes: nat, seconds: nat, centis: nat)
    requires hours < 100 && minutes < 100 && seconds < 100 && centis < 100
    requires 21 <= |t| && t[..21] == DurationText(hours, minutes, seconds, centis)
    ensures DurationAt(t, 0)
    ensures DurationCentis(t, 0) == hours * 360000 + minutes * 6000 + seconds * 100 + centis
  {
    var p := DurationText(hours, minutes, seconds, centis);
    assert t[0..10] == p[0..10] == "Duration: ";
    assert t[12] == p[12] == ':' && t[15] == p[15] == ':' && t[18] == p[18] == '.';
    assert t[10..12] == p[10..12] == TwoDigits(hours);
    assert t[13..15] == p[13..15] == TwoDigits(minutes);
    assert t[16..18] == p[16..18] == TwoDigits(seconds);
    assert t[19..21] == p[19..21] == TwoDigits(centis);
    FieldReadsBack(t, 10, hours);
    FieldReadsBack(t, 13, minutes);
    FieldReadsBack(t, 16, seconds);
    FieldReadsBack(t, 19, centis);
  }

  /** A duration at the very start of the banner is the one read. */
  lemma ParseDurationLeading(t: string, centis: nat)
    requires DurationAt(t, 0) && DurationCentis(t, 0) == centis
    ensures ParseDuration(t) == Some(centis)
  {
    LeadingMatch(DurationPattern, t);
  }

  /** The probe reports a banner's duration in seconds, hours * 3600 +
      minutes * 60 + seconds.centis, together with the given dimensions. */
  lemma ProbeReadsDuration(t: string, hours: nat, minutes: nat, seconds: nat, centis: nat,
                           width: nat, height: nat)
    requires hours < 100 && minutes < 100 && seconds < 100 && centis < 100
    requires 21 <= |t| && t[..21] == DurationText(hours, minutes, seconds, centis)
    ensures var r := ProbeFromBanner(t, Some((width, height)));
      r.Success? && r.value.width == width && r.value.height == height
      && r.value.duration == (hours * 3600 + minutes * 60 + seconds) as real + centis as real / 100.0
  {
    DurationRoundTrip(t, hours, minutes, seconds, centis);
    ProbeSucceeds(t, (width, height));
    CentisToSeconds(hours * 3600 + minutes * 60 + seconds, centis);
  }

  /** With a duration and dimensions found, the probe succeeds with them. */
  lemma ProbeSucceeds(banner: string, dims: (nat, nat))
    requires ParseDuration(banner).Some?
    ensures var r := ProbeFromBanner(banner, Some(dims));
      r.Success? && r.value.width == dims.0 && r.value.height == dims.1
      && r.value.duration == ParseDuration(banner).value as real / 100.0
  {
  }

  lemma CentisToSeconds(whole: nat, centis: nat)
    ensures (whole * 100 + centis) as real / 100.0 == whole as real + centis as real / 100.0
  {
  }

  /** A digit string followed by a non-digit is one whole run. */
  lemma {:induction false} DigitRunOf(t: string, i: nat, n: nat)
    requires i + n <= |t|
    requires AllDigits(t[i..i + n])
    requires i + n == |t| || !IsDigit(t[i + n])
    ensures DigitRun(t, i) == n
    decreases n
  {
    if n > 0 {
      assert IsDigit(t[i..i + n][0]);
      assert t[i + 1..i + n] == t[i..i + n][1..];
      DigitRunOf(t, i + 1, n - 1);
    }
  }

  /** A banner that begins with `N fps` reads back as the rate N. */
  lemma FpsRoundTrip(t: string, n: nat)
    requires |NatToDecimal(n)| + 4 <= |t| && t[..|NatToDecimal(n)| + 4] == NatToDecimal(n) + " fps"
    ensures ParseFps(t) == Some(n as real)
  {
    var d := NatToDecimal(n);
    assert DigitsValue(d) == n by {
      DecimalRoundTrip(n);
    }
    WholeRateAtStart(t, d);
    WholeRateValue(t, d);
    ParseFpsLeading(t, n as real);
  }

  /** `t` begins with the digits `whole` and ` fps`. */
  predicate WholeLayout(t: string, whole: string) {
    |whole| > 0 && AllDigits(whole) && |whole| + 4 <= |t|
    && DigitRun(t, 0) == |whole| && FractionRun(t, |whole|) == 0
    && FpsSuffixAt(t, |whole|) && t[0..|whole|] == whole
  }

  lemma WholeRateAtStart(t: string, whole: string)
    requires |whole| > 0 && AllDigits(whole)
    requires |whole| + 4 <= |t| && t[..|whole| + 4] == whole + " fps"
    ensures WholeLayout(t, whole)
  {
    var w := |whole|;
    var p := whole + " fps";
    assert t[0..w] == p[0..w] == whole;
    assert t[w] == p[w] == ' ';
    DigitRunOf(t, 0, w);
    assert t[w..w + 4] == p[w..w + 4] == " fps";
  }

  /** The rate `whole fps` at the start of the banner has the value whole. */
  lemma WholeRateValue(t: string, whole: string)
    requires WholeLayout(t, whole)
    ensures FpsAt(t, 0) && FpsValue(t, 0) == DigitsValue(whole) as real
  {
    assert t[0..0 + |whole|] == whole;
  }

  /** A banner that begins with `N.F fps` reads back as N plus the fraction .F. */
  lemma FpsFractionRoundTrip(t: string, n: nat, fraction: string)
    requires |fraction| > 0 && AllDigits(fraction)
    requires |NatToDecimal(n)| + 1 + |fraction| + 4 <= |t|
    requires t[..|NatToDecimal(n)| + 1 + |fraction| + 4] == NatToDecimal(n) + "." + fraction + " fps"
    ensures ParseFps(t) == Some(n as real + DecimalFraction(fraction))
  {
    var d := NatToDecimal(n);
    assert ParseFps(t) == Some(DigitsValue(d) as real + DecimalFraction(fraction)) by {
      FractionMatch(t, d, fraction);
      FpsReadsBack(t, d, fraction);
    }
    assert DigitsValue(d) == n by {
      DecimalRoundTrip(n);
    }
  }

  /** `t` begins with the digits `whole`, a point, the digits `fraction` and ` fps`. */
  predicate RateLayout(t: string, whole: string, fraction: string) {
    |whole| > 0 && AllDigits(whole) && |fraction| > 0 && AllDigits(fraction)
    && |whole| + 1 + |fraction| <= |t|
    && DigitRun(t, 0) == |whole| && FractionRun(t, |whole|) == |fraction|
    && FpsSuffixAt(t, |whole| + 1 + |fraction|)
    && t[0..|whole|] == whole && t[|whole| + 1..|whole| + 1 + |fraction|] == fraction
  }

  lemma FpsReadsBack(t: string, whole: string, fraction: string)
    requires RateLayout(t, whole, fraction)
    ensures ParseFps(t) == Some(DigitsValue(whole) as real + DecimalFraction(fraction))
  {
    FpsValueAtStart(t, whole, fraction);
    ParseFpsLeading(t, DigitsValue(whole) as real + DecimalFraction(fraction));
  }

  /** A rate at the very start of the banner is the one read. */
  lemma ParseFpsLeading(t: string, rate: real)
    requires FpsAt(t, 0) && FpsValue(t, 0) == rate
    ensures ParseFps(t) == Some(rate)
  {
    LeadingMatch(FpsPattern, t);
  }

  /** The rate `whole.fraction fps` at the start of the banner has the value whole + .fraction. */
  lemma FpsValueAtStart(t: string, whole: string, fraction: string)
    requires RateLayout(t, whole, fraction)
    ensures FpsAt(t, 0) && FpsValue(t, 0) == DigitsValue(whole) as real + DecimalFraction(fraction)
  {
    RateMatchesAtStart(t, whole, fraction);
    var w := |whole|;
    assert t[0..0 + w] == whole;
    assert t[0 + w + 1..0 + w + 1 + |fraction|] == fraction;
  }

  lemma RateMatchesAtStart(t: string, whole: string, fraction: string)
    requires RateLayout(t, whole, fraction)
    ensures FpsAt(t, 0)
  {
  }

  /** A pattern that matches at the very start is the one found. */
  lemma LeadingMatch(p: Pattern, t: string)
    requires MatchesAt(p, t, 0)
    ensures FirstMatch(p, t) == Some(0)
  {
  }

  lemma FractionMatch(t: string, d: string, fraction: string)
    requires |d| > 0 && AllDigits(d)
    requires |fraction| > 0 && AllDigits(fraction)
    requires |d| + 1 + |fraction| + 4 <= |t| && t[..|d| + 1 + |fraction| + 4] == d + "." + fraction + " fps"
    ensures RateLayout(t, d, fraction)
  {
    var j := |d| + 1 + |fraction|;
    var p := d + "." + fraction + " fps";
    assert t[0..|d|] == p[0..|d|] == d;
    assert t[|d| + 1..j] == p[|d| + 1..j] == fraction;
    assert t[|d|] == p[|d|] == '.' && t[j] == p[j] == ' ';
    assert DigitRun(t, 0) == |d| by {
      DigitRunOf(t, 0, |d|);
    }
    assert DigitRun(t, |d| + 1) == |fraction| by {
      DigitRunOf(t, |d| + 1, |fraction|);
    }
    assert t[j..j + 4] == p[j..j + 4] == " fps";
  }

  // The structured probe's `r_frame_rate`.

  /** A JavaScript number: a finite value or NaN. */
  datatype JsNumber = Num(value: real) | NaN

  /** `Number(s)` for the texts a frame-rate field holds: the empty text is 0,
      a digit string its value; anything else is taken as NaN. */
  function NumberOf(s: string): JsNumber {
    if s == "" then Num(0.0)
    else if AllDigits(s) then Num(DigitsValue(s) as real)
    else NaN
  }

  predicate JsTruthy(n: JsNumber) {
    n.Num? && n.value != 0.0
  }

  /** `fps = 30; if (r) { [num, den] = r.split('/').map(Number); fps = den ? num / den : num }`.
      `None` is an absent field. */
  function FrameRate(rFrameRate: Option<string>): (fps: JsNumber)
    ensures rFrameRate.None? ==> fps == Num(DefaultFps)
    ensures rFrameRate == Some("") ==> fps == Num(DefaultFps)
  {
    if rFrameRate.None? || rFrameRate.value == "" then Num(DefaultFps)
    else
      var parts := Split(rFrameRate.value, '/');
      var num := NumberOf(parts[0]);
      var den := if |parts| >= 2 then NumberOf(parts[1]) else NaN;  // undefined is falsy like NaN
      if JsTruthy(den) then
        (if num.NaN? then NaN else Num(num.value / den.value))
      else num
  }

  /** `"num/den"` gives num / den, or num when den is zero. */
  lemma FrameRateOfFraction(num: nat, den: nat)
    ensures FrameRate(Some(NatToDecimal(num) + "/" + NatToDecimal(den)))
            == if den == 0 then Num(num as real) else Num(num as real / den as real)
  {
    SplitNumDen(num, den);
    FrameRateOfParts(NatToDecimal(num) + "/" + NatToDecimal(den), num, den);
  }

  lemma FrameRateOfParts(s: string, num: nat, den: nat)
    requires Split(s, '/') == [NatToDecimal(num), NatToDecimal(den)]
    ensures FrameRate(Some(s)) == if den == 0 then Num(num as real) else Num(num as real / den as real)
  {
    SplitOfEmpty('/');
    assert s != "";
    NumberOfDecimal(num);
    NumberOfDecimal(den);
  }

  lemma SplitOfEmpty(sep: char)
    ensures Split("", sep) == [""]
  {
  }

  /** `Number` of a written natural number is that number. */
  lemma NumberOfDecimal(n: nat)
    ensures NumberOf(NatToDecimal(n)) == Num(n as real)
  {
    DecimalRoundTrip(n);
  }

  lemma SplitNumDen(num: nat, den: nat)
    ensures Split(NatToDecimal(num) + "/" + NatToDecimal(den), '/') == [NatToDecimal(num), NatToDecimal(den)]
  {
    DecimalHasNo(num, '/');
    DecimalHasNo(den, '/');
    SplitSeparator(NatToDecimal(num), NatToDecimal(den), '/');
  }

  /** A plain number without a denominator gives that number. */
  lemma FrameRateOfWhole(num: nat)
    ensures FrameRate(Some(NatToDecimal(num))) == Num(num as real)
  {
    DecimalHasNo(num, '/');
    assert Split(NatToDecimal(num), '/') == [NatToDecimal(num)];
    NumberOfDecimal(num);
  }
}

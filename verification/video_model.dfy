/** The video document of the catalog: its fields, the schema's defaults,
    validators and trimming, and the `formattedDuration` virtual. */
module VideoModel {
  import opened Wrappers

  /** Catalog-item identifiers are opaque; the store hands out fresh ones. */
  type VideoId = nat

  /** A stored video. `createdAt` is the timestamp the store sets on insert,
      taken here as a given natural number. */
  datatype Video = Video(
    id: VideoId,
    title: string,
    description: string,
    thumbnailUrl: string,
    videoUrl: string,
    duration: nat,
    genre: seq<string>,
    rating: real,
    views: int,
    releaseYear: int,
    cast: seq<string>,
    director: string,
    isPublished: bool,
    isFeatured: bool,
    createdAt: nat)

  // ---------------------------------------------------------------------
  // Trimming (the schema's `trim: true` on title and description)
  // ---------------------------------------------------------------------

  /** The characters JavaScript's String.prototype.trim removes. */
  predicate IsSpace(c: char) {
    || c == ' ' || c == '\t' || c == '\n' || c == '\r'
    || c == '\U{000B}' || c == '\U{000C}' || c == '\U{00A0}' || c == '\U{1680}'
    || ('\U{2000}' <= c <= '\U{200A}')
    || c == '\U{2028}' || c == '\U{2029}' || c == '\U{202F}' || c == '\U{205F}'
    || c == '\U{3000}' || c == '\U{FEFF}'
  }

  /** Drops the longest all-whitespace prefix. */
  function TrimStart(s: string): (r: string)
    ensures |r| <= |s| && r == s[|s| - |r|..]
    ensures forall i :: 0 <= i < |s| - |r| ==> IsSpace(s[i])
    ensures r == [] || !IsSpace(r[0])
  {
    if s != [] && IsSpace(s[0]) then TrimStart(s[1..]) else s
  }

  /** Drops the longest all-whitespace suffix. */
  function TrimEnd(s: string): (r: string)
    ensures |r| <= |s| && r == s[..|r|]
    ensures forall i :: |r| <= i < |s| ==> IsSpace(s[i])
    ensures r == [] || !IsSpace(r[|r| - 1])
  {
    if s != [] && IsSpace(s[|s| - 1]) then TrimEnd(s[..|s| - 1]) else s
  }

  /** Neither end of `s` is whitespace. */
  predicate Trimmed(s: string) {
    s == [] || (!IsSpace(s[0]) && !IsSpace(s[|s| - 1]))
  }

  /** The schema's `trim`: no whitespace is left at either end
      (`TrimCutsWhitespace` says what is cut). */
  function Trim(s: string): (r: string)
    ensures Trimmed(r)
    ensures |r| <= |s|
  {
    TrimEnd(TrimStart(s))
  }

  /** Trimming keeps a stretch of the input and cuts off only whitespace
      before and after it. */
  lemma TrimCutsWhitespace(s: string)
    ensures exists i, j :: (0 <= i <= j <= |s| && Trim(s) == s[i..j]
      && (forall k :: 0 <= k < i ==> IsSpace(s[k]))
      && (forall k :: j <= k < |s| ==> IsSpace(s[k])))
  {
    var i, j := TrimWindow(s);
    assert 0 <= i <= j <= |s| && Trim(s) == s[i..j];
  }

  /** The bounds of the stretch `Trim` keeps. */
  lemma TrimWindow(s: string) returns (i: nat, j: nat)
    ensures i <= j <= |s| && Trim(s) == s[i..j]
    ensures forall k :: 0 <= k < i ==> IsSpace(s[k])
    ensures forall k :: j <= k < |s| ==> IsSpace(s[k])
  {
    var t := TrimStart(s);
    var r := TrimEnd(t);
    i, j := |s| - |t|, |s| - |t| + |r|;
    assert r == s[i..j] by {
      assert t == s[i..];
      assert r == t[..|r|];
    }
    forall k | j <= k < |s| ensures IsSpace(s[k]) {
      assert s[k] == t[k - i];
    }
  }

  /** Trimming changes exactly the strings that are not yet trimmed. */
  lemma TrimFixesTrimmed(s: string)
    ensures Trim(s) == s <==> Trimmed(s)
  {
    if Trimmed(s) {
      assert TrimStart(s) == s;
      assert TrimEnd(s) == s;
    }
  }

  /** Trimming a trimmed string changes nothing. */
  lemma TrimIdempotent(s: string)
    ensures Trim(Trim(s)) == Trim(s)
  {
    TrimFixesTrimmed(Trim(s));
  }

  // ---------------------------------------------------------------------
  // Decimal rendering of naturals (template-literal interpolation)
  // ---------------------------------------------------------------------

  predicate IsDigit(c: char) {
    '0' <= c <= '9'
  }

  predicate IsDigits(s: string) {
    forall i :: 0 <= i < |s| ==> IsDigit(s[i])
  }

  function DigitChar(d: nat): (c: char)
    requires d < 10
    ensures IsDigit(c) && c as int - '0' as int == d
  {
    ('0' as int + d) as char
  }

  /** The decimal numeral of `n`, without leading zeros. */
  function NatToString(n: nat): (r: string)
    ensures r != [] && IsDigits(r)
    ensures r[0] == '0' ==> n == 0
    decreases n
  {
    if n < 10 then [DigitChar(n)] else NatToString(n / 10) + [DigitChar(n % 10)]
  }

  /** The value of a decimal numeral. */
  function DigitsValue(s: string): nat
    requires IsDigits(s)
  {
    if s == [] then 0 else DigitsValue(s[..|s| - 1]) * 10 + (s[|s| - 1] as int - '0' as int)
  }

  /** Reading back a rendered natural gives the natural. */
  lemma {:induction false} NatToStringRoundTrip(n: nat)
    ensures DigitsValue(NatToString(n)) == n
    decreases n
  {
    if n >= 10 {
      NatToStringRoundTrip(n / 10);
      var r := NatToString(n);
      assert r[..|r| - 1] == NatToString(n / 10);
    }
  }

  // ---------------------------------------------------------------------
  // The `formattedDuration` virtual
  // ---------------------------------------------------------------------

  datatype Clock = Clock(hours: nat, minutes: nat, seconds: nat)

  /** Whole hours, the minutes left over, and the seconds left over. */
  function SplitDuration(duration: nat): (c: Clock)
    ensures c.hours * 3600 + c.minutes * 60 + c.seconds == duration
    ensures c.minutes < 60 && c.seconds < 60
  {
    var h, r := duration / 3600, duration % 3600;
    assert duration == h * 3600 + r;
    assert r == (r / 60) * 60 + r % 60;
    assert duration % 60 == r % 60 by {
      assert duration == (h * 60 + r / 60) * 60 + r % 60;
      DivModUnique(duration, 60, h * 60 + r / 60, r % 60);
    }
    Clock(h, r / 60, duration % 60)
  }

  /** Quotient and remainder are determined by `a == q * k + m` with `0 <= m < k`. */
  lemma DivModUnique(a: nat, k: nat, q: nat, m: nat)
    requires 0 < k && m < k && a == q * k + m
    ensures a / k == q && a % k == m
  {
    var q', m' := a / k, a % k;
    assert a == q' * k + m';
    if q' < q {
      MulDiffAtLeast(q, q', k);
    } else if q' > q {
      MulDiffAtLeast(q', q, k);
    }
  }

  lemma MulDiffAtLeast(x: nat, y: nat, k: nat)
    requires y < x
    ensures x * k >= y * k + k
  {
    var d := x - y - 1;
    assert x == y + 1 + d;
    assert x * k == y * k + k + d * k;
  }

  /** Hours, minutes and seconds under 60 each are the only such split. */
  lemma SplitDurationUnique(duration: nat, c: Clock)
    requires c.hours * 3600 + c.minutes * 60 + c.seconds == duration
    requires c.minutes < 60 && c.seconds < 60
    ensures c == SplitDuration(duration)
  {
    var rest := c.minutes * 60 + c.seconds;
    DivModUnique(duration, 3600, c.hours, rest);
    DivModUnique(rest, 60, c.minutes, c.seconds);
    DivModUnique(duration, 60, c.hours * 60 + c.minutes, c.seconds);
  }

  /** The "<m>m <s>s" part that every formatted duration ends with. */
  function MinutesSeconds(c: Clock): string {
    NatToString(c.minutes) + "m " + NatToString(c.seconds) + "s"
  }

  /** The template of `formattedDuration`: "<h>h " only when there is a
      whole hour, then minutes and seconds. */
  function ClockText(c: Clock): (r: string)
    ensures |r| >= |MinutesSeconds(c)| && r[|r| - |MinutesSeconds(c)|..] == MinutesSeconds(c)
  {
    var tail := MinutesSeconds(c);
    if c.hours > 0 then NatToString(c.hours) + "h " + tail else tail
  }

  /** The hour mark shows up exactly when there is a whole hour. */
  lemma ClockTextHourMark(c: Clock)
    ensures ('h' in ClockText(c)) <==> c.hours > 0
  {
    var tail := MinutesSeconds(c);
    assert 'h' !in tail by {
      NoLetterInNumeral(c.minutes, 'h');
      NoLetterInNumeral(c.seconds, 'h');
      assert tail == NatToString(c.minutes) + ("m " + NatToString(c.seconds) + "s");
    }
    if c.hours > 0 {
      assert ClockText(c)[|NatToString(c.hours)|] == 'h';
    }
  }

  /** The `formattedDuration` virtual of a video lasting `duration` seconds. */
  function FormattedDuration(duration: nat): (r: string)
    ensures var tail := MinutesSeconds(SplitDuration(duration)); |r| >= |tail| && r[|r| - |tail|..] == tail
  {
    ClockText(SplitDuration(duration))
  }

  /** "<h>h " is present iff the duration reaches an hour. */
  lemma FormattedDurationHourMark(duration: nat)
    ensures ('h' in FormattedDuration(duration)) <==> duration >= 3600
  {
    ClockTextHourMark(SplitDuration(duration));
  }

  lemma NoLetterInNumeral(n: nat, letter: char)
    requires !IsDigit(letter)
    ensures letter !in NatToString(n)
  {
  }

  // Reading a formatted duration back

  /** Length of the longest prefix made of digits. */
  function DigitPrefixLength(s: string): (k: nat)
    ensures k <= |s| && IsDigits(s[..k])
    ensures k == |s| || !IsDigit(s[k])
  {
    if s != [] && IsDigit(s[0]) then
      var k := 1 + DigitPrefixLength(s[1..]);
      assert s[..k] == [s[0]] + s[1..][..k - 1];
      k
    else 0
  }

  /** A leading numeral: its value and what follows it. */
  function ParseNumber(s: string): Option<(nat, string)> {
    var k := DigitPrefixLength(s);
    if k == 0 then None else Some((DigitsValue(s[..k]), s[k..]))
  }

  /** Reads "<m>m <s>s" as a number of seconds. */
  function ParseMinutesSeconds(s: string): Option<nat> {
    match ParseNumber(s)
    case None => None
    case Some((m, rest)) =>
      if |rest| >= 2 && rest[..2] == "m " then
        match ParseNumber(rest[2..])
        case None => None
        case Some((sec, rest')) => if rest' == "s" then Some(m * 60 + sec) else None
      else None
  }

  /** Reads "[<h>h ]<m>m <s>s" as a number of seconds. */
  function ParseFormattedDuration(s: string): Option<nat> {
    match ParseNumber(s)
    case None => None
    case Some((h, rest)) =>
      if |rest| >= 2 && rest[..2] == "h " then
        match ParseMinutesSeconds(rest[2..])
        case None => None
        case Some(ms) => Some(h * 3600 + ms)
      else ParseMinutesSeconds(s)
  }

  lemma {:induction false} DigitPrefixOfNumeral(digits: string, t: string)
    requires IsDigits(digits)
    requires t == [] || !IsDigit(t[0])
    ensures DigitPrefixLength(digits + t) == |digits|
  {
    if digits != [] {
      assert (digits + t)[1..] == digits[1..] + t;
      DigitPrefixOfNumeral(digits[1..], t);
    }
  }

  lemma ParseNumberOfNumeral(s: string, n: nat, t: string)
    requires s == NatToString(n) + t
    requires t == [] || !IsDigit(t[0])
    ensures ParseNumber(s) == Some((n, t))
  {
    var digits := NatToString(n);
    DigitPrefixOfNumeral(digits, t);
    assert s[..|digits|] == digits;
    assert s[|digits|..] == t;
    NatToStringRoundTrip(n);
  }

  /** "<m>m <s>s" as a numeral, the minute mark and the rest. */
  lemma MinutesSecondsText(c: Clock)
    ensures MinutesSeconds(c) == NatToString(c.minutes) + ("m " + (NatToString(c.seconds) + "s"))
  {
  }

  lemma ParseMinutesSecondsRoundTrip(c: Clock)
    ensures ParseMinutesSeconds(MinutesSeconds(c)) == Some(c.minutes * 60 + c.seconds)
  {
    var text := MinutesSeconds(c);
    var secs := NatToString(c.seconds) + "s";
    MinutesSecondsText(c);
    ParseNumberOfNumeral(text, c.minutes, "m " + secs);
    ParseNumberOfNumeral(secs, c.seconds, "s");
    ParseAfterMinuteMark(text, c.minutes, secs, c.seconds);
  }

  /** A text whose leading numeral is followed by the minute mark and a
      numeral with the seconds mark is read as minutes and seconds. */
  lemma ParseAfterMinuteMark(s: string, m: nat, secs: string, sec: nat)
    requires ParseNumber(s) == Some((m, "m " + secs))
    requires ParseNumber(secs) == Some((sec, "s"))
    ensures ParseMinutesSeconds(s) == Some(m * 60 + sec)
  {
    MarkThenRest("m ", secs);
  }

  /** A text whose leading numeral is followed by the hour mark is read as
      that many hours plus the minutes and seconds after the mark. */
  lemma ParseAfterHourMark(s: string, h: nat, tail: string, ms: nat)
    requires ParseNumber(s) == Some((h, "h " + tail))
    requires ParseMinutesSeconds(tail) == Some(ms)
    ensures ParseFormattedDuration(s) == Some(h * 3600 + ms)
  {
    MarkThenRest("h ", tail);
  }

  /** A two-letter mark in front of `rest`, seen from the front. */
  lemma MarkThenRest(mark: string, rest: string)
    requires |mark| == 2
    ensures var s := mark + rest; |s| >= 2 && s[..2] == mark && s[2..] == rest
  {
  }

  /** Without the hour mark the text is read as minutes and seconds. */
  lemma ParseWithoutHours(c: Clock)
    ensures ParseFormattedDuration(MinutesSeconds(c)) == ParseMinutesSeconds(MinutesSeconds(c))
  {
    var text := MinutesSeconds(c);
    var after := "m " + (NatToString(c.seconds) + "s");
    MinutesSecondsText(c);
    ParseNumberOfNumeral(text, c.minutes, after);
    MarkThenRest("m ", NatToString(c.seconds) + "s");
  }

  /** "<h>h " in front of "<m>m <s>s" when there is a whole hour. */
  lemma ClockTextWithHours(c: Clock)
    requires c.hours > 0
    ensures ClockText(c) == NatToString(c.hours) + ("h " + MinutesSeconds(c))
  {
  }

  lemma ClockTextRoundTripHours(c: Clock)
    requires c.hours > 0
    ensures ParseFormattedDuration(ClockText(c)) == Some(c.hours * 3600 + c.minutes * 60 + c.seconds)
  {
    var text := ClockText(c);
    var tail := MinutesSeconds(c);
    ParseMinutesSecondsRoundTrip(c);
    ClockTextWithHours(c);
    ParseNumberOfNumeral(text, c.hours, "h " + tail);
    ParseAfterHourMark(text, c.hours, tail, c.minutes * 60 + c.seconds);
  }

  lemma ClockTextRoundTrip(c: Clock)
    ensures ParseFormattedDuration(ClockText(c)) == Some(c.hours * 3600 + c.minutes * 60 + c.seconds)
  {
    if c.hours > 0 {
      ClockTextRoundTripHours(c);
    } else {
      ParseMinutesSecondsRoundTrip(c);
      ParseWithoutHours(c);
    }
  }

  /** The formatted text determines the duration: reading it back gives the
      number of seconds it was formatted from. */
  lemma FormattedDurationRoundTrip(duration: nat)
    ensures ParseFormattedDuration(FormattedDuration(duration)) == Some(duration)
  {
    ClockTextRoundTrip(SplitDuration(duration));
  }

  // ---------------------------------------------------------------------
  // Schema: required fields, defaults and the rating bound
  // ---------------------------------------------------------------------

  const MinRating: real := 0.0
  const MaxRating: real := 5.0
  const DefaultRating: real := 0.0
  const DefaultViews: int := 0

  /** The fields a request body supplies for a new video. A string field the
      body leaves out is "": the `required` validator refuses both alike.
      The model gives a body no `_id` or `createdAt`. */
  datatype VideoInput = VideoInput(
    title: string,
    description: string,
    thumbnailUrl: string,
    videoUrl: string,
    duration: Option<nat>,
    genre: seq<string>,
    rating: Option<real>,
    views: Option<int>,
    releaseYear: Option<int>,
    cast: seq<string>,
    director: string,
    isPublished: Option<bool>,
    isFeatured: Option<bool>)

  /** The schema accepts the input: required fields present (strings
      non-empty after trimming where the schema trims), no empty genre or
      cast entry, and the rating, defaulted, within [MinRating, MaxRating]. */
  predicate Accepts(input: VideoInput) {
    && Trim(input.title) != ""
    && Trim(input.description) != ""
    && AcceptsUntrimmed(input)
  }

  /** The part of `Accepts` about the fields the schema does not trim. */
  predicate AcceptsUntrimmed(input: VideoInput) {
    && input.thumbnailUrl != ""
    && input.videoUrl != ""
    && input.duration.Some?
    && "" !in input.genre
    && MinRating <= input.rating.GetOr(DefaultRating) <= MaxRating
    && input.releaseYear.Some?
    && "" !in input.cast
    && input.director != ""
  }

  /** Every path whose validator refuses the input; none exactly when the
      schema accepts it. */
  function SchemaErrors(input: VideoInput): (paths: set<string>)
    ensures paths == {} <==> Accepts(input)
  {
    (if Trim(input.title) == "" then {"title"} else {})
    + (if Trim(input.description) == "" then {"description"} else {})
    + (if input.thumbnailUrl == "" then {"thumbnailUrl"} else {})
    + (if input.videoUrl == "" then {"videoUrl"} else {})
    + (if input.duration.None? then {"duration"} else {})
    + (if "" in input.genre then {"genre"} else {})
    + (if !(MinRating <= input.rating.GetOr(DefaultRating) <= MaxRating) then {"rating"} else {})
    + (if input.releaseYear.None? then {"releaseYear"} else {})
    + (if "" in input.cast then {"cast"} else {})
    + (if input.director == "" then {"director"} else {})
  }

  /** The fields of a stored video, as an input that would recreate it. */
  function AsInput(v: Video): VideoInput {
    VideoInput(v.title, v.description, v.thumbnailUrl, v.videoUrl, Some(v.duration),
      v.genre, Some(v.rating), Some(v.views), Some(v.releaseYear), v.cast, v.director,
      Some(v.isPublished), Some(v.isFeatured))
  }

  /** A video the schema accepts, stored with its title and description
      trimmed (`WellFormedAccepted` ties it to `Accepts`). */
  predicate WellFormed(v: Video) {
    && v.title != "" && Trimmed(v.title)
    && v.description != "" && Trimmed(v.description)
    && AcceptsUntrimmed(AsInput(v))
  }

  /** A stored video is well formed exactly when the schema accepts its
      fields and trimming leaves its title and description as they are. */
  lemma WellFormedAccepted(v: Video)
    ensures WellFormed(v) <==> Accepts(AsInput(v)) && Trim(v.title) == v.title && Trim(v.description) == v.description
  {
    TrimFixesTrimmed(v.title);
    TrimFixesTrimmed(v.description);
  }

  /** The document the schema builds from an accepted input: the input's
      fields, title and description trimmed, and the defaults for what the
      input leaves out. */
  function NewDocument(input: VideoInput, id: VideoId, createdAt: nat): (v: Video)
    requires Accepts(input)
    ensures WellFormed(v)
    ensures v.id == id && v.createdAt == createdAt
    ensures v.title == Trim(input.title) && v.description == Trim(input.description)
    ensures v.thumbnailUrl == input.thumbnailUrl && v.videoUrl == input.videoUrl
    ensures v.duration == input.duration.value && v.releaseYear == input.releaseYear.value
    ensures v.genre == input.genre && v.cast == input.cast && v.director == input.director
    ensures input.rating.Some? ==> v.rating == input.rating.value
    ensures input.rating.None? ==> v.rating == DefaultRating
    ensures input.views.Some? ==> v.views == input.views.value
    ensures input.views.None? ==> v.views == DefaultViews
    ensures input.isPublished.Some? ==> v.isPublished == input.isPublished.value
    ensures input.isPublished.None? ==> !v.isPublished
    ensures input.isFeatured.Some? ==> v.isFeatured == input.isFeatured.value
    ensures input.isFeatured.None? ==> !v.isFeatured
  {
    var v := Video(id, Trim(input.title), Trim(input.description), input.thumbnailUrl,
      input.videoUrl, input.duration.value, input.genre, input.rating.GetOr(DefaultRating),
      input.views.GetOr(DefaultViews), input.releaseYear.value, input.cast, input.director,
      input.isPublished.GetOr(false), input.isFeatured.GetOr(false), createdAt);
    TrimIdempotent(input.title);
    TrimIdempotent(input.description);
    v
  }

  /** Validation followed by document construction. */
  function CreateDocument(input: VideoInput, id: VideoId, createdAt: nat): (r: Result<Video>)
    ensures r.Ok? <==> Accepts(input)
    ensures r.Fail? ==> r.failure.ValidationError? && r.failure.paths != {}
    ensures r.Ok? ==> r.value == NewDocument(input, id, createdAt)
  {
    var errors := SchemaErrors(input);
    if errors == {} then Ok(NewDocument(input, id, createdAt)) else Fail(ValidationError(errors))
  }

  /** A well-formed stored video is exactly what its own fields rebuild. */
  lemma DocumentRoundTrip(v: Video)
    requires WellFormed(v)
    ensures NewDocument(AsInput(v), v.id, v.createdAt) == v
  {
    WellFormedAccepted(v);
  }
}

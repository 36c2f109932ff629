/**
 * The records of a video item and the decoders from their external JSON shapes
 * (src/lib/loader.ts). Times are kept as integer milliseconds: a timecode
 * "hh:mm:ss,ms" denotes hh * 3600 + mm * 60 + ss + ms / 1000 seconds, which is
 * exactly hh * 3600000 + mm * 60000 + ss * 1000 + ms milliseconds.
 */
module Loader {
  import opened Wrappers
  import Sorting

  // ---------------------------------------------------------------- records

  /** `[start, end]` of a sentence, in milliseconds. */
  datatype TimeRange = TimeRange(start: int, end: int)

  datatype Sentence = Sentence(timeRange: TimeRange, value: string)

  /** An inclusive range `[start, end]` of 0-based sentence indices. */
  datatype SentenceRange = SentenceRange(start: int, end: int)

  /**
   * A key moment. The interface in loader.ts predates `isReviewed`; the editor
   * reads and writes it, and a moment that never had it reads as not reviewed.
   */
  datatype KeyMoment = KeyMoment(
    title: string,
    sentenceRange: SentenceRange,
    concept: string,
    keyTakeaway: string,
    isReviewed: bool)

  datatype VideoInfo = VideoInfo(
    mid: string, name: string, grade: string, subject: string, chapter: string,
    duration: real)  // seconds

  /** The external records, field for field. */
  datatype VideoInfoJson = VideoInfoJson(
    mid: string, videoName: string, grade: string, subject: string, chapter: string,
    durationMinutes: real)

  datatype SentenceJson = SentenceJson(
    sl: int, startTimecode: string, endTimecode: string, sentence: string)

  datatype KeyMomentJson = KeyMomentJson(
    title: string, startSL: int, endSL: int, concept: string, keyTakeaway: string,
    examples: seq<string>)

  // ------------------------------------------- the key-moment collection invariant

  ghost predicate NonEmpty(m: KeyMoment) {
    m.sentenceRange.start <= m.sentenceRange.end
  }

  /**
   * Every range is non-empty and every moment ends before any later one starts:
   * the moments are sorted strictly by start and pairwise non-overlapping.
   */
  ghost predicate Ordered(kms: seq<KeyMoment>) {
    && (forall i :: 0 <= i < |kms| ==> NonEmpty(kms[i]))
    && (forall i, j :: 0 <= i < j < |kms| ==> kms[i].sentenceRange.end < kms[j].sentenceRange.start)
  }

  /** Every range lies inside the sentence indices `0 .. sentenceCount - 1`. */
  ghost predicate Within(kms: seq<KeyMoment>, sentenceCount: int) {
    forall i :: 0 <= i < |kms| ==>
      0 <= kms[i].sentenceRange.start && kms[i].sentenceRange.end < sentenceCount
  }

  // ---------------------------------------------------------------- video URL

  const BaseUrl: string := "http://localhost:2123/files"

  /** The URL of a video: the mid between the base URL and the file name, so it can be read back. */
  function GetVideoUrl(mid: string): (url: string)
    ensures |url| == |BaseUrl| + |mid| + 11
    ensures url[..|BaseUrl| + 1] == BaseUrl + "/"
    ensures url[|BaseUrl| + 1..|BaseUrl| + 1 + |mid|] == mid
    ensures url[|BaseUrl| + 1 + |mid|..] == "/video.mp4"
  {
    BaseUrl + "/" + mid + "/video.mp4"
  }

  lemma VideoUrlInjective(a: string, b: string)
    requires GetVideoUrl(a) == GetVideoUrl(b)
    ensures a == b
  {
    assert |a| == |b|;
  }

  // ---------------------------------------------------------------- video info

  /** Copies the five text fields and converts the duration from minutes to seconds. */
  function ParseInfoJson(json: VideoInfoJson): (info: VideoInfo)
    ensures info.mid == json.mid && info.name == json.videoName
    ensures info.grade == json.grade && info.subject == json.subject && info.chapter == json.chapter
    ensures info.duration / 60.0 == json.durationMinutes
  {
    VideoInfo(json.mid, json.videoName, json.grade, json.subject, json.chapter,
              json.durationMinutes * 60.0)
  }

  // ---------------------------------------------------------------- String.split

  /** Joins the parts with `sep` between consecutive ones (the inverse of Split). */
  function Join(parts: seq<string>, sep: char): string
    requires |parts| >= 1
  {
    if |parts| == 1 then parts[0] else parts[0] + [sep] + Join(parts[1..], sep)
  }

  /** `s.split(sep)` for a one-character separator: the maximal pieces between separators. */
  function Split(s: string, sep: char): (parts: seq<string>)
    ensures |parts| >= 1
    ensures forall i :: 0 <= i < |parts| ==> sep !in parts[i]
    ensures Join(parts, sep) == s
    ensures |parts| == 1 <==> sep !in s
  {
    if s == [] then [""]
    else
      var rest := Split(s[1..], sep);
      assert s == [s[0]] + s[1..];
      if s[0] == sep then
        assert ([""] + rest)[1..] == rest;
        [""] + rest
      else
        assert |rest| > 1 ==> Join(rest, sep) == rest[0] + [sep] + Join(rest[1..], sep);
        assert ([[s[0]] + rest[0]] + rest[1..])[1..] == rest[1..];
        [[s[0]] + rest[0]] + rest[1..]
  }

  /** Splitting a non-empty string looks at its first character only. */
  lemma SplitCons(c: char, t: string, sep: char)
    ensures Split([c] + t, sep) ==
      if c == sep then [""] + Split(t, sep)
      else [[c] + Split(t, sep)[0]] + Split(t, sep)[1..]
  {
    assert ([c] + t)[0] == c && ([c] + t)[1..] == t;
  }

  /** Splitting at a first separator yields the piece before it and the split of the rest. */
  lemma {:induction false} SplitAtFirst(a: string, sep: char, b: string)
    requires sep !in a
    ensures Split(a + [sep] + b, sep) == [a] + Split(b, sep)
  {
    if a == [] {
      assert a + [sep] + b == [sep] + b;
      SplitCons(sep, b, sep);
    } else {
      var tail := a[1..] + [sep] + b;
      assert a + [sep] + b == [a[0]] + tail;
      SplitAtFirst(a[1..], sep, b);
      SplitCons(a[0], tail, sep);
      assert [a[0]] + a[1..] == a;
    }
  }

  // ---------------------------------------------------------------- parseInt

  /** The characters `parseInt` skips before the number (Unicode space separators aside). */
  predicate IsWhiteSpace(c: char) {
    c in {'\t', '\n', '\U{B}', '\U{C}', '\r', ' ', '\U{A0}', '\U{2028}', '\U{2029}', '\U{FEFF}'}
  }

  /** The value of `c` as a hexadecimal digit, or -1. */
  function DigitValue(c: char): (v: int)
    ensures -1 <= v < 16
    ensures '0' <= c <= '9' ==> v == c as int - '0' as int
  {
    if '0' <= c <= '9' then c as int - '0' as int
    else if 'a' <= c <= 'f' then c as int - 'a' as int + 10
    else if 'A' <= c <= 'F' then c as int - 'A' as int + 10
    else -1
  }

  predicate IsDigitOf(c: char, radix: int) {
    0 <= DigitValue(c) < radix
  }

  predicate IsDecimal(s: string) {
    forall i :: 0 <= i < |s| ==> IsDigitOf(s[i], 10)
  }

  /** The length of the longest prefix of `s` made of digits of `radix`. */
  function DigitRun(s: string, radix: int): (n: nat)
    ensures n <= |s|
    ensures forall i :: 0 <= i < n ==> IsDigitOf(s[i], radix)
    ensures n < |s| ==> !IsDigitOf(s[n], radix)
  {
    if s != [] && IsDigitOf(s[0], radix) then 1 + DigitRun(s[1..], radix) else 0
  }

  /** The number that the digits `ds` denote in `radix` (10, or 16 after `0x`). */
  function ValueOf(ds: string, radix: int): int
    requires forall i :: 0 <= i < |ds| ==> IsDigitOf(ds[i], radix)
  {
    if ds == [] then 0
    else
      var high := ValueOf(ds[..|ds| - 1], radix);
      (if radix == 16 then high * 16 else high * 10) + DigitValue(ds[|ds| - 1])
  }

  function TrimStart(s: string): (t: string)
    ensures t == [] || !IsWhiteSpace(t[0])
  {
    if s != [] && IsWhiteSpace(s[0]) then TrimStart(s[1..]) else s
  }

  /**
   * `parseInt(s)` without a radix: leading white space is skipped, then an
   * optional sign, then `0x` or `0X` selects hexadecimal, then the longest run of
   * digits is read. `None` stands for NaN (no digit at all).
   */
  function ParseInt(s: string): Option<int> {
    var t := TrimStart(s);
    var negative := t != [] && t[0] == '-';
    var unsigned := if t != [] && (t[0] == '-' || t[0] == '+') then t[1..] else t;
    var hex := |unsigned| >= 2 && unsigned[0] == '0' && (unsigned[1] == 'x' || unsigned[1] == 'X');
    var radix := if hex then 16 else 10;
    var body := if hex then unsigned[2..] else unsigned;
    var n := DigitRun(body, radix);
    if n == 0 then None
    else Some(if negative then -ValueOf(body[..n], radix) else ValueOf(body[..n], radix))
  }

  lemma {:induction false} DigitRunOfDigits(ds: string, rest: string, radix: int)
    requires forall i :: 0 <= i < |ds| ==> IsDigitOf(ds[i], radix)
    requires rest == [] || !IsDigitOf(rest[0], radix)
    ensures DigitRun(ds + rest, radix) == |ds|
  {
    if ds != [] {
      DigitRunOfDigits(ds[1..], rest, radix);
      assert (ds + rest)[1..] == ds[1..] + rest;
    } else {
      assert ds + rest == rest;
    }
  }

  /** Skipping white space leaves a suffix of the text. */
  lemma {:induction false} TrimStartSuffix(s: string)
    ensures |TrimStart(s)| <= |s| && TrimStart(s) == s[|s| - |TrimStart(s)|..]
  {
    if s != [] && IsWhiteSpace(s[0]) {
      TrimStartSuffix(s[1..]);
    }
  }

  /** A text without a single digit is NaN. */
  lemma ParseIntOfNoDigits(s: string)
    requires forall i :: 0 <= i < |s| ==> DigitValue(s[i]) < 0
    ensures ParseInt(s) == None
  {
    TrimStartSuffix(s);
  }

  /** A text that starts with neither white space, a sign nor a hexadecimal prefix is read in decimal from its start. */
  lemma ParseIntOfPlain(s: string)
    requires s != [] && !IsWhiteSpace(s[0]) && s[0] != '-' && s[0] != '+'
    requires !(|s| >= 2 && s[0] == '0' && (s[1] == 'x' || s[1] == 'X'))
    ensures var n := DigitRun(s, 10);
      ParseInt(s) == if n == 0 then None else Some(ValueOf(s[..n], 10))
  {
    assert TrimStart(s) == s;
  }

  /**
   * A run of decimal digits followed by anything that cannot continue the number
   * parses to the value of the digits.
   */
  lemma ParseIntOfDigits(ds: string, rest: string)
    requires |ds| > 0 && IsDecimal(ds)
    requires rest == [] || !(IsDigitOf(rest[0], 10) || rest[0] == 'x' || rest[0] == 'X')
    ensures ParseInt(ds + rest) == Some(ValueOf(ds, 10))
  {
    var s := ds + rest;
    assert s[0] == ds[0] && IsDigitOf(s[0], 10);
    assert !(|s| >= 2 && s[0] == '0' && (s[1] == 'x' || s[1] == 'X')) by {
      if |s| >= 2 && |ds| >= 2 {
        assert s[1] == ds[1] && IsDigitOf(ds[1], 10);
      } else if |s| >= 2 {
        assert s[1] == rest[0];
      }
    }
    ParseIntOfPlain(s);
    DigitRunOfDigits(ds, rest, 10);
    assert s[..|ds|] == ds;
  }

  // ---------------------------------------------------------------- parseTimecode

  datatype TimecodeError =
    | MissingField  // fewer than three ':' fields: `ssms` is undefined and `ssms.split` throws
    | NotANumber    // a field without leading digits, or no ',': the sum is NaN

  /** hh * 3600000 + mm * 60000 + ss * 1000 + ms, NaN as soon as one field is NaN. */
  function SumFields(hh: Option<int>, mm: Option<int>, ss: Option<int>, ms: Option<int>): Result<int, TimecodeError> {
    if hh.None? || mm.None? || ss.None? || ms.None? then Failure(NotANumber)
    else Success(Millis(hh.value, mm.value, ss.value, ms.value))
  }

  /** A time of h hours, m minutes, s seconds and f thousandths, in milliseconds. */
  function Millis(h: int, m: int, s: int, f: int): int {
    h * 3600000 + m * 60000 + s * 1000 + f
  }

  /** `parseTimecode("hh:mm:ss,ms")` in milliseconds; fields past the third are ignored. */
  function ParseTimecode(code: string): (r: Result<int, TimecodeError>)
    ensures r == Failure(MissingField) <==> |Split(code, ':')| < 3
    ensures |Split(code, ':')| >= 3 && ',' !in Split(code, ':')[2] ==> r == Failure(NotANumber)
  {
    var fields := Split(code, ':');
    if |fields| < 3 then Failure(MissingField)
    else
      var seconds := Split(fields[2], ',');
      // `parseInt(undefined)` is NaN
      SumFields(ParseInt(fields[0]), ParseInt(fields[1]), ParseInt(seconds[0]),
                if |seconds| >= 2 then ParseInt(seconds[1]) else None)
  }

  lemma SplitTimecodeFields(hh: string, mm: string, tail: string)
    requires ':' !in hh && ':' !in mm && ':' !in tail
    ensures Split(hh + ":" + mm + ":" + tail, ':') == [hh, mm, tail]
  {
    assert hh + ":" + mm + ":" + tail == hh + [':'] + (mm + [':'] + tail);
    SplitAtFirst(hh, ':', mm + [':'] + tail);
    SplitAtFirst(mm, ':', tail);
  }

  lemma SplitSecondsField(ss: string, ms: string)
    requires ',' !in ss && ',' !in ms
    ensures Split(ss + "," + ms, ',') == [ss, ms]
  {
    SplitAtFirst(ss, ',', ms);
    assert ss + "," + ms == ss + [','] + ms;
  }

  /** A timecode made of four fields parses each of them with `parseInt`. */
  lemma ParseTimecodeSplits(hh: string, mm: string, ss: string, ms: string)
    requires ':' !in hh && ':' !in mm && ':' !in ss && ':' !in ms
    requires ',' !in ss && ',' !in ms
    ensures ParseTimecode(hh + ":" + mm + ":" + ss + "," + ms)
         == SumFields(ParseInt(hh), ParseInt(mm), ParseInt(ss), ParseInt(ms))
  {
    var tail := ss + "," + ms;
    assert ':' !in tail;
    assert hh + ":" + mm + ":" + ss + "," + ms == hh + ":" + mm + ":" + tail;
    SplitTimecodeFields(hh, mm, tail);
    SplitSecondsField(ss, ms);
  }

  lemma ParseDecimal(ds: string)
    requires |ds| > 0 && IsDecimal(ds)
    ensures ParseInt(ds) == Some(ValueOf(ds, 10))
  {
    ParseIntOfDigits(ds, []);
    assert ds + [] == ds;
  }

  lemma DecimalHasNoSeparator(ds: string)
    requires IsDecimal(ds)
    ensures ':' !in ds && ',' !in ds
  {
    assert !IsDigitOf(':', 10) && !IsDigitOf(',', 10);
  }

  /** When each of the four fields reads as a number, the timecode is their weighted sum. */
  lemma ParseTimecodeOfNumbers(hh: string, mm: string, ss: string, ms: string, h: int, m: int, s: int, f: int)
    requires ':' !in hh && ':' !in mm && ':' !in ss && ':' !in ms
    requires ',' !in ss && ',' !in ms
    requires ParseInt(hh) == Some(h) && ParseInt(mm) == Some(m)
    requires ParseInt(ss) == Some(s) && ParseInt(ms) == Some(f)
    ensures ParseTimecode(hh + ":" + mm + ":" + ss + "," + ms) == Success(Millis(h, m, s, f))
  {
    ParseTimecodeSplits(hh, mm, ss, ms);
  }

  /** hh:mm:ss,ms with decimal fields of any width is hh hours, mm minutes, ss seconds and ms thousandths. */
  lemma ParseTimecodeOfFields(hh: string, mm: string, ss: string, ms: string)
    requires |hh| > 0 && |mm| > 0 && |ss| > 0 && |ms| > 0
    requires IsDecimal(hh) && IsDecimal(mm) && IsDecimal(ss) && IsDecimal(ms)
    ensures ParseTimecode(hh + ":" + mm + ":" + ss + "," + ms)
         == Success(Millis(ValueOf(hh, 10), ValueOf(mm, 10), ValueOf(ss, 10), ValueOf(ms, 10)))
  {
    var h, m, s, f := ValueOf(hh, 10), ValueOf(mm, 10), ValueOf(ss, 10), ValueOf(ms, 10);
    assert ParseInt(hh) == Some(h) && ParseInt(mm) == Some(m) by {
      ParseDecimal(hh);
      ParseDecimal(mm);
    }
    assert ParseInt(ss) == Some(s) && ParseInt(ms) == Some(f) by {
      ParseDecimal(ss);
      ParseDecimal(ms);
    }
    DecimalHasNoSeparator(hh);
    DecimalHasNoSeparator(mm);
    DecimalHasNoSeparator(ss);
    DecimalHasNoSeparator(ms);
    ParseTimecodeOfNumbers(hh, mm, ss, ms, h, m, s, f);
  }

  /** The example of the source's comment: "00:01:23,456" is 83.456 seconds. */
  lemma ParseTimecodeExample()
    ensures ParseTimecode("00:01:23,456") == Success(83456)
  {
    DecimalExamples();
    ParseTimecodeOfFields("00", "01", "23", "456");
  }

  lemma DecimalExamples()
    ensures "00" + ":" + "01" + ":" + "23" + "," + "456" == "00:01:23,456"
    ensures IsDecimal("00") && IsDecimal("01") && IsDecimal("23") && IsDecimal("456")
    ensures Millis(ValueOf("00", 10), ValueOf("01", 10), ValueOf("23", 10), ValueOf("456", 10)) == 83456
  {
    assert ValueOf("456", 10) == 456 by {
      assert "456"[..2] == "45" && "45"[..1] == "4" && "4"[..0] == "";
    }
    assert ValueOf("23", 10) == 23 by {
      assert "23"[..1] == "2" && "2"[..0] == "";
    }
    assert ValueOf("01", 10) == 1 by {
      assert "01"[..1] == "0" && "0"[..0] == "";
    }
    assert ValueOf("00", 10) == 0 by {
      assert "00"[..1] == "0" && "0"[..0] == "";
    }
  }

  // ---------------------------------------------------------------- parseSentencesJSON

  function SL(s: SentenceJson): int { s.sl }

  /**
   * One record of the `map` callback: both timecodes are parsed, start first; a
   * throw in either aborts the whole `map`, a NaN does not.
   */
  function ParseSentence(s: SentenceJson): Result<Sentence, TimecodeError> {
    var start := ParseTimecode(s.startTimecode);
    var end := ParseTimecode(s.endTimecode);
    if start == Failure(MissingField) || end == Failure(MissingField) then Failure(MissingField)
    else if start.Failure? || end.Failure? then Failure(NotANumber)
    else Success(Sentence(TimeRange(start.value, end.value), s.sentence))
  }

  /**
   * The outcome of `map` over per-record outcomes: a throw anywhere propagates,
   * otherwise a NaN anywhere makes the result NaN.
   */
  function Collect(outcomes: seq<Result<Sentence, TimecodeError>>): (r: Result<seq<Sentence>, TimecodeError>)
    ensures r.Success? <==> forall i :: 0 <= i < |outcomes| ==> outcomes[i].Success?
    ensures r == Failure(MissingField)
        <==> exists i :: 0 <= i < |outcomes| && outcomes[i] == Failure(MissingField)
    ensures r.Success? ==> |r.value| == |outcomes|
    ensures r.Success? ==> forall i :: 0 <= i < |outcomes| ==> outcomes[i] == Success(r.value[i])
  {
    if outcomes == [] then Success([])
    else
      var head := outcomes[0];
      var tail := Collect(outcomes[1..]);
      assert forall i :: 1 <= i < |outcomes| ==> outcomes[i] == outcomes[1..][i - 1];
      if head == Failure(MissingField) || tail == Failure(MissingField) then Failure(MissingField)
      else if head.Failure? || tail.Failure? then Failure(NotANumber)
      else Success([head.value] + tail.value)
  }

  /** The per-record outcomes of the `map` over the records in SL order. */
  function Outcomes(sorted: seq<SentenceJson>): (outcomes: seq<Result<Sentence, TimecodeError>>)
    ensures |outcomes| == |sorted|
    ensures forall i :: 0 <= i < |sorted| ==> outcomes[i] == ParseSentence(sorted[i])
  {
    seq(|sorted|, i requires 0 <= i < |sorted| => ParseSentence(sorted[i]))
  }

  /**
   * `parseSentencesJSON`: the records sorted by SL (a stable sort), each mapped to
   * its time range and text.
   */
  function ParseSentencesJson(json: seq<SentenceJson>): (r: Result<seq<Sentence>, TimecodeError>)
    ensures r.Success? ==> |r.value| == |json|
    ensures r.Success? ==> forall i :: 0 <= i < |json| ==>
      Success(r.value[i]) == ParseSentence(Sorting.SortBy(json, SL)[i])
  {
    Collect(Outcomes(Sorting.SortBy(json, SL)))
  }

  /**
   * A decoded sentence carries the text of its record, in SL order, and the two
   * parsed timecodes.
   */
  lemma ParseSentencesJsonDecodes(json: seq<SentenceJson>, i: int)
    requires ParseSentencesJson(json).Success? && 0 <= i < |json|
    ensures var rec := Sorting.SortBy(json, SL)[i];
      var sentence := ParseSentencesJson(json).value[i];
      && sentence.value == rec.sentence
      && ParseTimecode(rec.startTimecode) == Success(sentence.timeRange.start)
      && ParseTimecode(rec.endTimecode) == Success(sentence.timeRange.end)
  {
    var sorted := Sorting.SortBy(json, SL);
    var sentences := ParseSentencesJson(json).value;
    assert ParseSentence(sorted[i]) == Success(sentences[i]);
    ParseSentenceDecodes(sorted[i], sentences[i]);
  }

  lemma ParseSentenceDecodes(rec: SentenceJson, sentence: Sentence)
    requires ParseSentence(rec) == Success(sentence)
    ensures sentence.value == rec.sentence
    ensures ParseTimecode(rec.startTimecode) == Success(sentence.timeRange.start)
    ensures ParseTimecode(rec.endTimecode) == Success(sentence.timeRange.end)
  {
  }

  /** The whole call throws exactly when some record is missing a timecode field. */
  lemma ParseSentencesJsonThrows(json: seq<SentenceJson>)
    ensures ParseSentencesJson(json) == Failure(MissingField)
        <==> exists i :: 0 <= i < |json| && Throws(json[i])
  {
    var sorted := Sorting.SortBy(json, SL);
    SameElements(sorted, json, Throws);
    var outcomes := Outcomes(sorted);
    assert forall k :: 0 <= k < |sorted| ==> (Throws(sorted[k]) <==> outcomes[k] == Failure(MissingField));
  }

  predicate Throws(rec: SentenceJson) {
    ParseSentence(rec) == Failure(MissingField)
  }

  /** Two orderings of the same records have a record with property `p` alike. */
  lemma SameElements<T>(a: seq<T>, b: seq<T>, p: T -> bool)
    requires multiset(a) == multiset(b)
    ensures (exists k :: 0 <= k < |a| && p(a[k])) <==> exists i :: 0 <= i < |b| && p(b[i])
  {
    if k :| 0 <= k < |a| && p(a[k]) {
      assert a[k] in multiset(b);
      var i :| 0 <= i < |b| && b[i] == a[k];
    }
    if i :| 0 <= i < |b| && p(b[i]) {
      assert b[i] in multiset(a);
      var k :| 0 <= k < |a| && a[k] == b[i];
    }
  }

  // ---------------------------------------------------------------- parseKeyMomentsJSON

  /** One record: 1-indexed SL to 0-indexed range; Examples dropped; not reviewed. */
  function ParseKeyMoment(k: KeyMomentJson): KeyMoment {
    KeyMoment(k.title, SentenceRange(k.startSL - 1, k.endSL - 1), k.concept, k.keyTakeaway, false)
  }

  /**
   * `parseKeyMomentsJSON`: moment i is record i, its 1-indexed SL range shifted
   * down by one, its texts copied, and not reviewed.
   */
  function ParseKeyMomentsJson(json: seq<KeyMomentJson>): (kms: seq<KeyMoment>)
    ensures |kms| == |json|
    ensures forall i :: 0 <= i < |json| ==>
      kms[i].sentenceRange == SentenceRange(json[i].startSL - 1, json[i].endSL - 1)
    ensures forall i :: 0 <= i < |json| ==>
      && kms[i].title == json[i].title
      && kms[i].concept == json[i].concept
      && kms[i].keyTakeaway == json[i].keyTakeaway
      && !kms[i].isReviewed
  {
    seq(|json|, i requires 0 <= i < |json| => ParseKeyMoment(json[i]))
  }

  /**
   * Records whose 1-indexed ranges lie in 1..n, are non-empty and are ordered
   * without overlap decode to a collection that keeps the editor's invariant.
   */
  lemma ParseKeyMomentsKeepsOrder(json: seq<KeyMomentJson>, n: int)
    requires forall i :: 0 <= i < |json| ==> 1 <= json[i].startSL <= json[i].endSL <= n
    requires forall i, j :: 0 <= i < j < |json| ==> json[i].endSL < json[j].startSL
    ensures Ordered(ParseKeyMomentsJson(json)) && Within(ParseKeyMomentsJson(json), n)
  {
  }
}

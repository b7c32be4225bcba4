/** The DS18B20 one-wire thermometer reader (server/services/temperature_sensor.py).

    The kernel exposes the sensor as `/sys/bus/w1/devices/28-<serial>/w1_slave`,
    a two-line text file: the first line ends in `YES` once a conversion has
    completed and its checksum matched, the second carries `t=<milli-degrees>`.

    The filesystem is not modelled; each read sees a `Probe`: the directory
    listing (in the order `glob` yields it) and the contents of the files,
    as lists of lines the way `readlines()` returns them. */
module TemperatureSensor {
  import opened Wrappers
  import opened Text
  import opened TemperatureModel

  const DevicesDir: string := "/sys/bus/w1/devices/"
  /** The DS18B20 family code; devices are matched with the glob `28*`. */
  const FamilyCode: string := "28"
  const SlaveFile: string := "/w1_slave"
  const ReadyMarker: string := "YES"
  const FieldMarker: string := "t="

  /** What `_read_temp_raw` can raise. */
  datatype RawError =
    | SensorNotFound    // Exception("Temperature sensor not found")
    | DeviceUnreadable  // `open` of the device file raised OSError

  /** What `read_temp` can raise. */
  datatype SensorError =
    | RawFailed(cause: RawError)  // raised by `_read_temp_raw` and passed on
    | IndexOutOfRange   // IndexError from `lines[0]` or `lines[1]`
    | InvalidData       // Exception("Invalid temperature data")
    | MalformedNumber   // ValueError from `float`
    | FramesExhausted   // no frame left to read: stands for the wait never ending

  /** One view of the device tree, as seen by one `_read_temp_raw` call. */
  datatype Probe = Probe(listing: seq<string>, files: map<string, seq<string>>)

  /** What one read means for the wait loop: wait and read again, stop with
      an exception, or stop on a ready frame whose lines are then parsed. */
  datatype Step = Pending | Raised(error: SensorError) | Ready(lines: seq<string>)

  // ---------------------------------------------------------------- device lookup

  /** A directory entry the glob `28*` matches. */
  predicate MatchesFamily(name: string) {
    |name| >= |FamilyCode| && name[..|FamilyCode|] == FamilyCode
  }

  /** The index of the first matching entry, or the length of the listing. */
  function FirstMatch(entries: seq<string>): (i: nat)
    ensures i <= |entries|
    ensures forall j :: 0 <= j < i ==> !MatchesFamily(entries[j])
    ensures i < |entries| ==> MatchesFamily(entries[i])
  {
    if entries == [] || MatchesFamily(entries[0]) then 0 else FirstMatch(entries[1..]) + 1
  }

  /** `glob.glob(base_dir + "28*")`: the matching entries, in listing order,
      each joined to the devices directory. */
  function Glob(entries: seq<string>): (paths: seq<string>)
    ensures |paths| <= |entries|
    ensures paths == [] <==> FirstMatch(entries) == |entries|
    ensures paths != [] ==> paths[0] == DevicesDir + entries[FirstMatch(entries)]
  {
    if entries == [] then []
    else
      var head := if MatchesFamily(entries[0]) then [DevicesDir + entries[0]] else [];
      head + Glob(entries[1..])
  }

  /** The glob matches exactly the listed `28*` entries: a path is among the
      matches if and only if it is the devices directory joined to such an entry. */
  lemma {:induction false} GlobMembers(entries: seq<string>, name: string)
    ensures DevicesDir + name in Glob(entries) <==> name in entries && MatchesFamily(name)
    decreases |entries|
  {
    if entries != [] {
      var rest := entries[1..];
      GlobMembers(rest, name);
      var head := if MatchesFamily(entries[0]) then [DevicesDir + entries[0]] else [];
      assert Glob(entries) == head + Glob(rest);
      assert entries == [entries[0]] + rest;
      if DevicesDir + name in head {
        assert (DevicesDir + name)[|DevicesDir|..] == name;
        assert (DevicesDir + entries[0])[|DevicesDir|..] == entries[0];
      }
    }
  }

  /** The glob keeps listing order: the matches of an earlier part of the
      listing come before those of a later part. */
  lemma {:induction false} GlobInListingOrder(first: seq<string>, second: seq<string>)
    ensures Glob(first + second) == Glob(first) + Glob(second)
    decreases |first|
  {
    if first != [] {
      var all := first + second;
      assert all[0] == first[0] && all[1..] == first[1..] + second;
      GlobInListingOrder(first[1..], second);
      var head := if MatchesFamily(first[0]) then [DevicesDir + first[0]] else [];
      assert Glob(all) == head + Glob(all[1..]);
      assert Glob(first) == head + Glob(first[1..]);
    } else {
      assert first + second == second;
    }
  }

  /** `_locate_ds18b20_device`: None exactly when no entry matches `28*`,
      otherwise the first match with `/w1_slave` appended. */
  function LocateDevice(entries: seq<string>): (r: Option<string>)
    ensures r.None? <==> forall i :: 0 <= i < |entries| ==> !MatchesFamily(entries[i])
    ensures r.Some? ==> FirstMatch(entries) < |entries|
                        && r.value == DevicesDir + entries[FirstMatch(entries)] + SlaveFile
  {
    var found := Glob(entries);
    if |found| == 0 then None else Some(found[0] + SlaveFile)
  }

  /** `_read_temp_raw`: fails with "Temperature sensor not found" exactly when
      the lookup finds nothing; otherwise the located file's lines, unchanged. */
  function ReadTempRaw(p: Probe): (r: Result<seq<string>, RawError>)
    ensures r == Failure(SensorNotFound) <==> LocateDevice(p.listing).None?
    ensures r.Success? ==> LocateDevice(p.listing).Some? && LocateDevice(p.listing).value in p.files
                           && r.value == p.files[LocateDevice(p.listing).value]
    ensures LocateDevice(p.listing).Some? && LocateDevice(p.listing).value in p.files
            ==> r == Success(p.files[LocateDevice(p.listing).value])
  {
    match LocateDevice(p.listing)
    case None => Failure(SensorNotFound)
    case Some(path) => if path in p.files then Success(p.files[path]) else Failure(DeviceUnreadable)
  }

  // ---------------------------------------------------------------- frame decoding

  /** `s[-3:]` in Python: the last three characters, or all of a shorter string. */
  function LastThree(s: string): string {
    if |s| >= 3 then s[|s| - 3..] else s
  }

  /** The test of the wait loop: the stripped first line ends in `YES`. */
  predicate IsReady(first: string) {
    LastThree(Strip(StrSpaces, first)) == ReadyMarker
  }

  /** A first line is ready exactly when `YES` is followed by nothing but whitespace. */
  lemma ReadyIffMarkerBeforeSpace(line: string)
    ensures IsReady(line) <==>
            exists k :: 3 <= k <= |line| && line[k - 3..k] == ReadyMarker && AllSpace(StrSpaces, line[k..])
  {
    if IsReady(line) {
      ReadyHasMarker(line);
    }
    if exists k :: 3 <= k <= |line| && line[k - 3..k] == ReadyMarker && AllSpace(StrSpaces, line[k..]) {
      var k :| 3 <= k <= |line| && line[k - 3..k] == ReadyMarker && AllSpace(StrSpaces, line[k..]);
      MarkerIsReady(line, k);
    }
  }

  /** A ready line has `YES` where its trailing whitespace starts. */
  lemma ReadyHasMarker(line: string)
    requires IsReady(line)
    ensures var e := TrimEnd(StrSpaces, line);
            3 <= |e| && line[|e| - 3..|e|] == ReadyMarker
  {
    var e := TrimEnd(StrSpaces, line);
    var t := TrimStart(StrSpaces, e);
    assert Strip(StrSpaces, line) == t;
    assert |t| >= 3;
    assert line[|e| - 3..|e|] == e[|e| - 3..] == t[|t| - 3..];
  }

  /** `YES` followed by whitespace only makes a line ready. */
  lemma MarkerIsReady(line: string, k: int)
    requires 3 <= k <= |line| && line[k - 3..k] == ReadyMarker && AllSpace(StrSpaces, line[k..])
    ensures IsReady(line)
  {
    TrimEndAt(line, k);
    var e := line[..k];
    TrimStartKeeps(e, 3);
    var t := TrimStart(StrSpaces, e);
    assert t[|t| - 3..] == e[k - 3..];
  }

  /** Right-stripping stops at the last non-space character. */
  lemma {:induction false} TrimEndAt(s: string, k: nat)
    requires 0 < k <= |s| && !IsSpace(StrSpaces, s[k - 1]) && AllSpace(StrSpaces, s[k..])
    ensures TrimEnd(StrSpaces, s) == s[..k]
    decreases |s|
  {
    if k < |s| {
      assert s[|s| - 1] == s[k..][|s| - 1 - k];
      var s' := s[..|s| - 1];
      assert s'[k..] == s[k..|s| - 1];
      TrimEndAt(s', k);
      assert s'[..k] == s[..k];
    }
  }

  /** Left-stripping keeps the last `n` characters when the first of them is
      not whitespace. */
  lemma {:induction false} TrimStartKeeps(s: string, n: nat)
    requires 0 < n <= |s| && !IsSpace(StrSpaces, s[|s| - n])
    ensures |TrimStart(StrSpaces, s)| >= n
    decreases |s|
  {
    if IsSpace(StrSpaces, s[0]) {
      assert s[1..][|s| - 1 - n] == s[|s| - n];
      TrimStartKeeps(s[1..], n);
    }
  }

  /** The text after the first `t=` of a line, or None when there is none. */
  function TempField(line: string): (r: Option<string>)
    ensures r.None? <==> forall j :: !OccursAt(line, FieldMarker, j)
    ensures r.Some? ==> |r.value| + |FieldMarker| <= |line|
                        && Find(line, FieldMarker) == |line| - |r.value| - |FieldMarker|
                        && r.value == line[|line| - |r.value|..]
  {
    var pos := Find(line, FieldMarker);
    if pos == -1 then None else Some(line[pos + |FieldMarker|..])
  }

  /** Python's `round(y)` on an exact value: the nearest integer, ties to even. */
  function RoundHalfEven(y: real): (k: int)
    ensures 2.0 * Abs(y - k as real) <= 1.0
    ensures 2.0 * Abs(y - k as real) == 1.0 ==> k % 2 == 0
  {
    var f := y.Floor;
    var d := y - f as real;
    if d < 0.5 then f else if d > 0.5 then f + 1 else if f % 2 == 0 then f else f + 1
  }

  /** The two properties above single out one integer: they are a complete
      specification of rounding half to even. */
  lemma RoundHalfEvenUnique(y: real, k: int)
    requires 2.0 * Abs(y - k as real) <= 1.0
    requires 2.0 * Abs(y - k as real) == 1.0 ==> k % 2 == 0
    ensures k == RoundHalfEven(y)
  {
  }

  /** `r` is a whole number of hundredths. */
  predicate WholeHundredths(r: real) {
    (r * 100.0).Floor as real == r * 100.0
  }

  /** `r` is `x` rounded to two decimals: a whole number of hundredths within
      half a hundredth of `x`, with an even last digit on a tie. */
  predicate RoundedTo2(r: real, x: real) {
    && WholeHundredths(r)
    && Abs(r - x) <= 0.005
    && (Abs(r - x) == 0.005 ==> (r * 100.0).Floor % 2 == 0)
  }

  lemma HundredthsOf(k: int)
    ensures (k as real / 100.0) * 100.0 == k as real
    ensures ((k as real / 100.0) * 100.0).Floor == k
  {
  }

  /** `round(x, 2)` on an exact value. */
  function Round2(x: real): (r: real)
    ensures RoundedTo2(r, x)
  {
    var k := RoundHalfEven(x * 100.0);
    HundredthsOf(k);
    k as real / 100.0
  }

  /** Rounding to two decimals has exactly one result: `RoundedTo2` is a
      complete specification of `round(x, 2)`. */
  lemma Round2Unique(x: real, r: real)
    requires RoundedTo2(r, x)
    ensures r == Round2(x)
  {
    var k := (r * 100.0).Floor;
    assert r == k as real / 100.0;
    RoundHalfEvenUnique(x * 100.0, k);
  }

  /** The conversion at the end of `read_temp`: Celsius = milli / 1000 and
      Fahrenheit = Celsius * 9 / 5 + 32, both from the unrounded value and
      each rounded to two decimals afterwards. */
  function FromMilli(milli: int): (r: TemperatureReading)
    ensures RoundedTo2(r.celsius, milli as real / 1000.0)
    ensures RoundedTo2(r.fahrenheit, milli as real / 1000.0 * 9.0 / 5.0 + 32.0)
  {
    var c := milli as real / 1000.0;
    var f := c * 9.0 / 5.0 + 32.0;
    TemperatureReading(Round2(c), Round2(f))
  }

  /** `t=25500` reads as 25.5 °C and 77.9 °F. */
  lemma FromMilliExample()
    ensures FromMilli(25500) == TemperatureReading(25.5, 77.9)
  {
    RoundHalfEvenUnique(2550.0, 2550);
    RoundHalfEvenUnique(7790.0, 7790);
  }

  /** Fahrenheit is rounded from the unrounded Celsius value, so it is not
      always the rounded conversion of the Celsius value that is returned:
      `t=25005` gives 25.0 °C (25.005 rounds to even) but 77.01 °F. */
  lemma FahrenheitFromUnroundedCelsius()
    ensures FromMilli(25005) == TemperatureReading(25.0, 77.01)
    ensures Round2(FromMilli(25005).celsius * 9.0 / 5.0 + 32.0) == 77.0
  {
    RoundHalfEvenUnique(2500.5, 2500);
    RoundHalfEvenUnique(7700.9, 7701);
    RoundHalfEvenUnique(7700.0, 7700);
  }

  /** Lines 65-74 of `read_temp`, on a frame whose first line was ready. */
  function ParseFrame(lines: seq<string>): (r: Result<TemperatureReading, SensorError>)
    ensures r == Failure(IndexOutOfRange) <==> |lines| < 2
    ensures r == Failure(InvalidData) <==> |lines| >= 2 && Find(lines[1], FieldMarker) == -1
    ensures r == Failure(MalformedNumber) <==>
            |lines| >= 2 && TempField(lines[1]).Some? && ParseInt(TempField(lines[1]).value).None?
    ensures r.Success? ==> |lines| >= 2 && TempField(lines[1]).Some? && ParseInt(TempField(lines[1]).value).Some?
                           && r.value == FromMilli(ParseInt(TempField(lines[1]).value).value)
    ensures r.Failure? ==> r.error in {IndexOutOfRange, InvalidData, MalformedNumber}
  {
    if |lines| < 2 then Failure(IndexOutOfRange)
    else match TempField(lines[1])
      case None => Failure(InvalidData)
      case Some(text) =>
        match ParseInt(text)
        case None => Failure(MalformedNumber)
        case Some(milli) => Success(FromMilli(milli))
  }

  /** The loop's test on the lines just read: `lines[0]` raises IndexError on
      an empty frame; otherwise the loop waits exactly while the first line
      is not ready. */
  function Examine(lines: seq<string>): (s: Step)
    ensures s == Raised(IndexOutOfRange) <==> lines == []
    ensures s.Pending? <==> lines != [] && !IsReady(lines[0])
    ensures s.Ready? ==> s.lines == lines
    ensures lines != [] && IsReady(lines[0]) ==> s == Ready(lines)
  {
    if |lines| == 0 then Raised(IndexOutOfRange)
    else if !IsReady(lines[0]) then Pending
    else Ready(lines)
  }

  /** What `_read_temp_raw` returns or raises on one call. */
  type RawRead = Result<seq<string>, RawError>

  /** One `_read_temp_raw` call followed by the loop's test. */
  function Attempt(raw: RawRead): (s: Step)
    ensures s.Raised? ==> s.error != FramesExhausted
  {
    match raw
    case Failure(e) => Raised(RawFailed(e))
    case Success(lines) => Examine(lines)
  }

  /** The result `read_temp` gives once a read has ended the wait. */
  function Outcome(s: Step): (r: Result<TemperatureReading, SensorError>)
    requires !s.Pending?
    ensures r == Failure(FramesExhausted) ==> s == Raised(FramesExhausted)
  {
    match s
    case Raised(e) => Failure(e)
    case Ready(lines) => ParseFrame(lines)
  }

  /** What each of a sequence of reads does on its own. */
  function Attempts(frames: seq<RawRead>): (steps: seq<Step>)
    ensures |steps| == |frames|
  {
    if frames == [] then [] else [Attempt(frames[0])] + Attempts(frames[1..])
  }

  lemma {:induction false} AttemptsAt(frames: seq<RawRead>, k: nat)
    requires k < |frames|
    ensures Attempts(frames)[k] == Attempt(frames[k])
  {
    if k > 0 {
      AttemptsAt(frames[1..], k - 1);
    }
  }

  /** The index of the first step that ends the wait, or the number of steps. */
  function FirstSettled(steps: seq<Step>): (i: nat)
    ensures i <= |steps|
    ensures forall k :: 0 <= k < i ==> steps[k].Pending?
    ensures i < |steps| ==> !steps[i].Pending?
  {
    if steps == [] || !steps[0].Pending? then 0 else FirstSettled(steps[1..]) + 1
  }

  /** `read_temp`: reads until the first line is ready, then parses the
      second. Each element of `frames` is what one `_read_temp_raw` call
      returns or raises (`ReadTempRaw` of what the device tree holds at that
      moment); `attempts` counts the reads made (a 0.2 s sleep precedes every
      read but the first).
      The result is the outcome of the first read that does not leave the
      loop waiting, and no read is made after it; when every frame leaves it
      waiting, the loop runs out of frames. */
  method ReadTemp(frames: seq<RawRead>) returns (r: Result<TemperatureReading, SensorError>, attempts: nat)
    ensures var first := FirstSettled(Attempts(frames));
            if first < |frames| then attempts == first + 1 && r == Outcome(Attempts(frames)[first])
            else attempts == |frames| && r == Failure(FramesExhausted)
    ensures r == Failure(FramesExhausted) <==> forall k :: 0 <= k < |frames| ==> Attempts(frames)[k].Pending?
  {
    ghost var steps := Attempts(frames);
    attempts := 0;
    var step := Pending;
    while step.Pending? && attempts < |frames|
      invariant attempts <= |frames|
      invariant attempts == 0 ==> step == Pending
      invariant attempts > 0 ==> steps[attempts - 1] == step
      invariant forall k :: 0 <= k < attempts - 1 ==> steps[k].Pending?
      invariant step.Raised? ==> step.error != FramesExhausted
      decreases |frames| - attempts
    {
      // time.sleep(0.2) before every read but the first
      ghost var waited := attempts;
      assert forall k :: 0 <= k < waited ==> steps[k].Pending?;
      AttemptsAt(frames, attempts);
      step := Attempt(frames[attempts]);
      attempts := attempts + 1;
    }
    if step.Pending? {
      FirstSettledAt(steps, attempts);
      return Failure(FramesExhausted), attempts;
    }
    FirstSettledAt(steps, attempts - 1);
    r := Outcome(step);
  }

  /** A step preceded only by pending steps is the first to settle; with
      `i == |steps|`, no step settles. */
  lemma {:induction false} FirstSettledAt(steps: seq<Step>, i: nat)
    requires i <= |steps|
    requires forall k :: 0 <= k < i ==> steps[k].Pending?
    requires i < |steps| ==> !steps[i].Pending?
    ensures FirstSettled(steps) == i
  {
    if i > 0 {
      assert steps[0].Pending?;
      FirstSettledAt(steps[1..], i - 1);
    }
  }

  /** The read at `first` ends the wait when every read before it leaves the
      loop waiting and it does not. Its result depends on that read alone: its
      error when it raised, IndexError when it gave no lines, and otherwise a
      ready first line whose frame is then parsed. */
  lemma FirstSettledFrame(frames: seq<RawRead>, first: nat)
    requires first < |frames| && !Attempt(frames[first]).Pending?
    requires forall k :: 0 <= k < first ==> Attempt(frames[k]).Pending?
    ensures FirstSettled(Attempts(frames)) == first
    ensures frames[first].Failure? ==> Outcome(Attempts(frames)[first]) == Failure(RawFailed(frames[first].error))
    ensures frames[first] == Success([]) ==> Outcome(Attempts(frames)[first]) == Failure(IndexOutOfRange)
    ensures frames[first].Success? && frames[first].value != [] ==>
              && IsReady(frames[first].value[0])
              && Outcome(Attempts(frames)[first]) == ParseFrame(frames[first].value)
  {
    var steps := Attempts(frames);
    forall k | 0 <= k <= first
      ensures steps[k] == Attempt(frames[k])
    {
      AttemptsAt(frames, k);
    }
    FirstSettledAt(steps, first);
    SettledAttempt(frames[first]);
  }

  /** What one read that settles the loop yields. */
  lemma SettledAttempt(raw: RawRead)
    requires !Attempt(raw).Pending?
    ensures raw.Failure? ==> Outcome(Attempt(raw)) == Failure(RawFailed(raw.error))
    ensures raw == Success([]) ==> Outcome(Attempt(raw)) == Failure(IndexOutOfRange)
    ensures raw.Success? && raw.value != [] ==>
              IsReady(raw.value[0]) && Outcome(Attempt(raw)) == ParseFrame(raw.value)
  {
  }

  /** A frame as the kernel writes it decodes to the reading of its
      milli-degree value: a first line ending in `YES` and trailing whitespace,
      and a second line holding `t=` and the value after text without `t=`. */
  lemma DecodesWellFormedFrame(crc: string, ws1: string, prefix: string, milli: int, ws2: string)
    requires AllSpace(StrSpaces, ws1) && AllSpace(FloatSpaces, ws2)
    requires forall j :: !OccursAt(prefix, FieldMarker, j)
    ensures var lines := [crc + ReadyMarker + ws1, prefix + FieldMarker + ShowInt(milli) + ws2];
            Examine(lines) == Ready(lines) && ParseFrame(lines) == Success(FromMilli(milli))
  {
    var first := crc + ReadyMarker + ws1;
    var k := |crc| + 3;
    assert first[k - 3..k] == ReadyMarker && first[k..] == ws1;
    MarkerIsReady(first, k);
    SecondLineParses(first, prefix, milli, ws2);
  }

  /** A second line with `t=` and a formatted integer after text without
      `t=` parses to the reading of that integer. */
  lemma SecondLineParses(first: string, prefix: string, milli: int, ws2: string)
    requires AllSpace(FloatSpaces, ws2)
    requires forall j :: !OccursAt(prefix, FieldMarker, j)
    ensures ParseFrame([first, prefix + FieldMarker + ShowInt(milli) + ws2]) == Success(FromMilli(milli))
  {
    var second := prefix + FieldMarker + ShowInt(milli) + ws2;
    assert second == prefix + FieldMarker + (ShowInt(milli) + ws2);
    FindAfterPrefix(prefix, FieldMarker, ShowInt(milli) + ws2);
    assert TempField(second) == Some(ShowInt(milli) + ws2);
    var text := ShowInt(milli);
    assert "" + text == text;
    ParseShowInt(milli, "", ws2);
  }

  /** An ASCII separator (U+001C-U+001F) after the value makes `float()`
      raise: the frame is a malformed number, not a reading, although the
      loop's `strip()` would count the same character as whitespace. */
  lemma SeparatorAfterValueIsMalformed(first: string, prefix: string, milli: int, sep: char)
    requires '\U{1c}' <= sep <= '\U{1f}'
    requires forall j :: !OccursAt(prefix, FieldMarker, j)
    ensures ParseFrame([first, prefix + FieldMarker + ShowInt(milli) + [sep]]) == Failure(MalformedNumber)
  {
    var second := prefix + FieldMarker + ShowInt(milli) + [sep];
    assert second == prefix + FieldMarker + (ShowInt(milli) + [sep]);
    FindAfterPrefix(prefix, FieldMarker, ShowInt(milli) + [sep]);
    assert TempField(second) == Some(ShowInt(milli) + [sep]);
    SeparatorRejected(milli, sep);
  }
}

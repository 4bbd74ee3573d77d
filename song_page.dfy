/**
 * The song page's pure parts: the lookup of the routed song, the `m:ss`
 * duration label with its fallback, and the payment order id, which the
 * server splits on `_` to recover the song id.
 */
module SongPage {
  import opened Wrappers
  import opened Text
  import opened Songs
  import TimeMath

  /**
   * `songList.find(song => song.id === id)`, where the list comes from
   * session storage (None when nothing is stored, read as `[]`) and the id
   * from the route (None when the route has no id: no song id is
   * `undefined`, so nothing matches).
   */
  function LookupSong(stored: Option<seq<Song>>, routeId: Option<string>): (r: Option<Song>)
    ensures r.Some? <==>
      (stored.Some? && routeId.Some? && exists k :: 0 <= k < |stored.value| && stored.value[k].id == routeId.value)
    ensures r.Some? ==>
      (r.value.id == routeId.value && r.value == stored.value[FindIndex(stored.value, routeId.value)])
  {
    var songList := if stored.Some? then stored.value else [];
    if routeId.None? then None
    else
      FindIsAtFindIndex(songList, routeId.value);
      Find(songList, routeId.value)
  }

  /** `Math.round`: to the nearest integer, halves upward. */
  function RoundHalfUp(d: real): (r: int)
    ensures r as real - 0.5 <= d < r as real + 0.5
  {
    (d + 0.5).Floor
  }

  /**
   * JavaScript's `a % 60` on an integer: the sign follows the dividend,
   * the magnitude stays below 60, and it differs from the dividend by a
   * multiple of 60.
   */
  function JsRem60(a: int): (r: int)
    ensures -60 < r < 60
    ensures a >= 0 ==> r >= 0
    ensures a < 0 ==> r <= 0
    ensures (a - r) % 60 == 0
  {
    if a >= 0 then a % 60 else -((-a) % 60)
  }

  /**
   * The integer remainder of the song page is the real-valued remainder of
   * the player's clock, taken at an integer time.
   */
  lemma {:induction false} JsRem60Agrees(a: int)
    ensures JsRem60(a) as real == TimeMath.JsRem(a as real, 60.0)
  {
    var b := if a >= 0 then a else -a;
    var x := b as real / 60.0;
    assert x.Floor == b / 60;
    TimeMath.Quotient(a as real, 60.0);
  }

  /**
   * `convertToMinutesAndSeconds`: round, split into whole minutes
   * (`Math.floor(r / 60)`; Dafny's division by a positive divisor already
   * rounds down) and the remaining seconds, and print the seconds padded
   * to two characters with `0`.
   */
  function ConvertToMinutesAndSeconds(durationInSeconds: real): (shown: string)
    ensures |shown| >= 4
    ensures RoundHalfUp(durationInSeconds) >= 0 ==> LabelShaped(shown)
    ensures RoundHalfUp(durationInSeconds) < 0 ==> shown[0] == '-'
  {
    var rounded := RoundHalfUp(durationInSeconds);
    var minutes := rounded / 60;
    var seconds := JsRem60(rounded);
    var m, ss := IntToString(minutes), PadStart(IntToString(seconds), 2, '0');
    var shown := m + ":" + ss;
    if rounded >= 0 then
      NonNegativeLabel(rounded, m, ss);
      shown
    else
      assert minutes < 0 && shown[0] == m[0];
      shown
  }

  /** One or more digits, a colon and two digits: the shape of an `m:ss` label. */
  predicate LabelShaped(l: string) {
    |l| >= 4 && l[|l| - 3] == ':' && AllDigits(l[..|l| - 3]) && AllDigits(l[|l| - 2..])
  }

  /** The printed parts of a non-negative rounded duration form an `m:ss` label. */
  lemma NonNegativeLabel(rounded: nat, m: string, ss: string)
    requires m == IntToString(rounded / 60) && ss == PadStart(IntToString(JsRem60(rounded)), 2, '0')
    ensures LabelShaped(m + ":" + ss)
  {
    var sec := JsRem60(rounded);
    assert sec == rounded % 60;
    assert IntToString(sec) == NatToString(sec);
    assert m == NatToString(rounded / 60);
    PaddedSeconds(sec);
    LabelShape(m, ss);
  }

  /** Digits, a colon and two digits make a label. */
  lemma LabelShape(m: string, ss: string)
    requires |m| >= 1 && AllDigits(m) && |ss| == 2 && AllDigits(ss)
    ensures LabelShaped(m + ":" + ss)
  {
    var l := m + ":" + ss;
    assert l[..|l| - 3] == m;
    assert l[|l| - 2..] == ss;
  }

  /**
   * Reads an `m:ss` label back: one or more digits, a colon, exactly two
   * digits below 60. Gives the minutes and the seconds.
   */
  function ParseClockLabel(s: string): (r: Option<(nat, nat)>) {
    ParseClockFields(Split(s, ':'))
  }

  function ParseClockFields(fields: seq<string>): (r: Option<(nat, nat)>) {
    if |fields| == 2 && |fields[0]| >= 1 && AllDigits(fields[0]) && |fields[1]| == 2 && AllDigits(fields[1])
       && ParseNat(fields[1]) < 60
    then Some((ParseNat(fields[0]), ParseNat(fields[1])))
    else None
  }

  lemma DigitsLackColon(s: string)
    requires AllDigits(s)
    ensures ':' !in s
  {
  }

  /** Seconds below 60, padded, are two digits that read back as the same number. */
  lemma PaddedSeconds(sec: nat)
    requires sec < 60
    ensures var p := PadStart(NatToString(sec), 2, '0');
      |p| == 2 && AllDigits(p) && ParseNat(p) == sec
  {
    var s := NatToString(sec);
    var p := PadStart(s, 2, '0');
    if sec < 10 {
      assert s == [DigitChar(sec)];
      assert p == ['0', DigitChar(sec)];
      assert p[..1] == ['0'];
      assert ParseNat(p) == ParseNat(['0']) * 10 + DigitValue(DigitChar(sec));
    } else {
      assert |NatToString(sec / 10)| == 1;
      assert p == s;
      ParseNatToString(sec);
    }
  }

  /** A label made of two digit strings splits at its colon into exactly those two. */
  lemma SplitClockLabel(m: string, ss: string)
    requires AllDigits(m) && AllDigits(ss)
    ensures Split(m + ":" + ss, ':') == [m, ss]
    ensures ParseClockLabel(m + ":" + ss) == ParseClockFields([m, ss])
  {
    DigitsLackColon(m);
    DigitsLackColon(ss);
    assert m + ":" + ss == m + [':'] + ss;
    SplitAtFirst(m, ':', ss);
    SplitWithoutSeparator(ss, ':');
  }

  /** Digit fields of the right shape read as their values. */
  lemma ClockFieldsRead(minutes: nat, m: string, ss: string, sec: nat)
    requires m == NatToString(minutes) && |ss| == 2 && AllDigits(ss) && ParseNat(ss) == sec && sec < 60
    ensures ParseClockFields([m, ss]) == Some((minutes, sec))
  {
    ParseNatToString(minutes);
  }

  /** Printing minutes and seconds below 60 in the label's format and reading them back is the identity. */
  lemma ClockLabelParts(minutes: nat, sec: nat, m: string, ss: string)
    requires sec < 60 && m == NatToString(minutes) && ss == PadStart(NatToString(sec), 2, '0')
    ensures ParseClockLabel(m + ":" + ss) == Some((minutes, sec))
  {
    PaddedSeconds(sec);
    ClockFieldsRead(minutes, m, ss, sec);
    SplitClockLabel(m, ss);
  }

  /**
   * For a non-negative duration the label is `digits:dd`, and reading it
   * back gives the minutes and the seconds of the rounded duration: the
   * seconds are below 60 and the two recombine to the rounded total.
   */
  lemma ConvertRoundTrip(d: real)
    requires d >= 0.0
    ensures var r := RoundHalfUp(d);
      ParseClockLabel(ConvertToMinutesAndSeconds(d)) == Some((r / 60, r % 60)) &&
      r % 60 <= 59 && (r / 60) * 60 + r % 60 == r
  {
    var r := RoundHalfUp(d);
    ConvertNonNegative(d);
    ClockLabelParts(r / 60, r % 60, NatToString(r / 60), PadStart(NatToString(r % 60), 2, '0'));
  }

  /** For a non-negative duration both parts are printed without a sign. */
  lemma ConvertNonNegative(d: real)
    requires d >= 0.0
    ensures var r := RoundHalfUp(d);
      ConvertToMinutesAndSeconds(d) == NatToString(r / 60) + ":" + PadStart(NatToString(r % 60), 2, '0')
  {
  }

  /** Rounding happens before the split: half a second short of a minute shows a full minute. */
  lemma HalfSecondRoundsUp()
    ensures ConvertToMinutesAndSeconds(59.5) == "1:00"
  {
    var one, zero := NatToString(1), NatToString(0);
    assert one == "1" && zero == "0";
    assert PadStart(zero, 2, '0') == "00";
    assert one + ":" + PadStart(zero, 2, '0') == "1:00";
    var r := RoundHalfUp(59.5);
    assert r == 60;
    assert r / 60 == 1 && r % 60 == 0;
    ConvertNonNegative(59.5);
  }

  /** Less than half a second over rounds down and keeps the seconds. */
  lemma BelowHalfRoundsDown()
    ensures ConvertToMinutesAndSeconds(59.4) == "0:59"
  {
    var zero, five := NatToString(0), NatToString(5);
    var fiftyNine := NatToString(59);
    assert zero == "0" && five == "5";
    assert fiftyNine == five + [DigitChar(9)];
    assert PadStart(fiftyNine, 2, '0') == "59";
    assert zero + ":" + PadStart(fiftyNine, 2, '0') == "0:59";
    var r := RoundHalfUp(59.4);
    assert r == 59;
    assert r / 60 == 0 && r % 60 == 59;
    ConvertNonNegative(59.4);
  }

  /** Zero seconds print as `0:00`. */
  lemma ZeroLabel()
    ensures ConvertToMinutesAndSeconds(0.0) == "0:00"
  {
    var zero := NatToString(0);
    assert zero == "0";
    assert PadStart(zero, 2, '0') == "00";
    assert zero + ":" + PadStart(zero, 2, '0') == "0:00";
    assert RoundHalfUp(0.0) == 0;
    ConvertNonNegative(0.0);
  }

  /**
   * The duration shown on the page: the formatted duration when there is
   * a truthy one, `0:00` when it is missing or zero.
   */
  function DurationLabel(duration: Option<real>): (shown: string)
    ensures var d := if duration.Some? then duration.value else 0.0;
      d >= 0.0 ==> ParseClockLabel(shown) == Some((RoundHalfUp(d) / 60, RoundHalfUp(d) % 60))
  {
    if duration.None? || duration.value == 0.0 then
      ZeroLabel();
      ConvertRoundTrip(0.0);
      "0:00"
    else
      if duration.value >= 0.0 then
        ConvertRoundTrip(duration.value);
        ConvertToMinutesAndSeconds(duration.value)
      else
        ConvertToMinutesAndSeconds(duration.value)
  }

  /** The fallback is what the formatter gives for zero, so every non-negative duration shows as formatted. */
  lemma DurationLabelAgrees(duration: Option<real>)
    requires duration.Some? ==> duration.value >= 0.0
    ensures DurationLabel(duration) == ConvertToMinutesAndSeconds(if duration.Some? then duration.value else 0.0)
  {
    ZeroLabel();
  }

  /** A non-negative duration shows as `0:00` exactly when it rounds to zero seconds. */
  lemma ZeroLabelExactlyBelowHalf(d: real)
    requires d >= 0.0
    ensures ConvertToMinutesAndSeconds(d) == "0:00" <==> d < 0.5
  {
    ZeroLabel();
    if d >= 0.5 {
      var r := RoundHalfUp(d);
      assert r >= 1;
      ConvertRoundTrip(d);
      ConvertRoundTrip(0.0);
      assert (r / 60, r % 60) != (0, 0);
    } else {
      SameRoundingSameLabel(d, 0.0);
    }
  }

  /** The label depends on the duration only through its rounding. */
  lemma SameRoundingSameLabel(d1: real, d2: real)
    requires RoundHalfUp(d1) == RoundHalfUp(d2)
    ensures ConvertToMinutesAndSeconds(d1) == ConvertToMinutesAndSeconds(d2)
  {
  }

  /**
   * `order_${songData.id}_${Date.now()}`, with the clock reading in
   * milliseconds. For a song id without an underscore it has exactly three
   * `_`-separated fields: the prefix, the song id and the timestamp.
   */
  function OrderId(songId: string, nowMillis: nat): (r: string)
    ensures '_' !in songId ==> Split(r, '_') == ["order", songId, NatToString(nowMillis)]
  {
    var ts := NatToString(nowMillis);
    var rest := songId + "_" + ts;
    assert "order_" + songId + "_" + ts == "order" + ['_'] + rest;
    if '_' !in songId then
      SplitAtFirst("order", '_', rest);
      assert rest == songId + ['_'] + ts;
      SplitAtFirst(songId, '_', ts);
      SplitWithoutSeparator(ts, '_');
      "order_" + songId + "_" + ts
    else
      "order_" + songId + "_" + ts
  }

  /**
   * The server's `request.order_id.split("_")[1]`: there is a second field
   * exactly when the order id holds an underscore (None where Python would
   * raise IndexError), and it holds none itself.
   */
  function ServerSongId(orderId: string): (r: Option<string>)
    ensures r.Some? <==> '_' in orderId
    ensures r.Some? ==> '_' !in r.value
  {
    var fields := Split(orderId, '_');
    SplitHasSeveralFields(orderId, '_');
    SplitPiecesLackSeparator(orderId, '_');
    if |fields| > 1 then Some(fields[1]) else None
  }

  /** The ids the server assigns: the first eight characters of a UUID's hex form, so never an underscore. */
  predicate IsServerSongId(id: string)
    ensures IsServerSongId(id) ==> |id| == 8 && '_' !in id
  {
    |id| == 8 && forall i :: 0 <= i < |id| ==> id[i] in "0123456789abcdef"
  }

  /**
   * The server recovers exactly the song id from the order id if and only
   * if the id has no underscore.
   */
  lemma OrderIdRoundTrip(songId: string, nowMillis: nat)
    ensures ServerSongId(OrderId(songId, nowMillis)) == Some(songId) <==> '_' !in songId
  {
    if '_' in songId {
      var rest := songId + "_" + NatToString(nowMillis);
      assert OrderId(songId, nowMillis) == "order" + ['_'] + rest;
      SplitAtFirst("order", '_', rest);
      SplitPiecesLackSeparator(rest, '_');
      assert '_' !in Split(rest, '_')[0];
    }
  }

  /** Every id the server hands out survives the trip through the order id. */
  lemma ServerIdSurvivesOrderId(songId: string, nowMillis: nat)
    requires IsServerSongId(songId)
    ensures ServerSongId(OrderId(songId, nowMillis)) == Some(songId)
  {
    OrderIdRoundTrip(songId, nowMillis);
  }
}

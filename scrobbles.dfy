/**
 * The scrobble service's weekly track chart turned into per-day play counts
 * (`my_utils.fetchLastFmData`), and the time range it asks for.
 *
 * The response is modelled after `JSON.parse`: a document, a `null`
 * document, or text that does not parse.  Optional fields are `Option`s;
 * `track` is one track or an array of them; an array element may be
 * `null`, on which reading `track.date` throws.  Every throw is caught and
 * the result is then the empty map, even if some tracks were already
 * counted.  Converting a play's `uts` string to a local calendar date
 * (`new Date(parseInt(uts) * 1000)` read in the host's time zone) is the
 * parameter `localDate`.
 */
module Scrobbles {
  import opened Wrappers
  import opened Gregorian
  import opened DateKey
  import opened PlayCounts

  datatype PlayDate = PlayDate(uts: Option<string>)

  /** An element of the `track` array; `NullTrack` is a JSON `null` element. */
  datatype Track = NullTrack | Track(date: Option<PlayDate>)

  /** `weeklytrackchart.track`: a single track object or an array of tracks. */
  datatype TrackField = Single(track: Track) | Many(tracks: seq<Track>)

  datatype Chart = Chart(track: Option<TrackField>)

  datatype Payload = Unparseable | NullDocument | Document(weeklytrackchart: Option<Chart>)

  /** `track.date?.uts` is truthy: present and not the empty string. */
  predicate HasPlayTime(t: Track) {
    t.Track? && t.date.Some? && t.date.value.uts.Some? && t.date.value.uts.value != ""
  }

  /** The day key a dated track is counted under. */
  function PlayKey(t: Track, localDate: string -> ValidDate): string
    requires HasPlayTime(t)
  {
    KeyOf(localDate(t.date.value.uts.value))
  }

  /** `Array.isArray(track) ? track : [track]`. */
  function TrackList(f: TrackField): (ts: seq<Track>)
    ensures f.Single? ==> ts == [f.track]
    ensures f.Many? ==> ts == f.tracks
  {
    match f
    case Single(t) => [t]
    case Many(ts) => ts
  }

  predicate NoNullTrack(ts: seq<Track>) {
    forall i :: 0 <= i < |ts| ==> !ts[i].NullTrack?
  }

  /** The `plays` dictionary after the `forEach` has visited `ts` in order. */
  function Tally(ts: seq<Track>, localDate: string -> ValidDate): Counts {
    if ts == [] then map[]
    else
      var before := Tally(ts[..|ts| - 1], localDate);
      var t := ts[|ts| - 1];
      if HasPlayTime(t) then Incremented(before, PlayKey(t, localDate)) else before
  }

  /** What the fetch resolves with for a response, every failure path giving `{}`. */
  function Resolved(p: Payload, localDate: string -> ValidDate): Counts {
    match p
    case Unparseable => map[]   // JSON.parse throws
    case NullDocument => map[]  // reading a field of null throws
    case Document(chart) =>
      if chart.None? || chart.value.track.None? then map[]
      else if chart.value.track.value.Single? && chart.value.track.value.track.NullTrack? then map[]  // a null `track` is falsy
      else
        var ts := TrackList(chart.value.track.value);
        if NoNullTrack(ts) then Tally(ts, localDate) else map[]  // `null.date` throws
  }

  lemma TallyStep(ts: seq<Track>, i: nat, localDate: string -> ValidDate)
    requires i < |ts|
    ensures NoNullTrack(ts[..i]) && !ts[i].NullTrack? ==> NoNullTrack(ts[..i + 1])
    ensures Tally(ts[..i + 1], localDate)
      == if HasPlayTime(ts[i]) then AddAt(Tally(ts[..i], localDate), PlayKey(ts[i], localDate), 1)
         else Tally(ts[..i], localDate)
  {
    assert ts[..i + 1][..i] == ts[..i];
  }

  /**
   * The `forEach` over the normalised track list: each dated track adds one
   * play under its day key.  `None` when an element is `null`, where
   * reading `track.date` throws.
   */
  method CountTracks(tracks: seq<Track>, localDate: string -> ValidDate) returns (plays: Option<Counts>)
    ensures plays.None? <==> !NoNullTrack(tracks)
    ensures plays.Some? ==> plays.value == Tally(tracks, localDate)
  {
    var counted: Counts := map[];
    for i := 0 to |tracks|
      invariant NoNullTrack(tracks[..i])
      invariant counted == Tally(tracks[..i], localDate)
    {
      var track := tracks[i];
      if track.NullTrack? {
        return None;
      }
      TallyStep(tracks, i, localDate);
      if HasPlayTime(track) {
        var dateStr := PlayKey(track, localDate);
        counted := counted[dateStr := CountFor(counted, dateStr) + 1];
      }
    }
    assert tracks[..|tracks|] == tracks;
    return Some(counted);
  }

  /**
   * The parse-and-count step of the fetch callback: normalise `track` to a
   * list, count its dated tracks, and answer `{}` for a missing chart or
   * track and for every exception.
   */
  method CountPlays(p: Payload, localDate: string -> ValidDate) returns (plays: Counts)
    ensures plays == Resolved(p, localDate)
    ensures (p.Unparseable? || p.NullDocument? || (p.Document? && p.weeklytrackchart.None?)) ==> plays == map[]
    ensures p.Document? && p.weeklytrackchart.Some? && p.weeklytrackchart.value.track.None? ==> plays == map[]
  {
    if !p.Document? {
      return map[];
    }
    var chart := p.weeklytrackchart;
    if chart.None? || chart.value.track.None? {
      return map[];
    }
    var field := chart.value.track.value;
    if field.Single? && field.track.NullTrack? {
      return map[];
    }
    var tracks := TrackList(field);
    var counted := CountTracks(tracks, localDate);
    plays := counted.GetOr(map[]);
  }

  // --------------------------------------------------- reference counting

  /** How many tracks of `ts` carry a play time that falls on the day `key`. */
  function PlaysOn(ts: seq<Track>, key: string, localDate: string -> ValidDate): nat {
    if ts == [] then 0
    else (if HasPlayTime(ts[0]) && PlayKey(ts[0], localDate) == key then 1 else 0) + PlaysOn(ts[1..], key, localDate)
  }

  /** How many tracks of `ts` carry a play time at all. */
  function DatedTracks(ts: seq<Track>): nat {
    if ts == [] then 0 else (if HasPlayTime(ts[0]) then 1 else 0) + DatedTracks(ts[1..])
  }

  lemma {:induction false} PlaysOnAppend(ts: seq<Track>, t: Track, key: string, localDate: string -> ValidDate)
    ensures PlaysOn(ts + [t], key, localDate)
      == PlaysOn(ts, key, localDate) + (if HasPlayTime(t) && PlayKey(t, localDate) == key then 1 else 0)
  {
    if ts != [] {
      assert (ts + [t])[1..] == ts[1..] + [t];
      PlaysOnAppend(ts[1..], t, key, localDate);
    } else {
      assert ([] + [t])[1..] == [];
    }
  }

  lemma {:induction false} DatedTracksAppend(ts: seq<Track>, t: Track)
    ensures DatedTracks(ts + [t]) == DatedTracks(ts) + (if HasPlayTime(t) then 1 else 0)
  {
    if ts != [] {
      assert (ts + [t])[1..] == ts[1..] + [t];
      DatedTracksAppend(ts[1..], t);
    } else {
      assert ([] + [t])[1..] == [];
    }
  }

  /**
   * Each day's count is the number of dated tracks falling on that day, and
   * a day appears in the result exactly when at least one does.
   */
  lemma {:induction false} TallyCountsPlays(ts: seq<Track>, key: string, localDate: string -> ValidDate)
    ensures CountFor(Tally(ts, localDate), key) == PlaysOn(ts, key, localDate)
    ensures key in Tally(ts, localDate) <==> PlaysOn(ts, key, localDate) > 0
  {
    if ts != [] {
      TallyCountsPlays(ts[..|ts| - 1], key, localDate);
      PlaysOnLast(ts, key, localDate);
      TallyLastCount(ts, key, localDate);
    }
  }

  /** Whether the last track of `ts` is a dated play on the day `key`. */
  predicate LastHits(ts: seq<Track>, key: string, localDate: string -> ValidDate)
    requires ts != []
  {
    HasPlayTime(ts[|ts| - 1]) && PlayKey(ts[|ts| - 1], localDate) == key
  }

  lemma {:induction false} PlaysOnLast(ts: seq<Track>, key: string, localDate: string -> ValidDate)
    requires ts != []
    ensures PlaysOn(ts, key, localDate) == PlaysOn(ts[..|ts| - 1], key, localDate) + (if LastHits(ts, key, localDate) then 1 else 0)
  {
    var init, t := ts[..|ts| - 1], ts[|ts| - 1];
    assert ts == init + [t];
    PlaysOnAppend(init, t, key, localDate);
  }

  /** The last track raises the count of its own day by one and leaves every other day alone. */
  lemma {:induction false} TallyLastCount(ts: seq<Track>, key: string, localDate: string -> ValidDate)
    requires ts != []
    ensures CountFor(Tally(ts, localDate), key)
      == CountFor(Tally(ts[..|ts| - 1], localDate), key) + (if LastHits(ts, key, localDate) then 1 else 0)
    ensures key in Tally(ts, localDate) <==> key in Tally(ts[..|ts| - 1], localDate) || LastHits(ts, key, localDate)
  {
    var t := ts[|ts| - 1];
    var before := Tally(ts[..|ts| - 1], localDate);
    if HasPlayTime(t) {
      assert Tally(ts, localDate) == Incremented(before, PlayKey(t, localDate));
    } else {
      assert Tally(ts, localDate) == before;
    }
  }

  /** The counts add up to the number of dated tracks: every dated track adds exactly one play. */
  lemma {:induction false} TallyTotal(ts: seq<Track>, localDate: string -> ValidDate)
    ensures Total(Tally(ts, localDate)) == DatedTracks(ts)
  {
    if ts != [] {
      var init, t := ts[..|ts| - 1], ts[|ts| - 1];
      assert ts == init + [t];
      TallyTotal(init, localDate);
      DatedTracksAppend(init, t);
      if HasPlayTime(t) {
        TotalIncremented(Tally(init, localDate), PlayKey(t, localDate));
      }
    }
  }

  /** A track without a play time contributes nothing, wherever it stands in the list. */
  lemma {:induction false} UndatedTrackIgnored(a: seq<Track>, t: Track, b: seq<Track>, localDate: string -> ValidDate)
    requires !HasPlayTime(t)
    ensures Tally(a + [t] + b, localDate) == Tally(a + b, localDate)
  {
    var lhs, rhs := Tally(a + [t] + b, localDate), Tally(a + b, localDate);
    forall key
      ensures CountFor(lhs, key) == CountFor(rhs, key)
      ensures key in lhs <==> key in rhs
    {
      TallyCountsPlays(a + [t] + b, key, localDate);
      TallyCountsPlays(a + b, key, localDate);
      PlaysOnConcat(a + [t], b, key, localDate);
      PlaysOnConcat(a, [t], key, localDate);
      PlaysOnConcat(a, b, key, localDate);
      assert PlaysOn([t], key, localDate) == 0 by {
        assert [t][1..] == [];
      }
    }
    assert lhs.Keys == rhs.Keys;
    forall key | key in lhs
      ensures lhs[key] == rhs[key]
    {
      assert lhs[key] == CountFor(lhs, key) && rhs[key] == CountFor(rhs, key);
    }
  }

  lemma {:induction false} PlaysOnConcat(a: seq<Track>, b: seq<Track>, key: string, localDate: string -> ValidDate)
    ensures PlaysOn(a + b, key, localDate) == PlaysOn(a, key, localDate) + PlaysOn(b, key, localDate)
  {
    if a != [] {
      assert (a + b)[1..] == a[1..] + b;
      PlaysOnConcat(a[1..], b, key, localDate);
    } else {
      assert [] + b == b;
    }
  }

  /** Every key of the tally is a `YYYY-MM-DD` key of an existing day, like the panel's own keys. */
  lemma {:induction false} TallyKeysAreDayKeys(ts: seq<Track>, localDate: string -> ValidDate)
    ensures forall key :: key in Tally(ts, localDate) ==> IsDayKey(key)
  {
    if ts != [] {
      var init, t := ts[..|ts| - 1], ts[|ts| - 1];
      TallyKeysAreDayKeys(init, localDate);
      if HasPlayTime(t) {
        KeyOfDecodes(localDate(t.date.value.uts.value));
      }
    }
  }

  /** Two plays with the same time stamp give one day with count 2. */
  lemma {:induction false} SameTimestampTwice(uts: string, localDate: string -> ValidDate)
    requires uts != ""
    ensures var t := Track(Some(PlayDate(Some(uts))));
      Resolved(Document(Some(Chart(Some(Many([t, t]))))), localDate) == map[KeyOf(localDate(uts)) := 2]
  {
    var t := Track(Some(PlayDate(Some(uts))));
    var key := KeyOf(localDate(uts));
    assert [t, t][..1] == [t];
    assert [t][..0] == [];
    assert HasPlayTime(t) && PlayKey(t, localDate) == key;
    assert Tally([t], localDate) == map[key := 1];
    assert Tally([t, t], localDate) == map[key := 2];
    assert NoNullTrack([t, t]);
  }

  /** A lone track object is counted exactly as a one-element array holding it. */
  lemma SingleIsOneElementList(t: Track, localDate: string -> ValidDate)
    ensures Resolved(Document(Some(Chart(Some(Single(t))))), localDate)
         == Resolved(Document(Some(Chart(Some(Many([t]))))), localDate)
  {
  }

  /** A `null` anywhere in the track array discards every count, even those made before it. */
  lemma NullTrackDiscardsAll(ts: seq<Track>, i: nat, localDate: string -> ValidDate)
    requires i < |ts| && ts[i].NullTrack?
    ensures Resolved(Document(Some(Chart(Some(Many(ts))))), localDate) == map[]
  {
  }

  // ------------------------------------------------------- requested range

  const SECONDS_PER_DAY: int := 86400

  /**
   * Seconds since the Unix epoch of local midnight opening MakeDay(y, m, d),
   * for a host whose local time is `utcOffset` seconds ahead of UTC.
   */
  function LocalMidnight(y: int, m: int, d: int, utcOffset: int): int {
    (MakeDay(y, m, d) - UnixEpochDay) * SECONDS_PER_DAY - utcOffset
  }

  /**
   * `from` and `to` of the request for `month` (1..12): local midnight
   * opening the first day (`new Date(year, month - 1, 1)`) and local
   * midnight opening the last day (`new Date(year, month, 0)`).
   */
  function RequestRange(year: int, month: int, utcOffset: int): (r: (int, int))
    requires 1 <= month <= 12
    ensures r.0 < r.1
    ensures r.1 - r.0 == (DaysInMonth(year, month - 1) - 1) * SECONDS_PER_DAY
  {
    MonthBoundaries(year, month - 1);
    (LocalMidnight(year, month - 1, 1, utcOffset), LocalMidnight(year, month, 0, utcOffset))
  }

  /**
   * The range stops at the start of the month's last day: that whole day,
   * up to the midnight opening the next month, lies after `to`.
   */
  lemma {:induction false} RequestRangeMissesLastDay(year: int, month: int, utcOffset: int)
    requires 1 <= month <= 12
    ensures RequestRange(year, month, utcOffset).1
         == LocalMidnight(year, month - 1, DaysInMonth(year, month - 1), utcOffset)
    ensures RequestRange(year, month, utcOffset).1 + SECONDS_PER_DAY == LocalMidnight(year, month, 1, utcOffset)
  {
    MonthBoundaries(year, month - 1);
    DayOfMonth(year, month - 1, DaysInMonth(year, month - 1));
  }

  /** The range the request evidently intends: up to the midnight that opens the next month. */
  function CorrectedRequestRange(year: int, month: int, utcOffset: int): (r: (int, int))
    requires 1 <= month <= 12
  {
    (LocalMidnight(year, month - 1, 1, utcOffset), LocalMidnight(year, month, 1, utcOffset))
  }

  /** The corrected range spans the whole month and contains the midnight opening each of its days. */
  lemma {:induction false} CorrectedRangeCoversMonth(year: int, month: int, utcOffset: int, day: int)
    requires 1 <= month <= 12
    requires 1 <= day <= DaysInMonth(year, month - 1)
    ensures var r := CorrectedRequestRange(year, month, utcOffset);
      && r.1 - r.0 == DaysInMonth(year, month - 1) * SECONDS_PER_DAY
      && r.0 <= LocalMidnight(year, month - 1, day, utcOffset)
      && LocalMidnight(year, month - 1, day, utcOffset) + SECONDS_PER_DAY <= r.1
  {
    MonthBoundaries(year, month - 1);
    DayOfMonth(year, month - 1, day);
  }
}

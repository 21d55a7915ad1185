/**
 * The panel's mutable state and the event handlers that change it: the
 * play-count dictionary, the displayed date and the configuration.
 *
 * The host's file reads, the clock and the network arrive as parameters:
 * the saved configuration and counts (absent when missing or unreadable),
 * today's date, and the response of one chart request.  A fetch and the
 * merge of its result happen here as one step.
 */
module Panel {
  import opened Wrappers
  import opened Gregorian
  import opened DateKey
  import opened PlayCounts
  import opened Scrobbles
  import opened Navigation

  /** The configuration file: either field may be missing. */
  datatype Config = Config(apiKey: Option<string>, username: Option<string>)

  const PLACEHOLDER_API_KEY: string := "YOUR_LASTFM_API_KEY"
  const PLACEHOLDER_USERNAME: string := "YOUR_LASTFM_USERNAME"

  /** The configuration written when none could be read. */
  function DefaultConfig(): Config {
    Config(Some(PLACEHOLDER_API_KEY), Some(PLACEHOLDER_USERNAME))
  }

  /** A JavaScript string value that is truthy: present and non-empty. */
  predicate Truthy(s: Option<string>) {
    s.Some? && s.value != ""
  }

  /** The guard of `refreshData`: a key and a user name are set and the key is not the placeholder. */
  predicate FetchEnabled(c: Config) {
    Truthy(c.apiKey) && Truthy(c.username) && c.apiKey.value != PLACEHOLDER_API_KEY
  }

  /** A panel left with the default configuration never contacts the service. */
  lemma DefaultConfigNeverFetches()
    ensures !FetchEnabled(DefaultConfig())
    ensures forall user :: !FetchEnabled(Config(Some(PLACEHOLDER_API_KEY), user))
  {
  }

  /** Taking one more key out of `pending` adds exactly that key's entry to what has been merged. */
  lemma PendingStep(data: Counts, pending: set<string>, date: string)
    requires date in pending && pending <= data.Keys
    ensures date in data - (pending - {date})
    ensures (data - (pending - {date}))[date] == data[date]
    ensures data - (pending - {date}) - {date} == data - pending
  {
    var next := data - (pending - {date});
    assert (next - {date}).Keys == (data - pending).Keys;
  }

  class HeatmapPanel {
    var playCounts: Counts
    var currentDate: ValidDate
    var config: Config

    /**
     * `on_init`: the configuration falls back to the placeholders and the
     * counts to the empty dictionary when their files cannot be read.
     */
    constructor (today: ValidDate, savedConfig: Option<Config>, savedCounts: Option<Counts>)
      ensures currentDate == today
      ensures config == savedConfig.GetOr(DefaultConfig())
      ensures playCounts == savedCounts.GetOr(map[])
    {
      currentDate := today;
      config := savedConfig.GetOr(DefaultConfig());
      playCounts := savedCounts.GetOr(map[]);
    }

    /** `on_playback_new_track`: one more play on today's key; no other key changes. */
    method OnPlaybackNewTrack(today: ValidDate)
      modifies this`playCounts
      ensures playCounts == Incremented(old(playCounts), KeyOf(today))
      ensures Total(playCounts) == Total(old(playCounts)) + 1
    {
      var dateStr := KeyOf(today);
      playCounts := playCounts[dateStr := CountFor(playCounts, dateStr) + 1];
      TotalIncremented(old(playCounts), dateStr);
    }

    /** The merge loop of the fetch callback: each fetched count is added to the stored one. */
    method MergeFetched(data: Counts)
      modifies this`playCounts
      ensures playCounts == Merged(old(playCounts), data)
      ensures Total(playCounts) == Total(old(playCounts)) + Total(data)
    {
      ghost var before := playCounts;
      var pending := data.Keys;
      assert data - pending == map[];
      while pending != {}
        invariant pending <= data.Keys
        invariant playCounts == Merged(before, data - pending)
        decreases pending
      {
        var date :| date in pending;
        PendingStep(data, pending, date);
        MergedPeel(before, data - (pending - {date}), date);
        playCounts := playCounts[date := CountFor(playCounts, date) + data[date]];
        pending := pending - {date};
      }
      assert data - pending == data;
      TotalMerged(before, data);
    }

    /**
     * `refreshData` completed in one step: when the configuration allows,
     * request the displayed month and merge what the response yields.
     * Returns the (from, to) range requested, if any.
     */
    method RefreshData(utcOffset: int, response: Payload, localDate: string -> ValidDate) returns (request: Option<(int, int)>)
      modifies this`playCounts
      ensures request.Some? <==> FetchEnabled(config)
      ensures request.Some? ==> request.value == RequestRange(currentDate.year, currentDate.month + 1, utcOffset)
      ensures FetchEnabled(config) ==> playCounts == Merged(old(playCounts), Resolved(response, localDate))
      ensures !FetchEnabled(config) ==> playCounts == old(playCounts)
    {
      if FetchEnabled(config) {
        var data := CountPlays(response, localDate);
        MergeFetched(data);
        // The merge leaves the displayed date alone, so this is the range the request was made for.
        request := Some(RequestRange(currentDate.year, currentDate.month + 1, utcOffset));
      } else {
        request := None;
      }
    }

    /** The left arrow: the displayed date moves back one month (keeping its day of month). */
    method ShowPreviousMonth()
      modifies this`currentDate
      ensures currentDate == PreviousMonth(old(currentDate))
    {
      currentDate := SetMonth(currentDate, currentDate.month - 1);
    }

    /** The right arrow: the displayed date moves forward one month (keeping its day of month). */
    method ShowNextMonth()
      modifies this`currentDate
      ensures currentDate == NextMonth(old(currentDate))
    {
      currentDate := SetMonth(currentDate, currentDate.month + 1);
    }
  }
}

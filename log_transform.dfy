/** The in-memory part of `process_log_file` (etl.py): from the parsed rows of one log file to
    the three text streams bulk-loaded into the `times`, `users` and `songplays` tables.
    The database is represented by three parameters: the catalog lookup behind `song_select`,
    the calendar derivation `datetime.fromtimestamp(ts / 1000.0)`, and the rendering of a
    `pd.Timestamp` as text. */
module LogTransform {
  import opened Wrappers
  import opened Seqs
  import opened Text
  import opened CsvValue
  import opened DropDuplicates
  import opened StringIterator

  /** One line of a log file, as the columns the transform reads. Text columns hold the field's
      `str()` form or `None` when the field is missing; `length` is the track duration, compared
      only for equality. */
  datatype Event = Event(
    page: string,
    ts: int,
    userId: Value,
    firstName: Value,
    lastName: Value,
    gender: Value,
    level: Value,
    song: Value,
    artist: Value,
    length: Option<real>,
    sessionId: Value,
    location: Value,
    userAgent: Value)

  /** What `datetime.fromtimestamp(ts / 1000.0)` gives: its `str()` form, `hour`, `day`,
      `isocalendar()[1]`, `month`, `year` and `weekday()`. */
  datatype Calendar = Calendar(
    text: string, hour: int, day: int, week: int, month: int, year: int, weekday: int)

  /** `song_select` followed by `fetchone()`: the `(song_id, artist_id)` found for a
      `(song, artist, length)` triple, if any. */
  type Lookup = (Value, Value, Option<real>) -> Option<(string, string)>

  /** A row a log file contributes to the tables: its action is playing a song. */
  predicate IsNextSong(e: Event)
  {
    e.page == "NextSong"
  }

  /** `df[df.page == "NextSong"]`. */
  function NextSongRows(events: seq<Event>): (rows: seq<Event>)
    ensures forall e :: e in rows <==> e in events && IsNextSong(e)
    ensures IsSubsequence(rows, events)
  {
    Filter(events, IsNextSong)
  }

  /** `'|'.join(map(clean_csv_value, fields)) + '\n'`: one line of a `COPY` text stream. */
  function Line(fields: seq<Value>): (l: string)
    ensures IsLine(l)
    ensures l[..|l| - 1] == Join(MapSeq(fields, CleanCsvValue), '|')
  {
    var cells := MapSeq(fields, CleanCsvValue);
    JoinWithout(cells, '|', '\n');
    var l := Join(cells, '|') + "\n";
    assert l[..|l| - 1] == Join(cells, '|');
    l
  }

  /** A line made of fields without `|` splits back into exactly those fields, encoded. */
  lemma LineSplit(fields: seq<Value>)
    requires |fields| >= 1
    requires forall i :: 0 <= i < |fields| && fields[i].Text? ==> '|' !in fields[i].s
    ensures var l := Line(fields);
      Split(l[..|l| - 1], '|') == MapSeq(fields, CleanCsvValue)
  {
    SplitJoin(MapSeq(fields, CleanCsvValue), '|');
  }

  // ---------------------------------------------------------------------------------------
  // The time dimension

  function Ts(e: Event): int { e.ts }

  function Identity(t: int): int { t }

  /** `pd.to_datetime(df['ts'], unit='ms').drop_duplicates(keep="last")`, as epoch
      milliseconds: the distinct timestamps of the NextSong rows, each at the place of its
      last occurrence. */
  function TimeStamps(events: seq<Event>): (stamps: seq<int>)
    ensures forall i, j :: 0 <= i < j < |stamps| ==> stamps[i] != stamps[j]
  {
    DropDuplicatesLast(MapSeq(NextSongRows(events), Ts), Identity)
  }

  /** The seven fields of a `times` row. */
  function TimeFields(c: Calendar): (f: seq<Value>)
    ensures |f| == 7 && f[0] == Text(c.text)
    ensures forall i :: 1 <= i < |f| ==> f[i].Text? && '|' !in f[i].s && '\n' !in f[i].s
  {
    [Text(c.text), Text(Decimal(c.hour)), Text(Decimal(c.day)), Text(Decimal(c.week)),
     Text(Decimal(c.month)), Text(Decimal(c.year)), Text(Decimal(c.weekday))]
  }

  /** The chunks of `time_string_iterator`: one line per kept timestamp. */
  function TimeLines(events: seq<Event>, calendar: int -> Calendar): (lines: seq<string>)
    ensures |lines| == |TimeStamps(events)|
    ensures forall i :: 0 <= i < |lines| ==> lines[i] == Line(TimeFields(calendar(TimeStamps(events)[i])))
  {
    MapSeq(TimeStamps(events), (t: int) => Line(TimeFields(calendar(t))))
  }

  /** A timestamp is kept exactly when some NextSong row carries it. */
  lemma TimeStampsCover(events: seq<Event>, t: int)
    ensures t in TimeStamps(events) <==> exists e :: e in events && IsNextSong(e) && e.ts == t
  {
    var ts := MapSeq(NextSongRows(events), Ts);
    DropDuplicatesKeys(ts, Identity, t);
    if t in TimeStamps(events) {
      var i :| 0 <= i < |TimeStamps(events)| && TimeStamps(events)[i] == t;
      assert Identity(TimeStamps(events)[i]) == t;
      var j :| 0 <= j < |ts| && Identity(ts[j]) == t;
      assert NextSongRows(events)[j] in NextSongRows(events);
    }
    if exists e :: e in events && IsNextSong(e) && e.ts == t {
      var e :| e in events && IsNextSong(e) && e.ts == t;
      var j :| 0 <= j < |NextSongRows(events)| && NextSongRows(events)[j] == e;
      assert Identity(ts[j]) == t;
      var i :| 0 <= i < |TimeStamps(events)| && Identity(TimeStamps(events)[i]) == t;
    }
  }

  /** Which timestamps are kept, and in which order: those at the last occurrence of their value
      among the NextSong rows, in file order. */
  lemma TimeStampsAreLastOccurrences(events: seq<Event>)
    ensures TimeStamps(events) == LastOccurrences(MapSeq(NextSongRows(events), Ts), Identity, 0)
  {
    var ts := MapSeq(NextSongRows(events), Ts);
    DropDuplicatesSpec(ts, Identity, 0);
    assert ts[0..] == ts;
  }

  /** A `times` line holds seven `|`-separated fields: the instant's text, then the decimal
      text of hour, day, week, month, year and weekday. */
  lemma TimeLineFields(c: Calendar)
    requires '|' !in c.text
    ensures var l := Line(TimeFields(c));
      var cells := Split(l[..|l| - 1], '|');
      |cells| == 7 && cells[0] == CleanCsvValue(Text(c.text)) &&
      cells[1] == Decimal(c.hour) && cells[2] == Decimal(c.day) && cells[3] == Decimal(c.week) &&
      cells[4] == Decimal(c.month) && cells[5] == Decimal(c.year) && cells[6] == Decimal(c.weekday)
  {
    LineSplit(TimeFields(c));
    TimeCells(c);
  }

  /** The encoded fields of a `times` row: the integers pass through `clean_csv_value`
      unchanged. */
  lemma TimeCells(c: Calendar)
    ensures var cells := MapSeq(TimeFields(c), CleanCsvValue);
      |cells| == 7 && cells[0] == CleanCsvValue(Text(c.text)) &&
      cells[1] == Decimal(c.hour) && cells[2] == Decimal(c.day) && cells[3] == Decimal(c.week) &&
      cells[4] == Decimal(c.month) && cells[5] == Decimal(c.year) && cells[6] == Decimal(c.weekday)
  {
    var cells := MapSeq(TimeFields(c), CleanCsvValue);
    CleanDecimal(c.hour);
    CleanDecimal(c.day);
    CleanDecimal(c.week);
    CleanDecimal(c.month);
    CleanDecimal(c.year);
    CleanDecimal(c.weekday);
    assert cells[1] == Decimal(c.hour) && cells[2] == Decimal(c.day) && cells[3] == Decimal(c.week);
    assert cells[4] == Decimal(c.month) && cells[5] == Decimal(c.year) && cells[6] == Decimal(c.weekday);
  }

  /** The text of an integer goes through `clean_csv_value` unchanged. */
  lemma CleanDecimal(n: int)
    ensures CleanCsvValue(Text(Decimal(n))) == Decimal(n)
  {
    assert '\n' !in Decimal(n);
  }

  // ---------------------------------------------------------------------------------------
  // The user dimension

  /** The five columns of `user_df`, as nullable cells on their way into the `COPY` stream (the
      stored `users` row, keyed by a non-null id, is `SqlQueries.UserRow`). */
  datatype UserRow = UserRow(userId: Value, firstName: Value, lastName: Value, gender: Value, level: Value)

  /** `replace('', np.nan)` on one cell: an empty string becomes a missing value. */
  function NullIfEmpty(v: Value): (r: Value)
    ensures r != Text("")
    ensures v != Text("") ==> r == v
    ensures v == Text("") ==> r == Null
  {
    if v == Text("") then Null else v
  }

  /** `df[['userId', 'firstName', 'lastName', 'gender', 'level']]` after `replace('', np.nan)`. */
  function UserOf(e: Event): (u: UserRow)
    ensures u.userId != Text("") && u.firstName != Text("") && u.lastName != Text("")
    ensures u.gender != Text("") && u.level != Text("")
    ensures e.userId != Text("") ==> u.userId == e.userId
    ensures e.firstName != Text("") ==> u.firstName == e.firstName
    ensures e.lastName != Text("") ==> u.lastName == e.lastName
    ensures e.gender != Text("") ==> u.gender == e.gender
    ensures e.level != Text("") ==> u.level == e.level
    ensures e.userId == Text("") ==> u.userId == Null
    ensures e.firstName == Text("") ==> u.firstName == Null
    ensures e.lastName == Text("") ==> u.lastName == Null
    ensures e.gender == Text("") ==> u.gender == Null
    ensures e.level == Text("") ==> u.level == Null
  {
    UserRow(NullIfEmpty(e.userId), NullIfEmpty(e.firstName), NullIfEmpty(e.lastName),
            NullIfEmpty(e.gender), NullIfEmpty(e.level))
  }

  /** Kept by `dropna(subset=['userId'])`. */
  predicate HasUserId(u: UserRow)
  {
    u.userId != Null
  }

  function UserKey(u: UserRow): Value { u.userId }

  /** The user rows before deduplication, in file order. */
  function UserCandidates(events: seq<Event>): (users: seq<UserRow>)
    ensures |users| <= |events|
    ensures forall u :: u in users ==> u.userId.Text? && u.userId.s != ""
  {
    Filter(MapSeq(NextSongRows(events), UserOf), HasUserId)
  }

  /** `user_df.drop_duplicates(subset='userId', keep="last")`. */
  function UserRows(events: seq<Event>): (users: seq<UserRow>)
    ensures forall i, j :: 0 <= i < j < |users| ==> users[i].userId != users[j].userId
  {
    DropDuplicatesLast(UserCandidates(events), UserKey)
  }

  /** The five fields of a `users` row. */
  function UserFields(u: UserRow): (f: seq<Value>)
    ensures |f| == 5
  {
    [u.userId, u.firstName, u.lastName, u.gender, u.level]
  }

  /** A `users` line splits into exactly its five encoded fields when no field text holds `|`. */
  lemma UserLineFields(u: UserRow)
    requires var f := UserFields(u);
      forall i :: 0 <= i < |f| && f[i].Text? ==> '|' !in f[i].s
    ensures var l := Line(UserFields(u));
      Split(l[..|l| - 1], '|') == MapSeq(UserFields(u), CleanCsvValue)
  {
    LineSplit(UserFields(u));
  }

  /** The chunks of `user_string_iterator`. */
  function UserLines(events: seq<Event>): (lines: seq<string>)
    ensures |lines| == |UserRows(events)|
    ensures forall i :: 0 <= i < |lines| ==> lines[i] == Line(UserFields(UserRows(events)[i]))
  {
    MapSeq(UserRows(events), (u: UserRow) => Line(UserFields(u)))
  }

  /** Every user row has a real id, and no field of it is an empty string: such fields are
      written as `\N`. */
  lemma UserRowsNormalised(events: seq<Event>, u: UserRow)
    requires u in UserRows(events)
    ensures u.userId.Text? && u.userId.s != ""
    ensures u.firstName != Text("") && u.lastName != Text("") && u.gender != Text("") && u.level != Text("")
  {
    assert u in UserCandidates(events);
    var rows := MapSeq(NextSongRows(events), UserOf);
    var i :| 0 <= i < |rows| && rows[i] == u;
  }

  /** Every user id met on a NextSong row appears among the user rows. */
  lemma UserRowsCover(events: seq<Event>, e: Event)
    requires e in events && IsNextSong(e) && e.userId.Text? && e.userId.s != ""
    ensures exists u :: u in UserRows(events) && u.userId == e.userId
  {
    var rows := NextSongRows(events);
    var i :| 0 <= i < |rows| && rows[i] == e;
    var mapped := MapSeq(rows, UserOf);
    assert mapped[i] == UserOf(e) && UserOf(e) in mapped;
    var cand := UserCandidates(events);
    assert UserOf(e) in cand;
    var j :| 0 <= j < |cand| && cand[j] == UserOf(e);
    assert HasKey(cand, UserKey, e.userId) by { assert UserKey(cand[j]) == e.userId; }
    DropDuplicatesKeys(cand, UserKey, e.userId);
    var k :| 0 <= k < |UserRows(events)| && UserKey(UserRows(events)[k]) == e.userId;
    assert UserRows(events)[k] in UserRows(events);
  }

  lemma NextSongRowsAppend(a: seq<Event>, b: seq<Event>)
    ensures NextSongRows(a + b) == NextSongRows(a) + NextSongRows(b)
  {
    FilterAppend(a, b, IsNextSong);
  }

  lemma UserCandidatesAppend(a: seq<Event>, b: seq<Event>)
    ensures UserCandidates(a + b) == UserCandidates(a) + UserCandidates(b)
  {
    NextSongRowsAppend(a, b);
    MapAppend(NextSongRows(a), NextSongRows(b), UserOf);
    FilterAppend(MapSeq(NextSongRows(a), UserOf), MapSeq(NextSongRows(b), UserOf), HasUserId);
  }

  /** The user candidates of `post` all come from its NextSong rows. */
  lemma UserCandidatesFrom(post: seq<Event>, x: UserRow)
    requires x in UserCandidates(post)
    ensures exists f :: f in post && IsNextSong(f) && x == UserOf(f)
  {
    var m := MapSeq(NextSongRows(post), UserOf);
    assert x in m;
    var k :| 0 <= k < |m| && m[k] == x;
    assert NextSongRows(post)[k] in NextSongRows(post);
  }

  /** The candidates of `pre + [e] + post` are those of `pre`, then `e`'s row, then those of
      `post`. */
  lemma UserCandidatesSplit(pre: seq<Event>, e: Event, post: seq<Event>)
    requires IsNextSong(e) && e.userId.Text? && e.userId.s != ""
    ensures UserCandidates(pre + [e] + post)
         == UserCandidates(pre) + [UserOf(e)] + UserCandidates(post)
  {
    UserCandidatesAppend(pre + [e], post);
    UserCandidatesAppend(pre, [e]);
    assert NextSongRows([e]) == [e];
    assert UserCandidates([e]) == [UserOf(e)];
  }

  /** `e`'s row is the last candidate of its user when no later NextSong row shares its id. */
  lemma UserCandidateIsLast(ca: seq<UserRow>, e: Event, post: seq<Event>)
    requires forall f :: f in post && IsNextSong(f) ==> f.userId != e.userId
    ensures IsLastOccurrence(ca + [UserOf(e)] + UserCandidates(post), UserKey, |ca|)
  {
    var cb := UserCandidates(post);
    var cand := ca + [UserOf(e)] + cb;
    var i := |ca|;
    forall j | i < j < |cand| ensures UserKey(cand[j]) != UserKey(cand[i]) {
      assert cand[j] == cb[j - i - 1];
      UserCandidatesFrom(post, cand[j]);
    }
  }

  /** Latest wins: when `e` is the last NextSong row of its user, the row kept for that user is
      `e`'s, including its `level`. */
  lemma UserRowsLastWins(pre: seq<Event>, e: Event, post: seq<Event>, u: UserRow)
    requires IsNextSong(e) && e.userId.Text? && e.userId.s != ""
    requires forall f :: f in post && IsNextSong(f) ==> f.userId != e.userId
    requires u in UserRows(pre + [e] + post) && u.userId == e.userId
    ensures u == UserOf(e)
  {
    UserCandidatesSplit(pre, e, post);
    var ca := UserCandidates(pre);
    var cand := ca + [UserOf(e)] + UserCandidates(post);
    UserCandidateIsLast(ca, e, post);
    assert cand[|ca|] == UserOf(e);
    DropDuplicatesLastWins(cand, UserKey, |ca|, u);
  }

  /** Which user rows are kept, and in which order: the last row of each user id, in file
      order. */
  lemma UserRowsAreLastOccurrences(events: seq<Event>)
    ensures UserRows(events) == LastOccurrences(UserCandidates(events), UserKey, 0)
  {
    DropDuplicatesSpec(UserCandidates(events), UserKey, 0);
    assert UserCandidates(events)[0..] == UserCandidates(events);
  }

  // ---------------------------------------------------------------------------------------
  // The songplay facts

  /** The instant `pd.Timestamp(ts)` denotes, in epoch nanoseconds, as etl.py writes it: an
      integer argument is read as nanoseconds although `ts` counts milliseconds. */
  function SongplayStartAsWritten(ts: int): (ns: int)
    ensures ns * 1_000_000 == SongplayStart(ts)
  {
    ts
  }

  /** The instant of the event, in epoch nanoseconds, reading `ts` as milliseconds (what
      `pd.Timestamp(ts, unit='ms')` denotes): the same instant the `times` row is derived from. */
  function SongplayStart(ts: int): (ns: int)
    ensures ns / 1_000_000 == ts && ns % 1_000_000 == 0
  {
    ts * 1_000_000
  }

  /** With the instant read in milliseconds, every songplay's start time has its row in the
      time dimension built from the same file. */
  lemma SongplayStartHasTimeRow(events: seq<Event>, e: Event)
    requires e in events && IsNextSong(e)
    ensures SongplayStart(e.ts) / 1_000_000 in TimeStamps(events)
  {
    TimeStampsCover(events, e.ts);
  }

  /** A NextSong event like those of the project's sample log data. */
  const SampleEvent := Event(
    "NextSong", 1541121934796, Text("8"), Text("Kaylee"), Null, Null, Text("free"),
    Text("You Gotta Be"), Text("Des'ree"), Some(246.3), Text("139"),
    Text("Phoenix-Mesa-Scottsdale, AZ"), Text("Mozilla"))

  /** As written, the sample event (on 2018-11-01) is stamped 1541 seconds after the epoch,
      on 1970-01-01, so its songplay row names an instant with no row in the time dimension. */
  lemma SongplayStartAsWrittenWrong()
    ensures SongplayStartAsWritten(SampleEvent.ts) / 1_000_000_000 == 1541
    ensures TimeStamps([SampleEvent]) == [SampleEvent.ts]
    ensures SongplayStartAsWritten(SampleEvent.ts) / 1_000_000 !in TimeStamps([SampleEvent])
  {
    assert NextSongRows([SampleEvent]) == [SampleEvent];
    assert MapSeq([SampleEvent], Ts) == [SampleEvent.ts];
  }

  /** The sample file of one NextSong event: one time row, one user row carrying the event's
      user and level, and one songplay line whose song and artist are missing when the catalog
      has no match. */
  lemma SampleLogFile(lookup: Lookup, stamp: int -> string)
    requires lookup(Text("You Gotta Be"), Text("Des'ree"), Some(246.3)) == None
    ensures TimeStamps([SampleEvent]) == [1541121934796]
    ensures UserRows([SampleEvent]) == [UserRow(Text("8"), Text("Kaylee"), Null, Null, Text("free"))]
    ensures var f := SongplayFields(SampleEvent, lookup, stamp);
      f[1] == Text("8") && f[2] == Text("free") && f[3] == Null && f[4] == Null &&
      f[5] == Text("139") && f[6] == Text("Phoenix-Mesa-Scottsdale, AZ")
  {
    assert NextSongRows([SampleEvent]) == [SampleEvent];
    assert MapSeq([SampleEvent], Ts) == [SampleEvent.ts];
    assert MapSeq([SampleEvent], UserOf) == [UserOf(SampleEvent)];
    assert UserCandidates([SampleEvent]) == [UserOf(SampleEvent)];
  }

  /** The eight fields of a `songplays` row built from one NextSong row. */
  function SongplayFields(e: Event, lookup: Lookup, stamp: int -> string): (f: seq<Value>)
    ensures |f| == 8
  {
    var ids := lookup(e.song, e.artist, e.length);
    [Text(stamp(SongplayStart(e.ts))),
     NullIfEmpty(e.userId),
     e.level,
     if ids.Some? then Text(ids.value.0) else Null,
     if ids.Some? then Text(ids.value.1) else Null,
     e.sessionId,
     e.location,
     e.userAgent]
  }

  /** The field values of a songplay row: song and artist ids are both missing exactly when the
      lookup finds nothing; an empty user id is written as missing; everything else is carried
      over from the event. */
  lemma SongplayFieldsMeaning(e: Event, lookup: Lookup, stamp: int -> string)
    ensures var f := SongplayFields(e, lookup, stamp);
      var ids := lookup(e.song, e.artist, e.length);
      && (ids.None? <==> f[3] == Null && f[4] == Null)
      && (ids.Some? ==> f[3] == Text(ids.value.0) && f[4] == Text(ids.value.1))
      && (e.userId == Text("") ==> f[1] == Null && CleanCsvValue(f[1]) == "\\N")
      && (e.userId != Text("") ==> f[1] == e.userId)
      && f[2] == e.level && f[5] == e.sessionId && f[6] == e.location && f[7] == e.userAgent
  {
  }

  function SongplayLine(e: Event, lookup: Lookup, stamp: int -> string): string
  {
    Line(SongplayFields(e, lookup, stamp))
  }

  /** One line per row, in the rows' order. */
  function SongplayLinesOf(rows: seq<Event>, lookup: Lookup, stamp: int -> string): (lines: seq<string>)
    ensures |lines| == |rows|
    ensures forall i :: 0 <= i < |rows| ==> lines[i] == SongplayLine(rows[i], lookup, stamp)
  {
    MapSeq(rows, (e: Event) => SongplayLine(e, lookup, stamp))
  }

  /** The songplay lines of a log file: exactly one per NextSong row, in file order, even when
      the lookup finds nothing. */
  function SongplayLines(events: seq<Event>, lookup: Lookup, stamp: int -> string): (lines: seq<string>)
    ensures |lines| == |NextSongRows(events)|
  {
    SongplayLinesOf(NextSongRows(events), lookup, stamp)
  }

  lemma SongplayLinesSnoc(rows: seq<Event>, e: Event, lookup: Lookup, stamp: int -> string)
    ensures SongplayLinesOf(rows + [e], lookup, stamp)
         == SongplayLinesOf(rows, lookup, stamp) + [SongplayLine(e, lookup, stamp)]
  {
    var a := SongplayLinesOf(rows + [e], lookup, stamp);
    var b := SongplayLinesOf(rows, lookup, stamp) + [SongplayLine(e, lookup, stamp)];
    assert |a| == |b|;
    forall i | 0 <= i < |a| ensures a[i] == b[i] {
      if i < |rows| {
        assert (rows + [e])[i] == rows[i];
      }
    }
  }

  /** One step of the accumulating loop: appending row `i`'s line extends the text to the
      first `i + 1` rows. */
  lemma SongplayTextStep(rows: seq<Event>, i: nat, lookup: Lookup, stamp: int -> string)
    requires i < |rows|
    ensures Concat(SongplayLinesOf(rows[..i], lookup, stamp)) + SongplayLine(rows[i], lookup, stamp)
         == Concat(SongplayLinesOf(rows[..i + 1], lookup, stamp))
  {
    assert rows[..i + 1] == rows[..i] + [rows[i]];
    SongplayLinesSnoc(rows[..i], rows[i], lookup, stamp);
    ConcatAppend(SongplayLinesOf(rows[..i], lookup, stamp), SongplayLine(rows[i], lookup, stamp));
  }

  /** The loop over `df.iterrows()` that accumulates `s`. */
  method BuildSongplayText(rows: seq<Event>, lookup: Lookup, stamp: int -> string) returns (s: string)
    ensures s == Concat(SongplayLinesOf(rows, lookup, stamp))
  {
    s := "";
    var i := 0;
    while i < |rows|
      invariant 0 <= i <= |rows|
      invariant s == Concat(SongplayLinesOf(rows[..i], lookup, stamp))
    {
      SongplayTextStep(rows, i, lookup, stamp);
      s := s + SongplayLine(rows[i], lookup, stamp);
      i := i + 1;
    }
    assert rows[..i] == rows;
  }

  /** Each songplay line holds eight `|`-separated fields when no text in it contains `|`. */
  lemma SongplayLineFields(e: Event, lookup: Lookup, stamp: int -> string)
    requires var f := SongplayFields(e, lookup, stamp);
      forall i :: 0 <= i < |f| && f[i].Text? ==> '|' !in f[i].s
    ensures var l := SongplayLine(e, lookup, stamp);
      |Split(l[..|l| - 1], '|')| == 8
  {
    LineSplit(SongplayFields(e, lookup, stamp));
  }

  // ---------------------------------------------------------------------------------------
  // The whole transform

  /** A row that is not a NextSong row changes none of the three outputs, wherever it stands. */
  lemma NonNextSongIgnored(pre: seq<Event>, e: Event, post: seq<Event>,
                           lookup: Lookup, calendar: int -> Calendar, stamp: int -> string)
    requires !IsNextSong(e)
    ensures TimeLines(pre + [e] + post, calendar) == TimeLines(pre + post, calendar)
    ensures UserLines(pre + [e] + post) == UserLines(pre + post)
    ensures SongplayLines(pre + [e] + post, lookup, stamp) == SongplayLines(pre + post, lookup, stamp)
  {
    NextSongRowsSkip(pre, e, post);
  }

  lemma NextSongRowsSkip(pre: seq<Event>, e: Event, post: seq<Event>)
    requires !IsNextSong(e)
    ensures NextSongRows(pre + [e] + post) == NextSongRows(pre + post)
  {
    assert [e][1..] == [];
    assert NextSongRows([e]) == [];
    NextSongRowsAppend(pre, [e]);
    assert NextSongRows(pre + [e]) == NextSongRows(pre);
    NextSongRowsAppend(pre + [e], post);
    NextSongRowsAppend(pre, post);
  }

  /** The three streams `process_log_file` hands to `copy_from`: the time lines, the user lines,
      and the songplay text, which iterating over `io.StringIO(s)` yields line by line. */
  method ProcessLogFile(events: seq<Event>, lookup: Lookup, calendar: int -> Calendar, stamp: int -> string)
    returns (timeStream: StringIteratorIO, userStream: StringIteratorIO, songplayStream: StringIteratorIO)
    ensures fresh(timeStream) && fresh(userStream) && fresh(songplayStream)
    ensures timeStream.Valid() && timeStream.source == TimeLines(events, calendar)
    ensures userStream.Valid() && userStream.source == UserLines(events)
    ensures songplayStream.Valid() && songplayStream.source == SongplayLines(events, lookup, stamp)
    ensures timeStream.Remaining() == Concat(TimeLines(events, calendar))
    ensures userStream.Remaining() == Concat(UserLines(events))
    ensures songplayStream.Remaining() == Concat(SongplayLines(events, lookup, stamp))
  {
    var df := NextSongRows(events);
    timeStream := new StringIteratorIO(TimeLines(events, calendar));
    userStream := new StringIteratorIO(UserLines(events));
    var s := BuildSongplayText(df, lookup, stamp);
    SplitLinesConcat(SongplayLines(events, lookup, stamp));
    songplayStream := new StringIteratorIO(SplitLines(s));
  }
}

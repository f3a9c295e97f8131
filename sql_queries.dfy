/** The table semantics fixed by sql_queries.py: each table is a map from its primary key to its
    row, `INSERT ... ON CONFLICT (key) DO NOTHING` is insert-if-absent, the songplays insert
    appends under a fresh serial key, and `song_select` filters the songs table. */
module SqlQueries {
  import opened Wrappers
  import opened CsvValue

  datatype SongRow = SongRow(songId: string, title: Value, artistId: string, year: Value, duration: real)

  datatype ArtistRow = ArtistRow(artistId: string, name: Value, location: Value, latitude: Value, longitude: Value)

  datatype UserRow = UserRow(userId: string, firstName: Value, lastName: Value, gender: Value, level: Value)

  datatype TimeRow = TimeRow(startTime: int, hour: int, day: int, week: int, month: int, year: int, weekday: int)

  datatype SongplayRow = SongplayRow(
    startTime: Value, userId: Value, level: Value, songId: Value, artistId: Value,
    sessionId: Value, location: Value, userAgent: Value)

  /** `INSERT ... ON CONFLICT (key) DO NOTHING`: the row is added under its key unless a row
      with that key is already there, and an existing row is never overwritten. */
  function InsertIfAbsent<K, V>(table: map<K, V>, k: K, row: V): (r: map<K, V>)
    ensures r.Keys == table.Keys + {k}
    ensures forall j :: j in table ==> r[j] == table[j]
    ensures k !in table ==> r[k] == row
  {
    if k in table then table else table[k := row]
  }

  /** Inserting the same row twice has the effect of inserting it once. */
  lemma InsertIfAbsentIdempotent<K, V>(table: map<K, V>, k: K, row: V)
    ensures InsertIfAbsent(InsertIfAbsent(table, k, row), k, row) == InsertIfAbsent(table, k, row)
  {
  }

  /** Every row is stored under its own primary key. */
  ghost predicate SongsKeyed(songs: map<string, SongRow>)
  {
    forall k :: k in songs ==> songs[k].songId == k
  }

  ghost predicate ArtistsKeyed(artists: map<string, ArtistRow>)
  {
    forall k :: k in artists ==> artists[k].artistId == k
  }

  ghost predicate UsersKeyed(users: map<string, UserRow>)
  {
    forall k :: k in users ==> users[k].userId == k
  }

  ghost predicate TimesKeyed(times: map<int, TimeRow>)
  {
    forall k :: k in times ==> times[k].startTime == k
  }

  /** `song_table_insert`, keyed on `song_id`. */
  function InsertSong(songs: map<string, SongRow>, row: SongRow): (r: map<string, SongRow>)
    ensures row.songId in songs ==> r == songs
    ensures row.songId !in songs ==> r.Keys == songs.Keys + {row.songId} && r[row.songId] == row
    ensures forall k :: k in songs ==> k in r && r[k] == songs[k]
    ensures SongsKeyed(songs) ==> SongsKeyed(r)
  {
    InsertIfAbsent(songs, row.songId, row)
  }

  /** `artist_table_insert`, keyed on `artist_id`. */
  function InsertArtist(artists: map<string, ArtistRow>, row: ArtistRow): (r: map<string, ArtistRow>)
    ensures row.artistId in artists ==> r == artists
    ensures row.artistId !in artists ==> r.Keys == artists.Keys + {row.artistId} && r[row.artistId] == row
    ensures forall k :: k in artists ==> k in r && r[k] == artists[k]
    ensures ArtistsKeyed(artists) ==> ArtistsKeyed(r)
  {
    InsertIfAbsent(artists, row.artistId, row)
  }

  /** `user_table_insert`, keyed on `user_id`: a known user keeps its stored row, `level`
      included. */
  function InsertUser(users: map<string, UserRow>, row: UserRow): (r: map<string, UserRow>)
    ensures row.userId in users ==> r == users && r[row.userId].level == users[row.userId].level
    ensures row.userId !in users ==> r.Keys == users.Keys + {row.userId} && r[row.userId] == row
    ensures forall k :: k in users ==> k in r && r[k] == users[k]
    ensures UsersKeyed(users) ==> UsersKeyed(r)
  {
    InsertIfAbsent(users, row.userId, row)
  }

  /** `time_table_insert`, keyed on `start_time`. */
  function InsertTime(times: map<int, TimeRow>, row: TimeRow): (r: map<int, TimeRow>)
    ensures row.startTime in times ==> r == times
    ensures row.startTime !in times ==> r.Keys == times.Keys + {row.startTime} && r[row.startTime] == row
    ensures forall k :: k in times ==> k in r && r[k] == times[k]
    ensures TimesKeyed(times) ==> TimesKeyed(r)
  {
    InsertIfAbsent(times, row.startTime, row)
  }

  /** `time_table_insert` run for each row in turn. */
  function InsertTimes(times: map<int, TimeRow>, rows: seq<TimeRow>): (r: map<int, TimeRow>)
    ensures forall i :: 0 <= i < |rows| ==> rows[i].startTime in r
    ensures forall k :: k in times ==> k in r && r[k] == times[k]
    decreases |rows|
  {
    if rows == [] then times else InsertTimes(InsertTime(times, rows[0]), rows[1..])
  }

  /** After a batch, the keys are the old keys and the batch's keys, and no others. */
  lemma {:induction false} InsertTimesKeys(times: map<int, TimeRow>, rows: seq<TimeRow>)
    ensures InsertTimes(times, rows).Keys == times.Keys + set i | 0 <= i < |rows| :: rows[i].startTime
    decreases |rows|
  {
    if rows != [] {
      var tail := rows[1..];
      InsertTimesKeys(InsertTime(times, rows[0]), tail);
      var all := set i | 0 <= i < |rows| :: rows[i].startTime;
      var later := set i | 0 <= i < |tail| :: tail[i].startTime;
      forall k | k in all ensures k == rows[0].startTime || k in later {
        var i :| 0 <= i < |rows| && rows[i].startTime == k;
        if i > 0 {
          assert tail[i - 1].startTime == k;
        }
      }
      forall k | k in later ensures k in all {
        var i :| 0 <= i < |tail| && tail[i].startTime == k;
        assert rows[i + 1].startTime == k;
      }
      assert all == {rows[0].startTime} + later;
    }
  }

  /** A key new to the table holds the first row of the batch that carries it: later rows
      with the same `start_time` are ignored by `ON CONFLICT DO NOTHING`. */
  lemma {:induction false} InsertTimesFirstWins(times: map<int, TimeRow>, rows: seq<TimeRow>, i: nat)
    requires i < |rows| && rows[i].startTime !in times
    requires forall j :: 0 <= j < i ==> rows[j].startTime != rows[i].startTime
    ensures InsertTimes(times, rows)[rows[i].startTime] == rows[i]
    decreases |rows|
  {
    var next := InsertTime(times, rows[0]);
    if i > 0 {
      assert rows[1..][i - 1] == rows[i];
      InsertTimesFirstWins(next, rows[1..], i - 1);
    }
  }

  /** Inserting rows whose keys are all present changes nothing. */
  lemma {:induction false} InsertTimesPresent(times: map<int, TimeRow>, rows: seq<TimeRow>)
    requires forall i :: 0 <= i < |rows| ==> rows[i].startTime in times
    ensures InsertTimes(times, rows) == times
    decreases |rows|
  {
    if rows != [] {
      InsertTimesPresent(times, rows[1..]);
    }
  }

  /** Loading the same batch through `time_table_insert` a second time leaves the table as the
      first load left it. */
  lemma InsertTimesIdempotent(times: map<int, TimeRow>, rows: seq<TimeRow>)
    ensures InsertTimes(InsertTimes(times, rows), rows) == InsertTimes(times, rows)
  {
    InsertTimesPresent(InsertTimes(times, rows), rows);
  }

  /** The songplays table: rows under their `songplay_id`, and the next value of its serial
      sequence. */
  datatype SongplayTable = SongplayTable(rows: map<nat, SongplayRow>, nextId: nat)

  /** Every id handed out so far is below the sequence's next value, which starts at 1. */
  ghost predicate SerialValid(t: SongplayTable)
  {
    t.nextId >= 1 && forall k :: k in t.rows ==> 1 <= k < t.nextId
  }

  /** A freshly created songplays table. */
  function EmptySongplays(): (t: SongplayTable)
    ensures SerialValid(t) && t.rows == map[] && t.nextId == 1
  {
    SongplayTable(map[], 1)
  }

  /** `songplay_table_insert`: no conflict clause, so the row is always added, under a new id. */
  function InsertSongplay(t: SongplayTable, row: SongplayRow): (r: SongplayTable)
    requires SerialValid(t)
    ensures SerialValid(r)
    ensures t.nextId !in t.rows && r.rows.Keys == t.rows.Keys + {t.nextId}
    ensures r.nextId == t.nextId + 1
    ensures r.rows[t.nextId] == row
    ensures forall k :: k in t.rows ==> r.rows[k] == t.rows[k]
  {
    var r := SongplayTable(t.rows[t.nextId := row], t.nextId + 1);
    assert r.rows.Keys == t.rows.Keys + {t.nextId};
    r
  }

  /** Songplay rows inserted one after another. */
  function InsertSongplays(t: SongplayTable, rows: seq<SongplayRow>): (r: SongplayTable)
    requires SerialValid(t)
    ensures SerialValid(r)
    ensures r.nextId == t.nextId + |rows|
    ensures forall k :: k in t.rows ==> k in r.rows && r.rows[k] == t.rows[k]
    decreases |rows|
  {
    if rows == [] then t else InsertSongplays(InsertSongplay(t, rows[0]), rows[1..])
  }

  /** Each songplays insert adds exactly one row. */
  lemma InsertSongplayGrows(t: SongplayTable, row: SongplayRow)
    requires SerialValid(t)
    ensures |InsertSongplay(t, row).rows| == |t.rows| + 1
  {
    var r := InsertSongplay(t, row);
    assert r.rows.Keys == t.rows.Keys + {t.nextId};
    assert |r.rows.Keys| == |t.rows.Keys| + 1;
  }

  /** Inserting a batch adds exactly as many rows as the batch holds. */
  lemma {:induction false} InsertSongplaysCount(t: SongplayTable, rows: seq<SongplayRow>)
    requires SerialValid(t)
    ensures |InsertSongplays(t, rows).rows| == |t.rows| + |rows|
    decreases |rows|
  {
    if rows != [] {
      InsertSongplayGrows(t, rows[0]);
      InsertSongplaysCount(InsertSongplay(t, rows[0]), rows[1..]);
    }
  }

  /** The `i`-th row of a batch is stored under the `i`-th id the serial sequence hands out:
      the ids `t.nextId` up to `t.nextId + |rows| - 1` hold the batch, in order. */
  lemma {:induction false} InsertSongplaysContents(t: SongplayTable, rows: seq<SongplayRow>)
    requires SerialValid(t)
    ensures var r := InsertSongplays(t, rows);
      forall k :: t.nextId <= k < t.nextId + |rows| ==> k in r.rows && r.rows[k] == rows[k - t.nextId]
  {
    var r := InsertSongplays(t, rows);
    forall k | t.nextId <= k < t.nextId + |rows|
      ensures k in r.rows && r.rows[k] == rows[k - t.nextId]
    {
      InsertSongplaysAt(t, rows, k - t.nextId);
    }
  }

  lemma {:induction false} InsertSongplaysAt(t: SongplayTable, rows: seq<SongplayRow>, i: nat)
    requires SerialValid(t) && i < |rows|
    ensures t.nextId + i in InsertSongplays(t, rows).rows
    ensures InsertSongplays(t, rows).rows[t.nextId + i] == rows[i]
    decreases |rows|
  {
    var next := InsertSongplay(t, rows[0]);
    if i > 0 {
      assert rows[1..][i - 1] == rows[i];
      InsertSongplaysAt(next, rows[1..], i - 1);
    }
  }

  /** The `WHERE` clause of `song_select`. */
  predicate SongMatches(row: SongRow, songId: string, artistId: string, duration: real)
  {
    row.songId == songId && row.artistId == artistId && row.duration == duration
  }

  /** `song_select`: the keys of the songs rows that satisfy the `WHERE` clause. */
  function SongSelect(songs: map<string, SongRow>, songId: string, artistId: string, duration: real): (matches: set<string>)
    ensures forall k :: k in matches <==> k in songs && SongMatches(songs[k], songId, artistId, duration)
  {
    set k | k in songs && SongMatches(songs[k], songId, artistId, duration)
  }

  /** Because `song_id` is the primary key, `song_select` matches at most one row. */
  lemma SongSelectAtMostOne(songs: map<string, SongRow>, songId: string, artistId: string, duration: real)
    requires SongsKeyed(songs)
    ensures SongSelect(songs, songId, artistId, duration) <= {songId}
    ensures |SongSelect(songs, songId, artistId, duration)| <= 1
  {
    var m := SongSelect(songs, songId, artistId, duration);
    assert m <= {songId};
    if songId in m {
      assert m == {songId};
    } else {
      assert m == {};
    }
  }

  /** `cur.fetchone()` after `song_select`: the selected `(song_id, artist_id)`, or nothing.
      Computed from the key alone, it returns what any matching row holds. */
  function FetchOneSong(songs: map<string, SongRow>, songId: string, artistId: string, duration: real): (r: Option<(string, string)>)
    requires SongsKeyed(songs)
    ensures r.None? <==> SongSelect(songs, songId, artistId, duration) == {}
    ensures r.Some? ==> (SongSelect(songs, songId, artistId, duration) == {songId} &&
                         r.value == (songs[songId].songId, songs[songId].artistId))
  {
    SongSelectAtMostOne(songs, songId, artistId, duration);
    if songId in songs && SongMatches(songs[songId], songId, artistId, duration) then
      assert songId in SongSelect(songs, songId, artistId, duration);
      Some((songId, artistId))
    else
      assert SongSelect(songs, songId, artistId, duration) == {};
      None
  }

  /** The five tables, as `create_table_queries` and `drop_table_queries` list them. */
  datatype TableName = Songplays | Users | Songs | Artists | Times

  datatype Query = CreateTable(table: TableName) | DropTable(table: TableName)

  const CreateTableQueries: seq<Query> :=
    [CreateTable(Songplays), CreateTable(Users), CreateTable(Songs), CreateTable(Artists), CreateTable(Times)]

  const DropTableQueries: seq<Query> :=
    [DropTable(Songplays), DropTable(Users), DropTable(Songs), DropTable(Artists), DropTable(Times)]

  /** The tables a list of statements touches, in order. */
  function TablesOf(queries: seq<Query>): (tables: seq<TableName>)
    ensures |tables| == |queries|
    ensures forall i :: 0 <= i < |queries| ==> tables[i] == queries[i].table
  {
    seq(|queries|, i requires 0 <= i < |queries| => queries[i].table)
  }

  /** Both lists name every table exactly once, in the same order; the list only creates, the
      other only drops. */
  lemma QueryListsAgree()
    ensures TablesOf(CreateTableQueries) == TablesOf(DropTableQueries)
    ensures forall t: TableName :: t in TablesOf(CreateTableQueries)
    ensures forall i, j :: 0 <= i < j < 5 ==> TablesOf(CreateTableQueries)[i] != TablesOf(CreateTableQueries)[j]
    ensures forall q :: q in CreateTableQueries ==> q.CreateTable?
    ensures forall q :: q in DropTableQueries ==> q.DropTable?
  {
    var c := TablesOf(CreateTableQueries);
    assert c == [Songplays, Users, Songs, Artists, Times];
    assert TablesOf(DropTableQueries) == [Songplays, Users, Songs, Artists, Times];
    forall t: TableName ensures t in c {
      match t
      case Songplays => assert c[0] == t;
      case Users => assert c[1] == t;
      case Songs => assert c[2] == t;
      case Artists => assert c[3] == t;
      case Times => assert c[4] == t;
    }
  }
}

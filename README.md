# Log-file transform of the song-play ETL, in Dafny

This project models the in-memory core of a small ETL job. The job reads JSON log files of a
music-streaming service and bulk-loads them into a PostgreSQL star schema. The schema has a fact
table `songplays` and dimension tables `users`, `times`, `songs` and `artists`.

The model covers:

- `clean_csv_value`: how one field is written into a `COPY` text stream. `None` becomes `\N`;
  any other value becomes its text with newlines escaped (module `CsvValue`).
- `StringIteratorIO`: the file-like reader over an iterator of string chunks that `copy_from`
  consumes. It is a class with the chunk sequence, a cursor, the `_buff` field, and the
  `_read1` and `read` loops (module `StringIterator`).
- The row transforms of `process_log_file` (module `LogTransform`):
  - keep only the `NextSong` rows;
  - the time dimension: distinct timestamps, the last occurrence kept;
  - the user dimension: empty strings become null, rows without a user id are dropped, and the
    last row per user id is kept;
  - one songplay line per NextSong row, built by the accumulating loop;
  - the `|`-separated, newline-terminated lines handed to `copy_from`.
- pandas `drop_duplicates(keep="last")`, with an independent reference definition
  (module `DropDuplicates`).
- The tables of `sql_queries.py` as key-to-row maps (module `SqlQueries`):
  - `ON CONFLICT DO NOTHING` is insert-if-absent;
  - the songplays insert appends under a serial key;
  - `song_select` with `fetchone`;
  - the create and drop query lists.

The database connection, the catalog lookup, the calendar derivation and the rendering of
timestamps are not modelled as code. The lookup, the calendar derivation and the timestamp
rendering become function parameters of the transform.

Three points where the code does something other than one might expect. The model follows
the code in each:

- Time deduplication keeps the **last** occurrence of each timestamp (`keep="last"`), not the
  first.
- The only user insert in `sql_queries.py` is `ON CONFLICT DO NOTHING`, so a stored user's
  `level` is never overwritten by it. The merge statements that etl.py runs for users and times
  (`temp_to_user`, `temp_to_time`) are defined in neither etl.py nor sql_queries.py.
- Malformed timestamps or user ids are not skipped and counted: the code has no such policy.

## Model

| member | source | states |
|---|---|---|
| CsvValue.CleanCsvValue | etl.py:14-17 | The output never contains a newline. `None` is written `\N`. Text grows by exactly one character per newline, and it contains a pipe exactly when the value's text does. |
| CsvValue.EscapeNewlines | etl.py:17 | Removes every newline. The length grows by the number of newlines. Text without newlines is unchanged. Every other character is present exactly when it was before. |
| CsvValue.UnescapeEscape | etl.py:17 | For text without backslashes, reading back backslash-`n` as a newline inverts the escaping. |
| CsvValue.CleanCsvValueRecoverable | etl.py:14-17 | A non-null value without backslashes can be recovered from its encoding. |
| CsvValue.NullCollision | etl.py:15-17 | The text `\N` is encoded exactly like `None`, because backslashes are not escaped. |
| StringIterator.SliceTo | etl.py:33 | `buff[:n]` is a prefix of the buffer. Its length is the whole buffer for no bound, `min(n, len)` for a non-negative bound, and `len + n` clamped at 0 for a negative bound. |
| StringIterator.Refill | etl.py:28-32 | Taking chunks until the buffer is non-empty loses no text. The buffer stays empty only when the iterator is exhausted. A non-empty buffer is left as it is. |
| StringIterator.StringIteratorIO.constructor | etl.py:20-22 | A new reader has read nothing, has an empty buffer, and its unread text is the concatenation of all chunks. |
| StringIterator.StringIteratorIO.Readable | etl.py:24-25 | The reader is always readable. |
| StringIterator.StringIteratorIO.FillBuffer | etl.py:28-32 | The refill loop reaches exactly the state `Refill` describes and leaves the unread text unchanged. |
| StringIterator.StringIteratorIO.Read1 | etl.py:27-35 | Returns `buff[:n]` of the refilled buffer and leaves the rest in `_buff`. The returned text followed by the new unread text equals the old unread text. With no bound or a positive bound it returns `''` only when the buffer is empty and the iterator is exhausted. |
| StringIterator.StringIteratorIO.TakeFront | etl.py:33-35 | Returns `buff[:n]`, keeps the rest of the buffer, and moves the returned text from the unread text to what has been delivered. |
| StringIterator.StringIteratorIO.Read | etl.py:37-52 | Returns exactly `n` characters when at least `n` remain, otherwise all that remain. With no bound or a negative bound it drains the stream. The result is removed from the front of the unread text and appended to what has been delivered. |
| StringIterator.StringIteratorIO.ReadAll | etl.py:39-44 | Calling `_read1()` until it returns `''` collects all the unread text and leaves nothing unread. |
| StringIterator.StringIteratorIO.ReadUpTo | etl.py:45-52 | Returns `min(n, remaining)` characters from the front of the unread text. |
| StringIterator.ReadResult | etl.py:37-52 | The result of a read is a prefix of the unread text. It is the whole text for no bound or a negative bound, and has length `n` when `n` characters remain. |
| StringIterator.ReadsPartition | etl.py:37-52 | For any series of reads, the concatenated results are a prefix of the stream. Nothing is dropped, repeated or reordered. |
| StringIterator.ReadsAfterDrain | etl.py:39-44 | After a read with no bound or a negative bound, every later read returns `''`. |
| Text.SplitJoin | etl.py:103-111 | Pipe-joining fields that do not contain a pipe can be undone by splitting on the pipe. |
| Text.DigitsRoundTrip | etl.py:105-110 | The decimal text that `str()` gives for a calendar integer reads back as that integer. |
| Text.Decimal | etl.py:105-110 | The text of an integer holds only digits and `-`, so it never contains a pipe or a newline. |
| Text.SplitLines | etl.py:186 | Iterating over an in-memory text file yields chunks whose concatenation is the text. |
| Text.SplitLinesConcat | etl.py:186 | Iterating over a text made of complete lines yields exactly those lines. |
| Text.Join | etl.py:103 | `'\|'.join(parts)` of at least one part is as long as the parts together plus one separator between each pair. |
| Seqs.Filter | etl.py:93 | A boolean-mask selection keeps exactly the elements satisfying the mask, in their order, and no others. Each kept value appears as often as in the input. |
| Seqs.FilterAppend | etl.py:93 | Filtering distributes over concatenation. |
| DropDuplicates.DropDuplicatesLast | etl.py:132 | The survivors come from the input, are no more numerous, and have pairwise distinct keys. |
| DropDuplicates.DropDuplicatesKeys | etl.py:132 | The survivors carry exactly the keys of the input. |
| DropDuplicates.DropDuplicatesKeepsLast | etl.py:132 | The last occurrence of every key survives. |
| DropDuplicates.DropDuplicatesLastWins | etl.py:132 | The survivor with a given key is that key's last occurrence. |
| DropDuplicates.DropDuplicatesOrder | etl.py:132 | The survivors keep the input's relative order. |
| DropDuplicates.DropDuplicatesSpec | etl.py:132 | The result equals the position-by-position reference: index `i` is kept exactly when no later element shares its key. |
| LogTransform.NextSongRows | etl.py:93 | The kept rows are exactly the NextSong rows, in file order. |
| LogTransform.NonNextSongIgnored | etl.py:93 | Inserting a non-NextSong row anywhere changes neither the time lines, nor the user lines, nor the songplay lines. |
| LogTransform.Line | etl.py:103-111 | A serialised row is one complete line whose body is the pipe-join of the encoded fields. |
| LogTransform.LineSplit | etl.py:103-111 | A line whose fields contain no pipe splits back into exactly the encoded fields. |
| LogTransform.TimeStamps | etl.py:96 | The kept timestamps are pairwise distinct. |
| LogTransform.TimeStampsCover | etl.py:93-96 | A timestamp is kept exactly when some NextSong row carries it. |
| LogTransform.TimeStampsAreLastOccurrences | etl.py:96 | The kept timestamps are the last occurrences among the NextSong rows, in file order. |
| LogTransform.TimeLines | etl.py:100-113 | There is one time line per kept timestamp, made from the calendar fields of that timestamp. |
| LogTransform.TimeFields | etl.py:103-110 | A time row has seven fields: the instant's text first, then six integers written as text that holds neither a pipe nor a newline. |
| LogTransform.TimeLineFields | etl.py:102-111 | A time line splits into exactly seven fields: the encoded instant, then the decimal text of hour, day, week, month, year and weekday. |
| LogTransform.TimeCells | etl.py:103-110 | The six integer fields of a time row pass through `clean_csv_value` unchanged. |
| LogTransform.NullIfEmpty | etl.py:130 | An empty string becomes null, and every other value is unchanged. |
| LogTransform.UserOf | etl.py:129-130 | The five user columns of an event: each column that is an empty string becomes null, and every other column is carried over unchanged. |
| LogTransform.UserCandidates | etl.py:129-131 | The candidate user rows, one per NextSong row with a user id, all carry a non-empty id. |
| LogTransform.UserRows | etl.py:129-132 | User rows have pairwise distinct user ids. |
| LogTransform.UserRowsNormalised | etl.py:129-131 | Every user row has a non-empty id, and none of its five fields is an empty string. |
| LogTransform.UserRowsCover | etl.py:131-132 | Every non-empty user id of a NextSong row has a user row. |
| LogTransform.UserRowsLastWins | etl.py:132 | The row kept for a user is the one from that user's last NextSong row, `level` included. |
| LogTransform.UserRowsAreLastOccurrences | etl.py:132 | The user rows are the last rows per user id, in file order. |
| LogTransform.UserFields | etl.py:140-146 | A user row has five fields. |
| LogTransform.UserLineFields | etl.py:139-147 | A user line whose fields contain no pipe splits back into exactly its five encoded fields. |
| LogTransform.UserLines | etl.py:137-148 | There is one user line per user row, with its five fields. |
| LogTransform.SongplayStart | etl.py:176 | The songplay's instant, in nanoseconds, is the event's millisecond timestamp scaled exactly. |
| LogTransform.SongplayStartHasTimeRow | etl.py:176 | Every songplay's start instant has its row among the file's kept timestamps. |
| LogTransform.SongplayStartAsWritten | etl.py:176 | As written, the instant is a millionth of the intended one: the millisecond count is read as nanoseconds. |
| LogTransform.SongplayStartAsWrittenWrong | etl.py:176 | As written, the sample event's start instant falls 1541 seconds after the epoch and has no time row. |
| LogTransform.SampleLogFile | etl.py:93-184 | A one-event file produces one time row, the user row `8, Kaylee, free`, and a songplay with null song and artist ids when the catalog has no match. |
| LogTransform.SongplayFields | etl.py:175-184 | A songplay row has eight fields. |
| LogTransform.SongplayFieldsMeaning | etl.py:163-184 | Song and artist ids are both null exactly when the lookup misses. An empty user id is written `\N`. Level, session, location and agent are carried over. |
| LogTransform.SongplayLinesOf | etl.py:160-184 | There is exactly one line per row, in row order. |
| LogTransform.SongplayLines | etl.py:160-184 | The number of songplay lines equals the number of NextSong rows. |
| LogTransform.BuildSongplayText | etl.py:160-184 | The accumulating loop builds exactly the concatenation of the songplay lines. |
| LogTransform.SongplayLineFields | etl.py:175-184 | A songplay line whose fields contain no pipe has eight fields. |
| LogTransform.ProcessLogFile | etl.py:89-188 | The three streams handed to `copy_from` are fresh, valid readers over exactly the time lines, the user lines and the songplay lines. |
| SqlQueries.InsertIfAbsent | sql_queries.py:74-100 | Adds the key. Existing rows are never overwritten. The new row is stored only when its key was absent. |
| SqlQueries.InsertSong | sql_queries.py:81-86 | A known `song_id` leaves the table unchanged. Otherwise exactly that row is added and no other key changes. Keying by `song_id` is preserved. |
| SqlQueries.InsertArtist | sql_queries.py:88-93 | The same rule as for songs, keyed on `artist_id`. |
| SqlQueries.InsertUser | sql_queries.py:74-79 | A known user keeps the stored row, `level` included. Otherwise the row is added. |
| SqlQueries.InsertTime | sql_queries.py:95-100 | Insert-if-absent keyed on `start_time`. |
| SqlQueries.InsertTimes | sql_queries.py:95-100 | After a batch, every row's key is present, and earlier rows are untouched. |
| SqlQueries.InsertTimesKeys | sql_queries.py:95-100 | After a batch, the keys are exactly the old keys and the batch's `start_time` values. |
| SqlQueries.InsertTimesFirstWins | sql_queries.py:95-100 | A key new to the table holds the first row of the batch that carries it. |
| SqlQueries.InsertTimesIdempotent | sql_queries.py:95-100 | Loading the same batch twice equals loading it once. |
| SqlQueries.EmptySongplays | sql_queries.py:11-23 | A new songplays table is empty, with its serial sequence at 1. |
| SqlQueries.InsertSongplay | sql_queries.py:69-72 | Always adds the row, under a fresh serial id, and advances the sequence by one. Existing rows are unchanged. |
| SqlQueries.InsertSongplayGrows | sql_queries.py:69-72 | The row count grows by exactly one. |
| SqlQueries.InsertSongplays | sql_queries.py:69-72 | Inserting `n` rows advances the sequence by `n` and keeps every existing row. |
| SqlQueries.InsertSongplaysCount | sql_queries.py:69-72 | Inserting `n` rows grows the table by exactly `n`. |
| SqlQueries.InsertSongplaysContents | sql_queries.py:69-72 | The batch's rows are stored, in order, under the next `n` serial ids. |
| SqlQueries.SongSelect | sql_queries.py:104-107 | Selects exactly the rows whose `song_id`, `artist_id` and `duration` equal the parameters. |
| SqlQueries.SongSelectAtMostOne | sql_queries.py:104-107 | Because `song_id` is the primary key, at most one row matches. |
| SqlQueries.FetchOneSong | etl.py:164-170 | `fetchone` returns nothing exactly when no row matches, and otherwise the one matching row's ids. |
| SqlQueries.TablesOf | sql_queries.py:111-112 | Lists, in order, the table each statement touches. |
| SqlQueries.QueryListsAgree | sql_queries.py:111-112 | The create and drop lists name all five tables once each, in the same order. |

## Left out

- `process_data` and `main`: directory walking, the database connection, commits and progress
  printing are I/O.
- `process_song_file`: its pandas extraction of one song and one artist row is not modelled. Its
  effect, two insert-if-absent operations, is `SqlQueries.InsertSong` and
  `SqlQueries.InsertArtist`.
- JSON parsing and the pandas plumbing (`read_json`, `to_json(orient='values')`, `iterrows`):
  the transform takes already-parsed rows. A field's Python value is represented by its `str()`
  text, or by null.
- Calendar derivation (`datetime.fromtimestamp(ts / 1000.0)`): it depends on the host's time zone
  and on float division, so it is a parameter. The rendering of a `pd.Timestamp` as text is a
  parameter too. Even with the corrected unit, songplays' naive UTC text and the time table's
  naive local-time text agree only on a host running in UTC.
- The staging SQL (`create_time_temp_table`, `temp_to_time`, `create_user_temp_table`,
  `temp_to_user`) is defined in neither etl.py nor sql_queries.py. The `cur.execute` calls
  that run it are not modelled.
- PostgreSQL's parsing of the `COPY` stream is not modelled. In particular, a field containing
  `|` or a backslash is not read back as written. The split lemmas hold only for fields without
  `|`.
- The catalog lookup is a parameter. etl.py passes the title and the artist name into a query
  that compares them against `song_id` and `artist_id`. The model does not claim that the lookup
  matches by title.
- Float equality: durations are exact reals. Python's NaN is not modelled.
- Commented-out code in etl.py is not modelled.
- SqlQueries.UserRow: the `users` key `user_id` is an `int` in the schema, but the model keys
  users by the id's text. The two agree only for canonical decimal text: PostgreSQL treats
  `"8"` and `"08"` as the same user, while the model treats them as two keys.
- LogTransform.SongplayFields: field 0 is stamped with `SongplayStart`, which reads `ts` as
  milliseconds (the corrected reading of the finding below). etl.py:176 reads it as
  nanoseconds (`SongplayStartAsWritten`). So `SongplayLines`, `BuildSongplayText` and the
  songplay stream of `ProcessLogFile` describe the corrected program in that one field. Every
  other field is as written.
- LogTransform.ProcessLogFile: its songplay stream has the corrected start instant described in
  the previous line.
- The database's concurrency and transaction semantics are not modelled.

## Findings

| source | as written | input that shows it | evidently intended | confidence | as-written member | corrected member |
|---|---|---|---|---|---|---|
| etl.py:176 | `pd.Timestamp(ts)` reads the integer millisecond timestamp as nanoseconds | the sample event with `ts = 1541121934796` (2018-11-01) gets start time 1970-01-01 00:25:41.121934796, which has no row in `times` | `pd.Timestamp(ts, unit='ms')`, the instant the time row is derived from | high; not executed | LogTransform.SongplayStartAsWrittenWrong | LogTransform.SongplayStart |

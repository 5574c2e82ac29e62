# WhatsApp appointment bot: sessions, keywords, status page and sheet scheduler

The bot runs one WhatsApp session per configured business. It keeps the state of every
session in module-level maps: a start lock, a status text, the pending QR code and the
current socket. A `connection.update` handler on each socket updates these maps when a QR
code arrives, when the connection opens and when it closes. An Express status page shows a
coloured class for each session's status text. Incoming messages are matched against
keyword lists after lower-casing and stripping accents. The availability scheduler reads a
Google Sheet of rows (day, time, client) and offers up to three days with up to 4, 4 and 3
free times each. Those times are cleaned, sorted by a 12-hour rule and spread evenly.

The Dafny modules follow the two source files:

- `JsText`: the JavaScript built-ins the core relies on. These are `String.prototype.trim`,
  `parseInt(_, 10)`, the decimal rendering of an integer and `String.prototype.includes`.
- `TimeLabels`: `toDayMinutes12h`, and the `sort` of a day's times as a stable insertion sort.
- `EvenSampling`: `pickEvenly`, as a method with both of its loops. It is proved against
  a closed-form function.
- `Grouping`: the `rows.forEach` pass of `getAvailableSlots`, as a method with a loop. It
  builds `orderedDaysData` and `dayMap` and is proved against `GroupByDay(FreeSlots(rows))`.
- `Scheduler`: the cleaning loop, the 4-4-3 selection loop and `getAvailableSlots`, with the
  sheet read given as an input.
- `Keywords`: `normalizeText`, `containsInfoKeyword` and `containsSchedulerKeyword`.
- `StatusPage`: the status texts and the `status-ok` / `status-qr` / `status-error` /
  `status-init` chain of the `/` page.
- `Sessions`: the `SessionRegistry` class. It holds the session maps and models
  `startSession`'s guard, one pass of its life loop, and the `connection.update` handler.
- `Options`: the `Option` datatype.

## Model

| member | source | states |
|---|---|---|
| JsText.Trim | googleSheetScheduler.js:84-86 | The result has no JavaScript white space at either end. An already trimmed text is returned unchanged. |
| JsText.TrimStartDropsSpace | googleSheetScheduler.js:23 | Trimming the start drops exactly a prefix made of white space. |
| JsText.ParseIntOfDigits | googleSheetScheduler.js:24-25 | `parseInt` of a digit string is its decimal value. |
| JsText.ParseIntNoDigits | googleSheetScheduler.js:24-27 | `parseInt` of a text without digits, the empty text included, is NaN. |
| JsText.ParseIntOfIntToString | bot.js:130 | Reading back the decimal rendering of any integer gives that integer. |
| JsText.ScanIncludesIff | bot.js:60 | The left-to-right scan of `includes` agrees with "some position holds the substring". |
| JsText.IncludesFramed | bot.js:212-214 | In prefix + reason + suffix, where neither frame part holds the word's first letter and the suffix starts with a letter foreign to the word, the word is found exactly when the reason holds it. |
| TimeLabels.ToDayMinutes12h | googleSheetScheduler.js:21-22 | The key is +Infinity exactly for the empty label. |
| TimeLabels.ToDayMinutesOfHour | googleSheetScheduler.js:23-30 | The label "H" is worth `Hour24(H) * 60` minutes, with the minute field defaulting to "0". |
| TimeLabels.ToDayMinutesOfHourMinute | googleSheetScheduler.js:23-30 | The label "H:MM" is worth `Hour24(H) * 60 + MM` minutes. |
| TimeLabels.ClockLabelBlocks | googleSheetScheduler.js:28-30 | Hours 9..12 fall in the morning block and hours 1..8 in the afternoon block from 13:00 on. |
| TimeLabels.MorningBeforeAfternoon | googleSheetScheduler.js:123-124 | In a list sorted by the key, every morning time comes before every afternoon time. |
| TimeLabels.SortBy | googleSheetScheduler.js:124 | The sort result is ordered by the comparator's key. |
| TimeLabels.SortByTimeSpec | googleSheetScheduler.js:124 | Sorting by `toDayMinutes12h` orders the times, is a permutation, and keeps times with equal keys in their original order (a stable sort). |
| EvenSampling.RoundedIndex | googleSheetScheduler.js:38-43 | The index is `Math.round(j * (N-1)/(M-1))`, stated as the half-open interval around the exact quotient. |
| EvenSampling.RoundedIndexIncreasing | googleSheetScheduler.js:38-43 | With `2 <= M < N`, the rounded indices strictly increase, so no index is met twice. |
| EvenSampling.RoundedIndexEnds | googleSheetScheduler.js:33-43 | The first pick is index 0 and the last is index N-1. |
| EvenSampling.EvenIndex | googleSheetScheduler.js:43-45 | Each rounded index is already in range, so the two clamps never act. |
| EvenSampling.FirstPassPicksEvenly | googleSheetScheduler.js:42-50 | The first loop adds one element per turn, each taken at its rounded index. |
| EvenSampling.FillFromComplete | googleSheetScheduler.js:52-57 | With M picks made, the fill loop adds nothing. |
| EvenSampling.EvenSampleSpec | googleSheetScheduler.js:33-50 | With `2 <= M < N` the sample has exactly M elements, taken at strictly increasing positions, starting with the first element and ending with the last. |
| EvenSampling.PickEvenly | googleSheetScheduler.js:34-59 | Both loops together return `EvenSample(arr, M)`. That is a copy when `M >= N`. |
| Grouping.Cell | googleSheetScheduler.js:84-86 | A cell read as `(row?.[i] \|\| '').toString().trim()` is trimmed. |
| Grouping.CurrentDay | googleSheetScheduler.js:88-89 | A current day, when there is one, is a non-empty, trimmed label. |
| Grouping.CurrentDaySome | googleSheetScheduler.js:88 | The current day is `d` exactly when some row carries the day label `d` and no later row carries one. |
| Grouping.CurrentDayNone | googleSheetScheduler.js:81-89 | There is no current day exactly when no row so far carries a day label, so such rows contribute nothing. |
| Grouping.FreeSlotsMembers | googleSheetScheduler.js:88-93 | A (day, time) pair is a free slot exactly when some row has that current day, a non-empty time and an empty status. An occupied row is never one. |
| Grouping.FindDay | googleSheetScheduler.js:94 | The `dayMap` lookup finds the bucket of that day, or reports that no bucket has it. |
| Grouping.GroupByDaySpec | googleSheetScheduler.js:94-99 | There is one bucket per day that has a free slot, with distinct days. Each bucket holds exactly its day's free times, in row order. A day seen again later appends to its own bucket. |
| Grouping.GroupByDayTimes | googleSheetScheduler.js:94-99 | A time is in a bucket exactly when some slot of that day has it, and no bucket is empty. |
| Grouping.GroupByDayOrder | googleSheetScheduler.js:97 | Buckets are ordered by their day's first free slot. |
| Grouping.AddToBucket | googleSheetScheduler.js:94-99 | One free row adds its slot to the buckets, and `dayMap` keeps indexing every bucket by its day. |
| Grouping.ScanRow | googleSheetScheduler.js:84-100 | One turn of the `forEach` keeps `currentDay`, `orderedDaysData` and `dayMap` in step with the rows read so far. |
| Grouping.GroupRows | googleSheetScheduler.js:79-101 | The whole `forEach` yields `GroupByDay(FreeSlots(rows))`. |
| Scheduler.CleanBy | googleSheetScheduler.js:114-120 | Cleaning never lengthens a day's list. |
| Scheduler.CleanBySpec | googleSheetScheduler.js:114-120 | The cleaned list has no repeats and holds exactly the non-empty trimmed times of the day. |
| Scheduler.CleanByOrder | googleSheetScheduler.js:116-119 | Cleaning keeps the order in which the times first appear. |
| Scheduler.Clean | googleSheetScheduler.js:114-120 | The loop with its `seen` set computes `CleanBy(times, Trim)`. |
| Scheduler.NoDuplicatesCount | googleSheetScheduler.js:119 | A list has no repeats exactly when every element occurs once in its multiset. |
| Scheduler.NoDuplicatesPermutation | googleSheetScheduler.js:124 | A permutation of a list without repeats has no repeats, so sorting keeps the list duplicate-free. |
| Scheduler.SampleOfSorted | googleSheetScheduler.js:124-127 | An even sample of a sorted, duplicate-free list is sorted, has no repeats, is drawn from the list and has `min(M, N)` elements. |
| Scheduler.CleanOfTrimmed | googleSheetScheduler.js:117-119 | For trimmed, non-empty times, cleaning only drops repeats. |
| Scheduler.OfferedSpec | googleSheetScheduler.js:124-127 | A day offers `min(target, distinct times)` times, sorted and without repeats, all drawn from the day. With no more than the target, it offers all of them. |
| Scheduler.OfferedEnds | googleSheetScheduler.js:124-127 | The first time offered is the day's earliest and the last is its latest. |
| Scheduler.SampleEnds | googleSheetScheduler.js:124-127 | The ends of an even sample of a sorted list bound every element of the list. |
| Scheduler.Entries | googleSheetScheduler.js:109-132 | After `count` passes the result has at most `count` entries. |
| Scheduler.Schedule | googleSheetScheduler.js:106-109 | At most three days are offered. |
| Scheduler.SelectDay | googleSheetScheduler.js:110-131 | One pass of the selection loop adds `DayEntry(bucket, target)`. |
| Scheduler.SelectDays | googleSheetScheduler.js:106-132 | The selection loop yields the entries of the first `min(3, days)` buckets, with targets 4, 4, 3. |
| Scheduler.GetAvailableSlots | googleSheetScheduler.js:68-139 | A failed read becomes `{ error: 'Error Interno del Scheduler', details }`, where `details` is the error's message, or the error as a string when the message is missing or empty. Otherwise the result is `Schedule(rows)`, and missing or empty rows give `[]`. |
| Scheduler.TargetAtLeastTwo | googleSheetScheduler.js:126-127 | Every target is at least 2, so `pickEvenly` never divides by zero. |
| Scheduler.BucketTimes | googleSheetScheduler.js:83-99 | A bucket's times are exactly its day's free times. They are non-empty and trimmed, and no bucket is empty. |
| Scheduler.DayEntryOfFreeTimes | googleSheetScheduler.js:111-131 | A bucket of free times is never skipped. |
| Scheduler.EntriesOfFreeTimes | googleSheetScheduler.js:109-132 | For buckets of free times, every pass adds exactly the day's offered times. |
| Scheduler.ScheduleShape | googleSheetScheduler.js:103-132 | One entry for each of the first three days with a free slot, in bucket order, each with what that day offers for its target. |
| Scheduler.ScheduleEmpty | googleSheetScheduler.js:76-103 | Nothing is offered exactly when no row is a free slot. |
| Scheduler.ScheduleDays | googleSheetScheduler.js:94-109 | The days offered are distinct, all have free slots, and come in order of their first free slot. A day with a free slot is left out only after three earlier days. |
| Scheduler.ScheduleEntry | googleSheetScheduler.js:109-131 | Entry `i` is what bucket `i` offers, and that bucket holds free times. |
| Scheduler.OfferedFacts | googleSheetScheduler.js:124-127 | The size, order, origin and ends of what a day of free times offers. |
| Scheduler.ScheduleTimesSorted | googleSheetScheduler.js:124-131 | A day offers between 1 and its target of times, sorted by time of day and without repeats. |
| Scheduler.ScheduleTimesFree | googleSheetScheduler.js:91-127 | Every offered time is a free time of that day. When fewer than the target are offered, every free time of the day is. |
| Scheduler.ScheduleTimesEnds | googleSheetScheduler.js:124-127 | A day's offered times run from its earliest free time to its latest. |
| Scheduler.ScheduleCount | googleSheetScheduler.js:113-127 | A day offers `min(target, distinct free times)` times. The cleaned list is exactly the distinct free times. |
| Keywords.StripMarks | bot.js:55 | No combining mark (U+0300..U+036F) is left. |
| Keywords.NormalizeAppend | bot.js:55 | Over the modelled ASCII and Latin-1 range, normalisation works character by character. |
| Keywords.NormalizeIdempotent | bot.js:53-55 | Normalising twice is the same as normalising once. |
| Keywords.ContainsKeywordIff | bot.js:58-66 | A message matches exactly when, with both normalised, it includes one of the keywords. |
| Keywords.FalsyMessageMatchesNothing | bot.js:53-66 | A missing or empty message normalises to "" and matches no keyword, because every keyword normalises to a non-empty text. |
| Keywords.KeywordsNonEmpty | bot.js:50-51 | Every keyword of both lists normalises to a non-empty text. |
| Keywords.WordInMessage | bot.js:58-66 | A message holding a word whose normal form is a keyword's normal form matches. |
| Keywords.AccentedKeyword | bot.js:50-55 | "información" has the normal form of "informacion". |
| Keywords.CapitalInfo | bot.js:55-61 | Any message holding "INFO" asks for information. |
| StatusPage.QrWhen | bot.js:212-213 | A text with "Escanea" or "QR" and without "Conectado" gets `status-qr`. |
| StatusPage.ConnectedClass | bot.js:212 | The connected status gets `status-ok`. |
| StatusPage.ScanClass | bot.js:213 | The scan status gets `status-qr`. |
| StatusPage.LoggedOutClass | bot.js:213-214 | The logged-out status says "QR", so it gets `status-qr` and not `status-error`. |
| StatusPage.InitiatingClass | bot.js:210-214 | The initiating status gets `status-init`. |
| StatusPage.NotStartedClass | bot.js:210-211 | A session without a status shows "No Iniciado Aún" with `status-init`. |
| StatusPage.NotStartedIsInit | bot.js:211-214 | A text with none of the words of the chain gets `status-init`. |
| StatusPage.PendingClass | bot.js:291-292 | The pending status `main` writes gets `status-init`. |
| StatusPage.CriticalClass | bot.js:298 | The status written after a start throws gets `status-error`. |
| JsText.NotIncludesSecondChar | bot.js:212 | A text in which the word's first letter is never followed by its second does not include the word. |
| StatusPage.DisconnectedMentionsDisconnected | bot.js:150 | Every transient-close status mentions "Desconectado". |
| StatusPage.DisconnectedClass | bot.js:212-214 | A transient-close status gets `status-error`, unless its reason itself holds "Conectado" (ok) or "Escanea"/"QR" (qr). |
| Sessions.StatusCode | bot.js:125-127 | A status code is present only for a `Boom` error. |
| Sessions.IsLoggedOut | bot.js:129 | A close is a log-out exactly when the code is 401. |
| Sessions.ReasonText | bot.js:130 | The reason text is never empty. |
| Sessions.ReasonTextCode | bot.js:130 | A named code gives its name. An unnamed non-zero code gives its decimal rendering, which reads back to the code. A missing code or 0 gives "desconocida". |
| Sessions.ReasonTextPlain | bot.js:130 | With plain names, the reason never holds "Conectado", "Escanea" or "QR". |
| Sessions.CloseOutcome | bot.js:124-153 | A log-out happens exactly for `Boom` code 401: wait 3000 ms, `status-qr`. Any other close waits 5000 ms and gets `status-error`. A non-`Boom` or missing error reads "desconocida". |
| Sessions.StatusWriteClass | bot.js:109-153 | An update writes a status exactly when it brings a QR code, opens or closes. The page then shows the class that event calls for. |
| Sessions.Put | bot.js:113-120 | A write sets one session's entry and leaves every other session's entry as it was. |
| Sessions.ConsistentOpen | bot.js:93-105 | A new socket for a locked session keeps the session maps consistent. |
| Sessions.ConsistentEnd | bot.js:135-136 | Ending a listening socket keeps the session maps consistent. |
| Sessions.SessionRegistry.constructor | bot.js:71-72 | Every map starts empty. |
| Sessions.SessionRegistry.OpenSocket | bot.js:83-106 | A pass of the life loop writes "Iniciando conexión... 🤔". It makes the auth folder present and installs a fresh socket with listeners as the session's current socket, on which the loop then waits. |
| Sessions.SessionRegistry.StartSession | bot.js:74-106 | A session already locked is skipped with nothing changed. Otherwise the lock is taken and the first socket opened. When `mkdirSync`, the version or auth-state load, or the socket creation throws, the lock stays taken and no socket is installed. The status and auth folder show how far the pass got. |
| Sessions.SessionRegistry.StartFromMain | bot.js:290-299 | A session without a status is first marked pending. A start that throws is caught and reported as "Error Crítico al Iniciar ❌", with its lock kept. A running start leaves the initiating status and waits on its socket. For each outcome, the sockets, the QR codes, the auth folders and the handle counter are as `StartSession` leaves them, and a skipped start changes only the pending status. |
| Sessions.FailedStartStaysLocked | bot.js:74-80 | After a start that throws while loading the client, the session holds its lock with no socket and the critical status, so any later start is skipped. |
| Sessions.SessionRegistry.ShowQrOrOpen | bot.js:112-122 | A QR code is stored with the scan status. Opening then clears the QR to null with the connected status, so an update with both ends cleared. |
| Sessions.SessionRegistry.CloseSocket | bot.js:124-153 | The socket loses its listeners and is ended. A log-out removes the auth folder when the removal succeeds. The close status is written and the wait returned. |
| Sessions.SessionRegistry.OnConnectionUpdate | bot.js:109-157 | The handler as written: status and QR entries follow the event, only a close yields a wait (3000 or 5000 ms), and locks and `sockets` never change. A socket without listeners changes nothing. |
| Sessions.SessionRegistry.OnConnectionUpdateReleasing | bot.js:155-170 | The handler as its comment intends: the same as above, and after a close the session lets go of the closed socket, so the life loop stops waiting on it. |
| Sessions.CloseLeavesSessionWaiting | bot.js:124-170 | After a start and a `Boom` 428 close, the socket is ended and deaf, yet the life loop still waits on it. With the library's name `connectionClosed` for 428, the status reads "🔴 Desconectado (connectionClosed). Reintentando...". |
| Sessions.CloseThenReconnect | bot.js:89-155 | With the releasing handler, the same close frees the loop. The next pass opens a different socket that listens, with the initiating status. |

## Left out

- The Google Sheets client and the credential loading are not part of this model. The read of the range is an input: the `values` of the range (possibly missing), or the error it raised, given by its `message` (possibly missing) and its conversion to a string.
- The floating-point `step` of `pickEvenly` is replaced by exact rational rounding. For the sizes of a day's list, the two agree.
- EvenSampling.PickEvenly: requires `M >= N` or `M >= 2`. With `M = 1` the source divides by zero and picks at `NaN` indices. With `M = 0` and a non-empty list, both loops run zero times and the source returns `[]`, which the model does not cover. No caller passes 0 or 1, since the targets are 4, 4 and 3.
- `toLowerCase` is modelled for ASCII and Latin-1 capitals only. `normalize("NFD")` decomposes only the Latin-1 accented letters. Other scripts pass through unchanged, and context-sensitive lower-casing (the final form of capital sigma) is not modelled, so `NormalizeAppend` holds only over the modelled range.
- JsText.ParseInt and TimeLabels.LabelMinutes: they compute with unbounded integers. `parseInt` returns a double, so an hour or minute field longer than about 16 digits rounds, and one of about 309 digits or more becomes `Infinity`, which the comparator then treats as equal to any other `Infinity`. Day-sheet labels are one or two digits, where the two agree.
- `parseInt` is modelled on leading white space, an optional sign and decimal digits. Its other leniencies (hexadecimal prefixes, which radix 10 excludes anyway) do not arise.
- The JavaScript `sort` is modelled as a stable insertion sort on the comparator's key, which gives the same order as any stable sort. `Infinity - Infinity` is treated as "equal".
- A day's bucket is created at its first FREE row, so buckets follow the order of each day's first free slot, not of its first label.
- The WhatsApp client library is not part of this model: `makeWASocket`, `fetchLatestBaileysVersion`, `useMultiFileAuthState`, `creds.update`, `removeAllListeners` and `end`. Sockets are numbered handles, and listening and ended sockets are sets.
- Sessions.ReasonText: `DisconnectReason`'s reverse table is an input map. The class of a transient close is proved for tables whose names avoid "Conectado", "Escanea" and "QR", as the library's names do. A `NaN` status code is not modelled.
- `mkdirSync` and `rmSync` are modelled as the `authPresent` set. Whether the removal succeeds is an input, and its failure only leaves the folder in place, as the `catch` does.
- The timers are modelled as the returned wait in milliseconds. Log lines, `qrcode-terminal` and the logger are left out.
- The polling wait `while (sockets.get(sessionId) === sock)` is modelled as the `Waiting` predicate, not as a loop. Async event delivery and `main`'s sequential starts are left out. The life loop's later passes are `OpenSocket` calls.
- The Express pages other than the status-class chain are left out, and so is QR image rendering.
- The empty `messages.upsert` stub and `dayLimitConfig` are left out, since nothing reads them.
- The release of the lock at bot.js:174 is not modelled. The life loop is only left by a throw, and that throw skips the release, so no method removes a lock. A throw in a later pass of the life loop is not modelled either, because as written the loop never gets past its first socket.
- `main` is modelled one session at a time (`StartFromMain`). A start that runs never returns to `main`, so the sessions after it are never started. That sequencing is not modelled.

## Findings

| source | as written | input that shows it | evidently intended | confidence | as-written member | corrected member |
|---|---|---|---|---|---|---|
| bot.js:124-170 | The close handler never removes or replaces the session's entry in `sockets`, so `while (sockets.get(sessionId) === sock)` keeps waiting on the closed socket and the life loop never opens a new one. | `startSession` for "jony_lager", then a `connection.update` with `connection: 'close'` and a `Boom` error with status code 428. | As the comment at bot.js:155 says, after the close the `while (true)` loop should create a new socket. | not executed | Sessions.CloseLeavesSessionWaiting | Sessions.SessionRegistry.OnConnectionUpdateReleasing |

# Reddit post scheduler: the scheduling bookkeeping, in Dafny

This project models the part of the Reddit posting bot that decides *what*
gets posted and *when*, and proves properties of it. The bot reads post
records from an Airtable table, admits the ones that are due into a job
queue, and hands each job to a worker. The worker drives an AdsPower browser
profile, and at most one worker may use a profile at a time.

The modules follow the source:

- `Records` holds the record and JSON value model.
- `Timestamps` holds `parse_datetime`, an exact model of
  `strptime(..., "%Y-%m-%d %H:%M")`, and the due-time rule `should_post_now`.
- `Scheduler` holds the shared state as a class: `RECORDS`, `POSTS_ON_WORK`,
  `post_cache` and the log of `Scheduled?`-clearing updates. It also holds one
  tick of `check_records` (admission) and one tick of `add_posts_to_cache`
  (reconciliation). Each tick is a loop proved against a specification
  function (`Admitted`, `Prune`). Lemmas about those functions prove
  at-most-once admission, the admission condition in both directions, queue
  order, and the re-arm path.
- `Sessions` holds `SessionManager` as a class over its `active_sessions` map.
- `Accounts` holds the account lookup `get_ads_account_data` and the
  per-account close policy.
- `Dispatch` holds the dispatcher's skip rules, the job it builds, and the
  pure helpers `extract_media_url`, the media suffix choice,
  `filter_bmp_characters` and title composition.
- `Worker` holds the session part of `try_posting_to_reddit_selenium`:
  starting the session and the `finally` teardown.
- `ConfigFile` holds `load_config`, a loop proved against `ConfigOf`.
- `Driver` holds the proxy-string split and the validation of the browser
  start response in `get_driver`.
- `Common` holds Python's `str.strip`, `str.split`, `in` on strings and
  whitespace as `str.isspace()` sees it.

Three behaviours of the code worth noting:

- Reconciliation removes an in-flight id when the fetched record's
  `Scheduled?` is truthy *again* (main.py:632). It does not remove the id when
  the flag goes false.
- The due rule first truncates "now" to the minute (main.py:585). So a post
  time on a whole minute is due exactly during that minute, not within 40
  seconds either side of the current instant.
- A failed Airtable read returns `[]` (main.py:138-140). The next
  reconciliation tick therefore replaces the snapshot with the empty list
  rather than keeping the old one.

Instants are integer seconds since 0001-01-01 00:00:00 in the scheduler's
zone (Europe/London). The `now` of a tick is a parameter. The list Airtable
returns is a parameter too. What `get_driver` returns is an `Option` input to
`StartSession`.

## Model

| member | source | states |
|---|---|---|
| `ConfigFile.LoadConfig` | main.py:46-59 | A missing file gives the empty dictionary. Otherwise the dictionary is `ConfigOf` of the lines read, built by the loop one line at a time. |
| `ConfigFile.ConfigOf` | main.py:50-53 | The dictionary `load_config` builds from a list of lines: entry lines in order, a later key overriding an earlier one. Characterised by `ConfigKeys`, `ConfigLastWins`, `SkippedLine` and `EntryLineConfig`. |
| `ConfigFile.ConfigKeys` | main.py:50-53 | A key is in the dictionary iff some line that is non-empty, does not start with `#`, contains `=` and has that key produces it. |
| `ConfigFile.ConfigLastWins` | main.py:50-53 | The last entry line for a key decides its value, so a later duplicate overrides an earlier one. |
| `ConfigFile.SkippedLine` | main.py:51 | A comment line, or a line without `=`, leaves the dictionary unchanged. |
| `ConfigFile.KeyValueOfLine` | main.py:52-53 | For any line containing `=`, the key is the stripped text before the line's first `=` and the value is the stripped text after it. |
| `ConfigFile.EntryLine` | main.py:52-53 | A line `key = value`, with any whitespace around key and value and an `=`-free key, gives that key and that value. The value may itself contain `=`. |
| `ConfigFile.EntryLineConfig` | main.py:51-53 | One such line gives a one-entry dictionary. Only the line's first column is tested for `#`, so an indented `#key` is still an entry. |
| `Sessions.SessionManager.IsSessionActive` | main.py:99-100 | The stored busy flag. An id never seen reads as not active. |
| `Sessions.SessionManager.StartSession` | main.py:102-117 | A driver is returned, and the id marked busy, iff the id was inactive, is non-empty, and `get_driver` gave a driver. Otherwise the result is None and the map is unchanged. |
| `Sessions.SessionManager.EndSession` | main.py:119-120 | The flag is set to False whatever it was before. |
| `Sessions.EndSessionIdempotent` | main.py:119-120 | Ending twice equals ending once. Other ids' flags are untouched. |
| `Accounts.FirstMatch` | main.py:125-126 | The index of the first account whose section equals the name. No earlier account matches, and None means no account matches. |
| `Accounts.AdsAccountDataAsWritten` | main.py:124-130 | As written: `(None, None)` when no account matches. Otherwise the first matching account's serial and password passed through `str()`, so a missing option becomes "None". |
| `Accounts.MissingSerialNotCaught` | main.py:124-130 | For an account without `profile_serial_number`, the lookup as written gives the truthy string "None". |
| `Accounts.AdsAccountData` | main.py:124-130 | Corrected lookup: `(None, None)` when no account matches. Otherwise the first matching account's serial and password as configured. |
| `Accounts.AdsAccountDataFound` | main.py:124-130 | With the corrected lookup, a non-empty profile id is found iff the first matching account has a non-empty serial, and the id is that serial. |
| `Accounts.AsWrittenAgrees` | main.py:127-129 | When serial and password are both configured, the two lookups agree. |
| `Accounts.CloseSettingOf` | main.py:842 | `next(...)` falls back to the default "True" iff no account has the name. |
| `Accounts.CloseSettingFirst` | main.py:842 | When an account matches, the first matching account's own `close` boolean is the value. |
| `Accounts.LowerOfBool` | main.py:843 | `str(True).lower()` is "true" and `str(False).lower()` is not. |
| `Accounts.CloseBrowserIff` | main.py:842-843 | The browser is closed after posting iff no account has the name, or the first matching account has `close` true. |
| `Timestamps.ParseDateTime` | main.py:696-711 | A parsed datetime is valid and has seconds 0. |
| `Timestamps.ParseDateTimeIff` | main.py:700-711 | Gives `dt` exactly when "stripped date, blank, whitespace-collapsed stripped time" writes a valid zero-second `dt` in the pattern's forms. Otherwise None. |
| `Timestamps.Strptime` | main.py:707 | `datetime.strptime(s, "%Y-%m-%d %H:%M")`, None where it raises. Characterised by `StrptimeIff`, `ScanSound` and `ScanComplete`. |
| `Timestamps.StrptimeIff` | main.py:707 | `strptime(s, "%Y-%m-%d %H:%M")` gives `dt` iff `s` renders a valid zero-second `dt`: 4-digit year, 1-2 digit month/hour/minute, day as 1-2 digits or blank-digit, one or more whitespace separator. |
| `Timestamps.ScanSound` | main.py:707 | Whatever strptime accepts is the rendering of a valid datetime, in a style that fits it. |
| `Timestamps.ScanComplete` | main.py:707 | strptime accepts every rendering of a valid zero-second datetime, and gives back that datetime. |
| `Timestamps.ParseDateTimeOfPadded` | main.py:700-708 | Date and Time in the pattern's forms, with any surrounding whitespace, parse to the datetime they name. |
| `Timestamps.CollapseSpaces` | main.py:703 | `re.sub(r'\s+', ' ', s)` leaves only single blanks as whitespace, never two in a row, and is empty iff `s` is. |
| `Timestamps.CollapseSpacesText` | main.py:703 | The substitution keeps every non-whitespace character, in order: the text without its whitespace is unchanged. |
| `Timestamps.CollapseSpacesOfRun` | main.py:703 | A non-empty run of whitespace becomes one blank. |
| `Timestamps.CollapseSpacesAppend` | main.py:703 | The substitution works run by run: on two pieces not joined inside a whitespace run, it is the substitution of each piece, concatenated. |
| `Timestamps.TruncateToMinute` | main.py:585 | The truncated instant is on a whole minute and at most 59 s before `now`. |
| `Timestamps.ShouldPostNow` | main.py:582-595 | `should_post_now`: the post time is at most 40 s from `now` truncated to the minute. Characterised by `DueIffSameMinute` and `TruncationShiftsWindow`. |
| `Timestamps.DueIffSameMinute` | main.py:582-593 | For a post time on a whole minute, the post is due iff `now` falls in that same minute. |
| `Timestamps.TruncationShiftsWindow` | main.py:585-593 | Because of the truncation, 50 s after the post time is still due and 30 s before it is not. |
| `Scheduler.SchedulerState.constructor` | main.py:33-35 | The queue, snapshot and in-flight list start empty. |
| `Scheduler.SchedulerState.CheckRecordsTick` | main.py:654-692 | One pass at `now`: the snapshot is unchanged. The queue, the in-flight list and the update log each get `Admitted(...)` appended, in that order. The in-flight list stays duplicate-free. |
| `Scheduler.SchedulerState.AdmitPass` | main.py:658-683 | The loop of the pass, proved against `Admitted` with any due test. |
| `Scheduler.SchedulerState.AddPostsToCacheTick` | main.py:623-635 | An unchanged fetch changes nothing. Otherwise the snapshot becomes the fetched list and the in-flight list becomes `Prune(old, fetched)`. Queue and log are untouched, and the list stays duplicate-free. |
| `Scheduler.SchedulerState.TakeJob` | main.py:744-745 | The queue is FIFO: the oldest job comes out first, or None on an empty queue. |
| `Scheduler.Admitted` | main.py:658-683 | The records one admission pass queues, in snapshot order, with the in-flight list growing as it goes. Characterised by `AdmittedIff`, `AdmittedIsSelected`, `AdmittedKeepsDistinct` and `AdmittedInOrder`. |
| `Scheduler.AdmittedOnlyAdmissible` | main.py:658-683 | Every queued record is from the snapshot, was not in flight, and passed every test. |
| `Scheduler.AdmittedKeepsDistinct` | main.py:662-682 | At most once: a duplicate-free in-flight list stays duplicate-free after a pass, even when the snapshot repeats an id. |
| `Scheduler.AdmittedIff` | main.py:667-683 | With distinct snapshot ids, a record is queued iff it is in the snapshot, not in flight, has Date and Time that parse, is flagged, and is due. |
| `Scheduler.AdmittedIsSelected` | main.py:658-683 | With distinct snapshot ids, the pass queues exactly the records that were admissible against the in-flight list at the start of the pass. |
| `Scheduler.AdmittedInOrder` | main.py:658-681 | Queue order follows snapshot order: the admitted records are a subsequence of the snapshot. |
| `Scheduler.RemoveCount` | main.py:633 | `list.remove` takes away exactly one occurrence, when there is one. |
| `Scheduler.Prune` | main.py:629-633 | The in-flight list after reconciliation with a fetched list. Characterised by `PruneCount`, `PruneIff` and `PruneReadsIdAndScheduled`. |
| `Scheduler.PruneCount` | main.py:629-633 | After reconciliation, each id occurs as often as before less the number of fetched records that carry it flagged, floored at 0. |
| `Scheduler.PruneKeepsOthers` | main.py:632-633 | An id that no fetched record shows flagged stays in flight exactly as often as before. |
| `Scheduler.PruneIff` | main.py:629-633 | With no duplicates, an id stays in flight iff it was in flight and no fetched record shows it flagged. |
| `Scheduler.PruneReadsIdAndScheduled` | main.py:629-633 | Reconciliation reads only each record's id and `Scheduled?`. Two fetched lists that differ only in other columns release the same ids. |
| `Scheduler.ReArm` | main.py:623-683 | A due record is queued once. A second pass skips it, and a fetch showing it unflagged keeps it in flight. A fetch showing it flagged again releases it, and the next pass queues it again. |
| `Scheduler.QueuedInItsMinute` | main.py:676-683 | A flagged, parsable record that is not in flight is queued iff `now` lies in its minute. |
| `Scheduler.ParsesHalfPast` | main.py:696-708 | Date "2024-12-10" with Time " 14:30 " parses to 2024-12-10 14:30:00. |
| `Dispatch.ExtractMediaUrl` | main.py:564-572 | `extract_media_url`. Characterised in both directions by `ExtractMediaUrlFrom`, and for lists by `ExtractFromList`. |
| `Dispatch.ExtractMediaUrlFrom` | main.py:564-572 | A URL comes only from a non-empty string, an object's `url`, or the first list element's `url`. Conversely, a non-empty string gives itself and an object gives its `url`, or None without one. A non-empty list gives its first element's `url` when that element is an object with one, and None otherwise. Falsy media, booleans and numbers give None. |
| `Dispatch.ExtractFromList` | main.py:569-572 | A list of attachment objects gives the first one's `url`. A list of strings gives None. |
| `Dispatch.MediaSuffix` | main.py:146-151 | The suffix `download_media` picks from the Content-Type. Characterised by `MediaSuffixIff`. |
| `Dispatch.MediaSuffixIff` | main.py:146-151 | `.jpg` iff the Content-Type contains `image/`. `.mp4` iff it contains `video/` but not `image/`. None otherwise. |
| `Common.IsSubstringIff` | main.py:147 | Python's `t in s` holds iff `t` occurs at some position of `s`. |
| `Dispatch.FilterBmp` | main.py:236-237 | The result keeps only code points at or below U+FFFF and is no longer than the input. |
| `Dispatch.FilterBmpKeeps` | main.py:236-237 | A character survives iff it is in the text and in the BMP. Order is preserved, since the result is a subsequence. |
| `Dispatch.FilterBmpAppend` | main.py:237 | Filtering works character by character: it distributes over concatenation. |
| `Dispatch.FilterBmpIdempotent` | main.py:236-237 | Filtering twice equals filtering once. |
| `Dispatch.PostedTitle` | main.py:287-289 | The title `add_title_to_post` types. Characterised by `TitleWithoutChar` and `PlainTitle`, and by the `FilterBmp` lemmas. |
| `Dispatch.TitleWithoutChar` | main.py:287-289 | With the worker's empty char value, the posted title is `title`, two blanks, `snap`, then stripped and filtered. |
| `Dispatch.PlainTitle` | main.py:287-289 | A trimmed BMP title with nothing attached is typed exactly as it is. |
| `Common.StripOfPadded` | main.py:700-701 | `strip()` removes exactly the whitespace around a trimmed string. |
| `Common.StripInfix` | main.py:52-53 | `strip()` leaves the infix between the leading and trailing whitespace. |
| `Dispatch.DecideWith` | main.py:741-813 | The dispatcher with the as-written or the corrected profile lookup. A launched job carries the record's id, and the account name is also its username. |
| `Dispatch.DecideAsWritten` | main.py:741-813 | The dispatcher as written, with `get_ads_account_data` as in main.py. Same job guarantees as `DecideWith`. |
| `Dispatch.Decide` | main.py:741-813 | The dispatcher with the corrected lookup. Same job guarantees as `DecideWith`. |
| `Dispatch.MissingSerialLaunched` | main.py:771-778 | A due record whose first matching account has no serial is launched by the dispatcher as written, with profile id "None". The corrected dispatcher skips it for want of a profile. |
| `Dispatch.AcctALaunchedWithNone` | main.py:757-778 | Account `[acctA]` without `profile_serial_number`, and a record for "acctA" with Date "2024-12-10" and Time "14:30": as written it is launched with profile id "None", and corrected it is skipped. |
| `Dispatch.LaunchIff` | main.py:757-778 | A job is launched iff Date and Time are present and parse, the (first) Account is truthy, and its first matching account has a serial. The job then has that serial and the parsed time. |
| `Dispatch.LaunchIffAsWritten` | main.py:757-778 | As written, a job is launched iff Date and Time are present and parse, the (first) Account is truthy, and `str()` of its first matching account's serial is non-empty. The job then has `str()` of that serial and password as profile id and password. The two time skips are as in `TimeSkips`. |
| `Dispatch.TimeSkips` | main.py:760-767 | Skipped for missing date/time iff one of them is empty. Skipped as unparsable iff both are present but do not parse. |
| `Dispatch.OverlayRouting` | main.py:780-813 | The `char  snap` overlay goes into the title when there is no media or `snap post title` is set. Otherwise it is drawn on the image and the title gets none. |
| `Dispatch.AdmittedNotSkippedForTime` | main.py:757-767 | A record the admission tick queued at `now` is never skipped for its date or time. Its job's post time is due at `now`. |
| `Worker.PostingAttempt` | main.py:837-877 | When a driver was obtained and `close_driver` or `driver.quit()` raises, `end_session` is skipped and the profile stays busy. Later workers for that profile then wait forever at main.py:839-840. Otherwise, under the close policy the session is released whether or not a driver was obtained. Under the keep policy it is `quit` then release, or a crash on `None.quit()` that leaves the map unchanged. The profile ends busy iff the attempt started a session whose teardown raised, or the keep policy applies and it was busy before. |
| `Driver.SplitProxy` | driver.py:19-22 | The proxy string split into user, password, host and port. Characterised by `SplitProxyOf`, `SplitProxyLayout`, `SplitProxyIff` and `ProxyRoundTrip`. |
| `Driver.SplitProxyOf` | driver.py:19-22 | Host and port are the first two `:` fields after the first `@`. User and password are the first two `:` fields before it. |
| `Driver.SplitProxyLayout` | driver.py:19-22 | Every successful split comes from that layout, with fields free of `@` and `:`. |
| `Driver.SplitProxyIff` | driver.py:19-22 | The split gives exactly these four fields iff the string has that layout. |
| `Driver.ProxyRoundTrip` | driver.py:19-22 | For fields free of `@` and `:`, formatting `u:p@h:port` and splitting gives them back. |
| `Common.JoinSplit` | driver.py:19-22 | Joining the pieces of `str.split(sep)` with `sep` gives the string back. |
| `Common.SplitJoin` | driver.py:19-22 | Splitting a join of separator-free pieces gives the pieces back. |
| `Driver.ValidateStartResponse` | driver.py:39-56 | The validation of the browser start response. Characterised by `ValidateCases` and `StartResponseAccepted`. |
| `Driver.ValidateCases` | driver.py:39-56 | Checks run in order. A missing `code` rejects, then `code != 0` rejects, then a missing `data`/`webdriver`/`ws`/`selenium` rejects, then an empty or colon-free address rejects. An accepted setup attaches to `data.ws.selenium` and runs `data.webdriver`. |
| `Driver.StartResponseAccepted` | driver.py:43-56 | A well-formed start response is accepted iff its address is non-empty and contains `:`, and is then used as given. |

## Findings

| source | as written | input that shows it | evidently intended | confidence | as-written member | corrected member |
|---|---|---|---|---|---|---|
| main.py:124-130 | `str(profile_serial_number)` turns a missing serial into the string "None". That string is truthy, so the missing-profile skip at main.py:776 never fires. | An accounts file with section `[acctA]` and no `profile_serial_number`, and a record whose Account is "acctA". | Pass a missing serial through as None, so that the dispatcher skips the job. | high (not executed) | `Dispatch.AcctALaunchedWithNone` | `Dispatch.LaunchIff` |

`Dispatch.DecideAsWritten` and `Accounts.AdsAccountDataAsWritten` model the code as written. `Dispatch.Decide` uses the corrected lookup `Accounts.AdsAccountData`, and `Dispatch.LaunchIff` proves about it that a job is launched only for an account with a configured serial.

## Left out

- Threads, the `while True` loops, `time.sleep`, `random_delay` and the busy-wait on the session flag (main.py:839-840) are not modelled. Each tick is one sequential call, and concurrent ticks and workers are not modelled.
- The Airtable calls `table.all` and `table.update` are not modelled as I/O. The fetched list is a parameter of the reconciliation tick. An update request is logged in `updates` whether or not the store accepts it.
- Time-zone conversion through pytz, and the exception path of `should_post_now`, are not modelled. Instants are integer seconds in the Europe/London zone. That path includes the date overflow `localize` can raise for a post time on the first or last day of the calendar (0001-01-01, 9999-12-31); there `should_post_now` returns False while `ShouldPostNow` may hold.
- Timestamps.Strptime: `\d` in Python regular expressions also matches non-ASCII decimal digits. The model accepts only ASCII `0`-`9`.
- A Date or Time value that is not a string (for which `strip` raises, and the error is logged) is not modelled. Date and Time are optional strings.
- `download_media` is not modelled beyond its suffix choice: the HTTP request, file write and uuid name. `process_image` and `add_text_with_rounded_background` are not modelled either. A job carries the media URL and the overlay text, not a file path.
- Logging in, posting, flair selection, `screen_error`, `take_screenshot`, `close_extra_tabs` and `close_driver` are browser automation or HTTP, and are not modelled. Exceptions raised while logging in or posting are caught before the `finally` block, so they do not change the session bookkeeping. Whether `close_driver` or `driver.quit()` raises is an input of `Worker.PostingAttempt`.
- `get_driver` is not modelled beyond the proxy split and the response validation. The HTTP calls, the proxy update request, starting `webdriver.Chrome` (whose failure also yields no driver) and `clean_cookies` are left out.
- Driver.ValidateStartResponse: a numeric `code` of `0.0` is not modelled, because the JSON model has no floats. Values of the wrong type on the way to the address (which raise in the source) are all folded into rejection.
- `load_ads_accounts_config` and `config_service.py` (configparser) are not modelled. The accounts are given as a sequence of records.
- `image_lib.py`, `image_text.py`, `logger.py`, `clear_temp_folder`, `schedule_daily_cleanup` and the startup purge of `temp/` are image processing, logging or filesystem work, and are not modelled.
- The module-level `start_session(self, ...)` at main.py:300-316 is dead code that is never bound to a class, and is not modelled.
- `post_cache.task_done()` and the dispatcher's sleeps have no effect on the bookkeeping, and are not modelled.
- Records.Fields: `Scheduled?` and `snap post title` are kept as truth values, and an absent field is the same as JSON null. So the comparison of a fetched list with the held one (main.py:627) can see two lists as equal that Python's `!=` tells apart, e.g. `Scheduled?` absent against `false`. The model then skips a reconciliation pass that the program runs, so an in-flight id that pass would release stays in flight until the next fetch that differs in a modelled field.

# ICMSWatcher observation pipeline in Dafny

ICMSWatcher logs into a university exam portal, reads the grades table and
tells the student over Telegram about new or changed grades. This project
models what `main()` in `main.py` does once the browser has produced the
table, or has failed:

- **Extraction** (`extraction.dfy`, with `codes.dfy` and `int_text.dfy`).
  The header and footer rows are dropped. Rows of four cells or fewer are
  skipped. A row whose id in cell 0 is not a decimal number aborts the run
  with Python's `int()` error. Rows with an id below 9999 are skipped. The
  kind and status codes are decoded through `art_codes` and
  `status_codes`. A later row with the same unit name overwrites an earlier
  one. `ExtractMarks` is the loop. `Scan` is the function that specifies
  it.
- **Marks as a Python dict** (`records.dfy`). A dict remembers the order in
  which its keys were first inserted, and that order is the order of the
  message lines. So `Marks` is a key sequence next to a key-to-entry map.
  `Put` is dict assignment.
- **Diff** (`diff.dfy`). With a baseline, a name is an update when the
  baseline lacks it or holds another `(mark, art, status)` tuple. Without
  one (the file could not be opened), every current entry is an update.
  `DiffMarks` holds the two loops of the source. `Updates` is their
  specification.
- **Failure counter** (`failures.dfy`, `storage.dfy`). A failed run at clock
  reading `"04:00"` is ignored. Any other failed run loads the count (0 when
  unreadable), saves it plus one, and at the `GRACE` threshold alerts and
  saves 0. A successful run saves 0. The store is the class
  `Storage.Store`. Its fields are the baseline snapshot, the stored count
  and whether writes succeed.
- **Messages** (`notify.dfy`). The owner text is the header line followed by
  one `name: mark - art - status` line per update. The subscriber text is
  the header followed by the names. The owner is sent to first, then each
  subscriber in list order. Sending is recorded in the class
  `Notify.Outbox`.
- **Locator fallback** (`locate.dfy`). `try_find_partial_name` tries
  candidate link texts in order, with the browser lookup as an abstract
  partial function.
- **One run** (`pipeline.dfy`). `Run` changes a `Store` and an `Outbox` as
  the source does. `RunSpec` is the same run as a pure function. The lemmas
  about whole runs are stated on `RunSpec`.

Inputs the source reads from its environment, and the one list it hard-codes, are parameters:

- the browser's outcome (`Page`: the table's rows as cell texts, or the
  exception's message)
- the `"HH:MM"` clock reading
- `GRACE`
- the owner's chat id
- the subscriber list, which main.py:56 sets to the literal `[]`, so this version sends one message per update run; it is a parameter here
- whether the store accepts writes

## Model

| member | source | states |
|---|---|---|
| Records.PutSemantics | main.py:304 | `marks[name] = …` replaces the value. An existing key keeps its position and a new key goes last. A well-formed dict stays well-formed: every key is listed once. |
| Extraction.Body | main.py:284-285 | `rows[1:-1]`: exactly the rows strictly between the first and the last, in order. Fewer than two rows give none. |
| Extraction.Scan | main.py:286-304 | The dict built from the body rows is well-formed. |
| Extraction.ExtractMarks | main.py:285-304 | The extraction loop returns the dict of `Scan` over the body rows, or the `int()` error of the first non-numeric id. |
| Extraction.ScanFailsIff | main.py:291-294 | Extraction fails exactly when some row of five or more cells has an id that is not an integer. |
| Extraction.ScanFailsAtFirstReject | main.py:294 | The error message is the one for the first such row, whatever follows it. |
| Extraction.ScanNames | main.py:288-304 | A name is a key of the result exactly when some row is kept under that name. |
| Extraction.ScanOrder | main.py:288-304 | The dict lists its keys in the order rows first bring them: for keys at positions `p < q`, some row keeps the key at `p` before any row keeps the key at `q`. This is the order the message lines follow. |
| Extraction.ScanLastRowWins | main.py:304 | The entry of a name is the one from the last row kept under that name. |
| Extraction.IntError | main.py:294 | The `int()` error message is the fixed prefix and the quoted cell text, cut to 200 characters, so it never exceeds 240 characters. A text of at most 198 characters appears whole between single quotes. |
| Extraction.ClassifyById | main.py:290-302 | A row of five or more cells whose id is the decimal text of `id` is never an error. It is kept exactly when `id >= 9999`. Then its entry is the mark with the decoded kind and status, under the name in cell 1. |
| Extraction.ClassifyIdBoundary | main.py:294-295 | Id 9999 is kept and id 9998 is skipped. |
| Extraction.ClassifyShortAndTextRows | main.py:291-294 | A four-cell row is skipped before its id is read, so even a four-cell row with the text id `PNr` is skipped, not rejected. In a five-cell row a text id such as `PNr` raises `invalid literal for int() with base 10: 'PNr'`. |
| Extraction.ScanSkipThenKeep | main.py:288-304 | A skipped row followed by a kept row gives a dict holding only the kept record. |
| Extraction.ExtractionExample | main.py:284-304 | A header, a structural row with id 5, one unit row and a footer give exactly one record, with `GE` decoded to `Modul` and `BE` to `bestanden`. |
| Codes.ArtDecodeChangesKnownCodes | main.py:298-299 | Decoding a kind cell changes it exactly when it is one of the five kind codes: no kind code is its own description. The result is the cell or a kind description. |
| Codes.StatusDecodeChangesKnownCodes | main.py:301-302 | Decoding a status cell changes it exactly when it is one of the fifteen status codes. The result is the cell or a status description. |
| Codes.ArtDecodeIdempotent | main.py:77-83 | No kind description is itself a kind code, so decoding twice equals decoding once. |
| Codes.StatusDecodeIdempotent | main.py:59-75 | No status description is itself a status code, so decoding twice equals decoding once. |
| Codes.DecodeExamples | main.py:59-83 | `GE` → `Modul`, `BE` → `bestanden`, `NGR` → `nicht genehmigter Rücktritt`. A status code used as a kind is kept, and so is an unknown status. |
| IntText.ParseShow | main.py:294 | `int(str(n)) == n` for every integer the model parses, negative ones included. |
| IntText.ParseIgnoresPadding | main.py:294 | Like `int()`, parsing ignores any of the six ASCII whitespace characters `int()` skips, before and after the text: `Strip` and the parsed value are those of the unpadded text. |
| Diff.DiffMarks | main.py:338-351 | The two diff loops return exactly `Updates(current, baseline)`. |
| Diff.UpdatesExact | main.py:343-351 | A name is an update exactly when it is current and changed. Its value is the current entry. Updates come in the order of the current dict. |
| Diff.UpdatesAgainstBaseline | main.py:343-345 | With a baseline, a name is an update exactly when it is current and the baseline lacks it or holds another tuple. Names only in the baseline are never reported. |
| Diff.NoBaselineReportsAll | main.py:348-351 | Without a baseline the updates equal the current dict: same keys, values and order. |
| Diff.SelfDiffIsEmpty | main.py:343-345 | A dict diffed against itself gives no updates. |
| Diff.OneChangedEntry | main.py:343-345 | Changing the entry of one known name gives exactly that name, with its new entry, as the updates. |
| Failures.AfterFailure | main.py:308-318 | At `"04:00"` nothing changes and nothing is sent. Otherwise it alerts exactly when the stored count (0 if unreadable) plus one reaches `GRACE`. A writable store then holds 0 after an alert and the incremented count otherwise. An unwritable store keeps its value. |
| Failures.FailureRunsAppend | main.py:308-318 | Failed runs compose: running `a` and then `b` is running `a + b`. |
| Failures.ExemptFailuresChangeNothing | main.py:308 | Any number of failures at `"04:00"` leave the count unchanged and never alert. |
| Failures.QuietBelowGrace | main.py:311-320 | In a writable store, failures at clocks other than `"04:00"` that stay below the threshold never alert, and they raise the count by their number. |
| Failures.AlertAtGrace | main.py:311-318 | In a writable store and from count 0, `GRACE >= 1` consecutive failures at clocks other than `"04:00"` send exactly one alert, on the last, and leave the count at 0. |
| Failures.ThreeFailuresWithDefaultGrace | main.py:308-335 | In a writable store, with `GRACE = 3`, no stored count and the clocks 10:00, 10:15, 10:30: no alert, no alert, alert, then count 0. A following success keeps it at 0. |
| Failures.LowGraceAlwaysAlerts | main.py:315 | With a stored count of 0 or more (or none), a threshold of 1 or less (never range-checked) alerts on every failure outside `"04:00"`. |
| Storage.Store.SaveFailureCount | main.py:125-133 | Best-effort save. The count is stored when the store is writable, and otherwise nothing changes. |
| Storage.Store.SaveBaseline | main.py:358-359 | The baseline becomes the full current dict exactly when the write succeeds. The flag returned says whether it did. |
| Notify.Compose | main.py:360-366 | The one loop with its two `+=` statements builds exactly `OwnerText(updates)` and `SubscriberText(updates)`. |
| Notify.OwnerTextLines | main.py:360-365 | When no name, mark, kind or status contains a newline, split into lines, the owner text is the header followed by one `name: mark - art - status` line per update, in update order. |
| Notify.SubscriberTextLines | main.py:361-366 | When no name contains a newline, split into lines, the subscriber text is the header followed by exactly the updated names: no grade detail. |
| Notify.FanOut | main.py:367-369 | Exactly `1 + |subscribers|` sends: the owner text to the owner first, then the subscriber text to each subscriber in list order. |
| Notify.Outbox.Send | main.py:86-96 | One send appends one `(recipient, text)` message. |
| Notify.Broadcast | main.py:367-369 | The outbox gains exactly the `FanOut` messages, after what it held before. |
| Locate.TryFindPartialName | main.py:105-114 | It fails exactly when no candidate resolves, with the message listing all candidates. Otherwise it returns the element that the first resolving candidate, in list order, finds. |
| Pipeline.CountFailure | main.py:305-320 | The `except` branch changes the store and the outbox exactly as `AfterFailure` says. It sends the exception's text to the owner when it alerts. |
| Pipeline.Run | main.py:285-369 | A whole run leaves the store and the outbox, and ends, exactly as `RunSpec` says. |
| Pipeline.FailureKeepsBaseline | main.py:305-323 | A failed run never touches the baseline. At `"04:00"` it changes nothing and sends nothing. |
| Pipeline.SuccessResetsCounter | main.py:330-335 | A run whose extraction succeeds leaves the count at 0 in a writable store. |
| Pipeline.PersistIffUpdates | main.py:353-359 | For a run whose extraction succeeds, with a readable baseline and a writable store, the baseline is replaced by the full current dict exactly when there are updates. Messages are sent exactly then. |
| Pipeline.FirstRunReportsAll | main.py:348-354 | Without a baseline file and with a writable store, a table whose extraction gives a non-empty dict reports all its entries. |
| Pipeline.UpdateFanOut | main.py:360-369 | A run with updates sends `1 + |subscribers|` messages, owner first with the detailed text, then the names-only text in subscriber order. |
| Pipeline.RerunIsQuiet | main.py:343-359 | For a table whose extraction succeeds, a second run on the same table after one that did not crash sends nothing and leaves the baseline as it was. |
| Pipeline.ThreeBrokenRuns | main.py:308-320 | In a writable store with no stored count or 0, at clocks other than `"04:00"` and with `GRACE = 3`, three broken runs send nothing, nothing, then the third error to the owner, and leave the count at 0. |

## Left out

- Selenium navigation, waits, login, role selection and frame switching (main.py:136-283). A run's browser phase is the `Page` parameter: rows or an exception message.
- `try_find_partial_name` is modelled but called nowhere in `main()`. It matches the candidates exactly as given, case-sensitively. It does not lowercase or normalise them.
- Telegram transport, `telegram_debug` and the `debug_telegram` switch (main.py:86-102). A send is one recorded `(recipient, text)` pair.
- Telegram send failures. An exception from a send would end the run early, and that is not modelled.
- util.py: it only wraps Telegram API calls.
- Pickle serialisation and file paths. The store keeps values, not bytes.
- Environment loading and `GRACE` parsing (main.py:25-45). `GRACE` is an integer parameter.
- Reading the clock with `datetime.now()`. The `"HH:MM"` string is a parameter.
- `driver.close()`, async scheduling and the printed log lines.
- Storage.Store: one `writable` flag governs every write in a run. Counter writes that fail are swallowed, as the source does. A failed baseline write crashes the run. The same flag made the counter reset fail, so the count stays as it was. A writable counter file beside a baseline file that cannot be written is not modelled.
- Storage.Store.LoadBaseline: only `OSError` (main.py:348) means no baseline. A baseline file that opens but does not unpickle raises another error, and the run ends after the counter was reset (in a writable store).
- IntText.ParseInt: covers ASCII digits, an optional sign and ASCII whitespace. Python's `int()` also accepts `_` digit separators and non-ASCII digits and spaces.
- IntText.ParseInt: accepts digit strings of any length. CPython 3.9 and later refuse to convert decimal strings of more than 4300 digits and raise a `ValueError` about the limit. `ParseShow` therefore speaks of the model's parser, not of every Python integer.
- Extraction.IntError: the offending text is always shown as `'` + text + `'`, cut to 200 characters as CPython's `%.200R` does. Python's `repr` would also escape backslashes, control characters such as `\n` and non-printable characters, and would switch to double quotes when the text holds a single quote; those escapes are not modelled.
- Failures in an unwritable store: no count is ever saved, so every failure counts the stored count (0 if none) plus one. With no readable count and `GRACE >= 2`, no alert is ever sent. With a stored count of `GRACE - 1` or more, every failure alerts. This follows from `AfterFailure`; the sequence lemmas are stated for a writable store only.
- Notify: a cell text holding a newline would split a message into more lines than updates; the line lemmas exclude such texts.
- Locate.NotFoundMessage: the candidate list is shown as `['a', 'b']`, without Python's escaping of quotes inside names.
- Failures: a stored count is assumed to be an integer. Whatever else a pickle might hold is not modelled.

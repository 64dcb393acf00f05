# website-change-detector, modelled in Dafny

The system watches web pages for changes. A user submits a URL. The
server fetches the page, normalises its text (strips the ends, collapses
every whitespace run to one space), fingerprints the result with SHA-256
and compares the fingerprint with the one stored for that URL. It then
stores a row per URL with status `OK`, `CHANGED` or `ERROR`, the time of
the check, the time of the last change and the last error text. A failed
fetch is classified by substring tests on the exception text into one of
five user-facing messages.

The model has four modules:

- `Wrappers` (`wrappers.dfy`): `Option` and `Result`.
- `Detector` (`detector.dfy`): `normalize_content` and `get_page_hash` of
  detector.py. The network call becomes an input (`Fetch`: either the
  exception text or the response). The SHA-256 hex digest becomes a
  function parameter `digest`. `Normalize` is defined as in the source
  (`Strip`, then `CollapseWhitespace`). It is proved equal to an
  independent reference definition, `" ".join(s.split())`, written as
  `Join(Words(s))`.
- `Database` (`database.dfy`): the `pages` table of database.py as a
  class `PageTable` holding a `map<string, Record>` keyed by URL. The
  functions `Saved` and `StoredHash` state what `save_page` and `get_page`
  do to and read from that map. A clock reading `now: nat` stands for
  `datetime.utcnow()`. A history of saves (`Replay`) carries the
  `last_changed` properties.
- `App` (`app.dfy`): the status rule, the error classifier and one check
  of a submitted URL (`Check`). The POST branch of `index` and
  `check_url` share the same steps and rules, so one method models both.
  `CheckedRows` is the table after one check. The lemmas about checks are
  stated on it.

## Model

| member | source | states |
|---|---|---|
| Detector.StripLeft | detector.py:12 | the result is a suffix of the input; what was removed is all whitespace; the result is empty or starts with a non-whitespace character |
| Detector.StripRight | detector.py:12 | the result is a prefix of the input; what was removed is all whitespace; the result is empty or ends with a non-whitespace character |
| Detector.Strip | detector.py:12 | the result neither starts nor ends with whitespace, is never longer, and is empty exactly when the input is all whitespace |
| Detector.StripOfPadded | detector.py:12 | `strip` gives back exactly the text `u` from any whitespace-padded `p + u + q` where `u` has no whitespace at its ends |
| Detector.StripOfStripped | detector.py:12 | a text with no whitespace at its ends is unchanged by `strip` |
| Detector.CollapseWhitespace | detector.py:13 | the result is never longer, is empty exactly when the input is, begins with whitespace exactly when the input does, and its only whitespace is single `' '` characters, never two adjacent |
| Detector.Normalize | detector.py:6-14 | the output is never longer than the input, has no leading or trailing whitespace, keeps only single spaces with never two in a row, and is empty exactly when the input is all whitespace |
| Detector.NormalizeIsJoinOfWords | detector.py:6-14 | `normalize_content(s)` equals `" ".join(s.split())` for every `s` |
| Detector.WordsOfNormalize | detector.py:12-13 | normalising keeps the sequence of words of the text |
| Detector.NormalizeIdempotent | detector.py:12-14 | `normalize(normalize(s)) == normalize(s)` |
| Detector.NormalizeOfJoin | detector.py:12-14 | words joined by single spaces are already normalised |
| Detector.NormalizeEqualIffSameWords | detector.py:12-13 | two texts normalise equally if and only if they have the same words in the same order |
| Detector.NormalizeKeepsNonWhitespace | detector.py:12-13 | deleting all whitespace from the output equals deleting it from the input, so non-whitespace characters are kept in order and none is added |
| Detector.WhitespaceGapIsOneSpace | detector.py:13 | any non-empty whitespace gap (spaces, tabs, blank lines), wherever it stands in the text, normalises like one space |
| Detector.TwoGapsAreSpaces | detector.py:13 | a text with two whitespace gaps normalises like the same text with each gap replaced by one space, e.g. `"a   b\n\nc"` like `"a b c"` |
| Detector.HttpErrorText | detector.py:23 | the text `raise_for_status` raises starts with the decimal status code |
| Detector.GetPageHash | detector.py:17-28 | a fingerprint is returned exactly when a response arrived and its status is outside 400-599; otherwise `raise_for_status` or the request fails first |
| Detector.HashIgnoresWhitespaceLayout | detector.py:25-28 | two responses that differ only in the whitespace layout of their body give the same result |
| Detector.HashDetectsWordChanges | detector.py:25-28 | for an injective digest and non-error responses, fingerprints are equal if and only if the bodies have the same words |
| Database.PageTable.constructor | database.py:11-25 | a freshly created table has no rows |
| Database.PageTable.SavePage | database.py:37-57 | the new table is `Saved(old table, ...)`: the row for `url` is replaced by one built from the passed values |
| Database.Saved | database.py:41-55 | a save keeps every URL and adds `url`, sets the row's `last_checked` to now, sets `last_changed` to now on `CHANGED`, and never clears an existing `last_changed` |
| Database.SavedRow | database.py:41-55 | a save adds at most the row for `url`, leaves every other row as it was, stores hash, status and error text verbatim (a `None` hash and an omitted error included), sets `last_checked` to now, and sets `last_changed` to now on `CHANGED` and to the previous value (or `None` for a new row) otherwise |
| Database.StoredHash | database.py:28-34 | a URL with a row gives that row's stored hash (`None` included), and an unknown URL gives `None` |
| Database.StoredHashAfterSave | database.py:28-57 | after `save_page(u, h, ...)`, `get_page(u)` returns `h` and `get_page` of every other URL is unchanged |
| Database.PageTable.GetPage | database.py:28-34 | the result is `StoredHash` of the table: the row's stored hash, or `None` when there is no row |
| Database.PageTable.AllPages | database.py:59-68 | lists every row exactly once, as its `(url, status, last_checked, last_changed, last_error)` tuple, with `last_checked` non-increasing |
| Database.Insert | database.py:65 | inserting an entry gives a permutation of the list plus that entry |
| Database.InsertNewestFirst | database.py:65 | inserting into a newest-first list keeps it newest-first |
| Database.InsertKeepsDistinct | database.py:16 | inserting a URL not yet listed keeps the URLs distinct and adds exactly that URL |
| Database.ReplayKeys | database.py:49-56 | after any sequence of saves, the rows are the initial ones plus one per saved URL; no row is ever removed |
| Database.NoChangeWithoutSave | database.py:46-47 | a URL that no save in the history names has no change time from that history |
| Database.LastChangedIsLatestChange | database.py:41-47 | after any sequence of saves, a row's `last_changed` is the time of its latest `CHANGED` save; without one it is the row's initial value, or `None` for a row the history created |
| Database.LastChangedNeverCleared | database.py:45 | once a row has a `last_changed` time, later saves never clear it |
| App.Classify | app.py:62-71 | the kind is Blocked exactly when the text contains "403"; Certificate implies "SSL" (case-sensitive) or "certificate" (any case); Timeout implies "timeout" and Connection implies "connection" (any case); a later kind is chosen only when every earlier test fails, and Unknown only when all five fail |
| App.UserMessage | app.py:63-71 | every kind has a non-empty message, and the unclassified one ends with the raw exception text |
| App.MessageTellsKind | app.py:61-71 | different kinds get different messages, so the flashed text tells which test of the classifier matched |
| App.LowerCaseSslTimeoutIsTimeout | app.py:64-66 | the "SSL" test is case-sensitive, so the text `ssl timeout` is classified as a timeout |
| App.UpperCaseSslTimeoutIsCertificate | app.py:64-65 | the text `SSL timeout` is classified as a certificate error |
| App.ClassifyIgnoresCaseWithoutSsl | app.py:62-71 | without an upper-case "SSL" in it, the text's letter case does not change its kind |
| App.ForbiddenResponseIsBlocked | app.py:62-63 | a 403 response fails the fetch and is classified as blocked |
| App.UrlMentioning403IsBlocked | app.py:62 | the "403" test reads the whole exception text, so a 404 for a URL that contains "403" is also reported as blocked |
| App.Decide | app.py:47-52 | a successful check is never `ERROR`; it is `CHANGED` exactly when a hash is stored and differs from the new one |
| App.Observe | app.py:43-73 | a successful fetch saves its hash, no error and the decided status; a failed fetch saves no hash, `ERROR` and the raw exception text |
| App.Key | app.py:41 | the key has no whitespace at its ends, is never longer than the submitted URL, and is empty exactly when the submitted URL is all whitespace |
| App.CheckedRows | app.py:41-75 | after one check the table has a row under the key, checked now, whose status is `ERROR` exactly when the fetch failed |
| App.Notice | app.py:55-74 | after a success the flashed text starts with "Website checked: "; after a failure it is the message of the error's kind |
| App.NoticeTellsStatus | app.py:55 | after a success different statuses give different notices; after a failure the notice does not depend on the status |
| App.Check | app.py:41-75 | the new table is `CheckedRows` of the old one; the returned status is the stored row's status; it is `ERROR` exactly when the fetch failed; the flashed text is the status notice or the classified message |
| App.KeyIgnoresSurroundingWhitespace | app.py:41 | the submitted URL is stripped, so checks of `"  u  "` and `"u"` write the same row under `u` |
| App.CheckTouchesOnlyItsRow | app.py:54 | a check adds at most its own row, leaves every other row as it was, and sets its row's check time to now |
| App.FirstSuccessfulCheckIsOk | app.py:47-48 | the first successful check of a URL is `OK`, never `CHANGED`, with no change time |
| App.FailedCheckRecordsError | app.py:58-73 | a failed check stores hash `None`, status `ERROR` and the raw exception text, and keeps the previous change time |
| App.ErrorForgetsStoredHash | app.py:73 | because a failure stores hash `None`, the next successful check is `OK` whatever the content |
| App.StoredHashAfterFetch | app.py:54 | after a successful check the stored hash is the fingerprint just computed |
| App.SameWordsStayOk | app.py:44-54 | a page re-fetched with the same words in another layout stays `OK` and keeps its change time |
| App.NewWordsAreChanged | app.py:44-54 | with an injective digest, a page re-fetched with different words is `CHANGED` and its change time is the time of that check |
| App.ForbiddenCheckIsBlocked | app.py:58-74 | a 403 response makes the check store `ERROR` and flash the blocked-access message |

## Left out

- Flask routing, `redirect`, `render_template`, flash categories and the `logging` calls are not modelled. The message is returned as a value.
- `utc_to_ist` and every other display formatting of times are not modelled. Times are clock readings `now: nat` passed by the caller.
- The HTTP request itself is not modelled: `requests.get` with its headers and 10-second timeout, and the SHA-256 hex digest over UTF-8. The fetch outcome is an input, and the digest is a function parameter.
- The texts that `requests` produces for timeouts, connection failures and TLS failures are not modelled. A raised exception is any text (`Raised(message)`).
- Detector.HttpErrorText: the body builds the whole text that `raise_for_status` in the `requests` library raises (`<code> Client Error: <reason> for url: <url>`, or `Server Error` for 5xx), but the contract states only that the text starts with the decimal status code. Decoding a reason phrase given as bytes, and a missing reason printed as `None`, are not modelled.
- Concurrent requests are not modelled: checks, and the `save_page` calls they make, run one at a time. The Flask server started at app.py:135 serves requests on several threads, and `save_page` reads `last_changed` (database.py:41-43) and replaces the row (database.py:49-56) in separate statements with no transaction between them. Two checks of one URL can therefore both compare against the same stored hash, and an `OK` or `ERROR` save can write back a stale `last_changed`, even `None`. Database.LastChangedIsLatestChange, Database.LastChangedNeverCleared and the check lemmas hold only when saves do not interleave.
- SQLite is not modelled: connections, commits, durability, and errors raised by the database calls inside the handlers' `try` blocks. The constructor models `init_db` on a fresh database only.
- Database.PageTable.AllPages: rows with equal `last_checked` are listed in some order. The model does not fix the order SQLite would use for ties.
- App.Lower lower-cases only `A`-`Z`. This is exact for the tests it serves: among non-ASCII characters, only U+0130 and U+212A lower-case to ASCII letters, and neither can complete an occurrence of "certificate", "timeout" or "connection".
- The test scripts under `tests/` are not modelled.
- The code has no retry, no TLS retry with verification disabled, no browser-rendering fallback and no separate kind for other HTTP errors, so the model has none. A non-403 HTTP error gets whichever message its text matches, often the generic one.
- A failed check stores hash `None`, so the stored fingerprint is lost on error (App.FailedCheckRecordsError, App.ErrorForgetsStoredHash).

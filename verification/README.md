# A verified model of the BandCamp moderation bot

The bot watches new submissions to the BandCamp subreddit. For each one, it
looks at the author's recent comments. A comment of at least 150 words
counts, and every comment gets one of two distinguished replies. An author
with at least 5 counting comments may post, and their row in
`user_activity.csv` is reset to `(0, today)`. Any other author's submission
is removed and gets a sticky distinguished removal notice.

This project models that logic in Dafny and proves properties of it:

- `words.dfy` (module `Words`): `count_words`, that is, Python's
  `str.split()` with no argument, and its whitespace set.
- `pyint.dfy` (module `PyInt`): the integer conversions the file goes
  through. The `csv` writer applies `str(n)` to the count it is given;
  `read_user_activity` applies `int(s)` to the stored field
  (bandcampbot.py:51).
- `eligibility.dfy` (module `Eligibility`): `check_user_eligibility`. This is
  the per-comment classification, the replies, and the verdict.
- `activity.dfy` (module `Activity`): the user-activity table and its file.
  The table is a dict with insertion order, modelled as `Table`. The file is
  a sequence of rows in `ActivityFile`. This module covers `initialize_file`,
  `read_user_activity` (with the `csv.DictReader` lookup rules),
  `update_user_activity` and `reset_user_activity`.
- `monitor.dfy` (module `Monitor`): the per-submission decision on the
  table, the loop of `monitor_subreddit` on the file, and the script's start.
- `wrappers.dfy` (module `Wrappers`): `Option` and `Result`.

The functions are specifications. The loops of the source are methods:
`CheckUserEligibility`, `ReadUserActivity`, `WriteUserActivity` and
`MonitorSubreddit`. Each method is proved equal to its specification
function.

Python exceptions are modelled as `ReadError` values:
- `FileNotFoundError` becomes `FileMissing`.
- A `KeyError` for a missing column becomes `MissingColumn`.
- A `ValueError` from `int()` becomes `NotAnInteger`.

These exceptions can only arise while reading the file. An exception inside
`reset_user_activity` propagates out of `monitor_subreddit`, because the
code has no `try`. The model therefore ends the loop there, after the
comment replies of that submission were posted.

`bandcampbot.py` has no posting cooldown and does not remember which
submissions it has already handled. It checks no karma threshold, links,
post description or moderator status, and it neither retries a
rate-limited call nor rewrites the file atomically. The model has none of
these either. The stored `comment_count` is never read back for a decision.
The only count the program sets is 0; every other user's count is written
back as it was read. The file rewrite is a plain truncate-and-write.

## Model

| member | source | states |
|---|---|---|
| Words.Split | bandcampbot.py:68-69 | every token `text.split()` yields is non-empty and holds no whitespace |
| Words.CountWords | bandcampbot.py:68-69 | `count_words(s)` equals the number of maximal non-whitespace runs of `s`, counted character by character |
| Words.SplitIsRuns | bandcampbot.py:69 | `text.split()` yields exactly one token per maximal non-whitespace run |
| Words.CountWordsZero | bandcampbot.py:68-69 | the count is 0 exactly when every character is whitespace (the empty string included) |
| Words.JoinAddsCounts | bandcampbot.py:68-69 | joining two texts with one whitespace character adds their word counts |
| Words.SplitJoin | bandcampbot.py:68-69 | splitting words joined by single spaces gives back exactly those words |
| PyInt.NatToString | bandcampbot.py:66 | `str(n)` of a non-negative count is a non-empty string of decimal digits with no leading zero |
| PyInt.IntToString | bandcampbot.py:66 | `str(n)` is non-empty, starts with `-` exactly for a negative number, and holds only digits after the sign |
| PyInt.ParseInt | bandcampbot.py:51 | `int(s)` succeeds only on text that holds a digit, and gives a negative number only on text that holds a `-` |
| PyInt.ParseIntOfIntToString | bandcampbot.py:51 | `int(str(n)) == n` for every integer (Python's digit limit aside, see below), so every count the program writes reads back unchanged |
| PyInt.ParseIntSeparatorNotSpace | bandcampbot.py:51 | two examples of the rule below: `int("\x1c5")` and `int("\x1c5\xa0")` both raise, although `str.isspace()` accepts FS |
| PyInt.StripKeeps | bandcampbot.py:51 | a character `int()` does not skip is still in the literal after the surrounding whitespace is dropped |
| PyInt.ParseIntRejectsSeparator | bandcampbot.py:51 | `int()` never skips FS..US: any text holding one of them, anywhere, raises `ValueError` |
| PyInt.ParseIntUnicodeSpace | bandcampbot.py:51 | a non-ASCII space around the digits is skipped: `int("\xa05") == 5` |
| Eligibility.ValidComments | bandcampbot.py:76-79 | `valid_comments` holds only comments of at least 150 words, is no longer than the comment list, and is a sub-multiset of it |
| Eligibility.Replies | bandcampbot.py:77-82 | one reply per comment, in comment order, and reply `k` is "counts" exactly when comment `k` has at least 150 words |
| Eligibility.CheckUserEligibility | bandcampbot.py:74-83 | the loop returns the replies of `Replies` and the verdict `len(valid_comments) >= 5` |
| Eligibility.EligibleByReplies | bandcampbot.py:77-83 | the verdict holds exactly when at least 5 "counts" replies were sent, so an eligible user has at least 5 comments |
| Eligibility.RepliesMatchValid | bandcampbot.py:77-83 | the "counts" replies are as many as the valid comments, and the two kinds together are as many as the comments |
| Eligibility.ValidCountMonotone | bandcampbot.py:76-83 | a sub-multiset of comments never has more valid comments |
| Eligibility.EligibleReorder | bandcampbot.py:83 | the verdict is the same for any reordering of the comments |
| Eligibility.EligibleMonotone | bandcampbot.py:83 | adding comments never turns an eligible user ineligible |
| Eligibility.EligibleAfterInsert | bandcampbot.py:83 | inserting one comment at any position keeps an eligible user eligible |
| Activity.Put | bandcampbot.py:58-61 | `user_activity[u] = r` maps `u` to `r`, keeps every other entry, removes none, and appends a new key to the insertion order |
| Activity.ColumnIndex | bandcampbot.py:48-53 | a `DictReader` column is the last header cell of that name; none exists exactly when the header lacks the name |
| Activity.ParseRow | bandcampbot.py:50-53 | a row reads exactly when all three columns are present and the count parses; the user, count and date come from their columns; a header without `comment_count` reports that column first, whatever else is missing |
| Activity.ParseData | bandcampbot.py:49-53 | reading rows row by row always yields a dict whose insertion order lists each key once |
| Activity.ParseTable | bandcampbot.py:45-54 | the first row is taken as the header, and the table read from the rest is well formed |
| Activity.Read | bandcampbot.py:45-54 | a successful read of the file yields a well-formed table |
| Activity.ParseErrorPersists | bandcampbot.py:49-53 | the first bad row raises, and the whole read raises that error |
| Activity.SeparatorRowRaises | bandcampbot.py:50-51 | a row whose count field is FS, `5`, NO-BREAK SPACE raises `ValueError` |
| Activity.SeparatorCountRaises | bandcampbot.py:45-54 | a file with such a row does not read: `read_user_activity` raises that `ValueError` |
| Activity.ParseRowOfRowOf | bandcampbot.py:50-53 | a row written as `[user, count, date]` reads back as that user and record |
| Activity.Render | bandcampbot.py:62-66 | the written file is the header followed by one row per key of the insertion order |
| Activity.RenderOneRowPerUser | bandcampbot.py:62-66 | the written file is the header followed by exactly one three-field row per user, holding that user's record |
| Activity.RenderParse | bandcampbot.py:45-66 | reading back the written file gives the same table: the same keys, order, counts and dates |
| Activity.LaterRowWins | bandcampbot.py:49-53 | a later row for a user overwrites whatever earlier rows said about that user |
| Activity.Update | bandcampbot.py:56-66 | the update raises exactly when the file does not read, with the read's error; a rewritten file holds the header and at least one data row |
| Activity.UpdateWritesRow | bandcampbot.py:62-66 | the rewritten file holds the updated user's row `[u, str(c), d]` |
| Activity.Reset | bandcampbot.py:85-86 | the reset raises exactly when the file does not read, with the read's error; otherwise the rewritten file reads back with the user mapped to `(0, today)` |
| Activity.UpdateSemantics | bandcampbot.py:56-66 | after `update_user_activity(u, c, d)` the file reads with `u` mapped to `(c, d)`, every other record unchanged and no key removed; a missing or unreadable file raises and is not rewritten |
| Activity.UpdateIdempotent | bandcampbot.py:56-66 | updating twice with the same `(u, c, d)` leaves the same file as updating once |
| Activity.ActivityFile.InitializeFile | bandcampbot.py:39-43 | an existing file is left untouched; a missing one becomes header-only and reads as the empty table |
| Activity.ActivityFile.ReadUserActivity | bandcampbot.py:45-54 | the row-by-row loop returns what `Read` specifies, including the error the first bad row raises |
| Activity.ActivityFile.WriteUserActivity | bandcampbot.py:62-66 | the rewrite loop leaves the file as the header plus one row per entry, in insertion order |
| Activity.ActivityFile.UpdateUserActivity | bandcampbot.py:56-66 | read, overwrite one entry, rewrite; on a raised read error the file is unchanged |
| Activity.ActivityFile.ResetUserActivity | bandcampbot.py:85-86 | the user's record becomes `(0, today)` through the same read-modify-write |
| Monitor.CommentReplies | bandcampbot.py:77-82 | one reply action per listed comment, in listing order, and the one on comment `i` is "counts" exactly when that comment has at least 150 words |
| Monitor.Decide | bandcampbot.py:92-101 | no author: no action and no change. Otherwise the comment replies come first, in order. Removal happens exactly for an ineligible author, then ends the list as remove followed by the sticky notice, with the table unchanged. An eligible author gets `(0, today)`, and the actions are exactly the comment replies. Nobody else's record changes |
| Monitor.Process | bandcampbot.py:92-101 | one iteration on the file leaves it readable exactly when it was. It raises exactly for an eligible author on a file that does not read: it posts the comment replies, raises the read's error and leaves the file untouched. Without an author it does nothing; for an ineligible author, whatever the file, it posts the comment replies, removes the submission and posts the notice, and leaves the file as it was |
| Monitor.Run | bandcampbot.py:90-101 | the loop leaves the file readable exactly when it was, and raises only on a file that does not read, with the error that reading it gives |
| Monitor.RunUnreadableQuiet | bandcampbot.py:90-101 | on a file that does not read, submissions without an eligible author raise nothing and leave the file as it was |
| Monitor.RunUnreadableRaises | bandcampbot.py:90-101 | on a file that does not read, the first submission with an eligible author raises the read's error after its comment replies; the run ends there, with the file as it was |
| Monitor.NoticeGreetsAuthor | bandcampbot.py:101 | the sticky notice's text starts with "Hi " followed by the author's name |
| Monitor.ProcessMatchesDecide | bandcampbot.py:92-101 | on a readable file, one iteration raises nothing, issues the decision's actions and leaves a file that reads as the decided table |
| Monitor.RunMatchesDecide | bandcampbot.py:90-101 | on a readable file, the loop raises nothing, issues the decisions' actions in submission order and leaves the file reading as the decided table |
| Monitor.RunStops | bandcampbot.py:90-101 | once an iteration raised, later submissions change nothing |
| Monitor.RunKeepsOthers | bandcampbot.py:90-101 | a user's record changes only if an eligible submission by that user was handled |
| Monitor.HandleSubmission | bandcampbot.py:92-101 | the loop body does what `Process` specifies for one submission |
| Monitor.MonitorSubreddit | bandcampbot.py:88-101 | the loop over a finite prefix of the stream does what `Run` specifies, and stops when a reset raises |
| Monitor.StartBot | bandcampbot.py:103-107 | `initialize_file()` at import, then the loop, as `Run` from the initialised file |

## Left out

- Client and configuration (bandcampbot.py:8-30): the praw client, `config.ini` and the logging setup are configuration and I/O. The log lines at 89, 91, 95 and 98 change no state and are not modelled.
- The stream and comment listing (bandcampbot.py:71-72, 90): the network is not modelled. The model takes a finite prefix of the submission stream and each author's comment bodies as inputs. It does not enforce the listing's limit of 100 comments.
- Platform actions (bandcampbot.py:80, 82, 100-101): replies, `distinguish` and `remove` are recorded as `Action` values. A praw exception from one of these calls would end the loop; that failure is not modelled.
- Dates (bandcampbot.py:86): `datetime.now().strftime('%Y-%m-%d')` is the parameter `today`, and in the loop the sequence `dates`. The model does not check the date format.
- File-system mechanics: `open` and `os.path.exists` become the `Option` in `ActivityFile.contents`. The `csv` module's quoting and escaping are not modelled: a row is the list of its fields. So is the newline translation of opening the file for reading without `newline=''`. Crash atomicity is not modelled either; the code does a plain overwrite.
- Activity.ParseRow: a row too short to hold `last_post_date` (or `username`, under a reordered header) while holding `comment_count` is reported as `MissingValue`. Python would instead store `None` there, the `DictReader` rest value.
- PyInt.ParseInt: accepts only ASCII digits. Python's `int()` also accepts other Unicode decimal digits.
- PyInt.ParseInt: does not model the 4300-digit limit that `int()` and `str()` enforce from Python 3.11. Above it, both raise `ValueError`. The limit depends on the interpreter version and its configuration. The program only writes 0 or a count it has read back, and those stay within the limit.
- PyInt.ParseIntOfIntToString: holds for every integer only without that digit limit. Under it, the round trip holds only up to 4300 digits.
- `reset_user_activity(author)` (bandcampbot.py:96) is passed the praw `Redditor` object, not its name. The object hashes differently from the string key read back from the file. So for a user already on file, the rewrite can carry a second row for that user at the end. The model keys the table by the username and writes one row per user. By `Activity.LaterRowWins`, the later row decides what a read returns, so reading either file gives the same table; only the stored rows differ.
- The submission title is only logged. It is carried in `Submission` and affects nothing.

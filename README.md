# Résumé archive comparison, modelled in Dafny

This project models the archive-backed résumé review of `api.py` in the
*tail-of-people* recruiting tool. A submitted résumé is stored as
`database/<position>/<YYYYMMDD_HHMMSS>/<file>.pdf`, and its review is stored
beside it as `review_result.txt`. The file has three operations:

- `get_recent_resumes` reads the position off the current path and lists
  that position's folders newest first. It walks the first `limit` folders
  and collects a `{folder, pdf_path, review_content}` record for each one
  that has a PDF, whose first PDF (in listing order) is not the current
  résumé, and that has a stored review.
- `compare_recent_5_resumes` reads the current review and fetches the recent
  records. It needs at least two records. It builds a prompt (header, the
  current review, one labelled block per peer outside the current folder,
  four closing questions) and asks the chat service. Any exception becomes
  a fixed prefix followed by the exception text.
- `review_resume` wraps the résumé text and the position into a prompt and a
  system message and asks the chat service. Errors are wrapped the same way.

Modules:

- `Text`: lexical order on strings, `str.split`/`str.join`, and decimal digits.
- `Paths`: POSIX `os.path.join`, `dirname` and `normpath`. The separator is `/`.
- `Archive`: the filesystem, a map from normalised paths to directories and
  files, with `glob`, `os.path.exists` and `open().read()`.
- `Sorting`: `list.sort(reverse=True)` on strings.
- `Selector`: `get_recent_resumes`, as a method with a loop proved against
  the function `SelectRecent`.
- `Llm`: the chat service as a function parameter `llm: Request -> Reply`.
- `Evaluator`: `review_resume`.
- `Comparator`: `compare_recent_5_resumes`. The prompt loop is a method
  proved against `ComparisonPrompt`.
- `Timestamps`: app.py's folder naming convention. Zero-padded upload
  tokens sort lexically in chronological order.

Exceptions are values (`Outcomes.Result`, `Outcomes.Exception`). These are:

- the `ValueError` of `parts.index("database")`;
- the `IndexError` when `database` is the last component;
- `IsADirectoryError` and `FileNotFoundError` from `open`.

`get_recent_resumes` propagates them. The comparator's catch-all turns them
into its error text.

## Model

| member | source | states |
|---|---|---|
| Selector.GetRecentResumes | api.py:9-63 | The loop (with its `continue` skips, the failing read and the `len >= limit` break) returns exactly `SelectRecent`, the selection the lemmas below describe |
| Selector.IndexOf | api.py:22 | `list.index`: the first position holding the value, or none exactly when the value is absent |
| Selector.PositionOfSpec | api.py:21-23 | The position is the component right after the first `database`. A path without `database` raises `ValueError`. A path ending at it raises `IndexError` |
| Selector.WindowLen | api.py:32 | The slice `[:limit]` never exceeds the list, negative limits included |
| Selector.ExamineKeep | api.py:34-57 | A folder gives a record exactly when it has a PDF, its first PDF is not the current path, and its review reads as text. The record holds that folder, that PDF and that text |
| Selector.CollectLength | api.py:52-61 | The loop collects no more records than it walks, and no more than the limit (one, for a limit below one) |
| Selector.CollectPrefix | api.py:32-61 | The collected records are a prefix of all qualifying records, in walking order |
| Selector.CollectComplete | api.py:32-61 | With no unreadable review and a budget as large as the walk, every qualifying folder is collected |
| Selector.KeptFolders | api.py:32-58 | The qualifying records name walked folders in walking order, each the record its folder yields |
| Selector.SelectRecentBounded | api.py:28-32 | At most `limit` records, and every record's folder is among the first `limit` entries of the newest-first listing |
| Selector.SelectRecentOrdered | api.py:27-32 | Records come in strictly descending folder order, as a subsequence of the sorted listing (for a well-formed filesystem) |
| Selector.SelectRecentLocation | api.py:21-27 | Every record's folder is `database/<position>/<entry>` for an entry of the position directory, the position being read off the current path |
| Selector.SelectRecentRecords | api.py:34-57 | Every record names its folder's first PDF, which is never the current path, and carries exactly the stored review text |
| Selector.SelectRecentWindow | api.py:32-61 | For `limit >= 0` with readable reviews, the result is every qualifying folder among the first `limit` entries. Skipped folders count against the limit |
| Selector.ListingStrict | api.py:27-28 | The sorted listing of a well-formed position directory is strictly descending |
| Sorting.Insert | api.py:28 | Inserting into a descending list gives a descending permutation with the element added |
| Sorting.SortDesc | api.py:28 | The sort gives a descending permutation of the listing |
| Sorting.SortDescStrict | api.py:28 | Sorting distinct names gives a strictly descending list |
| Sorting.DescendingUnique | api.py:28 | Only one descending arrangement of a multiset exists, so the model's sort agrees with Python's |
| Archive.ReadText | api.py:49-50 | A successful read returns the text of the file stored at the path. A missing path raises `FileNotFoundError` and a directory raises `IsADirectoryError` |
| Archive.GlobMembers | api.py:27 | A glob yields exactly the matching entries joined to the directory |
| Archive.GlobDistinct | api.py:27 | On a well-formed filesystem a glob never yields a path twice |
| Paths.DirnameJoin | api.py:79-80 | `dirname(join(d, n))` is `d` for a name without separator and `d` without a trailing one |
| Paths.NormpathIdempotent | api.py:109 | `normpath` is idempotent |
| Paths.NormpathJoinInjective | api.py:109 | Two entry names joined to one directory normalise to the same path only if they are the same name |
| Text.SplitJoin | api.py:21 | Splitting a join of separator-free parts gives back the parts |
| Text.JoinSplit | api.py:21 | Joining the parts of a split gives back the string |
| Text.LexLessDigits | api.py:28 | On equal-length digit strings, lexical order is numeric order |
| Text.Decimal | api.py:113 | `str(i+1)` is a digit string with no leading zero that denotes the number |
| Llm.Render | api.py:140-146 | A reply gives its text. An exception gives the fixed prefix followed by the exception text |
| Llm.EmbeddedRoundTrip | api.py:167-180 | A text embedded between a fixed head and tail can be taken back out |
| Evaluator.ReviewRequestCarries | api.py:167-182 | The review request uses the given model. The résumé text is recoverable from the user message and the position from the system message |
| Evaluator.ReviewRequestInjective | api.py:167-182 | Different résumé texts, models or positions make different requests |
| Evaluator.ReviewDefaultsRequest | api.py:149-153 | With its default arguments, `review_resume` asks `gpt-4o`, names the computer-vision position in the system message and carries the résumé text |
| Evaluator.ReviewResumeOutcome | api.py:165-195 | `review_resume` returns the reply text, or the fixed review-error prefix followed by the error text |
| Comparator.AppendPeers | api.py:107-115 | The loop appends to the prompt exactly `RenderPeers` of the peers: one block per record not in the current folder |
| Comparator.AppendPeer | api.py:108-115 | One turn of that loop skips record `i` when excluded, and otherwise appends its block labelled `i+1` |
| Comparator.CompareRecentResumes | api.py:66-146 | No review: the fixed message, and no call. Current review unreadable or selector failing: the fixed prefix followed by the error text, and no call. Fewer than 2 records: the fixed message, and no call. Otherwise exactly one request with the system message and `ComparisonPrompt`, and the rendered reply |
| Comparator.PeersSound | api.py:107-115 | Every block in the prompt is a record not excluded, labelled with its index plus one, carrying that record's review |
| Comparator.PeersOrdered | api.py:107-115 | Blocks appear in record order: labels strictly increase |
| Comparator.PeersComplete | api.py:107-115 | Every record not excluded has its block in the prompt |
| Comparator.PeersCount | api.py:107-115 | With at most one excluded record, at most one block is missing. With none excluded, every record has a block |
| Comparator.SelectedFoldersApart | api.py:92-109 | On a well-formed filesystem no two selected records share a normalised folder |
| Comparator.ComparisonHasPeer | api.py:92-115 | Whenever the comparator reaches the service, the prompt holds at least one peer review, and at most one selected record is left out |
| Timestamps.Pad | app.py:59 | A zero-padded field has exactly the width, only digits, and denotes the number |
| Timestamps.TokenOrder | app.py:59 | Lexical order on `%Y%m%d_%H%M%S` tokens is chronological order |
| Timestamps.TokenInjective | app.py:59 | Different moments (to the second) give different tokens |
| Timestamps.TokenPlain | app.py:59 | A token is a plain path component |
| Timestamps.SaveFolderOrder | app.py:58-60 | Within a position, saved folders sort lexically as their upload times |
| Timestamps.SavedPathLayout | app.py:58-61 | The saved path names its position for the selector, and its directory is its submission folder |

Notes on the code's behaviour:

- The docstring calls `limit` the number of recent résumés to fetch
  (api.py:15). Yet the walk covers only `date_folders[:limit]` (api.py:32).
  Folders without a PDF, without a review, or whose first PDF is the current
  résumé are skipped, and they still count against the limit. So fewer than
  `limit` records can come back even when older qualifying folders exist
  (`Selector.SelectRecentWindow`).
- The comparator's threshold is fewer than **2** records (api.py:94). The
  comment there says "including the current résumé". Yet a record whose
  first PDF is the current path is never selected (api.py:38-39).
- A record in the current folder can still be selected when the path
  strings differ, for example `./database/...` against `database/...`. The
  prompt loop drops it by comparing normalised folders (api.py:109).
  `Comparator.ComparisonHasPeer` shows that at least one peer is left.
- `compare_recent_5_resumes` always selects with the default limit 5
  (api.py:92). Its `model` parameter is passed through unchanged; its
  default `gpt-4o` (api.py:66) is the caller's choice in the model.

## Left out

- The Streamlit interface, session state and download stream of app.py are
  not modelled. Only its folder naming convention (app.py:58-61) is.
- The archive writes (`save_file` and the review write at app.py:114-123) and
  PDF text extraction (utils.py) are not modelled. The filesystem is a given
  value that the core only reads.
- The OpenAI client is a function parameter. Not modelled: the API key, the
  `temperature` and `max_tokens` settings, the response object's shape, and
  a reply whose content is `None`.
- Selector.GetRecentResumes: the in-place `list.sort` is modelled on values,
  as an insertion sort whose result is proved to be the unique descending
  permutation.
- `glob` is modelled for the two patterns the core uses, `*` and `*.pdf`:
  - `*` does not match a leading dot;
  - other glob metacharacters inside directory names are not interpreted;
  - the listing order is the filesystem's entry order.
- Not modelled: symbolic links, the current working directory (relative and
  absolute paths are not resolved against each other), and permissions.
  Exceptions other than the four above (`PermissionError`, `UnicodeDecodeError`
  on a non-UTF-8 review) are therefore absent.
- `Archive.File` holds a file's text as `open(p, "r", encoding="utf-8").read()`
  returns it. That is after UTF-8 decoding and universal-newline translation
  (`"\r\n"` and `"\r"` become `"\n"`), not the bytes on disk. "Exactly the
  stored review text" holds in that sense.
- `str(e)` for `FileNotFoundError` and `IsADirectoryError` is rendered with
  plain quotes around the path. Python's `repr` escaping of unusual
  characters is not modelled.
- Timestamps.Valid: only years 1000-9999 are covered. Years narrower than
  four digits, where `strftime` behaviour varies by platform, are not.
- Concurrent uploads and reviews writing into the archive are not modelled.

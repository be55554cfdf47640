# CCTV program downloader: the rules that decide what is downloaded and where

The downloader (`main.py`) discovers every episode of a CCTV web program,
resolves each episode's best stream with a patched `yt-dlp`, and downloads the
episodes concurrently into one directory, skipping those already there. Most of
it is glue around HTTP, subprocesses and a thread pool. This project models the
deterministic rules underneath that glue and proves what they promise:

- **Naming** (`naming.dfy`): `safe_title_f` replaces every non-alphanumeric
  character by `_`, one for one; `output_path_f` builds
  `{dir}/{date}_{safe}_{res}.mp4`.
- **Existence** (`existence.dfy`): `do_video_exist` over a directory listing given
  as a sequence of file names: a title is present when some name contains its
  sanitised form and ends in `.mp4`.
- **Resolution** (`resolution.dfy`): the probing loop of `check_resolution` over
  the tool's captured `-F` output, the `[-1]` best-tier selection and the
  start-up self-check of `check_program` (exactly four tiers).
- **Discovery** (`discovery.dfy`): the page loop of `get_video_list` over a
  sequence of pages (a page past the end is empty), the limit, the final
  truncation, and the callback-envelope strip of `jsonify`.
- **Download** (`download.dfy`): what `download_video` decides before it runs the
  download tool (skip, no tier, or fetch with a given format and path), and the
  idempotence this gives: the file it names is recognised on a later run.
- `strings.dfy` holds the Python `str` operations used: `in`, `endswith`,
  `str(n)`, `lstrip`, `rstrip`.

`str.isalnum` is exact for ASCII (letters and digits) and a parameter
(`Naming.NonAsciiAlnum`) for characters from U+0080 on, which Python answers
from the Unicode database; everything is proved for every such database, and
`_` and `/` are not alphanumeric by the ASCII rule itself.

Three behaviours of the code are worth naming: the probed labels are
`hls-0`, `hls-1`, ...; a failed download exits the whole process rather than
failing one item (not modelled, see below); and the limit is an unrestricted
integer, so a negative limit is modelled with Python's slice semantics.

## Model

| member | source | states |
|---|---|---|
| `Naming.IsAlnum` | main.py:116 | exactly Python's `c.isalnum()`: ASCII letters and digits below U+0080, the Unicode database above |
| `Naming.SeparatorsAreNotAlnum` | main.py:116 | `_` and `/` are never alphanumeric |
| `Naming.SafeTitle` | main.py:115-116 | same length; alphanumeric characters kept in place; every other character is `_` |
| `Naming.SafeTitleAlphabet` | main.py:115-116 | a sanitised title holds only alphanumerics and `_`, so never `/` |
| `Naming.SafeTitleIdempotent` | main.py:115-116 | sanitising twice equals sanitising once |
| `Naming.SafeTitleExample` | main.py:115-116 | `"Ep. 1: Intro!"` becomes `"Ep__1__Intro_"` |
| `Naming.SafeTitleCollision` | main.py:115-116 | sanitising is not injective: `"a b"` and `"a-b"` both give `"a_b"` |
| `Naming.OutputName` | main.py:119-122 | the file name is `date`, `_`, the sanitised title, `_`, `res`, `.mp4`, at those offsets, and ends in `.mp4` |
| `Naming.JoinPath` | main.py:120-122 | `Path(dir) / name` is `name` for an empty directory, `dir + name` when `dir` ends in `/`, and `dir + "/" + name` otherwise |
| `Naming.Basename` | main.py:127 | the last path component holds no `/` and is a suffix of the path |
| `Naming.BasenameIsLastComponent` | main.py:127 | the listed name is the whole path or exactly what follows its last `/` |
| `Naming.OutputPath` | main.py:119-122 | the output path starts with the output directory and always ends in `.mp4` |
| `Naming.BasenameOfJoin` | main.py:120-122 | the listing name of `dir / name` is `name` when `name` has no `/` |
| `Naming.OutputPathBasename` | main.py:119-122 | with no `/` in date and tier, the file lands under exactly `{date}_{safe}_{res}.mp4` |
| `Existence.Matches` | main.py:128 | exactly the test `safe_title in filename and filename.endswith(".mp4")` for one name |
| `Existence.VideoExists` | main.py:125-130 | exactly what `do_video_exist` answers: some listed name matches |
| `Existence.DoVideoExist` | main.py:125-130 | true iff some listed name contains the sanitised title and ends in `.mp4` |
| `Existence.OutputNameMatches` | main.py:119-130 | the name `output_path_f` writes matches its own title |
| `Existence.ListedNameIsRecognised` | main.py:119-130 | a listed `{date}_{safe}_{res}.mp4` makes its title present |
| `Existence.NamedOutputIsRecognised` | main.py:119-130 | once the output file is listed, the title is reported present |
| `Existence.PresenceSurvivesMoreFiles` | main.py:125-130 | a listing that keeps every earlier name keeps every title present, including one matched only by substring |
| `Existence.ContainedTitleCountsAsPresent` | main.py:125-130 | false positive: a title whose sanitised form occurs in another's is present once the other's file is |
| `Existence.EmptyTitleMatchesAnyVideo` | main.py:125-130 | an empty title matches any listed `.mp4` |
| `Strings.Contains` | main.py:100 | exactly Python's `sub in s` on strings: some offset where `sub` occurs; `"" in s` holds |
| `Strings.EndsWith` | main.py:128 | exactly Python's `s.endswith(suffix)` |
| `Strings.NatToString` | main.py:100 | `str(i)` is a non-empty string of decimal digits |
| `Strings.NatToStringValue` | main.py:100 | those digits spell `i` in decimal, without a leading zero |
| `Resolution.LabelExamples` | main.py:100-102 | the probed labels are the printed ones: `hls-0`, `hls-4`, `hls-10` |
| `Resolution.Label` | main.py:100-102 | `hls-{i}` starts with `hls-` and holds no `/` |
| `Resolution.FirstMissing` | main.py:99-101 | the least probe index whose label is missing, or 100, and every label before it is present |
| `Resolution.TierCount` | main.py:98-104 | at most 100 tiers |
| `Resolution.TierCountIsLeast` | main.py:98-104 | the count is the unique k with all labels below k present and label k missing (or k = 100) |
| `Resolution.TierList` | main.py:98-104 | the list is `hls-0 .. hls-(k-1)`, each label occurs in the output, and the next label does not (below the cap) |
| `Resolution.CheckResolution` | main.py:98-104 | the loop returns exactly that list: length at most 100, labels in order, all present, stopped at the first missing one |
| `Resolution.BestTier` | main.py:141 | `[-1]` fails exactly on an empty list and otherwise gives the last tier |
| `Resolution.BestOfListing` | main.py:141 | selecting from a listing fails iff `hls-0` is missing, and otherwise gives `hls-(k-1)`, which the output contains |
| `Resolution.CheckProgram` | main.py:107-112 | the self-check passes iff `hls-0` to `hls-3` occur in the output and `hls-4` does not |
| `Strings.LStrip` | main.py:70 | `lstrip` removes the longest prefix of characters from the set: a suffix remains, starting outside the set |
| `Strings.RStrip` | main.py:70 | `rstrip` removes the longest suffix of characters from the set: a prefix remains, ending outside the set |
| `Discovery.Page` | main.py:77-79 | exactly `response_json["data"]["list"]` for page `pg`, empty past the last page served |
| `Discovery.Concat` | main.py:80 | exactly `result_list` after `result_list += video_list` for pages `0 .. n-1` |
| `Discovery.StopsAfter` | main.py:82 | exactly the exit test `not video_list or (limit and len(result_list) > limit)`, a non-zero limit being truthy |
| `Discovery.FetchedFrom` | main.py:76-83 | from a page reached without stopping, the loop requests pages until the first exit test that fires, at most up to page 999 |
| `Discovery.PagesFetched` | main.py:76-83 | between 1 and 1000 pages are requested |
| `Discovery.SliceTo` | main.py:86 | Python `s[:stop]`: a prefix, `min(stop, |s|)` long when non-negative, `max(0, |s| + stop)` long when negative |
| `Discovery.ApplyLimit` | main.py:85-86 | a zero limit keeps everything; otherwise a prefix of the length the slice gives |
| `Discovery.VideoList` | main.py:75-88 | the result is a prefix of the pages read, in page order: with a positive limit exactly the first min(limit, read) items, with no limit all of them, with a negative limit all but that many |
| `Discovery.GetVideoList` | main.py:75-88 | the loop requests `PagesFetched` pages and returns `VideoList` |
| `Discovery.ConcatPrefix` | main.py:80 | accumulating fewer pages gives a prefix of accumulating more |
| `Discovery.FetchShape` | main.py:76-88 | at most 1000 pages; no page before the last one requested was empty; the result keeps page order |
| `Discovery.StopsAtEmptyPage` | main.py:82-83 | the loop never requests a page after an empty one |
| `Discovery.NoLimitReturnsAllBeforeEmptyPage` | main.py:76-88 | with limit 0 and first empty page e, e + 1 pages are requested and every item before page e is returned |
| `Discovery.PositiveLimitTakesFirstItems` | main.py:76-88 | with limit L > 0 and first empty page e, the result is the first min(L, available) items before page e |
| `Discovery.ReadBeforeEmptyPage` | main.py:76-83 | with the first empty page at e, the items read are all those before e, or an earlier stop holding more than the limit |
| `Discovery.TakeOfPrefix` | main.py:85-86 | cutting to `limit` a prefix that is whole or longer than `limit` takes the first min(limit, available) items |
| `Discovery.FetchesPastOpenPages` | main.py:76-83 | when no exit test fires up to page q, page q + 1 is requested |
| `Discovery.ExactLimitFetchesOneMorePage` | main.py:82 | the strict `>` test requests one more page when the count lands exactly on the limit |
| `Discovery.NegativeLimit` | main.py:82-86 | a negative limit stops after page 0 and drops that many items from its end |
| `Discovery.TwoItemsThenEmpty` | main.py:76-88 | two items on page 0 and an empty page 1: those two items, two requests |
| `Discovery.StripEnvelope` | main.py:69-70 | the stripped text neither starts with a head-set character nor ends with a tail-set character |
| `Discovery.EnvelopeRoundTrip` | main.py:69-70 | `lanmu_0(` + payload + `);` strips back to the payload when its ends lie outside the sets |
| `Discovery.EnvelopeStripsByCharacterSet` | main.py:70 | the strip works by character set: `lanmu_0(null);` strips to the empty string |
| `Download.PlanDownload` | main.py:136-142 | skip iff the title is present; no tier iff absent and `hls-0` missing; otherwise fetch `hls-(k-1)` to `output_path_f(dir, title, tier, safe(date))`, a file later recognised |
| `Download.DownloadedItemIsSkipped` | main.py:137-142 | once the file `download_video` names is listed, the item is skipped |
| `Download.SecondRunSkipsAll` | main.py:137-142 | with every item's file listed, every item of a second run is skipped |

## Left out

- HTTP fetching and HTML scraping (`request_html`, `get_program_title`, `get_topc`, the request URL of `get_video_list`): network I/O and regular expressions; the pages are a parameter.
- `json.loads` and the dictionary lookups `["data"]["list"]`, `entry["url"]` and so on: library calls; an entry is modelled as the `(url, title, time)` triple itself.
- The `yt-dlp` subprocess calls: the `-F` probe is replaced by its captured standard output; the download command, its `CalledProcessError` and `os._exit` are foreign process calls and are not modelled. The `-F` probe also runs with `check=True` (main.py:94-95) and raises `CalledProcessError` on a failing exit status: in `download_video` that error is logged for the one item by the main loop, and in `check_program` it ends the run; `PlanDownload` and `CheckProgram` have no outcome for it, since the exit status is not part of the captured output.
- The self-check's `exit(-1)` and the other `exit` calls: process termination; `CheckProgram` returns whether the run would continue.
- The poll with `time.sleep` after a download: filesystem timing with no termination guarantee.
- The `ThreadPoolExecutor` / `as_completed` orchestration, the per-future exception logging and the progress log lines: concurrency and logging.
- `os.listdir` and `Path.mkdir`: the listing is a sequence of file names.
- `argparse`, `setup_logging` and the three-second start-up delay: command-line and logging plumbing.
- Lone surrogates: a Python `str` (from `json.loads`, say) may hold them and a Dafny `char` cannot; titles and dates are modelled over Unicode scalar values only.
- `str.isalnum` above U+0080: the Unicode database is a parameter, not a table.
- `Naming.JoinPath`: models only the empty directory and a single trailing `/`; `pathlib`'s other normalisations (repeated slashes, `.` components, an absolute right-hand side) are not modelled.

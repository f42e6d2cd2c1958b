# Brazilian fund extract loader — Dafny model

This project models the decision logic of a small script. The script downloads the
daily fund-position extract ("extrato_fi.csv") published by the CVM. It saves the
extract in a local directory, after removing every older CSV file there. It then
works out the file's separator and text encoding by trial reads and loads the file.

The project has three modules, one per piece of logic in `main.py`:

- `Sniffer` (sniffer.dfy) covers `read_csv_interpreter`. The library read of a
  two-row sample is an uninterpreted probe, `(encoding, separator) -> Throws | Empty | NonEmpty`.
  The candidate lists are the source's constants. Encodings are `utf-8`, `latin1`,
  `iso-8859-1`, and separators are `;`, `/`, `|`, tab, `,`. The nested `for` loops with
  early return become the method `ReadCsvInterpreter`. It is proved equal to the
  recursive specification `Sniff`, whose lemmas state the search rule: the first
  parsing pair in encoding-major, separator-minor order wins, in both directions;
  raising and empty are the same failure; exhausting all 15 pairs is `ValueError`.
- `Store` (store.dfy) covers `delete_old_files` and `cvm_dwnld_and_save`. The
  directory is a `map` from entry names to byte contents, held in a field of class
  `Folder` that the two methods update in place. The cleaner walks the key set in
  an arbitrary order, as `os.listdir` gives no order. The HTTP request is given
  as its outcome: `FetchFailed | Response(status, body)`.
- `Pipeline` (pipeline.dfy) covers the early-exit flow of `main`. Reading the
  saved file is given as two oracles over its contents: the two-row probe and
  the full read.

Where the system's design notes and the code disagree, the model follows the code:

- Errors. Intended: separate network, remote-status, cleanup and empty-dataset
  errors that abort the run. Code: a failed or non-200 fetch makes
  `cvm_dwnld_and_save` return `None`, and an empty full read prints a message and
  returns. The `try` covers only the HTTP request. So the `ValueError` of the sniffer,
  exceptions of the reading library, and OS errors in the cleanup and in the write
  all escape `main`. The model leaves the OS errors out (see Left out).
  `Pipeline.RunOutcome` has one case for each remaining ending.
- Failed deletion. Intended: abort the run. Code: the exception just propagates,
  unhandled. The model's directory cannot fail (see Left out).
- Empty downloads. Intended: a zero-byte or header-only file is detected as empty
  and reported, not crashed on. Code: every two-row probe of such a file raises or
  yields an empty frame, so `read_csv_interpreter` raises `ValueError` before the
  `df.empty` check is reached. That check only fires when the full read is empty
  after a non-empty two-row sample. `Pipeline.RunOnUnreadableSample` states this:
  such a run ends `FormatUndetected`, never `EmptyFile`.

One consequence of the fixed lists is proved as `Sniffer.Iso88591NeverDetected`.
`latin1` and `iso-8859-1` are two names for the same codec. So when the probe treats
both names alike, the third candidate encoding is never the one returned.

## Model

| member | source | states |
|---|---|---|
| `Sniffer.FirstSeparator` | main.py:32-38 | The inner loop's choice is a candidate separator whose probe parses; it finds none exactly when no separator in the list parses under that encoding. |
| `Sniffer.Sniff` | main.py:29-39 | A detected pair comes from the candidate lists and its probe parses; `ValueError` exactly when no (encoding, separator) pair parses. |
| `Sniffer.ReadCsvInterpreter` | main.py:25-39 | The nested loops with early return compute exactly `Sniff` over the fixed lists; a returned separator is one of `;`, `/`, the vertical bar, tab or `,` and the encoding one of `utf-8` `latin1` `iso-8859-1`. |
| `Sniffer.FirstSeparatorIsFirst` | main.py:32-36 | The separator chosen for an encoding is preceded in the list only by separators that fail. |
| `Sniffer.FirstSeparatorAt` | main.py:32-36 | A separator that parses and comes after only failing ones is the one chosen. |
| `Sniffer.NoneParsesBeforeShift` | main.py:31-38 | If every separator fails under the first encoding, the failing prefix of the remaining encodings extends to the whole list, one encoding further on. |
| `Sniffer.SniffIsFirst` | main.py:31-36 | A detected pair sits at some (encoding, separator) position, parses, and every pair before it in encoding-major, separator-minor order fails. |
| `Sniffer.FirstParsingPairWins` | main.py:31-36 | Conversely, the first parsing pair in that order is the detected pair, whatever later probes say. |
| `Sniffer.FirstSeparatorAgrees` | main.py:33-38 | Two probes that agree on which separators parse choose the same separator. |
| `Sniffer.OnlyParsingMatters` | main.py:33-38 | Raising and returning an empty frame are the same failure: probes that agree on which pairs parse give the same detection. |
| `Sniffer.Iso88591NeverDetected` | main.py:30-31 | If the probe reads `latin1` and `iso-8859-1` alike, the detected encoding is never `iso-8859-1`. |
| `Sniffer.Utf8SemicolonWins` | main.py:31-36 | If the sample parses as `utf-8` with `;`, the result is `(';', 'utf-8')` regardless of the other probes. |
| `Store.WithoutCsv` | main.py:43-45 | After cleaning, no entry ending in `.csv` remains; every other entry remains with its contents; nothing is added. |
| `Store.Saved` | main.py:55-60 | After a save, `extrato_fi.csv` holds the body and is the only CSV entry; old non-CSV entries are kept unchanged and nothing else is present. |
| `Store.WithoutCsvIdempotent` | main.py:42-45 | Cleaning an already cleaned directory changes nothing. |
| `Store.SavedHasOneCsv` | main.py:55-60 | After a save the set of CSV names is exactly `{extrato_fi.csv}`. |
| `Store.SaveTwiceIsSaveOnce` | main.py:55-60 | Two successful saves in a row leave the directory the second alone leaves, so still one CSV file. |
| `Store.Folder.DeleteOldFiles` | main.py:42-45 | Walking the listing in any order and removing `.csv` entries leaves the directory equal to `WithoutCsv` of the old one. |
| `Store.Folder.CvmDwnldAndSave` | main.py:47-64 | Returns 1 exactly on a status-200 response, with the directory then `Saved(old, body)`. On a raised fetch or any other status it returns None and the directory is unchanged. |
| `Pipeline.Run` | main.py:66-80 | Stops with the directory untouched exactly when the download failed. Otherwise the extract is saved. The run raises the format error exactly when no candidate pair parses the saved contents. Otherwise the full read with the detected pair decides: raise, empty-file stop or preview. |
| `Pipeline.RunOnUnreadableSample` | main.py:34-39 | A status-200 download whose every two-row probe raises or is empty ends in the sniffer's `ValueError` with the extract saved; it never reaches the empty-file stop of main.py:78-80. |

## Left out

- The HTTP transport (`requests.get`) and the fixed URL: network I/O. The fetch is an input outcome.
- The tabular-data library's decoding, tokenising and header inference: a foreign library. It is represented only by the probe and full-read oracles.
- Printing of messages and of `df.head()`: display only.
- Failure modes of `os.listdir`, `os.remove` and `open`: permissions, or a directory entry named `*.csv` that is itself a directory. The directory is an idealised map whose updates cannot fail.
- The `file_path` argument and path joining: the model has one directory, the `Folder` object.
- Concurrent runs against the same directory: the code does not address them.

# Land-records viewer: search-and-download core

This project models the core of `app.py`, a small web front end to the
New South Wales land-registry IIIF image service, and proves properties of
that model. Given a record identity (source, big number, small number or a
two- or three-letter parish alias, optional sheet, part) and a range of
candidate ids, `search_and_download` does the following:

- resolves the alias through a fixed table;
- builds one `info.json` address per candidate id, filed under a
  hundred-wide folder;
- probes every candidate;
- takes the first status-200 reply, in id order, whose body parses;
- hands that address to the `dezoomify-rs` rasterizer;
- reports `(found, message)`.

The model is split into six modules:

- `Text` (`text.dfy`): the Python string operations the core relies on.
  These are `str.isdigit`/`any`, `str(int)`, `"\n".join` and `str.replace`.
  Each one has a reference property proved about it. `Split`, a model of
  `str.split` on one character, is not used by the code; it is the reader
  against which the listing is proved to hold one line per entry.
- `Aliases` (`aliases.dfy`): the `ms_mapping` table in source order, the
  `get_small_number` lookup and the `print_ms_to_small_numbers` listing.
- `Locator` (`locator.dfy`): the following pieces.
  - the sheet/part suffix `file_end`;
  - the alias substitution, which gives a resolved small number or the
    invalid-parameter message;
  - the id-to-folder bucket;
  - the probe address of `fetch_url`.
- `Download` (`download.dfy`): the rasterizer command line, the preview
  address and the success/error message of `download_image`. The message
  comes in two forms. `DownloadImageUncaptured` is the code as written: the
  error stream is not captured, so every failure reads `None`.
  `DownloadImage` is the corrected form: it carries the process's error
  text (see "## Findings"). The search reports the form as written, as
  the code does; `CaptureChangesOnlyErrorText` relates the two forms.
- `Search` (`search.dfy`): `search_and_download`, in two forms. `Search` is
  a reference function built on the first-to-last scan `Scan`. The method
  `SearchAndDownload` (with `ProbeAll` and the loop `ScanFutures`) follows
  the code step by step and is proved equal to `Search`. Range lemmas then
  state what the search returns in terms of candidate ids:
  - the lowest match wins;
  - found exactly when some id matches;
  - replies for higher ids do not matter;
  - a failed probe read before the first match escapes;
  - a rasterizer failure still counts as found.
- `Scenarios` (`scenarios.dfy`): two worked requests. One is Sydney by
  alias with only id 3 present. The other has images at ids 7, 12 and 40,
  and id 7 is chosen.

The outside world consists of the image host, the worker pool, the
rasterizer process and floating-point arithmetic. These are parameters of
the model:

- `catalog: string -> Response` maps an address to the reply
  `requests.get` would give. A reply is a status and, for a parsed body, a
  width and a height or a parse error. Otherwise the request raised an
  exception (`ProbeFailed`): a connection, certificate, timeout or address
  error.
- `run: seq<string> -> RunResult` maps a rasterizer command line to its
  exit status and the text it writes to its error stream.
- `mp: (int, int) -> string` renders the one-decimal megapixel figure.

Two behaviours of the code worth noting:

- Every id above 400 goes into the folder `401-500`, and every id of 100
  or less (zero and negative ids included) goes into `1-100`. The code does
  not go on with further hundred-wide folders (`Locator.BucketIsBlock`).
- An exception raised by a probe that is read before the first match is
  not caught. `future.result()` re-raises it and it leaves
  `search_and_download`, so the outcome is `Raised`. Probes after the first
  match are never read, so their failures do not matter. Status and parse
  failures, by contrast, are skipped or leave a diagnostic line
  (`Search.ProbeFailureRaises`, `Search.HigherIdsIrrelevant`).

## Model

| member | source | states |
|---|---|---|
| Text.ContainsDigitIff | app.py:81 | the left-to-right scan `any(ch.isdigit() ...)` holds exactly when some position of the text holds a digit |
| Text.NatToStr | app.py:86 | the decimal text of a number is non-empty and made only of digits; it is `0` for zero and has no leading zero for a positive number |
| Text.NatToStrRoundTrip | app.py:86 | reading back the decimal text of a number gives the number |
| Text.IntToStrInjective | app.py:61 | distinct integers have distinct decimal texts, so the id inside an address determines the id |
| Text.IntToStrCharacters | app.py:86 | `str(n)` contains only digits and the minus sign |
| Text.SplitJoin | app.py:40 | splitting a `"\n".join` of lines without a newline gives back exactly those lines, in order |
| Text.ReplaceTrailing | app.py:67 | `str.replace` where the pattern occurs only as the tail replaces exactly that tail |
| Aliases.LookupIn | app.py:36-37 | the lookup is `None` exactly when no entry has the code, and otherwise returns the number of an entry with that code |
| Aliases.CodesDistinct | app.py:13-34 | no two entries of the alias table share a code, so the table is a dictionary |
| Aliases.SmallNumberOfEntry | app.py:36-37 | every alias of the table is found, with its own number |
| Aliases.ListingLines | app.py:39-40 | the listing splits into exactly one `code: number (name)` line per table entry, in table order |
| Locator.FileEnd | app.py:79 | the suffix starts with `P` exactly when there is a sheet; it ends with `J` and the part; with a sheet, the sheet sits between `P` and `J`; without one, the suffix is just `J` and the part |
| Locator.ResolveSmall | app.py:81-86 | a small number containing a digit is kept verbatim; an alias becomes its table number's decimal text; the result is invalid exactly when there is no digit and no entry has the code, and the message is then the header and the listing; a resolved number always contains a digit |
| Locator.ResolveSmallIdempotent | app.py:81-86 | resolving an already resolved small number changes nothing |
| Locator.InvalidSmallMessageLines | app.py:84 | the invalid-parameter message is its header line followed by one line per table entry |
| Locator.SydneyResolves | app.py:29 | the alias `Sy` resolves to `3000` |
| Locator.BucketIsBlock | app.py:51-60 | for ids 1 to 400 the folder is `lo-hi` of the hundred-wide block holding the id; ids of 0 or below fall in `1-100`; every id above 400 falls in `401-500` |
| Locator.ProbeUrlLayout | app.py:61 | the address starts with the service root, collection and source, and ends with the `source_big_small` stem and `.jp2/info.json` |
| Locator.ProbeUrlInjective | app.py:61 | distinct candidate ids are probed at distinct addresses |
| Download.DezoomifyArgv | app.py:72 | the rasterizer is invoked as `dezoomify-rs -l <address> <stem>.jpg` |
| Download.PreviewOfInfoUrl | app.py:67 | for an address holding `info.json` only as its tail, the preview address swaps that tail for `full/1024,/0/default.jpg` |
| Download.OutcomeMessage | app.py:73-76 | the message starts with `Error during dezoomify execution: ` exactly when the exit status is nonzero, and then carries the rendered error text; it is `Image successfully saved to <stem>.jpg` exactly when the status is zero |
| Download.DownloadImageUncaptured | app.py:72-76 | as written: the message starts with the error prefix exactly when the exit status is nonzero, and the text after it is then `None`; it is `Image successfully saved to <stem>.jpg` exactly when the status is zero |
| Download.UncapturedErrorReadsNone | app.py:72-74 | as written, with the error stream not captured, every failure reads `Error during dezoomify execution: None` |
| Download.UncapturedErrorLosesText | app.py:72-74 | as written, two failing runs that wrote different diagnostics give the same message |
| Download.DownloadImage | app.py:72-76 | corrected form: the error line appears exactly when the exit status is nonzero and carries the process's error text; the saved-file line `Image successfully saved to <stem>.jpg` appears exactly when the status is zero |
| Download.CapturedErrorCarriesText | app.py:72-74 | corrected form: a failure reads the prefix followed by the process's own text, and failing runs that wrote different diagnostics read differently |
| Download.CaptureChangesOnlyErrorText | app.py:72-76 | the corrected form agrees with the code on a zero exit status and, on a nonzero one, differs only in carrying the process's text after the error prefix |
| Search.ScanFirstMatch | app.py:95-113 | the first matching probe decides the scan: found, with the diagnostic lines of the probes before it, then its report |
| Search.ScanNoMatch | app.py:95-107 | with no match and no failed probe nothing is found and the message is the diagnostic lines of all probes |
| Search.ScanRaises | app.py:96 | a failed probe read before any match escapes the scan |
| Search.ScanFoundIff | app.py:95-113 | when every probe gets a reply, the scan finds something exactly when some probe matches |
| Search.LowestMatchWins | app.py:92-113 | the lowest matching id decides the search; the message is the diagnostics of the lower ids, then `Found image at`, `Image is WxH = MP` and the as-written download message for that id |
| Search.NoMatchInRange | app.py:95-117 | when every candidate replies without a match, the result is not found, with the diagnostics of the range and the closing `No image found` line |
| Search.EmptyRange | app.py:93-94 | an empty id range returns not found with only the closing line |
| Search.NotFoundEndsWithLine | app.py:115-116 | once the small number is resolved, every not-found outcome has a message ending with `\nNo image found with the provided parameters.` |
| Search.FoundIffSomeMatch | app.py:92-117 | when every candidate replies, the search finds an image exactly when some candidate in the range matches |
| Search.ProbeFailureRaises | app.py:96 | a failed probe for a candidate below every match makes the search raise that exception |
| Search.HigherIdsIrrelevant | app.py:95-113 | catalogs that agree up to the lowest match, searched over ranges that both reach it, give the same outcome |
| Search.FoundDespiteRasterFailure | app.py:110-113 | a match whose rasterizer exits with a nonzero status is still reported as found, and the message ends with `Error during dezoomify execution: None` |
| Search.ProbedUrls | app.py:93-94 | the `i`-th probe asks for candidate `start + i` at its own address |
| Search.SearchAndDownload | app.py:78-117 | the step-by-step search equals the reference `Search`; an unknown alias makes no request; otherwise every candidate of the range is requested in ascending order |
| Search.ProbeAll | app.py:88-117 | after resolution, the submitted probes and the scanned outcome equal the reference search for that small number |
| Search.ScanFutures | app.py:95-117 | the loop over the results equals the completed reference scan |
| Scenarios.SydneyStemText | app.py:109 | the Sydney request without a sheet writes `Sy_3000_3000J1` |
| Scenarios.SydneyUrlParts | app.py:51-61 | candidate 3 of the Sydney request lies in folder `1-100`, named `3`, under its stem |
| Scenarios.SydneyFindsThree | app.py:78-117 | the Sydney alias request over ids 1 to 4, where only id 3 has a 4000 by 3000 image, finds id 3 and reports it and its as-written download message, with no earlier line |
| Scenarios.SevenBeforeTwelveAndForty | app.py:95-113 | with images at ids 7, 12 and 40, the search reports id 7 alone |

## Left out

- The Flask route and application start-up (app.py:119-137) are not
  modelled: form parsing, defaults and `flash` are web glue.
- `requests.get` (app.py:62) is the parameter `catalog`, and every probe
  completes, with a reply or an exception. The code sets no timeout, so a
  probe that never completes would, through the executor's wait, keep the
  search from ever returning; that is not modelled. Certificate checking
  and the raw response text are not modelled either. `json.loads`
  and the key lookups (app.py:99-101) appear only as their result: a width
  and a height, or a parse error text.
- The `ThreadPoolExecutor` (app.py:92-94) is not modelled as concurrency.
  The model keeps what the code makes observable. Every candidate is
  submitted. Results are read in submission order. The executor still waits
  for outstanding probes after the `break`, which changes no result.
- `subprocess.run` (app.py:72) is the parameter `run`. The process's own
  behaviour and the file it writes are not modelled.
- Download.DownloadImageUncaptured: `run` always yields an exit status. When
  `/usr/local/bin/dezoomify-rs` is missing or not executable,
  `subprocess.run` raises instead (FileNotFoundError, PermissionError). That
  exception leaves `search_and_download` after a match, and nothing is
  returned. The model has no such path, so `Search.FoundDespiteRasterFailure`
  covers only a nonzero exit status.
- Search.Body: a `Descriptor` holds integer width and height. JSON floats
  or booleans, which the code accepts and renders as `4000.0` or `True`,
  are not modelled.
- Search.IsMatch: every `Descriptor` is a match. In the code, the
  megapixel division of app.py:102 lies inside the `try`. For dimensions
  whose product divided by 10**6 exceeds the float range, it raises
  OverflowError, and the reply becomes an `Error parsing image JSON` line;
  that case is not modelled.
- The megapixel figure `round(w * h / 10**6, 1)` (app.py:102) is floating
  point. It is the parameter `mp`, so its rounding is not modelled.
- The `preview` flag (app.py:66-69) only leads to a `print`. The print is
  not modelled, so `preview` is not a parameter of the search. The preview
  address itself is `Download.PreviewUrl`.
- `URL_END_JPG` (app.py:47) is defined but never used by the core, so it is
  not modelled.
- Scenarios.SydneyUrlParts: states the address of the Sydney request piece
  by piece rather than as one literal text, because a literal of that
  length is too costly for the verifier.
- Text.IsDigit: narrows `str.isdigit` to the ASCII digits `0`-`9`. Python
  also accepts every other Unicode character with a digit value: other
  scripts' decimal digits, superscripts such as `²` and circled digits such
  as `①`. These are not modelled.

## Findings

| source | as written | input that shows it | evidently intended | confidence | as-written member | corrected member |
|---|---|---|---|---|---|---|
| app.py:72-74 | the rasterizer is run without capturing its error stream, so `result.stderr` is `None` and the error message reads `Error during dezoomify execution: None` | any address for which the rasterizer exits with a nonzero status | the error message carries the rasterizer's diagnostic text (run with the error stream captured) | not executed | Download.UncapturedErrorLosesText | Download.CapturedErrorCarriesText |

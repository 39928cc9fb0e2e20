/** The record search of `search_and_download` (app.py lines 78-117): the
    candidate ids of `[start, end)` are probed in ascending order, the first
    status-200 reply whose body gives a width and a height wins and is
    handed to the rasterizer, a status-200 reply with a bad body leaves one
    diagnostic line, and every other reply is passed over.

    The remote catalog is the caller-supplied function `catalog` from an
    address to its reply; the rasterizer is `run`; the one-decimal megapixel
    text is `mp`. */
module Search {
  import opened Text
  import opened Aliases
  import opened Locator
  import opened Download

  /** What the body of a status-200 reply parses to. */
  datatype Body = Descriptor(width: int, height: int) | Malformed(error: string)

  /** The catalog's answer to one address: a reply, or the exception the
      request raised (a connection, certificate, timeout or address error),
      which `future.result()` re-raises. */
  datatype Response = Reply(status: int, body: Body) | ProbeFailed(reason: string)

  /** One completed probe, as `fetch_url` returns it. */
  datatype Probe = Probe(id: int, url: string, response: Response)

  /** What `search_and_download` does: returns `(found, message)`, or lets
      an exception from a probe escape. */
  datatype Outcome = Returned(found: bool, message: string) | Raised(error: string)

  /** The identity fields of one request. */
  datatype Identity = Identity(source: string, big: string, small: string, sheet: string, part: string)

  const NotFoundLine := "\nNo image found with the provided parameters."

  /** The address probed for candidate `id` once the small number is `small`. */
  function CandidateUrl(who: Identity, small: string, id: int): string {
    ProbeUrl(id, FileEnd(who.sheet, who.part), MidEir, who.source, who.source, who.big, small)
  }

  /** The local file stem of a request once the small number is `small`. */
  function MidFile(who: Identity, small: string): string {
    Stem(who.source, who.big, small, FileEnd(who.sheet, who.part))
  }

  /** `fetch_url`: probe one candidate id. */
  function FetchUrl(midNumber: int, who: Identity, small: string, catalog: string -> Response): Probe {
    var urlInfo := CandidateUrl(who, small, midNumber);
    Probe(midNumber, urlInfo, catalog(urlInfo))
  }

  /** The probe of each candidate id of a request. */
  function Fetcher(who: Identity, small: string, catalog: string -> Response): int -> Probe {
    id => FetchUrl(id, who, small, catalog)
  }

  lemma FetcherAt(who: Identity, small: string, catalog: string -> Response)
    ensures forall id :: Fetcher(who, small, catalog)(id) == FetchUrl(id, who, small, catalog)
  {
  }

  /** The probes of `[start, end)`, in submission order. */
  function ProbeRange(start: int, end: int, fetch: int -> Probe): seq<Probe> {
    seq(if start < end then end - start else 0, i => fetch(start + i))
  }

  /** Candidate `start + i` is the `i`-th probe. */
  lemma ProbeRangeAt(start: int, end: int, fetch: int -> Probe)
    ensures |ProbeRange(start, end, fetch)| == if start < end then end - start else 0
    ensures forall i :: 0 <= i < |ProbeRange(start, end, fetch)| ==> ProbeRange(start, end, fetch)[i] == fetch(start + i)
  {
  }

  predicate IsMatch(p: Probe) {
    p.response.Reply? && p.response.status == 200 && p.response.body.Descriptor?
  }

  /** A probe the scan moves past: any reply that is not a match. */
  predicate Passes(p: Probe) {
    p.response.Reply? && !IsMatch(p)
  }

  function ParseErrorLine(error: string): string {
    "Error parsing image JSON: " + error + "\n"
  }

  /** The two lines reporting a match. */
  function FoundLines(urlInfo: string, width: int, height: int, mp: (int, int) -> string): string {
    "Found image at " + urlInfo + "\n" + "Image is " + IntToStr(width) + "x" + IntToStr(height) + " = " + mp(width, height) + "MP\n"
  }

  /** What the scan reports for a matching probe: its two lines and the
      outcome of handing its address to the rasterizer. */
  function MatchReport(p: Probe, midFile: string, run: seq<string> -> RunResult, mp: (int, int) -> string): string {
    if IsMatch(p) then FoundLines(p.url, p.response.body.width, p.response.body.height, mp) + DownloadImageUncaptured(p.url, midFile, run)
    else ""
  }

  /** The report of a request whose local file stem is `midFile`. */
  function Reporter(midFile: string, run: seq<string> -> RunResult, mp: (int, int) -> string): Probe -> string {
    p => MatchReport(p, midFile, run, mp)
  }

  /** What a probe the scan moves past adds to the message. */
  function DiagnosticLine(p: Probe): string {
    if p.response.Reply? && p.response.status == 200 && p.response.body.Malformed? then ParseErrorLine(p.response.body.error)
    else ""
  }

  /** The diagnostic lines of a run of probes, in order. */
  function Diagnostics(ps: seq<Probe>): string
    decreases |ps|
  {
    if ps == [] then "" else DiagnosticLine(ps[0]) + Diagnostics(ps[1..])
  }

  function Prepend(text: string, o: Outcome): Outcome {
    match o
    case Returned(found, message) => Returned(found, text + message)
    case Raised(error) => o
  }

  /** The scan over the probes, first to last: the reference definition of
      the loop of `search_and_download`. */
  function Scan(ps: seq<Probe>, report: Probe -> string): Outcome
    decreases |ps|
  {
    if ps == [] then Returned(false, "")
    else
      match ps[0].response
      case ProbeFailed(reason) => Raised(reason)
      case Reply(status, body) =>
        if status != 200 then Scan(ps[1..], report)
        else
          match body
          case Malformed(error) => Prepend(ParseErrorLine(error), Scan(ps[1..], report))
          case Descriptor(_, _) => Returned(true, report(ps[0]))
  }

  /** The closing line the source adds when nothing was found. */
  function Complete(o: Outcome): Outcome {
    if o.Returned? && !o.found then Returned(false, o.message + NotFoundLine) else o
  }

  /** The search once the small number is known to be `small`. */
  function ResolvedSearch(who: Identity, small: string, start: int, end: int, catalog: string -> Response,
                          run: seq<string> -> RunResult, mp: (int, int) -> string): Outcome
  {
    Complete(Scan(ProbeRange(start, end, Fetcher(who, small, catalog)), Reporter(MidFile(who, small), run, mp)))
  }

  /** `search_and_download` as a function of its inputs: an unknown alias
      ends the request with the listing, any other small number is searched. */
  function Search(who: Identity, start: int, end: int, catalog: string -> Response,
                  run: seq<string> -> RunResult, mp: (int, int) -> string): Outcome
  {
    match ResolveSmall(who.small)
    case InvalidSmall(message) => Returned(false, message)
    case Resolved(small) => ResolvedSearch(who, small, start, end, catalog, run, mp)
  }

  lemma PrependTwice(a: string, b: string, o: Outcome)
    ensures Prepend(a, Prepend(b, o)) == Prepend(a + b, o)
  {
  }

  /** One step of the scan at position `i`. */
  lemma ScanStep(ps: seq<Probe>, i: int, report: Probe -> string)
    requires 0 <= i < |ps|
    ensures Passes(ps[i]) ==> Scan(ps[i..], report) == Prepend(DiagnosticLine(ps[i]), Scan(ps[i + 1..], report))
    ensures IsMatch(ps[i]) ==> Scan(ps[i..], report) == Returned(true, report(ps[i]))
    ensures ps[i].response.ProbeFailed? ==> Scan(ps[i..], report) == Raised(ps[i].response.reason)
  {
    assert ps[i..][0] == ps[i] && ps[i..][1..] == ps[i + 1..];
    if Passes(ps[i]) {
      PassedProbe(ps[i..], report);
    }
  }

  lemma PassedProbe(ps: seq<Probe>, report: Probe -> string)
    requires |ps| >= 1 && Passes(ps[0])
    ensures Scan(ps, report) == Prepend(DiagnosticLine(ps[0]), Scan(ps[1..], report))
  {
    var o := Scan(ps[1..], report);
    if o.Returned? {
      assert "" + o.message == o.message;
    }
  }

  /** The diagnostics of the first `k` probes start with those of the first. */
  lemma DiagnosticsOfPrefix(ps: seq<Probe>, k: int)
    requires 0 < k <= |ps|
    ensures Diagnostics(ps[..k]) == DiagnosticLine(ps[0]) + Diagnostics(ps[1..][..k - 1])
  {
    assert ps[..k][1..] == ps[1..][..k - 1];
  }

  /** The first match decides the scan: the message is the diagnostics of
      the probes before it, its two report lines and the download outcome. */
  lemma {:induction false} ScanFirstMatch(ps: seq<Probe>, k: int, report: Probe -> string)
    requires 0 <= k < |ps| && IsMatch(ps[k])
    requires forall j :: 0 <= j < k ==> Passes(ps[j])
    ensures Scan(ps, report) == Returned(true, Diagnostics(ps[..k]) + report(ps[k]))
    decreases k
  {
    if k == 0 {
      assert ps[..0] == [];
    } else {
      var rest := ps[1..];
      assert forall j :: 0 <= j < k - 1 ==> Passes(rest[j]) by {
        assert forall j :: 0 <= j < k - 1 ==> rest[j] == ps[j + 1];
      }
      assert rest[k - 1] == ps[k];
      ScanFirstMatch(rest, k - 1, report);
      PassedProbe(ps, report);
      DiagnosticsOfPrefix(ps, k);
      Associative(DiagnosticLine(ps[0]), Diagnostics(rest[..k - 1]), report(ps[k]));
    }
  }

  /** Without a match or a failed probe the scan finds nothing and
      the message is the diagnostics of all probes. */
  lemma {:induction false} ScanNoMatch(ps: seq<Probe>, report: Probe -> string)
    requires forall j :: 0 <= j < |ps| ==> Passes(ps[j])
    ensures Scan(ps, report) == Returned(false, Diagnostics(ps))
    decreases |ps|
  {
    if ps != [] {
      ScanNoMatch(ps[1..], report);
      PassedProbe(ps, report);
    }
  }

  /** A failed probe read before any match escapes the scan. */
  lemma {:induction false} ScanRaises(ps: seq<Probe>, k: int, report: Probe -> string)
    requires 0 <= k < |ps| && ps[k].response.ProbeFailed?
    requires forall j :: 0 <= j < k ==> Passes(ps[j])
    ensures Scan(ps, report) == Raised(ps[k].response.reason)
    decreases k
  {
    if k > 0 {
      ScanRaises(ps[1..], k - 1, report);
      PassedProbe(ps, report);
    }
  }

  /** When no probe fails to connect, the scan finds something exactly when
      some probe matches. */
  lemma {:induction false} ScanFoundIff(ps: seq<Probe>, report: Probe -> string)
    requires forall j :: 0 <= j < |ps| ==> ps[j].response.Reply?
    ensures Scan(ps, report).Returned?
    ensures Scan(ps, report).found <==> exists j :: 0 <= j < |ps| && IsMatch(ps[j])
    decreases |ps|
  {
    if ps != [] {
      ScanFoundIff(ps[1..], report);
      if !IsMatch(ps[0]) {
        PassedProbe(ps, report);
        if exists j :: 0 <= j < |ps| && IsMatch(ps[j]) {
          var j :| 0 <= j < |ps| && IsMatch(ps[j]);
          assert ps[1..][j - 1] == ps[j];
        }
      }
    }
  }

  /** The probes of `[start, end)` taken up to `start + k` are the probes
      of `[start, start + k)`. */
  lemma ProbeRangePrefix(start: int, end: int, k: int, fetch: int -> Probe)
    requires 0 <= k <= end - start
    ensures ProbeRange(start, end, fetch)[..k] == ProbeRange(start, start + k, fetch)
  {
    ProbeRangeAt(start, end, fetch);
    ProbeRangeAt(start, start + k, fetch);
  }

  /** Probes of ids on which two fetchers agree are the same. */
  lemma ProbeRangeAgree(start: int, end: int, f1: int -> Probe, f2: int -> Probe)
    requires forall id :: start <= id < end ==> f1(id) == f2(id)
    ensures ProbeRange(start, end, f1) == ProbeRange(start, end, f2)
  {
    ProbeRangeAt(start, end, f1);
    ProbeRangeAt(start, end, f2);
  }

  /** Over a range of ids, the lowest match decides the scan. */
  lemma RangeFirstMatch(start: int, end: int, fetch: int -> Probe, report: Probe -> string, m: int)
    requires start <= m < end && IsMatch(fetch(m))
    requires forall id :: start <= id < m ==> Passes(fetch(id))
    ensures Scan(ProbeRange(start, end, fetch), report) == Returned(true, Diagnostics(ProbeRange(start, m, fetch)) + report(fetch(m)))
  {
    ProbeRangeAt(start, end, fetch);
    ScanFirstMatch(ProbeRange(start, end, fetch), m - start, report);
    ProbeRangePrefix(start, end, m - start, fetch);
  }

  /** Over a range of ids without a match or a failure, the scan finds nothing. */
  lemma RangeNoMatch(start: int, end: int, fetch: int -> Probe, report: Probe -> string)
    requires forall id :: start <= id < end ==> Passes(fetch(id))
    ensures Scan(ProbeRange(start, end, fetch), report) == Returned(false, Diagnostics(ProbeRange(start, end, fetch)))
  {
    ProbeRangeAt(start, end, fetch);
    ScanNoMatch(ProbeRange(start, end, fetch), report);
  }

  /** Over a range of ids, a failure below every match escapes the scan. */
  lemma RangeRaises(start: int, end: int, fetch: int -> Probe, report: Probe -> string, m: int)
    requires start <= m < end && fetch(m).response.ProbeFailed?
    requires forall id :: start <= id < m ==> Passes(fetch(id))
    ensures Scan(ProbeRange(start, end, fetch), report) == Raised(fetch(m).response.reason)
  {
    ProbeRangeAt(start, end, fetch);
    ScanRaises(ProbeRange(start, end, fetch), m - start, report);
  }

  /** Over a range of ids that all reply, the scan finds something exactly
      when some id matches. */
  lemma RangeFoundIff(start: int, end: int, fetch: int -> Probe, report: Probe -> string)
    requires forall id :: start <= id < end ==> fetch(id).response.Reply?
    ensures Scan(ProbeRange(start, end, fetch), report).Returned?
    ensures Scan(ProbeRange(start, end, fetch), report).found <==> exists id :: start <= id < end && IsMatch(fetch(id))
  {
    var ps := ProbeRange(start, end, fetch);
    ProbeRangeAt(start, end, fetch);
    ScanFoundIff(ps, report);
    if exists id :: start <= id < end && IsMatch(fetch(id)) {
      var id :| start <= id < end && IsMatch(fetch(id));
      assert IsMatch(ps[id - start]);
    }
  }

  /** The lowest matching id of the range decides the search: the message
      is the diagnostics of the ids below it, then its report; no reply for
      a higher id enters the outcome. */
  lemma LowestMatchWins(who: Identity, small: string, start: int, end: int, catalog: string -> Response,
                        run: seq<string> -> RunResult, mp: (int, int) -> string, m: int)
    requires start <= m < end && IsMatch(FetchUrl(m, who, small, catalog))
    requires forall id :: start <= id < m ==> Passes(FetchUrl(id, who, small, catalog))
    ensures ResolvedSearch(who, small, start, end, catalog, run, mp)
      == Returned(true, Diagnostics(ProbeRange(start, m, Fetcher(who, small, catalog))) + MatchReport(FetchUrl(m, who, small, catalog), MidFile(who, small), run, mp))
  {
    RangeFirstMatch(start, end, Fetcher(who, small, catalog), Reporter(MidFile(who, small), run, mp), m);
  }

  /** When every candidate replies and none matches, nothing is found and the
      message is the diagnostics of the whole range and the closing line. */
  lemma NoMatchInRange(who: Identity, small: string, start: int, end: int, catalog: string -> Response,
                       run: seq<string> -> RunResult, mp: (int, int) -> string)
    requires forall id :: start <= id < end ==> Passes(FetchUrl(id, who, small, catalog))
    ensures ResolvedSearch(who, small, start, end, catalog, run, mp)
      == Returned(false, Diagnostics(ProbeRange(start, end, Fetcher(who, small, catalog))) + NotFoundLine)
  {
    RangeNoMatch(start, end, Fetcher(who, small, catalog), Reporter(MidFile(who, small), run, mp));
  }

  /** An empty range finds nothing and says only so. */
  lemma EmptyRange(who: Identity, small: string, start: int, end: int, catalog: string -> Response,
                   run: seq<string> -> RunResult, mp: (int, int) -> string)
    requires end <= start
    ensures ResolvedSearch(who, small, start, end, catalog, run, mp) == Returned(false, NotFoundLine)
  {
    assert ProbeRange(start, end, Fetcher(who, small, catalog)) == [];
    assert "" + NotFoundLine == NotFoundLine;
  }

  /** Whenever the search returns without a find, its message ends with the
      closing line. */
  lemma NotFoundEndsWithLine(who: Identity, small: string, start: int, end: int, catalog: string -> Response,
                             run: seq<string> -> RunResult, mp: (int, int) -> string)
    requires ResolvedSearch(who, small, start, end, catalog, run, mp).Returned?
    requires !ResolvedSearch(who, small, start, end, catalog, run, mp).found
    ensures EndsWith(ResolvedSearch(who, small, start, end, catalog, run, mp).message, NotFoundLine)
  {
    var o := Scan(ProbeRange(start, end, Fetcher(who, small, catalog)), Reporter(MidFile(who, small), run, mp));
    var text := o.message + NotFoundLine;
    assert text[|text| - |NotFoundLine|..] == NotFoundLine;
  }

  /** When every candidate replies, the search finds an image exactly when
      some candidate of the range matches. */
  lemma FoundIffSomeMatch(who: Identity, small: string, start: int, end: int, catalog: string -> Response,
                          run: seq<string> -> RunResult, mp: (int, int) -> string)
    requires forall id :: start <= id < end ==> FetchUrl(id, who, small, catalog).response.Reply?
    ensures ResolvedSearch(who, small, start, end, catalog, run, mp).Returned?
    ensures ResolvedSearch(who, small, start, end, catalog, run, mp).found
      <==> exists id :: start <= id < end && IsMatch(FetchUrl(id, who, small, catalog))
  {
    FetcherAt(who, small, catalog);
    RangeFoundIff(start, end, Fetcher(who, small, catalog), Reporter(MidFile(who, small), run, mp));
  }

  /** A failed probe for a candidate below every match escapes the
      search instead of being reported. */
  lemma ProbeFailureRaises(who: Identity, small: string, start: int, end: int, catalog: string -> Response,
                                run: seq<string> -> RunResult, mp: (int, int) -> string, m: int)
    requires start <= m < end && FetchUrl(m, who, small, catalog).response.ProbeFailed?
    requires forall id :: start <= id < m ==> Passes(FetchUrl(id, who, small, catalog))
    ensures ResolvedSearch(who, small, start, end, catalog, run, mp) == Raised(FetchUrl(m, who, small, catalog).response.reason)
  {
    RangeRaises(start, end, Fetcher(who, small, catalog), Reporter(MidFile(who, small), run, mp), m);
  }

  /** Two catalogs that agree up to the lowest match, searched over ranges
      that both reach it, give the same outcome: replies for higher ids and
      the end of the range do not matter. */
  lemma HigherIdsIrrelevant(who: Identity, small: string, start: int, end1: int, end2: int,
                            c1: string -> Response, c2: string -> Response,
                            run: seq<string> -> RunResult, mp: (int, int) -> string, m: int)
    requires start <= m && m < end1 && m < end2 && IsMatch(FetchUrl(m, who, small, c1))
    requires forall id :: start <= id < m ==> Passes(FetchUrl(id, who, small, c1))
    requires forall id :: start <= id <= m ==> c1(CandidateUrl(who, small, id)) == c2(CandidateUrl(who, small, id))
    ensures ResolvedSearch(who, small, start, end1, c1, run, mp) == ResolvedSearch(who, small, start, end2, c2, run, mp)
  {
    var f1, f2 := Fetcher(who, small, c1), Fetcher(who, small, c2);
    FetcherAt(who, small, c1);
    FetcherAt(who, small, c2);
    assert forall id :: start <= id <= m ==> f1(id) == f2(id);
    var report := Reporter(MidFile(who, small), run, mp);
    RangeFirstMatch(start, end1, f1, report, m);
    RangeFirstMatch(start, end2, f2, report, m);
    ProbeRangeAgree(start, m, f1, f2);
  }

  /** A match is reported as found even when the rasterizer then fails;
      the message then ends with the error line, which reads `None` because
      the error stream is not captured. */
  lemma FoundDespiteRasterFailure(who: Identity, small: string, start: int, end: int, catalog: string -> Response,
                                  run: seq<string> -> RunResult, mp: (int, int) -> string, m: int)
    requires start <= m < end && IsMatch(FetchUrl(m, who, small, catalog))
    requires forall id :: start <= id < m ==> Passes(FetchUrl(id, who, small, catalog))
    requires run(DezoomifyArgv(CandidateUrl(who, small, m), MidFile(who, small))).returnCode != 0
    ensures ResolvedSearch(who, small, start, end, catalog, run, mp).Returned? && ResolvedSearch(who, small, start, end, catalog, run, mp).found
    ensures EndsWith(ResolvedSearch(who, small, start, end, catalog, run, mp).message, ErrorPrefix + "None")
  {
    LowestMatchWins(who, small, start, end, catalog, run, mp, m);
    var p := FetchUrl(m, who, small, catalog);
    var before := Diagnostics(ProbeRange(start, m, Fetcher(who, small, catalog)));
    var lines := FoundLines(p.url, p.response.body.width, p.response.body.height, mp);
    var d := DownloadImageUncaptured(p.url, MidFile(who, small), run);
    UncapturedErrorReadsNone(p.url, MidFile(who, small), run);
    Associative(before, lines, d);
    assert (before + lines + d)[|before + lines + d| - |d|..] == d;
  }

  /** The `i`-th probe of a request asks for candidate `start + i`. */
  lemma ProbedUrls(start: int, end: int, who: Identity, small: string, catalog: string -> Response)
    ensures |ProbeRange(start, end, Fetcher(who, small, catalog))| == if start < end then end - start else 0
    ensures forall i :: 0 <= i < |ProbeRange(start, end, Fetcher(who, small, catalog))| ==>
      ProbeRange(start, end, Fetcher(who, small, catalog))[i].url == CandidateUrl(who, small, start + i)
  {
    ProbeRangeAt(start, end, Fetcher(who, small, catalog));
    FetcherAt(who, small, catalog);
  }

  /** `search_and_download` with the network, the worker pool and the
      rasterizer process replaced by `catalog` and `run`. Besides the
      outcome it reports the addresses requested, in submission order:
      none when the alias is unknown, every candidate of the range otherwise. */
  method SearchAndDownload(who: Identity, start: int, end: int, catalog: string -> Response,
                           run: seq<string> -> RunResult, mp: (int, int) -> string)
    returns (outcome: Outcome, probed: seq<string>)
    ensures outcome == Search(who, start, end, catalog, run, mp)
    ensures ResolveSmall(who.small).InvalidSmall? ==> probed == []
    ensures ResolveSmall(who.small).Resolved? ==>
      |probed| == (if start < end then end - start else 0) &&
      forall i :: 0 <= i < |probed| ==> probed[i] == CandidateUrl(who, ResolveSmall(who.small).small, start + i)
  {
    var fileSmall := who.small;
    if !ContainsDigit(fileSmall) {
      var lookup := SmallNumber(fileSmall);
      if lookup.None? {
        return Returned(false, InvalidSmallMessage()), [];
      }
      fileSmall := IntToStr(lookup.value);
    }
    assert ResolveSmall(who.small) == Resolved(fileSmall);
    outcome, probed := ProbeAll(who, fileSmall, start, end, catalog, run, mp);
  }

  /** The part of `search_and_download` after the small number is settled
      (app.py lines 88-117): every candidate of the range is submitted before
      the first result is read, then the results are scanned in order. */
  method ProbeAll(who: Identity, small: string, start: int, end: int, catalog: string -> Response,
                  run: seq<string> -> RunResult, mp: (int, int) -> string)
    returns (outcome: Outcome, probed: seq<string>)
    ensures outcome == ResolvedSearch(who, small, start, end, catalog, run, mp)
    ensures |probed| == (if start < end then end - start else 0)
    ensures forall i :: 0 <= i < |probed| ==> probed[i] == CandidateUrl(who, small, start + i)
  {
    var fileEnd := FileEnd(who.sheet, who.part);
    var futures := ProbeRange(start, end, Fetcher(who, small, catalog));
    ProbedUrls(start, end, who, small, catalog);
    probed := seq(|futures|, i requires 0 <= i < |futures| => futures[i].url);
    outcome := ScanFutures(futures, Stem(who.source, who.big, small, fileEnd), run, mp);
    assert MidFile(who, small) == Stem(who.source, who.big, small, fileEnd);
  }

  /** Appending a match's lines and download message to the text so far
      is prepending that text to the match's report. */
  lemma MatchAppends(message: string, p: Probe, midFile: string, run: seq<string> -> RunResult, mp: (int, int) -> string)
    requires IsMatch(p)
    ensures Prepend(message, Returned(true, Reporter(midFile, run, mp)(p)))
      == Returned(true, message + FoundLines(p.url, p.response.body.width, p.response.body.height, mp) + DownloadImageUncaptured(p.url, midFile, run))
  {
    Associative(message, FoundLines(p.url, p.response.body.width, p.response.body.height, mp), DownloadImageUncaptured(p.url, midFile, run));
  }

  /** The loop over the futures (app.py lines 95-117): read the results in
      submission order, skip what does not match, stop at the first match. */
  method ScanFutures(futures: seq<Probe>, midFile: string, run: seq<string> -> RunResult, mp: (int, int) -> string)
    returns (outcome: Outcome)
    ensures outcome == Complete(Scan(futures, Reporter(midFile, run, mp)))
  {
    ghost var report := Reporter(midFile, run, mp);
    var found := false;
    var message := "";
    for i := 0 to |futures|
      invariant !found
      invariant Scan(futures, report) == Prepend(message, Scan(futures[i..], report))
    {
      var probe := futures[i];
      ScanStep(futures, i, report);
      match probe.response {
        case ProbeFailed(reason) =>
          return Raised(reason);
        case Reply(status, body) =>
          if status == 200 {
            match body {
              case Malformed(error) =>
                PrependTwice(message, ParseErrorLine(error), Scan(futures[i + 1..], report));
                message := message + ParseErrorLine(error);
                continue;
              case Descriptor(width, height) =>
                MatchAppends(message, probe, midFile, run, mp);
                message := message + FoundLines(probe.url, width, height, mp);
                var downloadMsg := DownloadImageUncaptured(probe.url, midFile, run);
                message := message + downloadMsg;
                found := true;
                break;
            }
          }
          PrependTwice(message, "", Scan(futures[i + 1..], report));
      }
    }
    if !found {
      message := message + NotFoundLine;
    }
    outcome := Returned(found, message);
  }
}

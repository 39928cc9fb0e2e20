/** Worked requests for `search_and_download` (app.py lines 78-117), stated
    with the catalog left open except for the replies that matter. */
module Scenarios {
  import opened Text
  import opened Locator
  import opened Download
  import opened Search

  /** Sydney, big number 3000, no sheet, part 1, searched by alias. */
  const SydneyRequest := Identity("Sy", "3000", "Sy", "", "1")

  const SydneyStem := "Sy_3000_3000J1"

  /** The local stem of the Sydney request. */
  lemma SydneyStemText()
    ensures MidFile(SydneyRequest, "3000") == SydneyStem
  {
    assert FileEnd("", "1") == "J1";
    SydneyStemLiteral();
  }

  lemma SydneyStemLiteral()
    ensures Stem("Sy", "3000", "3000", "J1") == SydneyStem
  {
    assert "Sy" + "_" + "3000" == "Sy_3000";
    assert "Sy_3000" + "_" + "3000" == "Sy_3000_3000";
  }

  /** The address of Sydney candidate 3 lies in folder `1-100`, is named by
      the id, and ends with the stem. */
  lemma SydneyUrlParts()
    ensures CandidateUrl(SydneyRequest, "3000", 3)
      == UrlHead(MidEir, "Sy") + "1-100" + UrlSlash + "3" + UrlSlash + SydneyStem + ".jp2/" + UrlEndInfo
  {
    SydneyStemText();
    assert Bucket(3) == "1-100";
    assert IntToStr(3) == "3";
  }

  /** Searching ids 1 to 4 for Sydney when only id 3 has an image, of
      4000 by 3000 pixels: the alias is resolved, ids 1 and 2 are passed
      over without a line, id 4 is never looked at, and the message reports
      id 3 and its download. */
  lemma SydneyFindsThree(catalog: string -> Response, run: seq<string> -> RunResult, mp: (int, int) -> string)
    requires forall id :: 1 <= id < 3 ==>
      catalog(CandidateUrl(SydneyRequest, "3000", id)).Reply? && catalog(CandidateUrl(SydneyRequest, "3000", id)).status != 200
    requires catalog(CandidateUrl(SydneyRequest, "3000", 3)) == Reply(200, Descriptor(4000, 3000))
    ensures Search.Search(SydneyRequest, 1, 5, catalog, run, mp)
      == Returned(true, FoundLines(CandidateUrl(SydneyRequest, "3000", 3), 4000, 3000, mp)
                        + DownloadImageUncaptured(CandidateUrl(SydneyRequest, "3000", 3), SydneyStem, run))
  {
    SydneyResolves();
    SydneyResolvedFindsThree(catalog, run, mp);
  }

  lemma SydneyResolvedFindsThree(catalog: string -> Response, run: seq<string> -> RunResult, mp: (int, int) -> string)
    requires forall id :: 1 <= id < 3 ==>
      catalog(CandidateUrl(SydneyRequest, "3000", id)).Reply? && catalog(CandidateUrl(SydneyRequest, "3000", id)).status != 200
    requires catalog(CandidateUrl(SydneyRequest, "3000", 3)) == Reply(200, Descriptor(4000, 3000))
    ensures ResolvedSearch(SydneyRequest, "3000", 1, 5, catalog, run, mp)
      == Returned(true, FoundLines(CandidateUrl(SydneyRequest, "3000", 3), 4000, 3000, mp)
                        + DownloadImageUncaptured(CandidateUrl(SydneyRequest, "3000", 3), SydneyStem, run))
  {
    SydneyStemText();
    LowestMatchWins(SydneyRequest, "3000", 1, 5, catalog, run, mp, 3);
    FetcherAt(SydneyRequest, "3000", catalog);
    SilentRange(1, 3, Fetcher(SydneyRequest, "3000", catalog));
  }

  /** Probes that all reply without status 200 leave no diagnostic line. */
  lemma {:induction false} SilentProbes(ps: seq<Probe>)
    requires forall j :: 0 <= j < |ps| ==> ps[j].response.Reply? && ps[j].response.status != 200
    ensures Diagnostics(ps) == ""
    decreases |ps|
  {
    if ps != [] {
      SilentProbes(ps[1..]);
    }
  }

  lemma SilentRange(start: int, end: int, fetch: int -> Probe)
    requires forall id :: start <= id < end ==> fetch(id).response.Reply? && fetch(id).response.status != 200
    ensures Diagnostics(ProbeRange(start, end, fetch)) == ""
  {
    ProbeRangeAt(start, end, fetch);
    SilentProbes(ProbeRange(start, end, fetch));
  }

  /** With images at ids 7, 12 and 40 of `[1, 50)` and no status-200 reply
      elsewhere below 7, id 7 is the one reported and downloaded. */
  lemma SevenBeforeTwelveAndForty(who: Identity, small: string, catalog: string -> Response,
                                  run: seq<string> -> RunResult, mp: (int, int) -> string)
    requires IsMatch(FetchUrl(7, who, small, catalog)) && IsMatch(FetchUrl(12, who, small, catalog))
    requires IsMatch(FetchUrl(40, who, small, catalog))
    requires forall id :: 1 <= id < 7 ==>
      FetchUrl(id, who, small, catalog).response.Reply? && FetchUrl(id, who, small, catalog).response.status != 200
    ensures ResolvedSearch(who, small, 1, 50, catalog, run, mp)
      == Returned(true, MatchReport(FetchUrl(7, who, small, catalog), MidFile(who, small), run, mp))
  {
    LowestMatchWins(who, small, 1, 50, catalog, run, mp, 7);
    FetcherAt(who, small, catalog);
    SilentRange(1, 7, Fetcher(who, small, catalog));
  }
}

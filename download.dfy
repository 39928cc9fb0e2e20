/** The message and path logic of `download_image` (app.py lines 65-76):
    the preview address, the rasterizer's command line and the outcome
    message chosen by its return code. The rasterizer process itself is the
    caller-supplied function `run` from a command line to its result. */
module Download {
  import opened Text
  import Locator

  const PathDezoomify := "/usr/local/bin/dezoomify-rs"
  const DownloadFormat := ".jpg"
  const UrlEndPreview := "full/1024,/0/default" + DownloadFormat
  const ErrorPrefix := "Error during dezoomify execution: "
  const SavedPrefix := "Image successfully saved to "

  /** What the rasterizer process does: its exit status and the text it
      writes to its error stream. */
  datatype RunResult = RunResult(returnCode: int, stderr: string)

  /** The rasterizer writes `midFile.jpg`. */
  function OutputPath(midFile: string): string {
    midFile + DownloadFormat
  }

  /** The command line of the rasterizer: local-manifest flag, the address,
      and the output file. */
  function DezoomifyArgv(urlInfo: string, midFile: string): (argv: seq<string>)
    ensures |argv| == 4 && argv[0] == PathDezoomify && argv[1] == "-l" && argv[2] == urlInfo
    ensures EndsWith(argv[3], ".jpg") && argv[3][..|argv[3]| - 4] == midFile
  {
    [PathDezoomify, "-l", urlInfo, OutputPath(midFile)]
  }

  /** The preview address: every `info.json` of the address becomes
      `full/1024,/0/default.jpg`. */
  function PreviewUrl(urlInfo: string): string {
    ReplaceAll(urlInfo, Locator.UrlEndInfo, UrlEndPreview)
  }

  /** For an address that holds `info.json` only as its tail, the preview
      address is the same address with that tail swapped. */
  lemma PreviewOfInfoUrl(prefix: string)
    requires forall i :: 0 <= i < |prefix| ==> !StartsWith((prefix + Locator.UrlEndInfo)[i..], Locator.UrlEndInfo)
    ensures PreviewUrl(prefix + Locator.UrlEndInfo) == prefix + "full/1024,/0/default.jpg"
  {
    ReplaceTrailing(prefix, Locator.UrlEndInfo, UrlEndPreview);
  }

  /** The outcome line for an exit status: an error line carrying the
      rendered error stream on a nonzero status, otherwise the saved file's
      name. */
  function OutcomeMessage(returnCode: int, errorText: string, midFile: string): (msg: string)
    ensures StartsWith(msg, ErrorPrefix) <==> returnCode != 0
    ensures msg == SavedPrefix + midFile + ".jpg" <==> returnCode == 0
    ensures returnCode != 0 ==> msg[|ErrorPrefix|..] == errorText
  {
    if returnCode != 0 then
      var msg := ErrorPrefix + errorText;
      assert msg[0] == 'E' && (SavedPrefix + midFile + ".jpg")[0] == 'I';
      msg
    else
      var msg := SavedPrefix + OutputPath(midFile);
      assert msg[0] == 'I' && ErrorPrefix[0] == 'E';
      msg
  }

  /** `download_image` as written: the rasterizer is started without
      capturing its error stream, so `result.stderr` is `None` and a
      failure renders as `None`, whatever the process wrote. */
  function DownloadImageUncaptured(urlInfo: string, midFile: string, run: seq<string> -> RunResult): (msg: string)
    ensures StartsWith(msg, ErrorPrefix) <==> run(DezoomifyArgv(urlInfo, midFile)).returnCode != 0
    ensures msg == SavedPrefix + midFile + ".jpg" <==> run(DezoomifyArgv(urlInfo, midFile)).returnCode == 0
    ensures run(DezoomifyArgv(urlInfo, midFile)).returnCode != 0 ==> msg[|ErrorPrefix|..] == "None"
  {
    OutcomeMessage(run(DezoomifyArgv(urlInfo, midFile)).returnCode, "None", midFile)
  }

  /** As written, every failure reads `Error during dezoomify execution: None`. */
  lemma UncapturedErrorReadsNone(urlInfo: string, midFile: string, run: seq<string> -> RunResult)
    requires run(DezoomifyArgv(urlInfo, midFile)).returnCode != 0
    ensures DownloadImageUncaptured(urlInfo, midFile, run) == "Error during dezoomify execution: None"
  {
  }

  /** As written, two failing runs that wrote different diagnostics give the
      same message: the process's text is lost. */
  lemma UncapturedErrorLosesText(urlInfo: string, midFile: string, run1: seq<string> -> RunResult, run2: seq<string> -> RunResult)
    requires run1(DezoomifyArgv(urlInfo, midFile)).returnCode != 0
    requires run2(DezoomifyArgv(urlInfo, midFile)).returnCode != 0
    ensures DownloadImageUncaptured(urlInfo, midFile, run1) == DownloadImageUncaptured(urlInfo, midFile, run2)
  {
    UncapturedErrorReadsNone(urlInfo, midFile, run1);
    UncapturedErrorReadsNone(urlInfo, midFile, run2);
  }

  /** `download_image` with the error stream captured: runs the rasterizer
      on the address and reports an error line carrying the process's text
      on a nonzero exit status, otherwise the saved file's name. */
  function DownloadImage(urlInfo: string, midFile: string, run: seq<string> -> RunResult): (msg: string)
    ensures StartsWith(msg, ErrorPrefix) <==> run(DezoomifyArgv(urlInfo, midFile)).returnCode != 0
    ensures msg == SavedPrefix + midFile + ".jpg" <==> run(DezoomifyArgv(urlInfo, midFile)).returnCode == 0
    ensures run(DezoomifyArgv(urlInfo, midFile)).returnCode != 0 ==>
      msg[|ErrorPrefix|..] == run(DezoomifyArgv(urlInfo, midFile)).stderr
  {
    var result := run(DezoomifyArgv(urlInfo, midFile));
    OutcomeMessage(result.returnCode, result.stderr, midFile)
  }

  /** Captured, a failure carries the process's own text after the prefix,
      and failing runs that wrote different diagnostics read differently. */
  lemma CapturedErrorCarriesText(urlInfo: string, midFile: string, run1: seq<string> -> RunResult, run2: seq<string> -> RunResult)
    requires run1(DezoomifyArgv(urlInfo, midFile)).returnCode != 0
    requires run2(DezoomifyArgv(urlInfo, midFile)).returnCode != 0
    ensures DownloadImage(urlInfo, midFile, run1) == ErrorPrefix + run1(DezoomifyArgv(urlInfo, midFile)).stderr
    ensures run1(DezoomifyArgv(urlInfo, midFile)).stderr != run2(DezoomifyArgv(urlInfo, midFile)).stderr ==>
      DownloadImage(urlInfo, midFile, run1) != DownloadImage(urlInfo, midFile, run2)
  {
    var m1, m2 := DownloadImage(urlInfo, midFile, run1), DownloadImage(urlInfo, midFile, run2);
    assert m1[|ErrorPrefix|..] == run1(DezoomifyArgv(urlInfo, midFile)).stderr;
    assert m2[|ErrorPrefix|..] == run2(DezoomifyArgv(urlInfo, midFile)).stderr;
  }

  /** Capturing the error stream changes only failures: on a zero exit
      status both forms report the saved file, and on a nonzero one both
      report the error prefix, the corrected form followed by the process's
      text where the code writes `None`. */
  lemma CaptureChangesOnlyErrorText(urlInfo: string, midFile: string, run: seq<string> -> RunResult)
    ensures run(DezoomifyArgv(urlInfo, midFile)).returnCode == 0 ==>
      DownloadImage(urlInfo, midFile, run) == DownloadImageUncaptured(urlInfo, midFile, run)
    ensures run(DezoomifyArgv(urlInfo, midFile)).returnCode != 0 ==>
      DownloadImage(urlInfo, midFile, run)
        == DownloadImageUncaptured(urlInfo, midFile, run)[..|ErrorPrefix|] + run(DezoomifyArgv(urlInfo, midFile)).stderr
  {
  }
}

/** Identity resolution and address construction of the record locator:
    the sheet/part suffix and the alias substitution of `search_and_download`
    (app.py lines 79-86), and the range bucket and IIIF `info.json` address
    of `fetch_url` (app.py lines 50-61). */
module Locator {
  import opened Text
  import opened Aliases

  const UrlSlash := "%2F"
  const UrlStart := "https://api.lrsnative.com.au/hlrv/iiif/2/"
  const UrlEndInfo := "info.json"
  /** The fixed collection segment of every probe address. */
  const MidEir := "eirCP"
  const InvalidSmallHeader := "Invalid file_small parameter. Valid options:"

  /** The sheet/part suffix of a file name: `P{sheet}J{part}` for a
      non-empty sheet, `J{part}` otherwise. */
  function FileEnd(sheet: string, part: string): (e: string)
    ensures |e| >= 1 && (e[0] == 'P' <==> sheet != "")
    ensures EndsWith(e, "J" + part)
    ensures sheet != "" ==> e[1..|e| - |part| - 1] == sheet
    ensures sheet == "" ==> |e| == |part| + 1
  {
    if sheet != "" then "P" + sheet + "J" + part else "J" + part
  }

  /** What becomes of the user's small number. */
  datatype Resolution = Resolved(small: string) | InvalidSmall(message: string)

  function InvalidSmallMessage(): string {
    InvalidSmallHeader + "\n" + Listing()
  }

  /** A small number containing a digit is used verbatim; otherwise it must
      be an alias of the table and becomes the decimal text of that entry's
      number; an unknown alias fails with the listing of the whole table. */
  function ResolveSmall(fileSmall: string): (r: Resolution)
    ensures r.Resolved? ==> ContainsDigit(r.small)
    ensures ContainsDigit(fileSmall) ==> r == Resolved(fileSmall)
    ensures r.InvalidSmall? <==> !ContainsDigit(fileSmall) && forall i :: 0 <= i < |MsMapping| ==> MsMapping[i].code != fileSmall
    ensures r.InvalidSmall? ==> r.message == InvalidSmallMessage()
    ensures forall i :: 0 <= i < |MsMapping| && MsMapping[i].code == fileSmall && !ContainsDigit(fileSmall) ==>
      r == Resolved(IntToStr(MsMapping[i].number))
  {
    if ContainsDigit(fileSmall) then Resolved(fileSmall)
    else
      match SmallNumber(fileSmall)
      case None => InvalidSmall(InvalidSmallMessage())
      case Some(n) =>
        CodesDistinct();
        NumberTextHasDigit(n);
        Resolved(IntToStr(n))
  }

  lemma NumberTextHasDigit(n: int)
    ensures ContainsDigit(IntToStr(n))
  {
    ContainsDigitIff(IntToStr(n));
    MinusSignIffNegative(n);
    var s := IntToStr(n);
    if n < 0 {
      assert IsDigit(NatToStr(-n)[0]) && s[1] == NatToStr(-n)[0];
    } else {
      assert IsDigit(s[0]);
    }
  }

  /** Resolving an already resolved small number changes nothing. */
  lemma ResolveSmallIdempotent(fileSmall: string)
    requires ResolveSmall(fileSmall).Resolved?
    ensures ResolveSmall(ResolveSmall(fileSmall).small) == ResolveSmall(fileSmall)
  {
  }

  /** The message for an unknown alias is the header line followed by one
      `code: number (name)` line per table entry, in table order. */
  lemma InvalidSmallMessageLines()
    ensures Split(InvalidSmallMessage(), '\n') == [InvalidSmallHeader] + AliasLines(MsMapping)
  {
    ListingLines();
    HeaderIsOneLine();
    SplitAtSeparator(InvalidSmallHeader, '\n', Listing());
  }

  lemma HeaderIsOneLine()
    ensures '\n' !in InvalidSmallHeader
  {
    assert forall i :: 0 <= i < |InvalidSmallHeader| ==> InvalidSmallHeader[i] != '\n';
  }

  /** The alias `Sy` resolves to the text `3000`. */
  lemma SydneyResolves()
    ensures ResolveSmall("Sy") == Resolved("3000")
  {
    assert !ContainsDigit("Sy");
    assert MsMapping[15].code == "Sy" && MsMapping[15].number == 3000;
    assert IntToStr(3000) == "3000";
  }

  /** The folder of an id: `1-100` up to 100, then one hundred-wide
      folder per hundred up to 400, and `401-500` for everything above. */
  function Bucket(id: int): string {
    if id <= 100 then "1-100"
    else if id <= 200 then "101-200"
    else if id <= 300 then "201-300"
    else if id <= 400 then "301-400"
    else "401-500"
  }

  /** First id of the hundred-wide block holding a positive id. */
  function BlockLow(id: int): int
    requires id >= 1
  {
    (id - 1) / 100 * 100 + 1
  }

  /** Against the reference partition into hundred-wide blocks: for ids 1
      to 400 the folder is `lo-hi` of the block holding the id; ids of zero
      or below share the first folder; every id above 400 shares the last. */
  lemma BucketIsBlock(id: int)
    ensures 1 <= id <= 400 ==> Bucket(id) == IntToStr(BlockLow(id)) + "-" + IntToStr(BlockLow(id) + 99)
    ensures 1 <= id <= 500 ==> BlockLow(id) <= id <= BlockLow(id) + 99
    ensures id <= 0 ==> Bucket(id) == "1-100"
    ensures id > 400 ==> Bucket(id) == "401-500"
  {
    if 1 <= id <= 500 {
      var k := (id - 1) / 100;
      assert 0 <= k < 5 && 100 * k <= id - 1 < 100 * k + 100;
      BucketOfBlock(k, id);
    }
  }

  /** The folder of each id of the `k`-th hundred, for the first four. */
  lemma BucketOfBlock(k: int, id: int)
    requires 0 <= k < 5 && 100 * k < id <= 100 * k + 100
    ensures k < 4 ==> Bucket(id) == IntToStr(100 * k + 1) + "-" + IntToStr(100 * k + 100)
  {
    BlockNames();
    if k == 0 {
      assert Bucket(id) == "1-100";
    } else if k == 1 {
      assert Bucket(id) == "101-200";
    } else if k == 2 {
      assert Bucket(id) == "201-300";
    } else if k == 3 {
      assert Bucket(id) == "301-400";
    }
  }

  lemma BlockNames()
    ensures IntToStr(1) + "-" + IntToStr(100) == "1-100"
    ensures IntToStr(101) + "-" + IntToStr(200) == "101-200"
    ensures IntToStr(201) + "-" + IntToStr(300) == "201-300"
    ensures IntToStr(301) + "-" + IntToStr(400) == "301-400"
  {
    BlockBoundsText();
  }

  lemma BlockBoundsText()
    ensures IntToStr(1) == "1" && IntToStr(100) == "100"
    ensures IntToStr(101) == "101" && IntToStr(200) == "200"
    ensures IntToStr(201) == "201" && IntToStr(300) == "300"
    ensures IntToStr(301) == "301" && IntToStr(400) == "400"
  {
  }

  /** The remote file name and local file stem: `source_big_small` followed
      by the sheet/part suffix. */
  function Stem(fileSource: string, fileBig: string, fileSmall: string, fileEnd: string): string {
    fileSource + "_" + fileBig + "_" + fileSmall + fileEnd
  }

  /** The `info.json` address probed for one candidate id. */
  function ProbeUrl(id: int, fileEnd: string, midEir: string, midSource: string,
                    fileSource: string, fileBig: string, fileSmall: string): string
  {
    UrlHead(midEir, midSource) + Bucket(id) + UrlSlash + IntToStr(id) + UrlSlash
      + Stem(fileSource, fileBig, fileSmall, fileEnd) + ".jp2/" + UrlEndInfo
  }

  /** Everything of the address up to the folder, which does not depend on the id. */
  function UrlHead(midEir: string, midSource: string): string {
    UrlStart + midEir + UrlSlash + midSource + UrlSlash
  }

  /** The address starts with the fixed head and ends with the local stem
      and `.jp2/info.json`; the stem itself does not depend on the id. */
  lemma ProbeUrlLayout(id: int, fileEnd: string, midEir: string, midSource: string,
                       fileSource: string, fileBig: string, fileSmall: string)
    ensures StartsWith(ProbeUrl(id, fileEnd, midEir, midSource, fileSource, fileBig, fileSmall),
      UrlStart + midEir + "%2F" + midSource + "%2F")
    ensures EndsWith(ProbeUrl(id, fileEnd, midEir, midSource, fileSource, fileBig, fileSmall),
      "%2F" + Stem(fileSource, fileBig, fileSmall, fileEnd) + ".jp2/info.json")
  {
    var t := Stem(fileSource, fileBig, fileSmall, fileEnd);
    Ends(UrlHead(midEir, midSource), Bucket(id), IntToStr(id), t, ".jp2/", "info.json");
  }

  lemma Ends(h: string, b: string, i: string, t: string, j: string, e: string)
    ensures EndsWith(h + b + "%2F" + i + "%2F" + t + j + e, "%2F" + t + (j + e))
    ensures StartsWith(h + b + "%2F" + i + "%2F" + t + j + e, h)
  {
    var s := h + b + "%2F" + i + "%2F" + t + j + e;
    var suffix := "%2F" + t + (j + e);
    assert s[|s| - |suffix|..] == suffix by {
      forall k | 0 <= k < |suffix| ensures s[|s| - |suffix| + k] == suffix[k] {
      }
    }
    assert s[..|h|] == h by {
      forall k | 0 <= k < |h| ensures s[k] == h[k] {
      }
    }
  }

  /** Distinct candidate ids are probed at distinct addresses. */
  lemma ProbeUrlInjective(a: int, b: int, fileEnd: string, midEir: string, midSource: string,
                          fileSource: string, fileBig: string, fileSmall: string)
    requires ProbeUrl(a, fileEnd, midEir, midSource, fileSource, fileBig, fileSmall)
          == ProbeUrl(b, fileEnd, midEir, midSource, fileSource, fileBig, fileSmall)
    ensures a == b
  {
    var head := UrlHead(midEir, midSource);
    var rest := "2F" + Stem(fileSource, fileBig, fileSmall, fileEnd) + ".jp2/info.json";
    UrlFields(a, fileEnd, midEir, midSource, fileSource, fileBig, fileSmall);
    UrlFields(b, fileEnd, midEir, midSource, fileSource, fileBig, fileSmall);
    var ta := Bucket(a) + "%" + ("2F" + (IntToStr(a) + "%" + rest));
    var tb := Bucket(b) + "%" + ("2F" + (IntToStr(b) + "%" + rest));
    PrefixCancel(head, ta, tb);
    BucketHasNoPercent(a);
    BucketHasNoPercent(b);
    PercentField(Bucket(a), "2F" + (IntToStr(a) + "%" + rest), Bucket(b), "2F" + (IntToStr(b) + "%" + rest));
    PrefixCancel("2F", IntToStr(a) + "%" + rest, IntToStr(b) + "%" + rest);
    IntToStrCharacters(a);
    IntToStrCharacters(b);
    PercentField(IntToStr(a), rest, IntToStr(b), rest);
    IntToStrInjective(a, b);
  }

  /** The address split at the separators that precede the id and the stem. */
  lemma UrlFields(id: int, fileEnd: string, midEir: string, midSource: string,
                  fileSource: string, fileBig: string, fileSmall: string)
    ensures ProbeUrl(id, fileEnd, midEir, midSource, fileSource, fileBig, fileSmall)
      == UrlHead(midEir, midSource) + (Bucket(id) + "%" + ("2F" + (IntToStr(id) + "%"
         + ("2F" + Stem(fileSource, fileBig, fileSmall, fileEnd) + ".jp2/info.json"))))
  {
    var t := Stem(fileSource, fileBig, fileSmall, fileEnd);
    Regroup(UrlHead(midEir, midSource), Bucket(id), IntToStr(id), t, ".jp2/", "info.json");
  }

  lemma Regroup(h: string, b: string, i: string, t: string, j: string, e: string)
    ensures h + b + "%2F" + i + "%2F" + t + j + e == h + (b + "%" + ("2F" + (i + "%" + ("2F" + t + (j + e)))))
  {
    var lhs := h + b + "%2F" + i + "%2F" + t + j + e;
    var rhs := h + (b + "%" + ("2F" + (i + "%" + ("2F" + t + (j + e)))));
    assert |lhs| == |rhs|;
    forall k | 0 <= k < |lhs| ensures lhs[k] == rhs[k] {
    }
  }

  lemma PrefixCancel(h: string, x: string, y: string)
    requires h + x == h + y
    ensures x == y
  {
    assert x == (h + x)[|h|..];
    assert y == (h + y)[|h|..];
  }

  lemma BucketHasNoPercent(id: int)
    ensures '%' !in Bucket(id)
  {
  }

  /** A text free of `%` followed by `%` is determined by where the first
      `%` stands. */
  lemma PercentField(x: string, r: string, y: string, t: string)
    requires '%' !in x && '%' !in y
    requires x + "%" + r == y + "%" + t
    ensures x == y && r == t
  {
    var s := x + "%" + r;
    assert forall i :: 0 <= i < |x| ==> s[i] == x[i];
    assert forall i :: 0 <= i < |y| ==> s[i] == y[i];
    assert s[|x|] == '%' && s[|y|] == '%';
    assert x == s[..|x|] && y == s[..|y|];
    assert r == s[|x| + 1..];
    assert t == (y + "%" + t)[|y| + 1..];
  }
}

/** The fixed table of small-number aliases (`ms_mapping`, app.py lines
    13-34) as an ordered sequence, so that the listing keeps the table's
    order, with lookup and the listing shown to the caller on a bad alias. */
module Aliases {
  import opened Text

  /** One table entry: the alias code, its small number and the place name. */
  datatype Alias = Alias(code: string, number: int, name: string)

  const MsMapping: seq<Alias> := [
    Alias("Ay", 3005, "Abury"),
    Alias("Ae", 3010, "Armidale"),
    Alias("Be", 3015, "Bourke"),
    Alias("Cma", 3020, "Cooma"),
    Alias("Cta", 3025, "Cootamundra"),
    Alias("Do", 3030, "Dubbo"),
    Alias("Fs", 3035, "Forbes"),
    Alias("Gbn", 3040, "Goulburn"),
    Alias("Gfn", 3050, "Grafton"),
    Alias("Hy", 3060, "Hay"),
    Alias("Ky", 3065, "Kempsey"),
    Alias("Md", 3070, "Maitland"),
    Alias("Me", 3080, "Moree"),
    Alias("Na", 3085, "Nowra"),
    Alias("Oe", 3090, "Orange"),
    Alias("Sy", 3000, "Sydney"),
    Alias("Th", 3100, "Tamworth"),
    Alias("Te", 3105, "Taree"),
    Alias("Wga", 3110, "Wagga Wagga"),
    Alias("Wa", 3115, "Wilcannia")
  ]

  /** Looks `code` up in `table`, first entry first. */
  function LookupIn(table: seq<Alias>, code: string): (r: Option<int>)
    ensures r.None? <==> forall i :: 0 <= i < |table| ==> table[i].code != code
    ensures r.Some? ==> exists i :: 0 <= i < |table| && table[i].code == code && table[i].number == r.value
    decreases |table|
  {
    if table == [] then None
    else if table[0].code == code then Some(table[0].number)
    else
      var r := LookupIn(table[1..], code);
      assert forall i :: 1 <= i < |table| ==> table[i] == table[1..][i - 1];
      r
  }

  /** `ms_mapping.get(ms, {}).get('number')`: the number of the alias, or
      `None` when the table has no such code. */
  function SmallNumber(ms: string): Option<int> {
    LookupIn(MsMapping, ms)
  }

  /** No two entries share a code, so the table is a dictionary and the
      entry a code names is the only one with that code. */
  lemma CodesDistinct()
    ensures forall i, j :: 0 <= i < j < |MsMapping| ==> MsMapping[i].code != MsMapping[j].code
  {
  }

  /** The entry for a known code is found, whatever its position. */
  lemma SmallNumberOfEntry(i: int)
    requires 0 <= i < |MsMapping|
    ensures SmallNumber(MsMapping[i].code) == Some(MsMapping[i].number)
  {
    CodesDistinct();
  }

  /** One line of the listing: `"code: number (name)"`. */
  function AliasLine(a: Alias): string {
    a.code + ": " + IntToStr(a.number) + " (" + a.name + ")"
  }

  function AliasLines(table: seq<Alias>): (lines: seq<string>)
    ensures |lines| == |table|
    ensures forall i :: 0 <= i < |table| ==> lines[i] == AliasLine(table[i])
  {
    seq(|table|, i requires 0 <= i < |table| => AliasLine(table[i]))
  }

  /** The whole table, one line per entry, as `print_ms_to_small_numbers`
      (app.py lines 39-40) renders it. */
  function Listing(): string {
    Join(AliasLines(MsMapping), "\n")
  }

  /** The listing holds exactly one line per table entry, in table order. */
  lemma ListingLines()
    ensures Split(Listing(), '\n') == AliasLines(MsMapping)
  {
    var lines := AliasLines(MsMapping);
    TableHasNoNewline();
    forall i | 0 <= i < |lines| ensures '\n' !in lines[i] {
      NoNewlineInLine(MsMapping[i]);
    }
    SplitJoin(lines, '\n');
  }

  lemma TableHasNoNewline()
    ensures forall i :: 0 <= i < |MsMapping| ==> '\n' !in MsMapping[i].code && '\n' !in MsMapping[i].name
  {
    forall i | 0 <= i < |MsMapping| ensures '\n' !in MsMapping[i].code && '\n' !in MsMapping[i].name {
      EntryHasNoNewline(i);
    }
  }

  lemma EntryHasNoNewline(i: int)
    requires 0 <= i < |MsMapping|
    ensures '\n' !in MsMapping[i].code && '\n' !in MsMapping[i].name
  {
    var a := MsMapping[i];
    assert forall j :: 0 <= j < |a.code| ==> a.code[j] != '\n';
    assert forall j :: 0 <= j < |a.name| ==> a.name[j] != '\n';
  }

  lemma NoNewlineInLine(a: Alias)
    requires '\n' !in a.code && '\n' !in a.name
    ensures '\n' !in AliasLine(a)
  {
    IntToStrCharacters(a.number);
    assert '\n' !in IntToStr(a.number);
  }
}

/**
 * The SAF writer of the TT-seq pipeline: from a gene's metadata record
 * it builds a featureCounts SAF file holding a header, the gene's sense
 * feature and its antisense twin `<gene>anti` on the opposite strand.
 */
module Saf {
  import opened Options
  import opened Text

  /** The arrays of the metadata JSON object that the script reads. */
  datatype Metadata = Metadata(
    geneName: seq<string>,
    chromosome: seq<string>,
    start: seq<int>,
    end: seq<int>,
    strand: seq<int>)

  /** Element 0 of each array. */
  datatype Gene = Gene(name: string, chromosome: string, start: int, end: int, strand: int)

  /** `json_object[key][0]` for each key; `None` where an array is empty and indexing raises `IndexError`. */
  function FirstGene(m: Metadata): (g: Option<Gene>)
    ensures g.Some? <==> m.geneName != [] && m.chromosome != [] && m.start != [] && m.end != [] && m.strand != []
    ensures g.Some? ==> g.value == Gene(m.geneName[0], m.chromosome[0], m.start[0], m.end[0], m.strand[0])
  {
    if m.geneName == [] || m.chromosome == [] || m.start == [] || m.end == [] || m.strand == [] then None
    else Some(Gene(m.geneName[0], m.chromosome[0], m.start[0], m.end[0], m.strand[0]))
  }

  /** `(gene_strand, gene_anti_sense)` for the strand value. */
  function Signs(strand: int): (string, string) {
    if strand > 0 then ("+", "-") else ("-", "+")
  }

  /** The sense strand is `+` exactly for a positive strand value, and the antisense strand is always the other one. */
  lemma SignsOpposite(strand: int)
    ensures Signs(strand).0 in {"+", "-"} && Signs(strand).1 in {"+", "-"}
    ensures Signs(strand).0 != Signs(strand).1
    ensures Signs(strand).0 == "+" <==> strand > 0
  {
  }

  const HeaderLine: string := "GeneID\tChr\tStart\tEnd\tStrand"

  /** The five tab-separated fields of one feature row. */
  function RowFields(geneId: string, chromosome: string, start: int, end: int, sign: string): seq<string> {
    [geneId, chromosome, IntToString(start), IntToString(end), sign]
  }

  /** One feature row without its newline, as the f-string lays it out. */
  function RowLine(geneId: string, chromosome: string, start: int, end: int, sign: string): string {
    geneId + "\t" + chromosome + "\t" + IntToString(start) + "\t" + IntToString(end) + "\t" + sign
  }

  /** The file the script writes. */
  datatype SafFile = SafFile(fileName: string, text: string)

  /** The header line and the two feature rows, each ending in a newline. */
  function SafText(g: Gene): string {
    var (sense, anti) := Signs(g.strand);
    var header := HeaderLine + "\n";
    var geneFeature := RowLine(g.name, g.chromosome, g.start, g.end, sense) + "\n";
    var geneFeatureAnti := RowLine(g.name + "anti", g.chromosome, g.start, g.end, anti) + "\n";
    header + geneFeature + geneFeatureAnti
  }

  /** The whole script after the JSON load. */
  function MetadataToSaf(m: Metadata): Option<SafFile> {
    match FirstGene(m)
    case None => None
    case Some(g) => Some(SafFile(g.name + ".saf", SafText(g)))
  }

  /** A field that holds neither separator. */
  predicate Plain(s: string) {
    '\t' !in s && '\n' !in s
  }

  lemma IntToStringPlain(i: int)
    ensures Plain(IntToString(i))
  {
    var s := IntToString(i);
    forall k | 0 <= k < |s|
      ensures s[k] != '\t' && s[k] != '\n'
    {
      assert IsDigit(s[k]) || s[k] == '-';
    }
  }

  /** The row line is `"\t".join` of its five fields. */
  lemma RowLineIsJoin(geneId: string, chromosome: string, start: int, end: int, sign: string)
    ensures RowLine(geneId, chromosome, start, end, sign) == Join("\t", RowFields(geneId, chromosome, start, end, sign))
  {
    TabJoinOfFive(geneId, chromosome, IntToString(start), IntToString(end), sign);
  }

  lemma TabJoinOfFive(a: string, b: string, c: string, d: string, e: string)
    ensures a + "\t" + b + "\t" + c + "\t" + d + "\t" + e == Join("\t", [a, b, c, d, e])
  {
    var fs := [a, b, c, d, e];
    var t := "\t";
    assert fs[1..][1..][1..][1..] == [e];
    assert fs[1..][1..][1..] == [d, e];
    assert fs[1..][1..] == [c, d, e];
    assert fs[1..] == [b, c, d, e];
    assert Join(t, [d, e]) == d + t + e;
    assert Join(t, [c, d, e]) == c + t + (d + t + e);
    assert Join(t, [b, c, d, e]) == b + t + (c + t + (d + t + e));
    assert Join(t, fs) == a + t + (b + t + (c + t + (d + t + e)));
  }

  /** Splitting a row on tabs gives back its five fields, and the coordinates read back as integers. */
  lemma RowLineReadsBack(geneId: string, chromosome: string, start: int, end: int, sign: string)
    requires Plain(geneId) && Plain(chromosome) && Plain(sign)
    ensures var fs := SplitOn(RowLine(geneId, chromosome, start, end, sign), '\t');
      && fs == RowFields(geneId, chromosome, start, end, sign)
      && ParseInt(fs[2]) == Some(start) && ParseInt(fs[3]) == Some(end)
  {
    RowLineIsJoin(geneId, chromosome, start, end, sign);
    IntToStringPlain(start);
    IntToStringPlain(end);
    assert "\t" == ['\t'];
    SplitOfJoin(RowFields(geneId, chromosome, start, end, sign), '\t');
    IntToStringParses(start);
    IntToStringParses(end);
  }

  /** Lines ending in a newline, concatenated, are `"\n".join` of the lines and a final empty piece. */
  lemma LinesAreJoin(a: string, b: string, c: string)
    ensures a + "\n" + b + "\n" + c + "\n" == Join("\n", [a, b, c, ""])
  {
    var ps := [a, b, c, ""];
    var n := "\n";
    assert ps[1..][1..][1..] == [""];
    assert ps[1..][1..] == [c, ""];
    assert ps[1..] == [b, c, ""];
    assert Join(n, [c, ""]) == c + n + "";
    assert c + n + "" == c + n;
    assert Join(n, [b, c, ""]) == b + n + (c + n);
    assert Join(n, ps) == a + n + (b + n + (c + n));
  }

  /** Three lines without a newline, each followed by one, split back into the lines and a final empty piece. */
  lemma ThreeLinesSplit(a: string, b: string, c: string)
    requires '\n' !in a && '\n' !in b && '\n' !in c
    ensures SplitOn(a + "\n" + b + "\n" + c + "\n", '\n') == [a, b, c, ""]
  {
    LinesAreJoin(a, b, c);
    assert "\n" == ['\n'];
    SplitOfJoin([a, b, c, ""], '\n');
  }

  /** The three newline-terminated lines, regrouped; the first of them is a prefix. */
  lemma LinesRegroup(a: string, b: string, c: string)
    ensures var text := (a + "\n") + (b + "\n") + (c + "\n");
      && text == a + "\n" + b + "\n" + c + "\n"
      && |text| > |a| && text[..|a| + 1] == a + "\n"
  {
    var text := (a + "\n") + (b + "\n") + (c + "\n");
    assert text == (a + "\n") + ((b + "\n") + (c + "\n"));
  }

  /** A row of plain fields holds no newline. */
  lemma RowLineNoNewline(geneId: string, chromosome: string, start: int, end: int, sign: string)
    requires Plain(geneId) && Plain(chromosome) && Plain(sign)
    ensures '\n' !in RowLine(geneId, chromosome, start, end, sign)
  {
    RowLineIsJoin(geneId, chromosome, start, end, sign);
    IntToStringPlain(start);
    IntToStringPlain(end);
    JoinNoNewline(RowFields(geneId, chromosome, start, end, sign));
  }

  lemma PlainAnti(name: string)
    requires Plain(name)
    ensures Plain(name + "anti")
  {
    assert forall k :: 0 <= k < |name + "anti"| ==> (name + "anti")[k] in name || (name + "anti")[k] in "anti";
  }

  /**
   * The file is named `<gene>.saf` and starts with the header line. When
   * the name and chromosome hold no tab or newline, it holds exactly three
   * lines: the header, the sense row, and the antisense row `<gene>anti`
   * with the opposite sign, both rows with the gene's chromosome, start
   * and end; splitting each row on tabs gives back its five fields.
   */
  lemma SafLayout(m: Metadata)
    requires MetadataToSaf(m).Some?
    ensures var f := MetadataToSaf(m).value;
      var g := FirstGene(m).value;
      && f.fileName == g.name + ".saf"
      && |f.text| > |HeaderLine| && f.text[..|HeaderLine| + 1] == HeaderLine + "\n"
      && (Plain(g.name) && Plain(g.chromosome) ==>
            var lines := SplitOn(f.text, '\n');
            && lines == [HeaderLine, RowLine(g.name, g.chromosome, g.start, g.end, Signs(g.strand).0),
                         RowLine(g.name + "anti", g.chromosome, g.start, g.end, Signs(g.strand).1), ""]
            && SplitOn(lines[1], '\t') == RowFields(g.name, g.chromosome, g.start, g.end, Signs(g.strand).0)
            && SplitOn(lines[2], '\t') == RowFields(g.name + "anti", g.chromosome, g.start, g.end, Signs(g.strand).1))
  {
    var g := FirstGene(m).value;
    SafTextLayout(g);
  }

  lemma SafTextLayout(g: Gene)
    ensures var text := SafText(g);
      && |text| > |HeaderLine| && text[..|HeaderLine| + 1] == HeaderLine + "\n"
      && (Plain(g.name) && Plain(g.chromosome) ==>
            var lines := SplitOn(text, '\n');
            && lines == [HeaderLine, RowLine(g.name, g.chromosome, g.start, g.end, Signs(g.strand).0),
                         RowLine(g.name + "anti", g.chromosome, g.start, g.end, Signs(g.strand).1), ""]
            && SplitOn(lines[1], '\t') == RowFields(g.name, g.chromosome, g.start, g.end, Signs(g.strand).0)
            && SplitOn(lines[2], '\t') == RowFields(g.name + "anti", g.chromosome, g.start, g.end, Signs(g.strand).1))
  {
    var sense, anti := Signs(g.strand).0, Signs(g.strand).1;
    var senseLine := RowLine(g.name, g.chromosome, g.start, g.end, sense);
    var antiLine := RowLine(g.name + "anti", g.chromosome, g.start, g.end, anti);
    assert SafText(g) == (HeaderLine + "\n") + (senseLine + "\n") + (antiLine + "\n");
    LinesRegroup(HeaderLine, senseLine, antiLine);
    if Plain(g.name) && Plain(g.chromosome) {
      SafRowsPlain(g);
      HeaderPlain();
      ThreeLinesSplit(HeaderLine, senseLine, antiLine);
    }
  }

  lemma HeaderPlain()
    ensures '\n' !in HeaderLine
  {
  }

  /** Both rows of a gene with a plain name and chromosome hold no newline and split back into their fields. */
  lemma SafRowsPlain(g: Gene)
    requires Plain(g.name) && Plain(g.chromosome)
    ensures var senseLine := RowLine(g.name, g.chromosome, g.start, g.end, Signs(g.strand).0);
      var antiLine := RowLine(g.name + "anti", g.chromosome, g.start, g.end, Signs(g.strand).1);
      && '\n' !in senseLine && '\n' !in antiLine
      && SplitOn(senseLine, '\t') == RowFields(g.name, g.chromosome, g.start, g.end, Signs(g.strand).0)
      && SplitOn(antiLine, '\t') == RowFields(g.name + "anti", g.chromosome, g.start, g.end, Signs(g.strand).1)
  {
    var sense, anti := Signs(g.strand).0, Signs(g.strand).1;
    assert Plain(sense) && Plain(anti);
    PlainAnti(g.name);
    RowLineReadsBack(g.name, g.chromosome, g.start, g.end, sense);
    RowLineReadsBack(g.name + "anti", g.chromosome, g.start, g.end, anti);
    RowLineNoNewline(g.name, g.chromosome, g.start, g.end, sense);
    RowLineNoNewline(g.name + "anti", g.chromosome, g.start, g.end, anti);
  }

  /** Joining plain fields with tabs gives a line without a newline. */
  lemma {:induction false} JoinNoNewline(fs: seq<string>)
    requires forall i :: 0 <= i < |fs| ==> Plain(fs[i])
    ensures '\n' !in Join("\t", fs)
    decreases |fs|
  {
    if |fs| > 1 {
      JoinNoNewline(fs[1..]);
      assert Join("\t", fs) == fs[0] + "\t" + Join("\t", fs[1..]);
    }
  }
}

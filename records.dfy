/**
 * The two record classes of mutect-vcf-selector.py: `Variant`, one
 * tab-separated VCF data line split into its fixed columns, and
 * `Cosmic_Mutation`, a COSMIC line with its identity key and the two
 * facts read from INFO (the `SNP` flag and the `GENE=` value).
 *
 * Both Python constructors only assign fields while they run and nothing
 * assigns them later, so the records are values here; a constructor that
 * raises becomes an `Err`.
 */
module Records {
  import opened Wrappers
  import opened PyStrings

  /** What makes a constructor raise. */
  datatype Error =
    | TooFewColumns   // IndexError: a column read past the end of the split line
    | NoGeneMatch     // AttributeError: asking a failed GENE match for its groups

  /** The FORMAT and sample columns, present only on a caller (non-COSMIC) line. */
  datatype CallerColumns = CallerColumns(format: string, samples: seq<string>)

  datatype Variant = Variant(
    chromosome: string,
    position: string,
    id: string,
    reference: string,
    alternative: string,
    quality: string,
    filter: string,
    info: string,
    callerColumns: Option<CallerColumns>)

  datatype CosmicMutation = CosmicMutation(record: Variant, isSnp: bool, gene: string)
  {
    /** The record's identifier, its key in the COSMIC dictionary. */
    function Identifier(): string
    {
      IdentityKey(record.chromosome, record.position, record.reference, record.alternative)
    }
  }

  /** The join key `CHROM,POS,REF,ALT` shared by the COSMIC index and the caller lines. */
  function IdentityKey(chromosome: string, position: string, reference: string, alternative: string): string
  {
    chromosome + "," + position + "," + reference + "," + alternative
  }

  /** Columns indexed by `Variant.__init__`: 0..7 always, 8 as well on a caller line. */
  function MinColumns(cosmic: bool): nat
  {
    if cosmic then 8 else 9
  }

  /** The columns a record holds, in VCF order (CHROM POS ID REF ALT QUAL FILTER INFO [FORMAT samples...]). */
  function Columns(v: Variant): seq<string>
  {
    [v.chromosome, v.position, v.id, v.reference, v.alternative, v.quality, v.filter, v.info]
    + match v.callerColumns
      case None => []
      case Some(c) => [c.format] + c.samples
  }

  /**
   * `Variant(vcf_line, cosmic)`: split on tabs and name the columns. A COSMIC
   * record keeps columns 0..7 and ignores any further ones; a caller record
   * also keeps FORMAT and every later column as its samples (possibly none).
   */
  function ParseVariant(line: string, cosmic: bool): (r: Result<Variant, Error>)
    ensures r.Err? <==> |Split(line, '\t')| < MinColumns(cosmic)
    ensures r.Err? ==> r.error == TooFewColumns
    ensures r.Ok? ==> r.value.callerColumns.None? == cosmic
    ensures r.Ok? ==> Columns(r.value) == Split(line, '\t')[..if cosmic then 8 else |Split(line, '\t')|]
  {
    var f := Split(line, '\t');
    if |f| < MinColumns(cosmic) then Err(TooFewColumns)
    else if cosmic then
      var v := Variant(f[0], f[1], f[2], f[3], f[4], f[5], f[6], f[7], None);
      assert Columns(v) == f[..8];
      Ok(v)
    else
      var v := Variant(f[0], f[1], f[2], f[3], f[4], f[5], f[6], f[7], Some(CallerColumns(f[8], f[9..])));
      assert Columns(v) == f[..8] + ([f[8]] + f[9..]);
      assert f == f[..8] + ([f[8]] + f[9..]);
      Ok(v)
  }

  /** Two records with the same columns are the same record. */
  lemma ColumnsDetermineVariant(v: Variant, w: Variant)
    requires Columns(v) == Columns(w)
    ensures v == w
  {
    var c, d := Columns(v), Columns(w);
    assert v.chromosome == c[0] && v.position == c[1] && v.id == c[2] && v.reference == c[3];
    assert v.alternative == c[4] && v.quality == c[5] && v.filter == c[6] && v.info == c[7];
    assert w.chromosome == d[0] && w.position == d[1] && w.id == d[2] && w.reference == d[3];
    assert w.alternative == d[4] && w.quality == d[5] && w.filter == d[6] && w.info == d[7];
    assert v.callerColumns.None? <==> |c| == 8;
    assert w.callerColumns.None? <==> |d| == 8;
    if v.callerColumns.Some? {
      assert v.callerColumns.value.format == c[8] && v.callerColumns.value.samples == c[9..];
      assert w.callerColumns.value.format == d[8] && w.callerColumns.value.samples == d[9..];
    }
  }

  /**
   * Printing a record as a tab-separated line and parsing it back gives the
   * record again, as long as no column holds a tab.
   */
  lemma ParseFormatted(v: Variant)
    requires forall k :: 0 <= k < |Columns(v)| ==> '\t' !in Columns(v)[k]
    ensures ParseVariant(Join(Columns(v), '\t'), v.callerColumns.None?) == Ok(v)
  {
    var cosmic := v.callerColumns.None?;
    var line := Join(Columns(v), '\t');
    SplitJoin(Columns(v), '\t');
    var r := ParseVariant(line, cosmic);
    assert r.Ok?;
    ColumnsDetermineVariant(r.value, v);
  }

  // ---------------------------------------------------------------------
  // INFO: the SNP flag
  // ---------------------------------------------------------------------

  /** The SNP flag: some `;`-separated token of INFO is exactly `SNP`. */
  predicate IsSnp(info: string)
  {
    "SNP" in Split(info, ';')
  }

  /**
   * A last INFO token that still carries the line's newline is not the SNP
   * flag, while the bare token is: the flag at the end of a COSMIC line's INFO
   * is never seen.
   */
  lemma SnpFlagBeforeNewline(x: string)
    ensures IsSnp(x + ";" + "SNP\n") == IsSnp(x)
    ensures IsSnp(x + ";" + "SNP")
  {
    SplitConcat(x, ';', "SNP\n");
    SplitWithoutSeparator("SNP\n", ';');
    assert x + ";" + "SNP\n" == x + [';'] + "SNP\n";
    SplitConcat(x, ';', "SNP");
    SplitWithoutSeparator("SNP", ';');
    assert x + ";" + "SNP" == x + [';'] + "SNP";
  }

  // ---------------------------------------------------------------------
  // INFO: the gene, the group of the pattern `^GENE=(\S+?);` matched at the start of INFO
  // ---------------------------------------------------------------------

  const GenePrefix: string := "GENE="

  /**
   * The pattern `^GENE=(\S+?);` can match with its group ending at `e`:
   * INFO starts with `GENE=`, positions 5..e-1 (at least one) hold no
   * whitespace, and position `e` holds `;`.
   */
  predicate GeneEndsAt(info: string, e: int)
  {
    6 <= e < |info| && info[..5] == GenePrefix && info[e] == ';'
    && forall i :: 5 <= i < e ==> !IsWhitespace(info[i])
  }

  /** The lazy `\S+?` scan from position `p`: the first `;` reached before any whitespace. */
  function GeneEnd(info: string, p: nat): (e: Option<nat>)
    requires 6 <= p <= |info|
    ensures e.Some? ==> p <= e.value < |info| && info[e.value] == ';'
    ensures e.Some? ==> forall i :: p <= i < e.value ==> !IsWhitespace(info[i]) && info[i] != ';'
    ensures e.None? ==> forall q :: p <= q < |info| && info[q] == ';' ==> exists i :: p <= i < q && IsWhitespace(info[i])
    decreases |info| - p
  {
    if p == |info| then None
    else if info[p] == ';' then Some(p)
    else if IsWhitespace(info[p]) then None
    else GeneEnd(info, p + 1)
  }

  /**
   * The group of `^GENE=(\S+?);`, or `None` when the pattern does not match.
   * A match exists exactly when some end satisfies `GeneEndsAt`, and the
   * group is the shortest one (the first end).
   */
  function Gene(info: string): (r: Option<string>)
    ensures r.Some? ==> GeneEndsAt(info, 5 + |r.value|) && r.value == info[5..5 + |r.value|]
    ensures r.Some? ==> forall e :: GeneEndsAt(info, e) ==> 5 + |r.value| <= e
    ensures r.None? ==> forall e :: !GeneEndsAt(info, e)
  {
    if |info| < 6 || info[..5] != GenePrefix || IsWhitespace(info[5]) then None
    else
      match GeneEnd(info, 6)
      case None => None
      case Some(e) => Some(info[5..e])
  }

  // ---------------------------------------------------------------------
  // Cosmic_Mutation
  // ---------------------------------------------------------------------

  /**
   * `Cosmic_Mutation(vcf_line)`: parse eight columns, then read the SNP flag
   * and the gene from INFO (which, for an eight-column line, still ends with
   * the line's newline). A missing gene raises.
   */
  function ParseCosmic(line: string): (r: Result<CosmicMutation, Error>)
    ensures r.Ok? ==> r.value.record.callerColumns.None?
    ensures r.Ok? ==> |r.value.gene| > 0 && NonBlank(r.value.gene)
  {
    match ParseVariant(line, true)
    case Err(e) => Err(e)
    case Ok(v) =>
      match Gene(v.info)
      case None => Err(NoGeneMatch)
      case Some(g) => Ok(CosmicMutation(v, IsSnp(v.info), g))
  }

  /**
   * A COSMIC line parses exactly when it has eight columns and its INFO
   * column starts with `GENE=<gene>;`; the record's INFO is column 7 as it
   * stands, its flag and gene are read from it, and its identifier joins
   * columns 0, 1, 3 and 4.
   */
  lemma ParseCosmicColumns(line: string)
    ensures var r, f := ParseCosmic(line), Split(line, '\t');
      (r.Ok? <==> |f| >= 8 && Gene(f[7]).Some?)
      && (r.Ok? ==> r.value.record.info == f[7] && r.value.isSnp == IsSnp(f[7])
                    && Gene(f[7]) == Some(r.value.gene)
                    && r.value.Identifier() == IdentityKey(f[0], f[1], f[3], f[4]))
      && (r.Err? ==> r.error == if |f| < 8 then TooFewColumns else NoGeneMatch)
  {
    var f := Split(line, '\t');
    if |f| >= 8 {
      var v := ParseVariant(line, true).value;
      assert Columns(v) == f[..8];
      assert v.chromosome == f[0] && v.position == f[1] && v.reference == f[3] && v.alternative == f[4];
      assert v.info == f[7];
    }
  }

  /**
   * `Cosmic_Mutation.__str__`: the identity key, a comma, and INFO without
   * its last character, whatever that character is (the line's newline for
   * an eight-column line, otherwise the last character of the value).
   */
  function Describe(m: CosmicMutation): (r: string)
    ensures |r| > |m.Identifier()| && r[..|m.Identifier()|] == m.Identifier() && r[|m.Identifier()|] == ','
    ensures |m.record.info| > 0 ==> r + [m.record.info[|m.record.info| - 1]] == m.Identifier() + "," + m.record.info
    ensures |m.record.info| == 0 ==> r == m.Identifier() + ","
  {
    m.Identifier() + "," + DropLast(m.record.info)
  }
}

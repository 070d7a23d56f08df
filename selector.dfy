/**
 * The selection logic of mutect-vcf-selector.py: the COSMIC index
 * (`build_cosmic_dictionary`), the keep/drop decision for one caller line
 * (`check_mutect_variant`) and the line loop of `main`, which tracks the
 * caller version announced by the header and prints the kept lines.
 *
 * Files are sequences of lines, each still carrying its line terminator as
 * Python's file iteration delivers it; what `print` writes is a sequence of
 * strings (each printed followed by a newline).
 */
module Selector {
  import opened Wrappers
  import opened PyStrings
  import opened Records

  /** The dictionary `build_cosmic_dictionary` returns: identity key to COSMIC record. */
  type CosmicDictionary = map<string, CosmicMutation>

  /** The two values `mutectVersion` takes: `"mutect"` and `"mutect2"`. */
  datatype Version = Mutect | Mutect2

  /** What `check_mutect_variant` returns: `1`, `0`, or `None` (falling off its end). */
  datatype Verdict = Retain | Reject | NoVerdict

  const PassTag: string := "PASS"
  const GermlineRiskTag: string := "germline_risk"
  const VersionMarker: string := "##Mutect Version="

  /** `line.startswith("#")` */
  predicate IsHeader(line: string)
  {
    StartsWith(line, "#")
  }

  // ---------------------------------------------------------------------
  // check_mutect_variant
  // ---------------------------------------------------------------------

  /** The FILTER tags of a caller line split on whitespace: its seventh field split on `;`. */
  function FilterTags(fields: seq<string>): seq<string>
    requires |fields| >= 7
  {
    Split(fields[6], ';')
  }

  /** The identity key built from fields 0, 1, 3 and 4 of a whitespace-split caller line. */
  function CallerKey(fields: seq<string>): string
    requires |fields| >= 5
  {
    IdentityKey(fields[0], fields[1], fields[3], fields[4])
  }

  /**
   * `check_mutect_variant(line, cosmic_dictionary, mutectVersion)`. The line
   * is split on runs of whitespace; fewer than seven fields raise. A `PASS`
   * tag keeps the line outright. Otherwise, when the tags hold
   * `germline_risk` or the caller is the first MuTect, the line is kept
   * exactly when its key names a COSMIC record that is not flagged SNP, and
   * dropped otherwise. Any other line (a filtered MuTect2 call) gets no
   * verdict at all.
   */
  function Classify(line: string, cosmic: CosmicDictionary, version: Version): (r: Result<Verdict, Error>)
    ensures r.Err? <==> |Words(line)| < 7
    ensures r.Err? ==> r.error == TooFewColumns
    ensures r == Ok(NoVerdict) ==> version.Mutect2?
  {
    var fields := Words(line);
    if |fields| < 7 then Err(TooFewColumns)
    else
      var filters := FilterTags(fields);
      if PassTag in filters then Ok(Retain)
      else if GermlineRiskTag in filters || version == Mutect then
        var key := CallerKey(fields);
        if key in cosmic && !cosmic[key].isSnp then Ok(Retain) else Ok(Reject)
      else Ok(NoVerdict)
  }

  /**
   * The decision table of `check_mutect_variant`: it raises exactly on lines
   * with fewer than seven fields; `PASS` keeps whatever the index and the
   * version; with `germline_risk` or under MuTect the answer is 1 exactly
   * for a COSMIC hit not flagged SNP and 0 otherwise; and a filtered line
   * under MuTect2 without `germline_risk` gets `None`.
   */
  lemma ClassifyDecisionTable(line: string, cosmic: CosmicDictionary, version: Version)
    ensures var r := Classify(line, cosmic, version);
      (r.Err? <==> |Words(line)| < 7)
      && (r.Err? ==> r.error == TooFewColumns)
      && (r.Ok? ==>
            var tags, key := FilterTags(Words(line)), CallerKey(Words(line));
            (PassTag in tags ==> r.value == Retain)
            && (PassTag !in tags && (GermlineRiskTag in tags || version == Mutect) ==>
                  r.value != NoVerdict && (r.value == Retain <==> key in cosmic && !cosmic[key].isSnp))
            && (PassTag !in tags && GermlineRiskTag !in tags && version == Mutect2 ==> r.value == NoVerdict))
  {
  }

  /** Switching to MuTect2 only ever turns a kept line into a dropped one. */
  lemma Mutect2KeepsLess(line: string, cosmic: CosmicDictionary)
    ensures Classify(line, cosmic, Mutect2) == Ok(Retain) ==> Classify(line, cosmic, Mutect) == Ok(Retain)
  {
  }

  /**
   * The version decides a filtered line without `germline_risk` whose key
   * names a COSMIC record not flagged SNP: MuTect keeps it, MuTect2 gives no
   * verdict (and so does not print it).
   */
  lemma VersionDecidesUnflaggedHit(line: string, cosmic: CosmicDictionary)
    requires |Words(line)| >= 7
    requires PassTag !in FilterTags(Words(line)) && GermlineRiskTag !in FilterTags(Words(line))
    requires CallerKey(Words(line)) in cosmic && !cosmic[CallerKey(Words(line))].isSnp
    ensures Classify(line, cosmic, Mutect) == Ok(Retain)
    ensures Classify(line, cosmic, Mutect2) == Ok(NoVerdict)
  {
  }

  /** A larger COSMIC index never drops a line a smaller one keeps, as long as it agrees on the shared keys. */
  lemma LargerIndexKeepsMore(line: string, small: CosmicDictionary, large: CosmicDictionary, version: Version)
    requires forall k :: k in small ==> k in large && large[k] == small[k]
    ensures Classify(line, small, version) == Ok(Retain) ==> Classify(line, large, version) == Ok(Retain)
  {
  }

  /** Against an empty index only `PASS` lines are kept. */
  lemma EmptyIndexKeepsOnlyPass(line: string, version: Version)
    ensures Classify(line, map[], version) == Ok(Retain) <==>
              |Words(line)| >= 7 && PassTag in FilterTags(Words(line))
  {
  }

  /**
   * For any line with at least eight tab-separated columns whose first seven
   * are non-empty and free of whitespace, the key `check_mutect_variant`
   * builds from the whitespace-separated fields is the one a COSMIC record
   * read from the same columns is stored under: columns 0, 1, 3 and 4
   * joined by commas.
   */
  lemma CallerKeyIsCosmicIdentifier(line: string)
    requires |Split(line, '\t')| >= 8
    requires forall j :: 0 <= j < 7 ==> |Split(line, '\t')[j]| > 0 && NonBlank(Split(line, '\t')[j])
    ensures |Words(line)| >= 7
    ensures var f := Split(line, '\t'); CallerKey(Words(line)) == IdentityKey(f[0], f[1], f[3], f[4])
    ensures ParseCosmic(line).Ok? ==> CallerKey(Words(line)) == ParseCosmic(line).value.Identifier()
  {
    ParseCosmicColumns(line);
    WordsAgreeWithSplit(line, '\t', 7);
  }

  /**
   * Under MuTect, a caller line with clean leading columns, checked against
   * an index that stores a record `m` under that line's own key, is kept
   * exactly when it passes or `m` is not flagged SNP.
   */
  lemma OwnEntryDecides(line: string, cosmic: CosmicDictionary, m: CosmicMutation)
    requires |Split(line, '\t')| >= 8
    requires forall j :: 0 <= j < 7 ==> |Split(line, '\t')[j]| > 0 && NonBlank(Split(line, '\t')[j])
    requires var f := Split(line, '\t'); m.Identifier() == IdentityKey(f[0], f[1], f[3], f[4])
    ensures |Words(line)| >= 7
    ensures Classify(line, cosmic[m.Identifier() := m], Mutect) == Ok(Retain) <==>
            (PassTag in FilterTags(Words(line)) || !m.isSnp)
  {
    CallerKeyIsCosmicIdentifier(line);
  }

  // ---------------------------------------------------------------------
  // build_cosmic_dictionary
  // ---------------------------------------------------------------------

  /**
   * The dictionary built from `lines` on top of `acc`: header lines are
   * skipped, every other line is parsed as a COSMIC record and stored under
   * its identifier, a later line replacing an earlier one; the first line
   * that fails to parse aborts the build.
   */
  function CosmicIndexFrom(lines: seq<string>, acc: CosmicDictionary): (r: Result<CosmicDictionary, Error>)
    ensures r.Ok? ==> acc.Keys <= r.value.Keys
    decreases |lines|
  {
    if lines == [] then Ok(acc)
    else if IsHeader(lines[0]) then CosmicIndexFrom(lines[1..], acc)
    else
      match ParseCosmic(lines[0])
      case Err(e) => Err(e)
      case Ok(m) => CosmicIndexFrom(lines[1..], acc[m.Identifier() := m])
  }

  /**
   * Proof helper for the index lemmas: the dictionary after one more line
   * that is a header or a valid COSMIC record.
   */
  function Absorb(acc: CosmicDictionary, line: string): CosmicDictionary
  {
    if IsHeader(line) || ParseCosmic(line).Err? then acc
    else acc[ParseCosmic(line).value.Identifier() := ParseCosmic(line).value]
  }

  function CosmicIndex(lines: seq<string>): Result<CosmicDictionary, Error>
  {
    CosmicIndexFrom(lines, map[])
  }

  /** `build_cosmic_dictionary(file_name)`, over the lines of the file. */
  method BuildCosmicDictionary(lines: seq<string>) returns (r: Result<CosmicDictionary, Error>)
    ensures r == CosmicIndex(lines)
  {
    var d: CosmicDictionary := map[];
    var i := 0;
    while i < |lines|
      invariant 0 <= i <= |lines|
      invariant CosmicIndex(lines) == CosmicIndexFrom(lines[i..], d)
    {
      var line := lines[i];
      assert lines[i..][0] == line && lines[i..][1..] == lines[i + 1..];
      if !IsHeader(line) {
        var parsed := ParseCosmic(line);
        if parsed.Err? {
          return Err(parsed.error);
        }
        var m := parsed.value;
        d := d[m.Identifier() := m];
      }
      i := i + 1;
    }
    return Ok(d);
  }

  /** Line `j` of `lines` is a data line whose COSMIC record has identifier `k`. */
  ghost predicate HoldsKey(lines: seq<string>, j: int, k: string)
  {
    0 <= j < |lines| && !IsHeader(lines[j]) && ParseCosmic(lines[j]).Ok?
    && ParseCosmic(lines[j]).value.Identifier() == k
  }

  lemma HoldsKeyInTail(lines: seq<string>, i: int, k: string)
    requires lines != [] && 0 <= i
    ensures HoldsKey(lines[1..], i, k) <==> HoldsKey(lines, i + 1, k)
  {
    if 0 <= i < |lines| - 1 {
      assert lines[1..][i] == lines[i + 1];
    }
  }

  /** A data line that is not a valid COSMIC record. */
  ghost predicate BadCosmicLine(line: string)
  {
    !IsHeader(line) && ParseCosmic(line).Err?
  }

  /** The build fails exactly when some data line is not a valid COSMIC record. */
  lemma {:induction false} IndexFailsOnBadLine(lines: seq<string>, acc: CosmicDictionary)
    ensures CosmicIndexFrom(lines, acc).Err? <==> exists j :: 0 <= j < |lines| && BadCosmicLine(lines[j])
    decreases |lines|
  {
    if lines != [] {
      var rest := lines[1..];
      IndexFailsOnBadLine(rest, Absorb(acc, lines[0]));
      if exists j :: 0 <= j < |rest| && BadCosmicLine(rest[j]) {
        var j :| 0 <= j < |rest| && BadCosmicLine(rest[j]);
        assert lines[j + 1] == rest[j];
      }
      if exists j :: 0 < j < |lines| && BadCosmicLine(lines[j]) {
        var j :| 0 < j < |lines| && BadCosmicLine(lines[j]);
        assert rest[j - 1] == lines[j];
      }
    }
  }

  /** The keys of the built dictionary: those of `acc` and the identifiers of the data lines. */
  lemma {:induction false} IndexKeys(lines: seq<string>, acc: CosmicDictionary, k: string)
    requires CosmicIndexFrom(lines, acc).Ok?
    ensures k in CosmicIndexFrom(lines, acc).value <==> k in acc || exists j :: HoldsKey(lines, j, k)
    decreases |lines|
  {
    if lines != [] {
      var rest := lines[1..];
      forall j | 0 <= j ensures HoldsKey(rest, j, k) <==> HoldsKey(lines, j + 1, k) {
        HoldsKeyInTail(lines, j, k);
      }
      assert forall j :: HoldsKey(lines, j, k) && j > 0 ==> HoldsKey(rest, j - 1, k);
      if IsHeader(lines[0]) {
        IndexKeys(rest, acc, k);
      } else {
        var m := ParseCosmic(lines[0]).value;
        assert HoldsKey(lines, 0, m.Identifier());
        IndexKeys(rest, acc[m.Identifier() := m], k);
      }
    }
  }

  /** A key no data line carries keeps the value `acc` gave it. */
  lemma {:induction false} IndexKeepsUntouched(lines: seq<string>, acc: CosmicDictionary, k: string)
    requires CosmicIndexFrom(lines, acc).Ok?
    requires k in acc
    requires forall j :: !HoldsKey(lines, j, k)
    ensures k in CosmicIndexFrom(lines, acc).value && CosmicIndexFrom(lines, acc).value[k] == acc[k]
    decreases |lines|
  {
    if lines != [] {
      var rest := lines[1..];
      forall j | 0 <= j ensures HoldsKey(rest, j, k) <==> HoldsKey(lines, j + 1, k) {
        HoldsKeyInTail(lines, j, k);
      }
      if IsHeader(lines[0]) {
        IndexKeepsUntouched(rest, acc, k);
      } else {
        var m := ParseCosmic(lines[0]).value;
        assert !HoldsKey(lines, 0, k);
        IndexKeepsUntouched(rest, acc[m.Identifier() := m], k);
      }
    }
  }

  /** The record stored under a key is the one parsed from the last data line carrying that key. */
  lemma {:induction false} IndexLastWins(lines: seq<string>, acc: CosmicDictionary, j: int, k: string)
    requires CosmicIndexFrom(lines, acc).Ok?
    requires HoldsKey(lines, j, k)
    requires forall j' :: j < j' ==> !HoldsKey(lines, j', k)
    ensures k in CosmicIndexFrom(lines, acc).value
    ensures CosmicIndexFrom(lines, acc).value[k] == ParseCosmic(lines[j]).value
    decreases |lines|
  {
    var rest := lines[1..];
    forall i | 0 <= i ensures HoldsKey(rest, i, k) <==> HoldsKey(lines, i + 1, k) {
      HoldsKeyInTail(lines, i, k);
    }
    var acc' := Absorb(acc, lines[0]);
    assert CosmicIndexFrom(lines, acc) == CosmicIndexFrom(rest, acc');
    if j == 0 {
      IndexKeepsUntouched(rest, acc', k);
    } else {
      assert HoldsKey(rest, j - 1, k);
      assert forall j' :: j - 1 < j' ==> !HoldsKey(rest, j', k);
      IndexLastWins(rest, acc', j - 1, k);
    }
  }

  /** A file of header lines only gives the empty dictionary. */
  lemma {:induction false} HeaderOnlyIndexIsEmpty(lines: seq<string>)
    requires forall j :: 0 <= j < |lines| ==> IsHeader(lines[j])
    ensures CosmicIndex(lines) == Ok(map[])
    decreases |lines|
  {
    if lines != [] {
      assert forall j :: 0 <= j < |lines[1..]| ==> lines[1..][j] == lines[j + 1];
      HeaderOnlyIndexIsEmpty(lines[1..]);
    }
  }

  // ---------------------------------------------------------------------
  // The line loop of main
  // ---------------------------------------------------------------------

  /** The version after reading one line: a header naming `##Mutect Version=` switches to MuTect2. */
  function NextVersion(v: Version, line: string): Version
  {
    if IsHeader(line) && Contains(line, VersionMarker) then Mutect2 else v
  }

  /** The version in force after the lines `seen`, starting from `v`. */
  function VersionAfter(v: Version, seen: seq<string>): Version
    decreases |seen|
  {
    if seen == [] then v else VersionAfter(NextVersion(v, seen[0]), seen[1..])
  }

  /** MuTect2 is in force exactly when it was from the start or some header line announced it. */
  lemma {:induction false} VersionAfterMarker(v: Version, seen: seq<string>)
    ensures VersionAfter(v, seen) == Mutect2 <==>
              v == Mutect2 || exists j :: 0 <= j < |seen| && IsHeader(seen[j]) && Contains(seen[j], VersionMarker)
    decreases |seen|
  {
    if seen != [] {
      var rest := seen[1..];
      VersionAfterMarker(NextVersion(v, seen[0]), rest);
      assert forall j :: 0 < j < |seen| ==> seen[j] == rest[j - 1];
      if exists j :: 0 <= j < |rest| && IsHeader(rest[j]) && Contains(rest[j], VersionMarker) {
        var j :| 0 <= j < |rest| && IsHeader(rest[j]) && Contains(rest[j], VersionMarker);
        assert seen[j + 1] == rest[j];
      }
    }
  }

  /** Once MuTect2 is in force it stays in force for every later line. */
  lemma VersionNeverReverts(v: Version, lines: seq<string>, i: nat, j: nat)
    requires i <= j <= |lines|
    requires VersionAfter(v, lines[..i]) == Mutect2
    ensures VersionAfter(v, lines[..j]) == Mutect2
  {
    VersionAfterMarker(v, lines[..i]);
    VersionAfterMarker(v, lines[..j]);
    if v != Mutect2 {
      var x :| 0 <= x < i && IsHeader(lines[..i][x]) && Contains(lines[..i][x], VersionMarker);
      assert lines[..j][x] == lines[..i][x];
    }
  }

  /** What the loop prints, and the exception that ended it early, if any. */
  datatype Printout = Printout(lines: seq<string>, failure: Option<Error>)

  /** `printed` followed by what `rest` prints. */
  function Prepend(printed: seq<string>, rest: Printout): Printout
  {
    Printout(printed + rest.lines, rest.failure)
  }

  /**
   * The loop of `main` over `vcf` with `v` in force: header lines only
   * update the version; a data line is printed without its last character
   * when `check_mutect_variant` returns 1; an exception ends the run.
   */
  function Drive(vcf: seq<string>, cosmic: CosmicDictionary, v: Version): (r: Printout)
    ensures |r.lines| <= |vcf|
    ensures r.failure.Some? ==> r.failure == Some(TooFewColumns)
    decreases |vcf|
  {
    if vcf == [] then Printout([], None)
    else
      var line := vcf[0];
      if IsHeader(line) then Drive(vcf[1..], cosmic, NextVersion(v, line))
      else
        match Classify(line, cosmic, v)
        case Err(e) => Printout([], Some(e))
        case Ok(verdict) =>
          if verdict == Retain then Prepend([DropLast(line)], Drive(vcf[1..], cosmic, v))
          else Drive(vcf[1..], cosmic, v)
  }

  /** Proof helper for `DriveStep`: what one line contributes to the output. */
  function HeadOutput(line: string, cosmic: CosmicDictionary, v: Version): seq<string>
  {
    if !IsHeader(line) && Classify(line, cosmic, v) == Ok(Retain) then [DropLast(line)] else []
  }

  /** One step of the loop: a short data line raises; any other line adds its output in front of the rest. */
  lemma DriveStep(vcf: seq<string>, cosmic: CosmicDictionary, v: Version)
    requires vcf != []
    ensures ShortDataLine(vcf[0]) ==> Drive(vcf, cosmic, v) == Printout([], Some(TooFewColumns))
    ensures !ShortDataLine(vcf[0]) ==>
              Drive(vcf, cosmic, v) == Prepend(HeadOutput(vcf[0], cosmic, v), Drive(vcf[1..], cosmic, NextVersion(v, vcf[0])))
  {
    ClassifyDecisionTable(vcf[0], cosmic, v);
  }

  /** Lines 85-97 of `main`: the version state machine and the printing of kept lines. */
  method SelectVariants(vcf: seq<string>, cosmic: CosmicDictionary) returns (printed: seq<string>, failure: Option<Error>)
    ensures Printout(printed, failure) == Drive(vcf, cosmic, Mutect)
  {
    var mutectVersion := Mutect;
    printed, failure := [], None;
    var i := 0;
    assert vcf[i..] == vcf;
    while i < |vcf|
      invariant 0 <= i <= |vcf|
      invariant Drive(vcf, cosmic, Mutect) == Prepend(printed, Drive(vcf[i..], cosmic, mutectVersion))
    {
      var line := vcf[i];
      assert vcf[i..][0] == line && vcf[i..][1..] == vcf[i + 1..];
      DriveStep(vcf[i..], cosmic, mutectVersion);
      ghost var head := HeadOutput(line, cosmic, mutectVersion);
      ghost var next := NextVersion(mutectVersion, line);
      ghost var rest := Drive(vcf[i + 1..], cosmic, next);
      PrependTwice(printed, head, rest);
      ghost var goal := Prepend(printed + head, rest);
      assert ShortDataLine(line) || Drive(vcf, cosmic, Mutect) == goal;
      if IsHeader(line) {
        if Contains(line, VersionMarker) {
          mutectVersion := Mutect2;
        }
        assert printed + head == printed;
      } else {
        var verdict;
        if mutectVersion == Mutect {
          verdict := Classify(line, cosmic, mutectVersion);
        } else {
          verdict := Classify(line, cosmic, mutectVersion);
        }
        if verdict.Err? {
          failure := Some(verdict.error);
          return;
        }
        if verdict.value == Retain {
          printed := printed + [DropLast(line)];
        } else {
          assert printed + head == printed;
        }
      }
      assert mutectVersion == next && Prepend(printed, rest) == goal;
      i := i + 1;
    }
  }

  lemma PrependTwice(a: seq<string>, b: seq<string>, p: Printout)
    ensures Prepend(a, Prepend(b, p)) == Prepend(a + b, p)
  {
    assert a + (b + p.lines) == (a + b) + p.lines;
  }

  /** Line `i` of `vcf` is a data line on which `check_mutect_variant` returns 1 under the version then in force. */
  ghost predicate Kept(vcf: seq<string>, cosmic: CosmicDictionary, v: Version, i: int)
  {
    0 <= i < |vcf| && !IsHeader(vcf[i]) && Classify(vcf[i], cosmic, VersionAfter(v, vcf[..i])) == Ok(Retain)
  }

  function Shift(s: seq<int>): (r: seq<int>)
    ensures |r| == |s| && forall j :: 0 <= j < |s| ==> r[j] == s[j] + 1
  {
    seq(|s|, j requires 0 <= j < |s| => s[j] + 1)
  }

  lemma ShiftMember(s: seq<int>, x: int)
    ensures x in Shift(s) <==> x - 1 in s
  {
    if x - 1 in s {
      var j :| 0 <= j < |s| && s[j] == x - 1;
      assert Shift(s)[j] == x;
    }
  }

  /** The positions of the kept lines, in increasing order. */
  ghost function KeptIndices(vcf: seq<string>, cosmic: CosmicDictionary, v: Version): (ks: seq<int>)
    ensures forall j :: 0 <= j < |ks| ==> 0 <= ks[j] < |vcf|
    ensures forall a, b :: 0 <= a < b < |ks| ==> ks[a] < ks[b]
    decreases |vcf|
  {
    if vcf == [] then []
    else
      var line := vcf[0];
      var rest := Shift(KeptIndices(vcf[1..], cosmic, NextVersion(v, line)));
      if !IsHeader(line) && Classify(line, cosmic, v) == Ok(Retain) then [0] + rest else rest
  }

  /** `KeptIndices` lists exactly the kept lines. */
  lemma {:induction false} KeptIndicesExact(vcf: seq<string>, cosmic: CosmicDictionary, v: Version, i: int)
    ensures i in KeptIndices(vcf, cosmic, v) <==> Kept(vcf, cosmic, v, i)
    decreases |vcf|
  {
    if vcf != [] {
      var rest, v' := vcf[1..], NextVersion(v, vcf[0]);
      var ks := KeptIndices(rest, cosmic, v');
      KeptIndicesHead(vcf, cosmic, v);
      var head: seq<int> := if Kept(vcf, cosmic, v, 0) then [0] else [];
      assert i in KeptIndices(vcf, cosmic, v) <==> i in head || i in Shift(ks);
      if i > 0 {
        KeptIndicesExact(rest, cosmic, v', i - 1);
        KeptInTail(vcf, cosmic, v, i);
      }
      ShiftMember(ks, i);
    }
  }

  /** The first position is listed exactly when line 0 is kept; the others come from the tail, shifted by one. */
  lemma KeptIndicesHead(vcf: seq<string>, cosmic: CosmicDictionary, v: Version)
    requires vcf != []
    ensures KeptIndices(vcf, cosmic, v) ==
              (if Kept(vcf, cosmic, v, 0) then [0] else []) + Shift(KeptIndices(vcf[1..], cosmic, NextVersion(v, vcf[0])))
  {
    assert vcf[..0] == [];
  }

  /** Line `i > 0` is kept from version `v` exactly when it is kept in the tail, from the version after line 0. */
  lemma KeptInTail(vcf: seq<string>, cosmic: CosmicDictionary, v: Version, i: int)
    requires vcf != [] && i > 0
    ensures Kept(vcf, cosmic, v, i) <==> Kept(vcf[1..], cosmic, NextVersion(v, vcf[0]), i - 1)
  {
    if i < |vcf| {
      assert vcf[..i][0] == vcf[0] && vcf[..i][1..] == vcf[1..][..i - 1];
      assert vcf[i] == vcf[1..][i - 1];
    }
  }

  /** One step of `Drive` and `KeptIndices` together, for a run that does not raise. */
  lemma DriveHead(vcf: seq<string>, cosmic: CosmicDictionary, v: Version)
    requires vcf != [] && Drive(vcf, cosmic, v).failure.None?
    ensures var rest, v' := vcf[1..], NextVersion(v, vcf[0]);
      var kept := !IsHeader(vcf[0]) && Classify(vcf[0], cosmic, v) == Ok(Retain);
      Drive(rest, cosmic, v').failure.None?
      && Drive(vcf, cosmic, v).lines == (if kept then [DropLast(vcf[0])] else []) + Drive(rest, cosmic, v').lines
      && KeptIndices(vcf, cosmic, v) == (if kept then [0] else []) + Shift(KeptIndices(rest, cosmic, v'))
  {
    if !IsHeader(vcf[0]) {
      assert Classify(vcf[0], cosmic, v).Ok?;
    }
  }

  /**
   * When no exception occurs, the loop prints exactly the kept lines, in
   * input order, each without its last character.
   */
  lemma {:induction false} DrivePrintsKeptLines(vcf: seq<string>, cosmic: CosmicDictionary, v: Version)
    requires Drive(vcf, cosmic, v).failure.None?
    ensures var out, ks := Drive(vcf, cosmic, v).lines, KeptIndices(vcf, cosmic, v);
      |out| == |ks| && forall j :: 0 <= j < |ks| ==> out[j] == DropLast(vcf[ks[j]])
    decreases |vcf|
  {
    if vcf != [] {
      var rest, v' := vcf[1..], NextVersion(v, vcf[0]);
      DriveHead(vcf, cosmic, v);
      DrivePrintsKeptLines(rest, cosmic, v');
      var kept := !IsHeader(vcf[0]) && Classify(vcf[0], cosmic, v) == Ok(Retain);
      PairingExtends(vcf, kept, Drive(rest, cosmic, v').lines, KeptIndices(rest, cosmic, v'));
    }
  }

  /** The pairing of printed lines with kept positions survives putting one more line in front. */
  lemma PairingExtends(vcf: seq<string>, kept: bool, tail: seq<string>, ks: seq<int>)
    requires vcf != []
    requires |tail| == |ks|
    requires forall j :: 0 <= j < |ks| ==> 0 <= ks[j] < |vcf| - 1 && tail[j] == DropLast(vcf[1..][ks[j]])
    ensures var out, ks' := (if kept then [DropLast(vcf[0])] else []) + tail, (if kept then [0] else []) + Shift(ks);
      |out| == |ks'| && forall j :: 0 <= j < |ks'| ==> out[j] == DropLast(vcf[ks'[j]])
  {
    var out, ks' := (if kept then [DropLast(vcf[0])] else []) + tail, (if kept then [0] else []) + Shift(ks);
    var h := if kept then 1 else 0;
    forall j | 0 <= j < |ks'| ensures out[j] == DropLast(vcf[ks'[j]]) {
      if j >= h {
        assert out[j] == tail[j - h] && ks'[j] == ks[j - h] + 1;
        assert vcf[1..][ks[j - h]] == vcf[ks[j - h] + 1];
      }
    }
  }

  /** A data line on which `check_mutect_variant` raises. */
  predicate ShortDataLine(line: string)
  {
    !IsHeader(line) && |Words(line)| < 7
  }

  /** The loop raises exactly when some data line has fewer than seven whitespace-separated fields. */
  lemma {:induction false} DriveFailsOnShortLine(vcf: seq<string>, cosmic: CosmicDictionary, v: Version)
    ensures Drive(vcf, cosmic, v).failure.Some? <==> exists i :: 0 <= i < |vcf| && ShortDataLine(vcf[i])
    ensures Drive(vcf, cosmic, v).failure.Some? ==> Drive(vcf, cosmic, v).failure == Some(TooFewColumns)
    decreases |vcf|
  {
    if vcf != [] {
      var rest := vcf[1..];
      DriveFailsOnShortLine(rest, cosmic, NextVersion(v, vcf[0]));
      DriveStep(vcf, cosmic, v);
      if exists i :: 0 <= i < |rest| && ShortDataLine(rest[i]) {
        var i :| 0 <= i < |rest| && ShortDataLine(rest[i]);
        assert vcf[i + 1] == rest[i];
      }
      if exists i :: 0 < i < |vcf| && ShortDataLine(vcf[i]) {
        var i :| 0 < i < |vcf| && ShortDataLine(vcf[i]);
        assert rest[i - 1] == vcf[i];
      }
    }
  }

  /**
   * When the first short data line is line `i`, the run stops there: what
   * was printed is what the lines before it print.
   */
  lemma {:induction false} DriveStopsAtShortLine(vcf: seq<string>, cosmic: CosmicDictionary, v: Version, i: nat)
    requires i < |vcf| && ShortDataLine(vcf[i])
    requires forall j :: 0 <= j < i ==> !ShortDataLine(vcf[j])
    ensures Drive(vcf[..i], cosmic, v).failure.None?
    ensures Drive(vcf, cosmic, v) == Printout(Drive(vcf[..i], cosmic, v).lines, Some(TooFewColumns))
    decreases i
  {
    DriveStep(vcf, cosmic, v);
    if i > 0 {
      var rest, v' := vcf[1..], NextVersion(v, vcf[0]);
      assert vcf[..i][0] == vcf[0] && vcf[..i][1..] == rest[..i - 1];
      forall j | 0 <= j < i - 1 ensures !ShortDataLine(rest[j]) {
        assert rest[j] == vcf[j + 1];
      }
      DriveStopsAtShortLine(rest, cosmic, v', i - 1);
      DriveStep(vcf[..i], cosmic, v);
    } else {
      assert vcf[..i] == [];
    }
  }

  // ---------------------------------------------------------------------
  // main
  // ---------------------------------------------------------------------

  /**
   * `main` without the argument parsing and file opening: build the COSMIC
   * dictionary (a failure there ends the run before anything is printed),
   * then run the line loop over the caller's VCF.
   */
  method RunSelector(cosmicLines: seq<string>, vcf: seq<string>) returns (printed: seq<string>, failure: Option<Error>)
    ensures CosmicIndex(cosmicLines).Err? ==> printed == [] && failure == Some(CosmicIndex(cosmicLines).error)
    ensures CosmicIndex(cosmicLines).Ok? ==>
              Printout(printed, failure) == Drive(vcf, CosmicIndex(cosmicLines).value, Mutect)
  {
    var built := BuildCosmicDictionary(cosmicLines);
    if built.Err? {
      return [], Some(built.error);
    }
    printed, failure := SelectVariants(vcf, built.value);
  }
}

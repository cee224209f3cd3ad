/**
 * The concordance loop of `main`: every line of the VCF file is counted;
 * unreadable lines and `#` header lines are passed over; each data line's
 * CHROM/POS/REF are extracted, the reference sequence is read over
 * `[pos, pos + |REF|)` and compared with REF ignoring letter case. A
 * mismatch is reported with its physical line number and the run carries
 * on; an extraction or lookup failure panics and ends the run at once.
 */
module Verifier {
  import opened Wrappers
  import opened Columns

  /** The indexed FASTA file: sequence name to its bases. */
  type Reference = map<string, seq<char>>

  /** One item of the line iterator; `None` is a line that could not be read. */
  type Line = Option<string>

  /** Why a run ends in a panic instead of returning. */
  datatype Abort =
    | FastaUnreadable            // IndexedFasta::from_file failed
    | EmptyLine                  // `chars().next().unwrap()` on ""
    | Malformed(error: ExtractError)
    | UnknownChrom               // `tid(chr_name)` found no such sequence
    | RangeOverflow              // `pos + ref_allele.len()` overflowed `usize`
    | ViewOutOfRange             // `view` refused a range past the sequence end

  /** The diagnostic printed for a mismatching line. */
  datatype Report = Report(lineno: nat, text: string)

  /** What a single line does to the run. */
  datatype Verdict = Skipped | Matched | Mismatched | Fatal(cause: Abort)

  /** State of the scan after a prefix of the lines: still going, with the
      line counter, the error flag and the reports so far, or stopped by a
      panic at line `lineno`. */
  datatype Scan =
    | Scanning(lineno: nat, err: bool, failed: seq<Report>)
    | Halted(cause: Abort, lineno: nat, failed: seq<Report>)

  /** How a run ends: a panic (with the reports printed before it), or
      `main` returning `Err` (when `isErr`) or `Ok`. */
  datatype Outcome =
    | Aborted(cause: Abort, lineno: nat, failed: seq<Report>)
    | Returned(isErr: bool, failed: seq<Report>)

  // ---------------------------------------------------------------------------
  // Case folding
  // ---------------------------------------------------------------------------

  predicate IsUpper(c: char) {
    'A' <= c <= 'Z'
  }

  /** ASCII lower-casing of one character. */
  function LowerChar(c: char): char {
    if IsUpper(c) then (c as int + 32) as char else c
  }

  /** `to_lowercase`, one character at a time. */
  function Lower(s: string): (r: string)
    ensures |r| == |s|
    ensures forall i :: 0 <= i < |s| ==> r[i] == LowerChar(s[i])
  {
    seq(|s|, i requires 0 <= i < |s| => LowerChar(s[i]))
  }

  /** Two characters are the same letter, one perhaps in upper case. */
  predicate SameIgnoringCase(x: char, y: char) {
    x == y || (IsUpper(x) && y as int == x as int + 32) || (IsUpper(y) && x as int == y as int + 32)
  }

  /** Two strings agree position by position up to letter case. */
  predicate EqualIgnoringCase(a: string, b: string) {
    |a| == |b| && forall i :: 0 <= i < |a| ==> SameIgnoringCase(a[i], b[i])
  }

  lemma LowerCharSame(x: char, y: char)
    ensures LowerChar(x) == LowerChar(y) <==> SameIgnoringCase(x, y)
  {
  }

  /** Comparing the lower-cased strings is comparing up to letter case. */
  lemma LowerEqualIff(a: string, b: string)
    ensures Lower(a) == Lower(b) <==> EqualIgnoringCase(a, b)
  {
    if Lower(a) == Lower(b) {
      forall i | 0 <= i < |a|
        ensures SameIgnoringCase(a[i], b[i])
      {
        assert Lower(a)[i] == Lower(b)[i];
        LowerCharSame(a[i], b[i]);
      }
    }
    if EqualIgnoringCase(a, b) {
      forall i | 0 <= i < |a|
        ensures Lower(a)[i] == Lower(b)[i]
      {
        LowerCharSame(a[i], b[i]);
      }
    }
  }

  // ---------------------------------------------------------------------------
  // Reference lookup
  // ---------------------------------------------------------------------------

  /** `tid`, the `usize` addition of the end coordinate, then `view`: the
      bases of sequence `name` over `[pos, pos + len)`, or the panic that
      each step's `expect` (or the overflow check) raises. */
  function Lookup(fa: Reference, name: string, pos: nat, len: nat): (r: Result<seq<char>, Abort>)
    ensures r.Ok? <==> name in fa && pos + len <= USIZE_MAX && pos + len <= |fa[name]|
    ensures r.Ok? ==> |r.value| == len && forall i :: 0 <= i < len ==> r.value[i] == fa[name][pos + i]
    ensures name !in fa ==> r == Err(UnknownChrom)
    ensures r.Err? ==> r.error in {UnknownChrom, RangeOverflow, ViewOutOfRange}
  {
    if name !in fa then Err(UnknownChrom)
    else if pos + len > USIZE_MAX then Err(RangeOverflow)
    else if pos + len > |fa[name]| then Err(ViewOutOfRange)
    else Ok(fa[name][pos..pos + len])
  }

  // ---------------------------------------------------------------------------
  // One line
  // ---------------------------------------------------------------------------

  /** A data line's fields against the reference: look up
      `[pos, pos + |REF|)` and compare both sides lower-cased. */
  function Compare(fa: Reference, f: Fields): (v: Verdict)
    ensures v.Fatal? || v == Matched || v == Mismatched
    ensures v.Fatal? ==> v.cause in {UnknownChrom, RangeOverflow, ViewOutOfRange}
  {
    match Lookup(fa, f.chrom, f.pos, |f.refAllele|)
    case Err(c) => Fatal(c)
    case Ok(view) => if Lower(view) != Lower(f.refAllele) then Mismatched else Matched
  }

  /** The body of the loop for one line, as a verdict. */
  function CheckLine(fa: Reference, line: Line): (v: Verdict)
    ensures line.None? ==> v == Skipped
    ensures line == Some([]) ==> v == Fatal(EmptyLine)
    ensures line.Some? && |line.value| > 0 && line.value[0] == '#' ==> v == Skipped
    ensures line.Some? && |line.value| > 0 && line.value[0] != '#' && GetColumns(line.value).Err? ==>
      v == Fatal(Malformed(GetColumns(line.value).error))
    ensures v == Matched || v == Mismatched ==> line.Some? && GetColumns(line.value).Ok?
  {
    match line
    case None => Skipped
    case Some(s) =>
      if |s| == 0 then Fatal(EmptyLine)
      else if s[0] == '#' then Skipped
      else match GetColumns(s)
        case Err(e) => Fatal(Malformed(e))
        case Ok(f) => Compare(fa, f)
  }

  /** A data line goes to the comparison with the fields extracted from it. */
  lemma DataLineVerdict(fa: Reference, s: string, f: Fields)
    requires |s| > 0 && s[0] != '#' && GetColumns(s) == Ok(f)
    ensures var end := f.pos + |f.refAllele|;
      CheckLine(fa, Some(s)) ==
        if f.chrom !in fa then Fatal(UnknownChrom)
        else if end > USIZE_MAX then Fatal(RangeOverflow)
        else if end > |fa[f.chrom]| then Fatal(ViewOutOfRange)
        else if EqualIgnoringCase(fa[f.chrom][f.pos..end], f.refAllele) then Matched
        else Mismatched
  {
    assert CheckLine(fa, Some(s)) == Compare(fa, f);
    CompareCases(fa, f);
  }

  /** A record is compared against exactly `[pos, pos + |REF|)` of its
      sequence; an unknown name or a range past the end is fatal; otherwise
      it is a mismatch exactly when the two differ other than in letter
      case. */
  lemma CompareCases(fa: Reference, f: Fields)
    ensures var end := f.pos + |f.refAllele|;
      Compare(fa, f) ==
        if f.chrom !in fa then Fatal(UnknownChrom)
        else if end > USIZE_MAX then Fatal(RangeOverflow)
        else if end > |fa[f.chrom]| then Fatal(ViewOutOfRange)
        else if EqualIgnoringCase(fa[f.chrom][f.pos..end], f.refAllele) then Matched
        else Mismatched
  {
    var r := Lookup(fa, f.chrom, f.pos, |f.refAllele|);
    if r.Ok? {
      LowerEqualIff(r.value, f.refAllele);
    }
  }

  /** The verdict on a well-formed data line, end to end: extraction gives
      back the fields it was written from, then the lookup and the
      case-insensitive comparison decide. */
  lemma RecordVerdict(fa: Reference, chrom: string, pos: nat, id: string, refAllele: string, rest: string)
    requires NoTab(chrom) && NoTab(id) && NoTab(refAllele)
    requires pos < USIZE_MAX
    requires chrom == [] || chrom[0] != '#'
    ensures var end := pos + |refAllele|;
      CheckLine(fa, Some(FormatRecord(chrom, pos, id, refAllele, rest))) ==
        if chrom !in fa then Fatal(UnknownChrom)
        else if end > USIZE_MAX then Fatal(RangeOverflow)
        else if end > |fa[chrom]| then Fatal(ViewOutOfRange)
        else if EqualIgnoringCase(fa[chrom][pos..end], refAllele) then Matched
        else Mismatched
  {
    var line := FormatRecord(chrom, pos, id, refAllele, rest);
    GetColumnsRoundTrip(chrom, pos, id, refAllele, rest);
    assert line[0] == if chrom == [] then TAB else chrom[0];
    DataLineVerdict(fa, line, Fields(chrom, pos, refAllele));
  }

  // ---------------------------------------------------------------------------
  // The whole file
  // ---------------------------------------------------------------------------

  /** One step of the loop: count the line, then act on its verdict. */
  function Advance(st: Scan, line: Line, v: Verdict): (r: Scan)
    requires v == Mismatched ==> line.Some?
    ensures st.Halted? ==> r == st
    ensures st.Scanning? ==> r.lineno == st.lineno + 1
    ensures st.Scanning? ==> (r.Halted? <==> v.Fatal?)
    ensures st.Scanning? && r.Halted? ==> r.cause == v.cause && r.failed == st.failed
    ensures st.Scanning? && r.Scanning? ==> (r.err <==> st.err || v == Mismatched)
    ensures st.Scanning? && r.Scanning? ==>
      r.failed == st.failed + (if v == Mismatched then [Report(r.lineno, line.value)] else [])
  {
    match st
    case Halted(_, _, _) => st
    case Scanning(n, err, f) =>
      match v
      case Skipped => Scanning(n + 1, err, f)
      case Matched => Scanning(n + 1, err, f)
      case Mismatched => Scanning(n + 1, true, f + [Report(n + 1, line.value)])
      case Fatal(c) => Halted(c, n + 1, f)
  }

  /** The loop's state after the lines in `lines`, in file order. */
  function ScanLines(fa: Reference, lines: seq<Line>): (r: Scan)
    ensures r.Scanning? ==> r.lineno == |lines| && (r.err <==> r.failed != [])
    ensures r.Halted? ==> 1 <= r.lineno <= |lines|
    decreases |lines|
  {
    if lines == [] then Scanning(0, false, [])
    else
      var init := lines[..|lines| - 1];
      var last := lines[|lines| - 1];
      var prev := ScanLines(fa, init);
      var v := CheckLine(fa, last);
      var r := Advance(prev, last, v);
      r
  }

  lemma ScanSnoc(fa: Reference, lines: seq<Line>, i: nat)
    requires i < |lines|
    ensures ScanLines(fa, lines[..i + 1]) == Advance(ScanLines(fa, lines[..i]), lines[i], CheckLine(fa, lines[i]))
  {
    assert lines[..i + 1][..i] == lines[..i];
  }

  /** A run: open the FASTA file (panicking if it cannot be opened), then
      scan the lines if the VCF file could be opened. */
  function Run(fasta: Option<Reference>, vcf: Option<seq<Line>>): (o: Outcome)
    ensures fasta.None? ==> o == Aborted(FastaUnreadable, 0, [])
    ensures fasta.Some? && vcf.None? ==> o == Returned(false, [])
    ensures o.Returned? ==> (o.isErr <==> o.failed != [])
  {
    if fasta.None? then Aborted(FastaUnreadable, 0, [])
    else if vcf.None? then Returned(false, [])
    else match ScanLines(fasta.value, vcf.value)
      case Halted(c, n, f) => Aborted(c, n, f)
      case Scanning(_, err, f) => Returned(err, f)
  }

  /** Once a panic has stopped the scan, later lines change nothing. */
  lemma {:induction false} HaltedStays(fa: Reference, lines: seq<Line>, k: nat)
    requires k <= |lines| && ScanLines(fa, lines[..k]).Halted?
    ensures ScanLines(fa, lines) == ScanLines(fa, lines[..k])
    decreases |lines| - k
  {
    if k < |lines| {
      var init := lines[..|lines| - 1];
      assert init[..k] == lines[..k];
      HaltedStays(fa, init, k);
    } else {
      assert lines[..k] == lines;
    }
  }

  // ---------------------------------------------------------------------------
  // What the scan promises
  // ---------------------------------------------------------------------------

  /** No line in `lines` panics. */
  predicate NoFatal(fa: Reference, lines: seq<Line>) {
    forall i :: 0 <= i < |lines| ==> !CheckLine(fa, lines[i]).Fatal?
  }

  /** A report names a physical line (header and unreadable lines are
      counted too), carries that line's text, and that line mismatches. */
  predicate ReportedMismatch(fa: Reference, lines: seq<Line>, r: Report) {
    1 <= r.lineno <= |lines| && lines[r.lineno - 1] == Some(r.text)
    && CheckLine(fa, lines[r.lineno - 1]) == Mismatched
  }

  /** Reports appear in file order, at most one per line. */
  predicate InFileOrder(f: seq<Report>) {
    forall a, b :: 0 <= a < b < |f| ==> f[a].lineno < f[b].lineno
  }

  /** The scan runs to the end of the file exactly when no line panics. */
  lemma {:induction false} ScanCompletes(fa: Reference, lines: seq<Line>)
    ensures ScanLines(fa, lines).Scanning? <==> NoFatal(fa, lines)
    decreases |lines|
  {
    if lines != [] {
      var init := lines[..|lines| - 1];
      var last := lines[|lines| - 1];
      ScanCompletes(fa, init);
      var prev := ScanLines(fa, init);
      assert ScanLines(fa, lines) == Advance(prev, last, CheckLine(fa, last));
      if NoFatal(fa, lines) {
        forall i | 0 <= i < |init|
          ensures !CheckLine(fa, init[i]).Fatal?
        {
          assert init[i] == lines[i];
        }
      } else {
        var i :| 0 <= i < |lines| && CheckLine(fa, lines[i]).Fatal?;
        if i < |init| {
          assert init[i] == lines[i];
        }
      }
    }
  }

  /** A scan that halts does so on the first line that panics, with that
      line's own panic. */
  lemma {:induction false} ScanHalts(fa: Reference, lines: seq<Line>)
    ensures ScanLines(fa, lines).Halted? ==>
      var k := ScanLines(fa, lines).lineno - 1;
      CheckLine(fa, lines[k]) == Fatal(ScanLines(fa, lines).cause) && NoFatal(fa, lines[..k])
    decreases |lines|
  {
    if lines != [] {
      var init := lines[..|lines| - 1];
      var last := lines[|lines| - 1];
      var prev := ScanLines(fa, init);
      var v := CheckLine(fa, last);
      var st := ScanLines(fa, lines);
      assert st == Advance(prev, last, v);
      if prev.Halted? {
        var k := prev.lineno - 1;
        ScanHalts(fa, init);
        assert st == prev;
        assert lines[k] == init[k] && lines[..k] == init[..k];
      } else if v.Fatal? {
        ScanCompletes(fa, init);
        assert st.lineno - 1 == |init| && st.cause == v.cause;
        assert lines[..|init|] == init;
      }
    }
  }

  /** Every report is a mismatching line of the file, given with its own
      line number and text, and the reports come out in file order. */
  lemma {:induction false} ReportsSound(fa: Reference, lines: seq<Line>)
    ensures forall r :: r in ScanLines(fa, lines).failed ==> ReportedMismatch(fa, lines, r)
    ensures InFileOrder(ScanLines(fa, lines).failed)
    decreases |lines|
  {
    if lines != [] {
      var init := lines[..|lines| - 1];
      var last := lines[|lines| - 1];
      ReportsSound(fa, init);
      var prev := ScanLines(fa, init);
      var v := CheckLine(fa, last);
      assert ScanLines(fa, lines) == Advance(prev, last, v);
      forall r | r in prev.failed
        ensures ReportedMismatch(fa, lines, r)
      {
        assert ReportedMismatch(fa, init, r);
        assert lines[r.lineno - 1] == init[r.lineno - 1];
      }
      if prev.Scanning? && v == Mismatched {
        var f := prev.failed + [Report(|lines|, last.value)];
        assert ScanLines(fa, lines).failed == f;
        forall r | r in f
          ensures ReportedMismatch(fa, lines, r)
        {
          if r !in prev.failed {
            assert r == Report(|lines|, last.value);
          }
        }
        forall a, b | 0 <= a < b < |f|
          ensures f[a].lineno < f[b].lineno
        {
          assert f[a] in prev.failed;
          if b < |prev.failed| {
            assert f[a] == prev.failed[a] && f[b] == prev.failed[b];
          }
        }
      }
    }
  }

  /** The state after a prefix of the lines leads to the state after all
      of them: reports already printed stay, in front, and a scan that is
      still going was still going after the prefix. */
  lemma {:induction false} ScanPrefix(fa: Reference, lines: seq<Line>, k: nat)
    requires k <= |lines|
    ensures ScanLines(fa, lines[..k]).failed <= ScanLines(fa, lines).failed
    ensures ScanLines(fa, lines).Scanning? ==> ScanLines(fa, lines[..k]).Scanning?
    decreases |lines|
  {
    if k == |lines| {
      assert lines[..k] == lines;
    } else {
      var init := lines[..|lines| - 1];
      assert init[..k] == lines[..k];
      ScanPrefix(fa, init, k);
    }
  }

  /** A mismatch does not stop the scan, and once raised the error flag
      stays raised: if the scan is still going after more lines, the flag
      is set whenever it was set after the first ones. */
  lemma ErrFlagMonotone(fa: Reference, lines: seq<Line>, more: seq<Line>)
    requires ScanLines(fa, lines).Scanning? && ScanLines(fa, lines).err
    requires ScanLines(fa, lines + more).Scanning?
    ensures ScanLines(fa, lines + more).err
  {
    assert (lines + more)[..|lines|] == lines;
    ScanPrefix(fa, lines + more, |lines|);
  }

  /** Every mismatching line before the line where the scan stops is
      reported, whether the scan runs to the end or halts on a panic. */
  lemma {:induction false} ReportsComplete(fa: Reference, lines: seq<Line>, i: nat)
    requires i < |lines| && CheckLine(fa, lines[i]) == Mismatched
    requires ScanLines(fa, lines).Scanning? || i + 1 < ScanLines(fa, lines).lineno
    ensures Report(i + 1, lines[i].value) in ScanLines(fa, lines).failed
    decreases |lines|
  {
    if ScanLines(fa, lines).Scanning? {
      ScanPrefix(fa, lines, i + 1);
      ScanPrefix(fa, lines, i);
      ScanSnoc(fa, lines, i);
      var f := ScanLines(fa, lines[..i + 1]).failed;
      assert f[|f| - 1] == Report(i + 1, lines[i].value);
    } else {
      var k := ScanLines(fa, lines).lineno - 1;
      ScanHalts(fa, lines);
      ScanCompletes(fa, lines[..k]);
      ScanPrefix(fa, lines, k);
      assert lines[..k][i] == lines[i];
      ReportsComplete(fa, lines[..k], i);
    }
  }

  /** How a run with both files open ends: it returns exactly when no line
      panics, and it then returns `Err` exactly when some line mismatches;
      otherwise it panics on the first line whose verdict is a panic. */
  lemma RunOutcome(fa: Reference, lines: seq<Line>)
    ensures Run(Some(fa), Some(lines)).Returned? <==> NoFatal(fa, lines)
    ensures Run(Some(fa), Some(lines)).Returned? ==>
      (Run(Some(fa), Some(lines)).isErr <==>
        exists i :: 0 <= i < |lines| && CheckLine(fa, lines[i]) == Mismatched)
    ensures Run(Some(fa), Some(lines)).Aborted? ==>
      var o := Run(Some(fa), Some(lines));
      1 <= o.lineno <= |lines| && CheckLine(fa, lines[o.lineno - 1]) == Fatal(o.cause)
      && NoFatal(fa, lines[..o.lineno - 1])
  {
    ScanCompletes(fa, lines);
    ScanHalts(fa, lines);
    var st := ScanLines(fa, lines);
    if st.Scanning? {
      if st.failed != [] {
        ReportsSound(fa, lines);
        assert st.failed[0] in st.failed;
        var i := st.failed[0].lineno - 1;
        assert CheckLine(fa, lines[i]) == Mismatched;
      }
      if exists i :: 0 <= i < |lines| && CheckLine(fa, lines[i]) == Mismatched {
        var i :| 0 <= i < |lines| && CheckLine(fa, lines[i]) == Mismatched;
        ReportsComplete(fa, lines, i);
      }
    }
  }

  /** `main`: the loop over the lines, one at a time. */
  method VerifyVcf(fasta: Option<Reference>, vcf: Option<seq<Line>>) returns (o: Outcome)
    ensures o == Run(fasta, vcf)
  {
    if fasta.None? {
      return Aborted(FastaUnreadable, 0, []);
    }
    var fa := fasta.value;
    var lineno := 0;
    var err := false;
    var failed: seq<Report> := [];
    if vcf.Some? {
      var lines := vcf.value;
      for i := 0 to |lines|
        invariant ScanLines(fa, lines[..i]) == Scanning(lineno, err, failed)
      {
        ScanSnoc(fa, lines, i);
        lineno := lineno + 1;
        if lines[i].Some? {
          var ip := lines[i].value;
          if |ip| == 0 {
            HaltedStays(fa, lines, i + 1);
            return Aborted(EmptyLine, lineno, failed);
          }
          if ip[0] == '#' {
            continue;
          }
          var columns := GetColumns(ip);
          if columns.Err? {
            HaltedStays(fa, lines, i + 1);
            return Aborted(Malformed(columns.error), lineno, failed);
          }
          var f := columns.value;
          var view := Lookup(fa, f.chrom, f.pos, |f.refAllele|);
          if view.Err? {
            HaltedStays(fa, lines, i + 1);
            return Aborted(view.error, lineno, failed);
          }
          var needle := Lower(view.value);
          var haystack := Lower(f.refAllele);
          if needle != haystack {
            failed := failed + [Report(lineno, ip)];
            err := true;
          }
        }
      }
      assert lines[..|lines|] == lines;
    }
    if err {
      o := Returned(true, failed);
    } else {
      o := Returned(false, failed);
    }
  }

  // ---------------------------------------------------------------------------
  // A worked example
  // ---------------------------------------------------------------------------

  /** Reference sequence `chrA` = ACGTACGT. */
  function ExampleReference(): Reference {
    map["chrA" := "ACGTACGT"]
  }

  /** One example line: CHROM chrA, POS 3, no ID, the given REF and one
      more column. */
  lemma ExampleLine(refAllele: string)
    requires refAllele in {"GT", "gt", "GC"}
    ensures FormatRecord("chrA", 2, ".", refAllele, ".") == "chrA\t3\t.\t" + refAllele + "\t."
  {
    assert Dec(3) == "3";
  }

  /** POS 3 with REF GT lands on bases 2..4 (0-based) and matches in either
      letter case; REF GC at the same place mismatches. */
  lemma ExampleVerdict(refAllele: string)
    requires refAllele in {"GT", "gt", "GC"}
    ensures CheckLine(ExampleReference(), Some("chrA\t3\t.\t" + refAllele + "\t.")) ==
      if refAllele == "GC" then Mismatched else Matched
  {
    var fa := ExampleReference();
    var bases := fa["chrA"][2..4];
    assert bases == "GT";
    if refAllele == "GC" {
      assert !SameIgnoringCase(bases[1], refAllele[1]);
    } else {
      assert EqualIgnoringCase(bases, refAllele);
    }
    ExampleLine(refAllele);
    RecordVerdict(fa, "chrA", 2, ".", refAllele, ".");
  }

  /** A header line and an unreadable line are both counted and neither
      is reported. */
  lemma ExampleHeader()
    ensures ScanLines(ExampleReference(), [Some("##fileformat=VCFv4.2"), None]) == Scanning(2, false, [])
  {
    var fa := ExampleReference();
    var lines: seq<Line> := [Some("##fileformat=VCFv4.2"), None];
    assert CheckLine(fa, lines[0]) == Skipped;
    ScanSnoc(fa, lines, 0);
    assert lines[..0] == [];
    ScanSnoc(fa, lines, 1);
    assert lines[..2] == lines;
  }

  /** A header line, an unreadable line, then the record: the header is
      skipped, the unreadable line still counts, so a mismatch is reported
      as line 3 and the run returns `Err`; a match returns `Ok`. */
  lemma ExampleRun(refAllele: string)
    requires refAllele in {"GT", "gt", "GC"}
    ensures var line := "chrA\t3\t.\t" + refAllele + "\t.";
      Run(Some(ExampleReference()), Some([Some("##fileformat=VCFv4.2"), None, Some(line)])) ==
        if refAllele == "GC" then Returned(true, [Report(3, line)]) else Returned(false, [])
  {
    var fa := ExampleReference();
    var line := "chrA\t3\t.\t" + refAllele + "\t.";
    var header := "##fileformat=VCFv4.2";
    var lines: seq<Line> := [Some(header), None, Some(line)];
    ExampleVerdict(refAllele);
    assert lines[..2] == [Some(header), None];
    ExampleHeader();
    ScanSnoc(fa, lines, 2);
    assert lines[..3] == lines;
  }
}

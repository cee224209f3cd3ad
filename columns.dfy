/**
 * Field extraction from one tab-delimited VCF data line (`get_columns`).
 *
 * The extractor finds the first four tab characters one after another and
 * reads three fields from the leading fixed columns: CHROM (before tab 1),
 * POS (between tabs 1 and 2, 1-based, turned 0-based by subtracting one)
 * and REF (between tabs 3 and 4). The ID column and everything after tab 4
 * are never looked at. `SplitColumns`, which splits the whole line, is the
 * reference definition the extractor is proved against.
 */
module Columns {
  import opened Wrappers

  const TAB: char := '\t'

  /** Largest `usize` value on a 64-bit target. */
  const USIZE_MAX: nat := 0xFFFF_FFFF_FFFF_FFFF

  /** Why extraction panics: an `unwrap` on a missing tab or on a failed
      parse, or the `- 1` underflowing on a position of zero. */
  datatype ExtractError = MissingTab | BadPosition | PositionUnderflow

  /** The three fields read from a data line; `pos` is 0-based. */
  datatype Fields = Fields(chrom: string, pos: nat, refAllele: string)

  predicate NoTab(s: string) {
    forall i :: 0 <= i < |s| ==> s[i] != TAB
  }

  // ---------------------------------------------------------------------------
  // Scanning for tabs, one match at a time
  // ---------------------------------------------------------------------------

  /** Index of the first tab in `t`: the next item of the
      `match_indices('\t')` iterator, counted from where the previous
      match left off. */
  function FirstTab(t: string): (r: Option<nat>)
    ensures r.Some? ==> r.value < |t| && t[r.value] == TAB && NoTab(t[..r.value])
    ensures r.None? ==> NoTab(t)
    decreases |t|
  {
    if t == [] then None
    else if t[0] == TAB then Some(0)
    else match FirstTab(t[1..])
      case None => None
      case Some(i) =>
        assert t[..i + 1] == [t[0]] + t[1..][..i];
        Some(i + 1)
  }

  /** Number of tabs in `s`. */
  function TabCount(s: string): nat {
    if s == [] then 0 else (if s[0] == TAB then 1 else 0) + TabCount(s[1..])
  }

  // ---------------------------------------------------------------------------
  // `usize` parsing and printing
  // ---------------------------------------------------------------------------

  predicate IsDigit(c: char) {
    '0' <= c <= '9'
  }

  predicate AllDigits(s: string) {
    forall i :: 0 <= i < |s| ==> IsDigit(s[i])
  }

  function DigitValue(c: char): nat
    requires IsDigit(c)
  {
    c as int - '0' as int
  }

  function DigitChar(d: nat): (c: char)
    requires d < 10
    ensures IsDigit(c) && DigitValue(c) == d
  {
    ('0' as int + d) as char
  }

  /** Value of a string of decimal digits, most significant first. */
  function DecimalValue(ds: string): nat
    requires AllDigits(ds)
    decreases |ds|
  {
    if ds == [] then 0 else DecimalValue(ds[..|ds| - 1]) * 10 + DigitValue(ds[|ds| - 1])
  }

  /** `str::parse::<usize>`: an optional `+` followed by one or more ASCII
      digits, whose value must fit in `usize`; anything else is an error. */
  function ParseUsize(t: string): (r: Option<nat>)
    ensures r.Some? ==> r.value <= USIZE_MAX
    ensures var d := if |t| > 0 && t[0] == '+' then t[1..] else t;
      r.Some? ==> |d| > 0 && AllDigits(d) && r.value == DecimalValue(d)
    ensures var d := if |t| > 0 && t[0] == '+' then t[1..] else t;
      |d| > 0 && AllDigits(d) && DecimalValue(d) <= USIZE_MAX ==> r.Some?
  {
    var digits := if |t| > 0 && t[0] == '+' then t[1..] else t;
    if |digits| == 0 || !AllDigits(digits) then None
    else if DecimalValue(digits) > USIZE_MAX then None
    else Some(DecimalValue(digits))
  }

  /** Shortest decimal rendering of `n` (how a position is written in a file). */
  function Dec(n: nat): string
    decreases n
  {
    if n < 10 then [DigitChar(n)] else Dec(n / 10) + [DigitChar(n % 10)]
  }

  lemma {:induction false} DecDigits(n: nat)
    ensures |Dec(n)| > 0 && AllDigits(Dec(n)) && DecimalValue(Dec(n)) == n
    decreases n
  {
    if n >= 10 {
      DecDigits(n / 10);
      var d := Dec(n);
      assert d[..|d| - 1] == Dec(n / 10);
    }
  }

  /** A position printed in decimal, with or without a leading `+`, parses
      back to itself as long as it fits in `usize`. */
  lemma ParseUsizeDec(n: nat)
    requires n <= USIZE_MAX
    ensures ParseUsize(Dec(n)) == Some(n)
    ensures ParseUsize("+" + Dec(n)) == Some(n)
  {
    DecDigits(n);
    assert ("+" + Dec(n))[1..] == Dec(n);
  }

  /** A number too large for `usize` is rejected, not truncated. */
  lemma ParseUsizeOverflow(n: nat)
    requires n > USIZE_MAX
    ensures ParseUsize(Dec(n)) == None
  {
    DecDigits(n);
  }

  // ---------------------------------------------------------------------------
  // Reference definition: split the whole line at every tab
  // ---------------------------------------------------------------------------

  /** All tab-separated fields of `s`, as `s.split('\t')` would give them. */
  function Split(s: string): (r: seq<string>)
    ensures |r| >= 1
    decreases |s|
  {
    if s == [] then [[]]
    else
      var rest := Split(s[1..]);
      if s[0] == TAB then [[]] + rest else [[s[0]] + rest[0]] + rest[1..]
  }

  /** Fields joined back with tabs. */
  function Join(fs: seq<string>): string
    requires |fs| >= 1
    decreases |fs|
  {
    if |fs| == 1 then fs[0] else fs[0] + [TAB] + Join(fs[1..])
  }

  /** Parse POS and turn it 0-based; shared by the extractor and the
      reference definition once each has found its three slices. */
  function Assemble(chrom: string, posStr: string, refAllele: string): (r: Result<Fields, ExtractError>)
    ensures r == Err(BadPosition) <==> ParseUsize(posStr).None?
    ensures r == Err(PositionUnderflow) <==> ParseUsize(posStr) == Some(0)
    ensures r.Ok? <==> ParseUsize(posStr).Some? && ParseUsize(posStr).value > 0
    ensures r.Ok? ==>
      r.value.chrom == chrom && r.value.refAllele == refAllele && r.value.pos + 1 == ParseUsize(posStr).value
  {
    match ParseUsize(posStr)
    case None => Err(BadPosition)
    case Some(n) => if n == 0 then Err(PositionUnderflow) else Ok(Fields(chrom, n - 1, refAllele))
  }

  /** The three fields of a line, taken from the full list of its fields
      with the same failure order as the extractor: too few fields first,
      then the position. */
  function SplitColumns(s: string): Result<Fields, ExtractError> {
    var fs := Split(s);
    if |fs| < 5 then Err(MissingTab) else Assemble(fs[0], fs[1], fs[3])
  }

  lemma {:induction false} SplitNoTab(x: string)
    requires NoTab(x)
    ensures Split(x) == [x]
    decreases |x|
  {
    if x != [] {
      SplitNoTab(x[1..]);
      assert [x[0]] + x[1..] == x;
    }
  }

  /** Splitting distributes over a tab. */
  lemma {:induction false} SplitConcat(a: string, b: string)
    ensures Split(a + [TAB] + b) == Split(a) + Split(b)
    decreases |a|
  {
    var s := a + [TAB] + b;
    if a == [] {
      assert s[1..] == b;
    } else {
      assert s[1..] == a[1..] + [TAB] + b;
      SplitConcat(a[1..], b);
    }
  }

  lemma {:induction false} SplitLength(s: string)
    ensures |Split(s)| == TabCount(s) + 1
    decreases |s|
  {
    if s != [] {
      SplitLength(s[1..]);
    }
  }

  /** One step of the tab iterator: the field before the next tab and the
      text after it, or nothing when no tab is left. */
  function NextField(t: string): (r: Option<(string, string)>)
    ensures r.None? ==> NoTab(t)
    ensures r.Some? ==> NoTab(r.value.0) && t == r.value.0 + [TAB] + r.value.1
  {
    match FirstTab(t)
    case None => None
    case Some(i) =>
      assert t == t[..i] + [TAB] + t[i + 1..];
      Some((t[..i], t[i + 1..]))
  }

  /** What one step of the tab iterator tells about the split. */
  lemma NextFieldSplit(t: string)
    ensures NextField(t).None? ==> Split(t) == [t]
    ensures NextField(t).Some? ==>
      Split(t) == [NextField(t).value.0] + Split(NextField(t).value.1)
  {
    match NextField(t)
    case None =>
      SplitNoTab(t);
    case Some((a, b)) =>
      SplitConcat(a, b);
      SplitNoTab(a);
  }

  /** Splitting then joining gives the line back: the split loses nothing. */
  lemma {:induction false} JoinSplit(s: string)
    ensures Join(Split(s)) == s
    decreases |s|
  {
    NextFieldSplit(s);
    match NextField(s)
    case None =>
    case Some((a, b)) =>
      JoinSplit(b);
      var fs := [a] + Split(b);
      assert fs[1..] == Split(b);
      assert Join(fs) == a + [TAB] + Join(Split(b));
  }

  /** The fields before the first `n` tabs, each tab searched for in what
      is left after the previous one; nothing when fewer than `n` tabs. */
  function LeadingFields(t: string, n: nat): (r: Option<seq<string>>)
    ensures r.Some? ==> |r.value| == n
  {
    if n == 0 then Some([])
    else match NextField(t)
      case None => None
      case Some((a, b)) =>
        match LeadingFields(b, n - 1)
        case None => None
        case Some(fs) => Some([a] + fs)
  }

  /** Scanning for `n` tabs finds them exactly when the split has more
      than `n` fields, and then yields the split's first `n` fields. */
  lemma {:induction false} LeadingFieldsSplit(t: string, n: nat)
    ensures LeadingFields(t, n).None? <==> |Split(t)| <= n
    ensures LeadingFields(t, n).Some? ==> LeadingFields(t, n).value == Split(t)[..n]
  {
    if n > 0 {
      NextFieldSplit(t);
      match NextField(t)
      case None =>
      case Some((a, b)) =>
        LeadingFieldsSplit(b, n - 1);
        var rest := Split(b);
        assert Split(t) == [a] + rest;
        match LeadingFields(b, n - 1)
        case None =>
          assert LeadingFields(t, n).None?;
        case Some(fs) =>
          assert LeadingFields(t, n) == Some([a] + fs);
          assert ([a] + rest)[..n] == [a] + rest[..n - 1];
    }
  }

  /** No field found before a tab holds a tab itself. */
  lemma {:induction false} LeadingFieldsNoTab(t: string, n: nat, k: nat)
    requires LeadingFields(t, n).Some? && k < n
    ensures NoTab(LeadingFields(t, n).value[k])
  {
    match NextField(t)
    case Some((a, b)) =>
      if k > 0 {
        LeadingFieldsNoTab(b, n - 1, k - 1);
      }
  }

  // ---------------------------------------------------------------------------
  // The extractor
  // ---------------------------------------------------------------------------

  /** `get_columns`: take the first four tabs in order, each found in what
      is left after the previous one, keep the fields before tabs 1, 2 and
      4 (CHROM, POS, REF), then parse POS and subtract one. */
  function GetColumns(s: string): (r: Result<Fields, ExtractError>)
    ensures r.Ok? ==> r.value.pos < USIZE_MAX
  {
    match LeadingFields(s, 4)
    case None => Err(MissingTab)
    case Some(fs) => Assemble(fs[0], fs[1], fs[3])
  }

  /** Scanning for four tabs gives exactly what splitting the whole line
      and taking fields 1, 2 and 4 gives, failures included. */
  lemma GetColumnsBySplit(s: string)
    ensures GetColumns(s) == SplitColumns(s)
  {
    LeadingFieldsSplit(s, 4);
  }

  /** CHROM and REF are whole cells: neither holds a tab. */
  lemma ExtractedFieldsHaveNoTab(s: string)
    ensures GetColumns(s).Ok? ==> NoTab(GetColumns(s).value.chrom) && NoTab(GetColumns(s).value.refAllele)
  {
    if LeadingFields(s, 4).Some? {
      LeadingFieldsNoTab(s, 4, 0);
      LeadingFieldsNoTab(s, 4, 3);
    }
  }

  /** The three ways extraction fails, each stated on the tab count and the
      second field, and success otherwise. */
  lemma GetColumnsCases(s: string)
    ensures |Split(s)| == TabCount(s) + 1
    ensures GetColumns(s) == Err(MissingTab) <==> TabCount(s) < 4
    ensures GetColumns(s) == Err(BadPosition) <==> |Split(s)| >= 5 && ParseUsize(Split(s)[1]).None?
    ensures GetColumns(s) == Err(PositionUnderflow) <==> |Split(s)| >= 5 && ParseUsize(Split(s)[1]) == Some(0)
    ensures GetColumns(s).Ok? <==>
      |Split(s)| >= 5 && ParseUsize(Split(s)[1]).Some? && ParseUsize(Split(s)[1]).value > 0
  {
    GetColumnsBySplit(s);
    SplitLength(s);
  }

  /** A data line laid out from its fields; `pos` is 0-based and is written
      1-based, as the file stores it. */
  function FormatRecord(chrom: string, pos: nat, id: string, refAllele: string, rest: string): string {
    chrom + [TAB] + Dec(pos + 1) + [TAB] + id + [TAB] + refAllele + [TAB] + rest
  }

  /** The first four fields of a formatted line are the ones it was built
      from, when none of them holds a tab. */
  lemma SplitFormatRecord(chrom: string, pos: nat, id: string, refAllele: string, rest: string)
    requires NoTab(chrom) && NoTab(id) && NoTab(refAllele)
    ensures var fs := Split(FormatRecord(chrom, pos, id, refAllele, rest));
      |fs| >= 5 && fs[0] == chrom && fs[1] == Dec(pos + 1) && fs[2] == id && fs[3] == refAllele
  {
    var d := Dec(pos + 1);
    DecDigits(pos + 1);
    var tail3 := refAllele + [TAB] + rest;
    var tail2 := id + [TAB] + tail3;
    var tail1 := d + [TAB] + tail2;
    var line := FormatRecord(chrom, pos, id, refAllele, rest);
    assert line == chrom + [TAB] + tail1;
    SplitConcat(chrom, tail1);
    SplitNoTab(chrom);
    SplitConcat(d, tail2);
    SplitNoTab(d);
    SplitConcat(id, tail3);
    SplitNoTab(id);
    SplitConcat(refAllele, rest);
    SplitNoTab(refAllele);
    var fs3 := Split(tail3);
    assert fs3 == [refAllele] + Split(rest);
    var fs2 := Split(tail2);
    assert fs2 == [id] + fs3;
    var fs1 := Split(tail1);
    assert fs1 == [d] + fs2;
    assert Split(line) == [chrom] + fs1;
  }

  /** Round trip: extracting from a formatted line gives back CHROM, the
      0-based position and REF, whatever the ID and trailing columns are. */
  lemma GetColumnsRoundTrip(chrom: string, pos: nat, id: string, refAllele: string, rest: string)
    requires NoTab(chrom) && NoTab(id) && NoTab(refAllele)
    requires pos < USIZE_MAX
    ensures GetColumns(FormatRecord(chrom, pos, id, refAllele, rest)) == Ok(Fields(chrom, pos, refAllele))
  {
    var line := FormatRecord(chrom, pos, id, refAllele, rest);
    SplitFormatRecord(chrom, pos, id, refAllele, rest);
    ParseUsizeDec(pos + 1);
    assert Assemble(chrom, Dec(pos + 1), refAllele) == Ok(Fields(chrom, pos, refAllele));
    assert SplitColumns(line) == Ok(Fields(chrom, pos, refAllele));
    GetColumnsBySplit(line);
  }

  /** Only the text up to the fourth tab matters: once a line has four
      tabs, whatever follows them cannot change the result. */
  lemma TrailingColumnsIgnored(head: string, rest1: string, rest2: string)
    requires TabCount(head) == 3
    ensures GetColumns(head + [TAB] + rest1) == GetColumns(head + [TAB] + rest2)
  {
    SplitLength(head);
    SplitConcat(head, rest1);
    SplitConcat(head, rest2);
    GetColumnsBySplit(head + [TAB] + rest1);
    GetColumnsBySplit(head + [TAB] + rest2);
  }
}

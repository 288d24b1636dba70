/** The dashboard's two CSV downloads: the per-contract summary
    (`downloadAllCSV`) and the per-mutant details of one contract
    (`downloadContractCSV` with its `escapeCSV` helper), together with a
    reader for quoted records that the details file is proved to round-trip
    through. */
module Csv {
  import opened Strings
  import opened Report
  import opened Wrappers

  /** `replace(/(\r\n|\n|\r)/g, " ")`: a CRLF pair, a lone LF and a lone CR
      each become one space. */
  function ReplaceLineBreaks(s: string): (r: string)
    ensures '\r' !in r && '\n' !in r
    ensures |r| <= |s|
    ensures Visible(r) == Visible(s)
    ensures s != [] ==> r != [] && (IsWhitespace(r[0]) <==> IsWhitespace(s[0]))
    decreases |s|
  {
    if s == [] then []
    else
      var n := if |s| >= 2 && s[0] == '\r' && s[1] == '\n' then 2 else 1;
      var head := if s[0] == '\r' || s[0] == '\n' then " " else [s[0]];
      var tail := ReplaceLineBreaks(s[n..]);
      assert s == s[..n] + s[n..];
      VisibleConcat(s[..n], s[n..]);
      VisibleConcat(head, tail);
      assert n == 2 ==> Visible(s[..n]) == Visible(s[1..n]) == [];
      head + tail
  }

  /** A line break as the replacement matches it: CRLF, a lone LF or a
      lone CR. */
  predicate IsLineBreak(m: string)
  {
    m == "\r\n" || m == "\n" || m == "\r"
  }

  /** Every line break becomes exactly one space, wherever it stands: a CRLF
      pair is one break, not two. A lone LF must not follow a CR and a lone CR
      must not precede an LF, or the two would be one CRLF. */
  lemma {:induction false} LineBreakIsOneSpace(a: string, m: string, b: string)
    requires IsLineBreak(m)
    requires m == "\n" ==> a == [] || a[|a| - 1] != '\r'
    requires m == "\r" ==> b == [] || b[0] != '\n'
    ensures ReplaceLineBreaks(a + m + b) == ReplaceLineBreaks(a) + " " + ReplaceLineBreaks(b)
    decreases |a|
  {
    if a == [] {
      BreakAtStart(m, b);
    } else {
      var n := if |a| >= 2 && a[0] == '\r' && a[1] == '\n' then 2 else 1;
      var head := if a[0] == '\r' || a[0] == '\n' then " " else [a[0]];
      BreakUnfold(a, m, b, n, head);
      LineBreakIsOneSpace(a[n..], m, b);
      AppendAssoc4(head, ReplaceLineBreaks(a[n..]), " ", ReplaceLineBreaks(b));
    }
  }

  lemma BreakAtStart(m: string, b: string)
    requires IsLineBreak(m)
    requires m == "\r" ==> b == [] || b[0] != '\n'
    ensures ReplaceLineBreaks([] + m + b) == ReplaceLineBreaks([]) + " " + ReplaceLineBreaks(b)
  {
    var s := [] + m + b;
    assert s == m + b && s[|m|..] == b;
  }

  /** The first step of replacing the breaks in `a + m + b` is the first
      step of replacing those in `a`. */
  lemma BreakUnfold(a: string, m: string, b: string, n: nat, head: string)
    requires IsLineBreak(m) && a != []
    requires m == "\n" ==> a[|a| - 1] != '\r'
    requires n == (if |a| >= 2 && a[0] == '\r' && a[1] == '\n' then 2 else 1)
    requires head == (if a[0] == '\r' || a[0] == '\n' then " " else [a[0]])
    ensures n <= |a|
    ensures m == "\n" && a[n..] != [] ==> a[n..][|a[n..]| - 1] != '\r'
    ensures ReplaceLineBreaks(a + m + b) == head + ReplaceLineBreaks(a[n..] + m + b)
    ensures ReplaceLineBreaks(a) == head + ReplaceLineBreaks(a[n..])
  {
    var s := a + m + b;
    assert s[0] == a[0] && s[1] == (if |a| >= 2 then a[1] else m[0]);
    assert s[n..] == a[n..] + m + b;
  }

  lemma AppendAssoc4(h: string, x: string, sp: string, y: string)
    ensures h + (x + sp + y) == h + x + sp + y
  {
  }

  /** Replacing line breaks copies a leading word unchanged. */
  lemma {:induction false} ReplaceLineBreaksKeepsWord(s: string)
    ensures var n := WordLength(s);
            ReplaceLineBreaks(s) == s[..n] + ReplaceLineBreaks(s[n..])
  {
    if s == [] || IsWhitespace(s[0]) {
      WholeSlices(s);
    } else {
      var t := s[1..];
      var m := WordLength(t);
      ReplaceLineBreaksKeepsWord(t);
      ConsSlices(s, m);
      AppendAssoc([s[0]], t[..m], ReplaceLineBreaks(t[m..]));
    }
  }

  /** Replacing line breaks keeps the words, in order: a break only ever
      becomes another whitespace character. */
  lemma {:induction false} ReplaceLineBreaksWords(s: string)
    ensures Words(ReplaceLineBreaks(s)) == Words(s)
    decreases |s|
  {
    if s == [] {
    } else if s[0] == '\r' || s[0] == '\n' {
      var n := if |s| >= 2 && s[0] == '\r' && s[1] == '\n' then 2 else 1;
      ReplaceLineBreaksWords(s[n..]);
      WordsAfterSpace(' ', ReplaceLineBreaks(s[n..]));
      if n == 2 {
        assert s[1..][1..] == s[2..];
      }
    } else if IsWhitespace(s[0]) {
      ReplaceLineBreaksWords(s[1..]);
      WordsAfterSpace(s[0], ReplaceLineBreaks(s[1..]));
    } else {
      var n := WordLength(s);
      ReplaceLineBreaksWords(s[n..]);
      ReplaceLineBreaksKeepsWord(s);
      WordThenSameWords(s, n, ReplaceLineBreaks(s), ReplaceLineBreaks(s[n..]));
    }
  }

  /** The text `escapeCSV` keeps of a present field: line breaks replaced,
      whitespace runs collapsed, both ends trimmed. */
  function CleanField(s: string): string
  {
    Trim(CollapseWhitespace(ReplaceLineBreaks(s)))
  }

  /** A cleaned field holds exactly the field's visible characters, in
      order, separated by single spaces and without a space at either end. */
  lemma CleanFieldShape(s: string)
    ensures var t := CleanField(s);
            && Visible(t) == Visible(s)
            && NoWhitespaceRun(t) && OnlySpaces(t)
            && (t != [] ==> !IsWhitespace(t[0]) && !IsWhitespace(t[|t| - 1]))
            && '\r' !in t && '\n' !in t
  {
    var l := ReplaceLineBreaks(s);
    CollapseWhitespaceShape(l);
    TrimmedShape(CollapseWhitespace(l));
  }

  lemma TrimmedShape(c: string)
    requires NoWhitespaceRun(c) && OnlySpaces(c)
    ensures var t := Trim(c);
            NoWhitespaceRun(t) && OnlySpaces(t) && '\r' !in t && '\n' !in t
  {
    var t := Trim(c);
    TrimKeepsCollapsed(c);
    OnlySpacesExcludes(t, '\r');
    OnlySpacesExcludes(t, '\n');
  }

  /** A cleaned field is the field's words joined by single spaces, or
      nothing when the field has no word. */
  lemma CleanFieldWords(s: string)
    ensures Words(CleanField(s)) == Words(s)
    ensures Words(s) == [] ==> CleanField(s) == ""
    ensures Words(s) != [] ==> CleanField(s) == Join(Words(s), ' ')
  {
    var l := ReplaceLineBreaks(s);
    ReplaceLineBreaksWords(s);
    CollapseWhitespaceWords(l);
    WordsTrim(CollapseWhitespace(l));
    CleanFieldShape(s);
    CanonicalText(CleanField(s));
  }

  /** `replace(/"/g, '""')`. */
  function DoubleQuotes(t: string): string
  {
    ReplaceChar(t, '"', "\"\"")
  }

  /** A text wrapped as a quoted CSV field. */
  function Quote(t: string): string
  {
    "\"" + DoubleQuotes(t) + "\""
  }

  /** Quoting adds no line break of its own. */
  lemma QuoteShape(t: string)
    requires '\r' !in t && '\n' !in t
    ensures var q := Quote(t); |q| >= 2 && q[0] == '"' && q[|q| - 1] == '"'
    ensures '\r' !in Quote(t) && '\n' !in Quote(t)
  {
    var d := DoubleQuotes(t);
    ReplaceCount(t, '"', "\"\"", '\r');
    ReplaceCount(t, '"', "\"\"", '\n');
    CountAbsent(t, '\r');
    CountAbsent(t, '\n');
    CountAbsent(d, '\r');
    CountAbsent(d, '\n');
    assert Quote(t) == ['"'] + d + ['"'];
  }

  /** The text a field's cell holds once read back: nothing for a missing
      field, the cleaned text otherwise. */
  function FieldText(field: Field): string
  {
    match field
    case None => ""
    case Some(s) => CleanField(s)
  }

  /** `escapeCSV`: always one quoted field, on one line. */
  function EscapeCsv(field: Field): (r: string)
    ensures |r| >= 2 && r[0] == '"' && r[|r| - 1] == '"'
    ensures '\r' !in r && '\n' !in r
  {
    if field.None? then "\"\""
    else
      var t := CleanField(field.value);
      CleanFieldIsOneLine(field.value);
      QuoteShape(t);
      Quote(t)
  }

  lemma CleanFieldIsOneLine(s: string)
    ensures '\r' !in CleanField(s) && '\n' !in CleanField(s)
  {
    CleanFieldShape(s);
  }

  lemma EscapeCsvIsQuote(field: Field)
    ensures EscapeCsv(field) == Quote(FieldText(field))
  {
    assert Quote("") == "\"\"";
  }

  /** Reading an escaped field back, with `""` read as one quote, stops
      exactly at the final quote and yields the field's cleaned text: every
      quote inside the field is doubled. */
  lemma EscapeCsvReadsBack(field: Field)
    ensures var r := EscapeCsv(field);
            ReadQuoted(r[1..]) == Some(Read(FieldText(field), []))
  {
    EscapeCsvIsQuote(field);
    QuoteReadsBack(FieldText(field));
  }

  lemma QuoteReadsBack(t: string)
    ensures ReadQuoted(Quote(t)[1..]) == Some(Read(t, []))
  {
    assert Quote(t)[1..] == DoubleQuotes(t) + "\"" + [];
    ReadDoubled(t, []);
  }

  /** The result of reading a quoted field: its text and what follows the
      closing quote. */
  datatype Read = Read(text: string, rest: string)

  /** Reads the body of a quoted field (the opening quote already consumed),
      as a CSV reader following RFC 4180 does: `""` stands for one quote and
      a lone `"` closes the field. */
  function ReadQuoted(s: string): (r: Option<Read>)
    ensures r.Some? ==> |r.value.rest| < |s|
    decreases |s|
  {
    if s == [] then None
    else if s[0] == '"' then
      if |s| >= 2 && s[1] == '"' then
        match ReadQuoted(s[2..])
        case None => None
        case Some(f) => Some(Read(['"'] + f.text, f.rest))
      else Some(Read([], s[1..]))
    else
      match ReadQuoted(s[1..])
      case None => None
      case Some(f) => Some(Read([s[0]] + f.text, f.rest))
  }

  /** A record of quoted fields separated by commas. */
  function ParseRecord(s: string): Option<seq<string>>
    decreases |s|
  {
    if s == [] || s[0] != '"' then None
    else
      match ReadQuoted(s[1..])
      case None => None
      case Some(f) =>
        if f.rest == [] then Some([f.text])
        else if f.rest[0] == ',' then
          match ParseRecord(f.rest[1..])
          case None => None
          case Some(fs) => Some([f.text] + fs)
        else None
  }

  /** Doubling the quotes is undone by the reader, which stops exactly at
      the closing quote. */
  lemma {:induction false} ReadDoubled(t: string, rest: string)
    requires rest == [] || rest[0] != '"'
    ensures ReadQuoted(DoubleQuotes(t) + "\"" + rest) == Some(Read(t, rest))
  {
    var s := DoubleQuotes(t) + "\"" + rest;
    if t == [] {
      assert s == "\"" + rest && s[1..] == rest;
    } else {
      var tail := DoubleQuotes(t[1..]) + "\"" + rest;
      ReadDoubled(t[1..], rest);
      if t[0] == '"' {
        assert s == "\"\"" + tail && s[2..] == tail;
        assert ['"'] + t[1..] == t;
      } else {
        assert s == [t[0]] + tail && s[1..] == tail;
        assert [t[0]] + t[1..] == t;
      }
    }
  }

  function QuoteAll(texts: seq<string>): (r: seq<string>)
    ensures |r| == |texts|
    ensures forall i :: 0 <= i < |texts| ==> r[i] == Quote(texts[i])
  {
    if texts == [] then [] else [Quote(texts[0])] + QuoteAll(texts[1..])
  }

  /** A record of quoted fields reads back as the texts it was built from,
      whatever commas and quotes they hold. */
  lemma {:induction false} RecordRoundTrip(texts: seq<string>)
    requires |texts| >= 1
    ensures ParseRecord(Join(QuoteAll(texts), ',')) == Some(texts)
  {
    var pieces := QuoteAll(texts);
    var s := Join(pieces, ',');
    if |texts| == 1 {
      assert s == Quote(texts[0]);
      assert s[0] == '"' && s[1..] == DoubleQuotes(texts[0]) + "\"" + [];
      ReadDoubled(texts[0], []);
      assert texts == [texts[0]];
    } else {
      assert pieces[1..] == QuoteAll(texts[1..]);
      var rest := [','] + Join(pieces[1..], ',');
      assert s == Quote(texts[0]) + rest;
      assert s[1..] == DoubleQuotes(texts[0]) + "\"" + rest;
      ReadDoubled(texts[0], rest);
      assert rest[1..] == Join(QuoteAll(texts[1..]), ',');
      RecordRoundTrip(texts[1..]);
      assert [texts[0]] + texts[1..] == texts;
    }
  }

  /** The fields of one mutant in the details file, in header order; the
      status cell shows "untested" for a falsy status. */
  function DetailFields(m: Mutant): seq<Field>
  {
    [m.id, m.file, m.functionName, m.start, m.end, m.startLine, m.endLine,
     m.original, m.replace, m.operator, Some(StatusLabel(m.status)), m.testingTime]
  }

  const DETAIL_COLUMNS: seq<string> :=
    ["id", "file", "functionName", "start", "end", "startLine", "endLine",
     "original", "replace", "operator", "status", "testingTime"]

  /** `id,file,functionName,...,testingTime`. */
  const DETAIL_HEADER: string := Join(DETAIL_COLUMNS, ',')

  lemma DetailHeaderIsOneLine()
    ensures '\n' !in DETAIL_HEADER
  {
    JoinAbsent(DETAIL_COLUMNS, ',', '\n');
  }

  function EscapeAll(fields: seq<Field>): (r: seq<string>)
    ensures |r| == |fields|
    ensures forall i :: 0 <= i < |fields| ==> r[i] == EscapeCsv(fields[i])
  {
    if fields == [] then [] else [EscapeCsv(fields[0])] + EscapeAll(fields[1..])
  }

  function Texts(fields: seq<Field>): (r: seq<string>)
    ensures |r| == |fields|
    ensures forall i :: 0 <= i < |fields| ==> r[i] == FieldText(fields[i])
  {
    if fields == [] then [] else [FieldText(fields[0])] + Texts(fields[1..])
  }

  /** One line of the details file: the escaped fields joined by commas. */
  function DetailRow(m: Mutant): string
  {
    Join(EscapeAll(DetailFields(m)), ',')
  }

  /** A details line is a single line, and reading it as a record gives back
      the twelve cleaned fields. */
  lemma DetailRowReadsBack(m: Mutant)
    ensures '\n' !in DetailRow(m)
    ensures ParseRecord(DetailRow(m)) == Some(Texts(DetailFields(m)))
  {
    EscapedRecordReadsBack(DetailFields(m));
  }

  /** Any non-empty record of escaped fields is one line and reads back as
      the fields' texts. */
  lemma EscapedRecordReadsBack(fields: seq<Field>)
    requires |fields| >= 1
    ensures '\n' !in Join(EscapeAll(fields), ',')
    ensures ParseRecord(Join(EscapeAll(fields), ',')) == Some(Texts(fields))
  {
    JoinAbsent(EscapeAll(fields), ',', '\n');
    forall i | 0 <= i < |fields| ensures EscapeAll(fields)[i] == QuoteAll(Texts(fields))[i] {
      EscapeCsvIsQuote(fields[i]);
    }
    assert EscapeAll(fields) == QuoteAll(Texts(fields));
    RecordRoundTrip(Texts(fields));
  }

  /** Lines terminated by a line feed each. */
  function Lines(ls: seq<string>): string
  {
    if ls == [] then [] else ls[0] + "\n" + Lines(ls[1..])
  }

  lemma {:induction false} LinesSnoc(ls: seq<string>, l: string)
    ensures Lines(ls + [l]) == Lines(ls) + l + "\n"
  {
    if ls == [] {
      assert [] + [l] == [l];
    } else {
      assert (ls + [l])[1..] == ls[1..] + [l];
      LinesSnoc(ls[1..], l);
    }
  }

  /** Splitting terminated lines at the line feeds gives the lines back and
      one empty piece after the last terminator. */
  lemma {:induction false} LinesSplit(ls: seq<string>)
    requires forall i :: 0 <= i < |ls| ==> '\n' !in ls[i]
    ensures Split(Lines(ls), '\n') == ls + [""]
  {
    if ls != [] {
      LinesSplit(ls[1..]);
      SplitAfterPiece(ls[0], Lines(ls[1..]), '\n');
      assert [ls[0]] + (ls[1..] + [""]) == ls + [""];
    }
  }

  function DetailRows(mutants: seq<Mutant>): seq<string>
  {
    seq(|mutants|, i requires 0 <= i < |mutants| => DetailRow(mutants[i]))
  }

  /** `downloadContractCSV`'s file: the header line, then one line per
      mutant in report order; every line after the header reads back as the
      mutant's cleaned fields. */
  method DetailsCsv(mutants: seq<Mutant>) returns (csv: string)
    ensures csv == Lines([DETAIL_HEADER] + DetailRows(mutants))
    ensures Split(csv, '\n') == [DETAIL_HEADER] + DetailRows(mutants) + [""]
    ensures Count(csv, '\n') == |mutants| + 1
    ensures forall i :: 0 <= i < |mutants| ==>
              ParseRecord(Split(csv, '\n')[i + 1]) == Some(Texts(DetailFields(mutants[i])))
  {
    csv := AppendDetailRows(DETAIL_HEADER + "\n", mutants);
    LinesCons(DETAIL_HEADER, DetailRows(mutants));
    DetailLinesSplit(mutants);
  }

  /** The `forEach` of `downloadContractCSV`: one line appended per mutant. */
  method AppendDetailRows(csvContent: string, mutants: seq<Mutant>) returns (csv: string)
    ensures csv == csvContent + Lines(DetailRows(mutants))
  {
    csv := csvContent;
    for i := 0 to |mutants|
      invariant csv == csvContent + Lines(DetailRows(mutants[..i]))
    {
      var row := DetailRow(mutants[i]);
      assert DetailRows(mutants[..i + 1]) == DetailRows(mutants[..i]) + [row];
      AppendStep(csvContent, DetailRows(mutants[..i]), row, DetailRows(mutants[..i + 1]));
      csv := csv + row + "\n";
    }
    assert mutants[..|mutants|] == mutants;
  }

  /** Appending one terminated line to a text. */
  lemma AppendStep(prefix: string, ls: seq<string>, l: string, next: seq<string>)
    requires next == ls + [l]
    ensures prefix + Lines(ls) + l + "\n" == prefix + Lines(next)
  {
    LinesSnoc(ls, l);
  }

  lemma LinesCons(header: string, rows: seq<string>)
    ensures Lines([header] + rows) == header + "\n" + Lines(rows)
  {
    assert ([header] + rows)[1..] == rows;
  }

  lemma DetailLinesSplit(mutants: seq<Mutant>)
    ensures var csv := Lines([DETAIL_HEADER] + DetailRows(mutants));
            && Split(csv, '\n') == [DETAIL_HEADER] + DetailRows(mutants) + [""]
            && Count(csv, '\n') == |mutants| + 1
            && forall i :: 0 <= i < |mutants| ==>
                 ParseRecord(Split(csv, '\n')[i + 1]) == Some(Texts(DetailFields(mutants[i])))
  {
    var rows := DetailRows(mutants);
    forall i | 0 <= i < |rows| ensures '\n' !in rows[i] {
      DetailRowReadsBack(mutants[i]);
    }
    DetailHeaderIsOneLine();
    DocumentSplit(DETAIL_HEADER, rows);
    forall i | 0 <= i < |mutants| ensures ParseRecord(rows[i]) == Some(Texts(DetailFields(mutants[i]))) {
      DetailRowReadsBack(mutants[i]);
    }
  }

  /** A header line followed by lines, none holding a line feed, splits
      back into exactly those lines. */
  lemma DocumentSplit(header: string, rows: seq<string>)
    requires '\n' !in header
    requires forall i :: 0 <= i < |rows| ==> '\n' !in rows[i]
    ensures Split(Lines([header] + rows), '\n') == [header] + rows + [""]
    ensures Count(Lines([header] + rows), '\n') == |rows| + 1
  {
    var ls := [header] + rows;
    forall i | 0 <= i < |ls| ensures '\n' !in ls[i] {
      if i > 0 {
        assert ls[i] == rows[i - 1];
      }
    }
    LinesSplit(ls);
    assert |Split(Lines(ls), '\n')| == |rows| + 2;
  }

  const SUMMARY_COLUMNS: seq<string> :=
    ["Contract", "Total Mutants", "Killed", "Live", "Stillborn", "Timed Out", "Untested", "Mutation Score"]

  /** `Contract,Total Mutants,...,Mutation Score`. */
  const SUMMARY_HEADER: string := Join(SUMMARY_COLUMNS, ',')

  /** The score cell: "N/A", or the percentage as the caller's number
      formatting (`toFixed(1)`) writes it. */
  function ScoreText(score: Score, format: (nat, nat) -> string): string
  {
    match score
    case NotApplicable => "N/A"
    case Percentage(killed, base) => format(killed, base)
  }

  /** The cells of one summary line; the contract name is quoted but not
      escaped. */
  function SummaryCells(row: Row, format: (nat, nat) -> string): seq<string>
  {
    ["\"" + row.name + "\"", NatToString(row.total), NatToString(row.tally.killed),
     NatToString(row.tally.live), NatToString(row.tally.stillborn),
     NatToString(row.tally.timedout), NatToString(row.tally.untested),
     ScoreText(row.score, format)]
  }

  function SummaryLine(row: Row, format: (nat, nat) -> string): string
  {
    Join(SummaryCells(row, format), ',')
  }

  function SummaryLines(data: seq<Contract>, format: (nat, nat) -> string): seq<string>
  {
    seq(|data|, i requires 0 <= i < |data| => SummaryLine(SummaryRow(data[i]), format))
  }

  /** A comma or line feed that occurs neither in the contract name nor in
      any formatted score occurs in no cell of a summary line. */
  lemma SummaryCellsHaveNo(row: Row, format: (nat, nat) -> string, c: char)
    requires (c == ',' || c == '\n') && c !in row.name
    requires forall k: nat, b: nat :: c !in format(k, b)
    ensures forall i :: 0 <= i < |SummaryCells(row, format)| ==> c !in SummaryCells(row, format)[i]
  {
    NatToStringHasNo(row.total, c);
    NatToStringHasNo(row.tally.killed, c);
    NatToStringHasNo(row.tally.live, c);
    NatToStringHasNo(row.tally.stillborn, c);
    NatToStringHasNo(row.tally.timedout, c);
    NatToStringHasNo(row.tally.untested, c);
    assert c !in "\"" + row.name + "\"";
    assert c !in ScoreText(row.score, format);
  }

  /** A summary line whose contract name holds no comma splits into its
      eight cells, and its six count cells read back as the contract's
      total and status counts. */
  lemma SummaryLineFields(c: Contract, format: (nat, nat) -> string)
    requires ',' !in c.name
    requires forall k: nat, b: nat :: ',' !in format(k, b)
    ensures var cells := Split(SummaryLine(SummaryRow(c), format), ',');
            var t := TallyOf(c.mutants);
            && |cells| == 8
            && cells[0] == "\"" + c.name + "\""
            && DigitsValue(cells[1]) == |c.mutants|
            && DigitsValue(cells[2]) == t.killed && DigitsValue(cells[3]) == t.live
            && DigitsValue(cells[4]) == t.stillborn && DigitsValue(cells[5]) == t.timedout
            && DigitsValue(cells[6]) == t.untested
            && cells[7] == (if t.killed + t.live == 0 then "N/A" else format(t.killed, t.killed + t.live))
  {
    SummaryRowFields(SummaryRow(c), format);
  }

  lemma SummaryRowFields(row: Row, format: (nat, nat) -> string)
    requires ',' !in row.name
    requires forall k: nat, b: nat :: ',' !in format(k, b)
    ensures var cells := Split(SummaryLine(row, format), ',');
            && |cells| == 8
            && cells[0] == "\"" + row.name + "\""
            && DigitsValue(cells[1]) == row.total
            && DigitsValue(cells[2]) == row.tally.killed && DigitsValue(cells[3]) == row.tally.live
            && DigitsValue(cells[4]) == row.tally.stillborn && DigitsValue(cells[5]) == row.tally.timedout
            && DigitsValue(cells[6]) == row.tally.untested
            && cells[7] == ScoreText(row.score, format)
  {
    SummaryCellsHaveNo(row, format, ',');
    SplitJoin(SummaryCells(row, format), ',');
    CountCellsReadBack(row);
  }

  lemma CountCellsReadBack(row: Row)
    ensures DigitsValue(NatToString(row.total)) == row.total
    ensures DigitsValue(NatToString(row.tally.killed)) == row.tally.killed
    ensures DigitsValue(NatToString(row.tally.live)) == row.tally.live
    ensures DigitsValue(NatToString(row.tally.stillborn)) == row.tally.stillborn
    ensures DigitsValue(NatToString(row.tally.timedout)) == row.tally.timedout
    ensures DigitsValue(NatToString(row.tally.untested)) == row.tally.untested
  {
    DigitsValueNatToString(row.total);
    DigitsValueNatToString(row.tally.killed);
    DigitsValueNatToString(row.tally.live);
    DigitsValueNatToString(row.tally.stillborn);
    DigitsValueNatToString(row.tally.timedout);
    DigitsValueNatToString(row.tally.untested);
  }

  /** `downloadAllCSV`'s file: the header line, then one line per contract in
      report order; when no contract name holds a line break, splitting the
      file at line feeds gives exactly these lines. */
  method SummaryCsv(data: seq<Contract>, format: (nat, nat) -> string) returns (csv: string)
    requires forall k: nat, b: nat :: '\n' !in format(k, b)
    ensures csv == Lines([SUMMARY_HEADER] + SummaryLines(data, format))
    ensures (forall i :: 0 <= i < |data| ==> '\n' !in data[i].name) ==>
              Split(csv, '\n') == [SUMMARY_HEADER] + SummaryLines(data, format) + [""]
  {
    csv := AppendSummaryLines(SUMMARY_HEADER + "\n", data, format);
    LinesCons(SUMMARY_HEADER, SummaryLines(data, format));
    if forall i :: 0 <= i < |data| ==> '\n' !in data[i].name {
      SummaryLinesSplit(data, format);
    }
  }

  /** The `forEach` of `downloadAllCSV`: one line appended per contract. */
  method AppendSummaryLines(csvContent: string, data: seq<Contract>, format: (nat, nat) -> string)
    returns (csv: string)
    ensures csv == csvContent + Lines(SummaryLines(data, format))
  {
    csv := csvContent;
    for i := 0 to |data|
      invariant csv == csvContent + Lines(SummaryLines(data[..i], format))
    {
      var line := SummaryLine(SummaryRow(data[i]), format);
      SummaryLinesSnoc(data, i, format);
      AppendStep(csvContent, SummaryLines(data[..i], format), line, SummaryLines(data[..i + 1], format));
      csv := csv + line + "\n";
    }
    assert data[..|data|] == data;
  }

  lemma SummaryLinesSnoc(data: seq<Contract>, i: nat, format: (nat, nat) -> string)
    requires i < |data|
    ensures SummaryLines(data[..i + 1], format)
         == SummaryLines(data[..i], format) + [SummaryLine(SummaryRow(data[i]), format)]
  {
    var a, b := SummaryLines(data[..i + 1], format), SummaryLines(data[..i], format);
    assert |a| == |b| + 1;
    forall j | 0 <= j < i ensures a[j] == b[j] {
      assert data[..i + 1][j] == data[..i][j];
    }
  }

  lemma SummaryLinesSplit(data: seq<Contract>, format: (nat, nat) -> string)
    requires forall k: nat, b: nat :: '\n' !in format(k, b)
    requires forall i :: 0 <= i < |data| ==> '\n' !in data[i].name
    ensures Split(Lines([SUMMARY_HEADER] + SummaryLines(data, format)), '\n')
         == [SUMMARY_HEADER] + SummaryLines(data, format) + [""]
  {
    var lines := SummaryLines(data, format);
    forall i | 0 <= i < |lines| ensures '\n' !in lines[i] {
      SummaryLineIsOneLine(SummaryRow(data[i]), format);
    }
    SummaryHeaderIsOneLine();
    DocumentSplit(SUMMARY_HEADER, lines);
  }

  lemma SummaryHeaderIsOneLine()
    ensures '\n' !in SUMMARY_HEADER
  {
    JoinAbsent(SUMMARY_COLUMNS, ',', '\n');
  }

  lemma NatToStringHasNo(n: nat, c: char)
    requires !('0' <= c <= '9')
    ensures c !in NatToString(n)
  {
  }

  /** A summary line holds a line feed only where the contract name does. */
  lemma SummaryLineIsOneLine(row: Row, format: (nat, nat) -> string)
    requires '\n' !in row.name
    requires forall k: nat, b: nat :: '\n' !in format(k, b)
    ensures '\n' !in SummaryLine(row, format)
  {
    SummaryCellsHaveNo(row, format, '\n');
    JoinAbsent(SummaryCells(row, format), ',', '\n');
  }
}

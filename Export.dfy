/**
  The payloads the three actions build: the CSV export (two rows of five
  fields, every field quoted with inner quotes doubled as in rules 5-7 of
  section 2 of RFC 4180, rows joined by a line feed), the six-line share
  summary, the one-line copy text, and the status messages each action
  leaves behind.
*/
module Export {
  import opened Wrappers
  import opened JsString
  import opened NumberText

  // ---- CSV ----

  /** `String(field).replace(/"/g, '""')`: every quote doubled. */
  function Escape(f: string): (r: string)
    ensures |r| == |f| + Count('"', f)
  {
    if f == [] then []
    else (if f[0] == '"' then "\"\"" else [f[0]]) + Escape(f[1..])
  }

  /** A field as written to the file: quoted, inner quotes doubled. */
  function QuoteField(f: string): (r: string)
    ensures |r| == |f| + Count('"', f) + 2
    ensures r[0] == '"' && r[|r| - 1] == '"'
  {
    "\"" + Escape(f) + "\""
  }

  function QuoteAll(fields: seq<string>): (r: seq<string>)
    ensures |r| == |fields|
    ensures forall i :: 0 <= i < |r| ==> r[i] == QuoteField(fields[i])
  {
    if fields == [] then [] else [QuoteField(fields[0])] + QuoteAll(fields[1..])
  }

  /** One row: the quoted fields joined with commas. */
  function CsvLine(fields: seq<string>): string {
    Join(QuoteAll(fields), ",")
  }

  function CsvLines(rows: seq<seq<string>>): (r: seq<string>)
    ensures |r| == |rows|
    ensures forall i :: 0 <= i < |r| ==> r[i] == CsvLine(rows[i])
  {
    if rows == [] then [] else [CsvLine(rows[0])] + CsvLines(rows[1..])
  }

  /** The rows joined with a line feed (not the CRLF of rule 1). */
  function CsvText(rows: seq<seq<string>>): string {
    Join(CsvLines(rows), "\n")
  }

  const Header: seq<string> := ["Patient Name", "Weight (kg)", "Height (cm)", "BMI", "Category"]

  /** The two rows of the export: the header and the patient's values. */
  function ExportRows(name: string, weightText: string, heightText: string,
                      bmiText: string, categoryText: string): (rows: seq<seq<string>>)
    ensures |rows| == 2 && |rows[0]| == 5 && |rows[1]| == 5
  {
    [Header, [name, weightText, heightText, bmiText, categoryText]]
  }

  /** The file contents: the header line first, the patient's line last. */
  function ExportCsv(name: string, weightText: string, heightText: string,
                     bmiText: string, categoryText: string): (r: string)
    ensures |CsvLine(Header)| <= |r| && r[..|CsvLine(Header)|] == CsvLine(Header)
    ensures var values := CsvLine([name, weightText, heightText, bmiText, categoryText]);
      |values| <= |r| && r[|r| - |values|..] == values
  {
    var rows := ExportRows(name, weightText, heightText, bmiText, categoryText);
    JoinEnds(CsvLines(rows), "\n");
    CsvText(rows)
  }

  // ---- reading CSV back (section 2 of RFC 4180, quoted fields, LF rows) ----

  /** Reads a quoted field's body after its opening quote, through the
      closing quote; a doubled quote inside stands for one quote. Gives the
      field and what follows the closing quote. */
  function ReadQuoted(s: string): (r: Option<(string, string)>)
    ensures r.Some? ==> |r.value.1| < |s|
  {
    if s == [] then None
    else if s[0] == '"' then
      if |s| > 1 && s[1] == '"' then
        match ReadQuoted(s[2..])
        case None => None
        case Some((f, rest)) => Some(("\"" + f, rest))
      else Some(([], s[1..]))
    else
      match ReadQuoted(s[1..])
      case None => None
      case Some((f, rest)) => Some(([s[0]] + f, rest))
  }

  function ReadField(s: string): (r: Option<(string, string)>)
    ensures r.Some? ==> |r.value.1| < |s|
  {
    if s != [] && s[0] == '"' then ReadQuoted(s[1..]) else None
  }

  /** Reads comma-separated fields up to the end of a row. */
  function ReadFields(s: string): (r: Option<(seq<string>, string)>)
    ensures r.Some? ==> |r.value.1| < |s| && r.value.0 != []
    decreases |s|
  {
    match ReadField(s)
    case None => None
    case Some((f, rest)) =>
      if rest != [] && rest[0] == ',' then
        match ReadFields(rest[1..])
        case None => None
        case Some((fs, after)) => Some(([f] + fs, after))
      else Some(([f], rest))
  }

  /** Reads line-feed separated rows to the end of the text. */
  function ReadRows(s: string): Option<seq<seq<string>>>
    decreases |s|
  {
    match ReadFields(s)
    case None => None
    case Some((fs, rest)) =>
      if rest == [] then Some([fs])
      else if rest[0] == '\n' then
        match ReadRows(rest[1..])
        case None => None
        case Some(rows) => Some([fs] + rows)
      else None
  }

  /** Unquoting recovers the field: the escaped body followed by the
      closing quote reads back as the original text. */
  lemma {:induction false} ReadQuotedEscape(f: string, rest: string)
    requires rest == [] || rest[0] != '"'
    ensures ReadQuoted(Escape(f) + "\"" + rest) == Some((f, rest))
  {
    if f == [] {
      ReadQuotedClosing(rest);
    } else {
      ReadQuotedEscape(f[1..], rest);
      if f[0] == '"' {
        ReadQuotedPair(f, rest);
      } else {
        ReadQuotedPlain(f, rest);
      }
    }
  }

  lemma ReadQuotedClosing(rest: string)
    requires rest == [] || rest[0] != '"'
    ensures ReadQuoted(Escape([]) + "\"" + rest) == Some(([], rest))
  {
    assert Escape([]) + "\"" + rest == "\"" + rest;
    assert ("\"" + rest)[1..] == rest;
  }

  /** A doubled quote reads as one quote of the field. */
  lemma ReadQuotedPair(f: string, rest: string)
    requires f != [] && f[0] == '"'
    requires ReadQuoted(Escape(f[1..]) + "\"" + rest) == Some((f[1..], rest))
    ensures ReadQuoted(Escape(f) + "\"" + rest) == Some((f, rest))
  {
    var tail := Escape(f[1..]) + "\"" + rest;
    assert Escape(f) + "\"" + rest == "\"\"" + tail;
    assert ("\"\"" + tail)[2..] == tail;
    assert "\"" + f[1..] == f;
  }

  /** Any other character reads as itself. */
  lemma ReadQuotedPlain(f: string, rest: string)
    requires f != [] && f[0] != '"'
    requires ReadQuoted(Escape(f[1..]) + "\"" + rest) == Some((f[1..], rest))
    ensures ReadQuoted(Escape(f) + "\"" + rest) == Some((f, rest))
  {
    var tail := Escape(f[1..]) + "\"" + rest;
    assert Escape(f) + "\"" + rest == [f[0]] + tail;
    assert ([f[0]] + tail)[1..] == tail;
    assert [f[0]] + f[1..] == f;
  }

  lemma ReadFieldQuoted(f: string, rest: string)
    requires rest == [] || rest[0] != '"'
    ensures ReadField(QuoteField(f) + rest) == Some((f, rest))
  {
    ReadQuotedEscape(f, rest);
    assert (QuoteField(f) + rest)[1..] == Escape(f) + "\"" + rest;
  }

  /** A row written by `CsvLine` reads back as its fields, up to a line
      feed or the end of the text. */
  lemma {:induction false} ReadFieldsLine(fields: seq<string>, rest: string)
    requires fields != []
    requires rest == [] || rest[0] == '\n'
    ensures ReadFields(CsvLine(fields) + rest) == Some((fields, rest))
  {
    var q := QuoteAll(fields);
    if |fields| == 1 {
      assert CsvLine(fields) == QuoteField(fields[0]);
      ReadFieldQuoted(fields[0], rest);
      assert !(rest != [] && rest[0] == ',');
      assert fields == [fields[0]];
    } else {
      var more := fields[1..];
      assert q == [q[0]] + QuoteAll(more);
      assert CsvLine(fields) == QuoteField(fields[0]) + "," + CsvLine(more);
      var after := "," + (CsvLine(more) + rest);
      assert CsvLine(fields) + rest == QuoteField(fields[0]) + after;
      ReadFieldQuoted(fields[0], after);
      assert after[1..] == CsvLine(more) + rest;
      ReadFieldsLine(more, rest);
      assert [fields[0]] + more == fields;
    }
  }

  predicate NoEmptyRow(rows: seq<seq<string>>) {
    forall i :: 0 <= i < |rows| ==> rows[i] != []
  }

  /** Round trip: reading the CSV text gives back the rows written. */
  lemma {:induction false} ReadRowsCsv(rows: seq<seq<string>>)
    requires rows != [] && NoEmptyRow(rows)
    ensures ReadRows(CsvText(rows)) == Some(rows)
  {
    var first := rows[0];
    assert first != [];
    if |rows| == 1 {
      ReadRowsSingle(first);
      assert rows == [first];
    } else {
      var more := rows[1..];
      assert NoEmptyRow(more) by {
        forall i | 0 <= i < |more| ensures more[i] != [] {
          assert more[i] == rows[i + 1];
        }
      }
      var tail := CsvText(more);
      CsvTextCons(rows);
      ReadFieldsLine(first, "\n" + tail);
      ReadRowsCons(CsvText(rows), first, tail);
      ReadRowsCsv(more);
      assert [first] + more == rows;
    }
  }

  lemma ReadRowsSingle(fields: seq<string>)
    requires fields != []
    ensures ReadRows(CsvText([fields])) == Some([fields])
  {
    assert CsvText([fields]) == CsvLine(fields) + [];
    ReadFieldsLine(fields, []);
  }

  /** A CSV text of several rows is the first line, a line feed and the rest. */
  lemma CsvTextCons(rows: seq<seq<string>>)
    requires |rows| > 1
    ensures CsvText(rows) == CsvLine(rows[0]) + ("\n" + CsvText(rows[1..]))
  {
    assert CsvLines(rows) == [CsvLine(rows[0])] + CsvLines(rows[1..]);
  }

  /** After a row ending in a line feed, reading goes on with the next row. */
  lemma ReadRowsCons(s: string, fs: seq<string>, tail: string)
    requires ReadFields(s) == Some((fs, "\n" + tail))
    ensures ReadRows(s) == match ReadRows(tail)
      case None => None
      case Some(rows) => Some([fs] + rows)
  {
    assert ("\n" + tail)[1..] == tail;
  }


  /** The export reads back as exactly two rows, the header and the five
      values, whatever the values contain. */
  lemma ExportCsvReadsBack(name: string, weightText: string, heightText: string,
                           bmiText: string, categoryText: string)
    ensures ReadRows(ExportCsv(name, weightText, heightText, bmiText, categoryText))
         == Some([Header, [name, weightText, heightText, bmiText, categoryText]])
  {
    ReadRowsCsv(ExportRows(name, weightText, heightText, bmiText, categoryText));
  }

  // ---- line structure ----

  /** Joining separator-free lines and splitting again gives the lines. */
  lemma {:induction false} SplitJoin(lines: seq<string>, sep: char)
    requires lines != []
    requires forall i :: 0 <= i < |lines| ==> sep !in lines[i]
    ensures Split(Join(lines, [sep]), sep) == lines
  {
    if |lines| == 1 {
      var parts := Split(lines[0], sep);
      CountZeroIff(sep, lines[0]);
      SplitSpec(lines[0], sep);
      assert Join(parts, [sep]) == parts[0];
    } else {
      SplitJoin(lines[1..], sep);
      SplitAfter(lines[0], sep, Join(lines[1..], [sep]));
      assert [lines[0]] + lines[1..] == lines;
    }
  }

  lemma {:induction false} EscapeKeepsAbsent(c: char, f: string)
    requires c != '"' && c !in f
    ensures c !in Escape(f)
  {
    if f != [] {
      EscapeKeepsAbsent(c, f[1..]);
    }
  }

  lemma {:induction false} NoSepInLine(c: char, fields: seq<string>)
    requires c != '"' && c != ','
    requires forall i :: 0 <= i < |fields| ==> c !in fields[i]
    ensures c !in CsvLine(fields)
  {
    if fields != [] {
      EscapeKeepsAbsent(c, fields[0]);
      if |fields| > 1 {
        NoSepInLine(c, fields[1..]);
        assert QuoteAll(fields) == [QuoteAll(fields)[0]] + QuoteAll(fields[1..]);
      }
    }
  }

  /** When no field holds a line feed, the text splits at line feeds into
      exactly its rows, one line per row. */
  lemma CsvSplitsIntoRows(rows: seq<seq<string>>)
    requires rows != []
    requires forall i, j :: 0 <= i < |rows| && 0 <= j < |rows[i]| ==> '\n' !in rows[i][j]
    ensures Split(CsvText(rows), '\n') == CsvLines(rows)
    ensures |Split(CsvText(rows), '\n')| == |rows|
  {
    var lines := CsvLines(rows);
    forall i | 0 <= i < |lines| ensures '\n' !in lines[i] {
      NoSepInLine('\n', rows[i]);
    }
    SplitJoin(lines, '\n');
  }

  // ---- share summary ----

  /** The closing note of the summary. It is written as a concatenation of
      short pieces only so that `DisclaimerOneLine` can check each piece;
      the text is the single sentence of the template. */
  const Disclaimer: string :=
    "Note: BMI is" + " a general" + " indicator" + " and does not" + " replace full" + " clinical" + " assessment."

  /** The closing note is a single line. */
  lemma DisclaimerOneLine()
    ensures '\n' !in Disclaimer
  {
    assert '\n' !in "Note: BMI is";
    assert '\n' !in " a general";
    assert '\n' !in " indicator";
    assert '\n' !in " and does not";
    assert '\n' !in " replace full";
    assert '\n' !in " clinical";
    assert '\n' !in " assessment.";
  }

  /** The six lines of the shared summary. */
  function SummaryLines(name: string, weightText: string, heightText: string,
                        bmiText: string, categoryText: string): seq<string> {
    [ "Patient: " + name,
      "Weight: " + weightText + " kg",
      "Height: " + heightText + " cm",
      "BMI: " + bmiText,
      "Category: " + categoryText,
      Disclaimer ]
  }

  /** The summary text handed to the share sheet: each template line ends
      with a line feed except the last, so it is the six lines joined by
      line feeds. */
  function Summary(name: string, weightText: string, heightText: string,
                   bmiText: string, categoryText: string): (r: string)
    ensures |"Patient: " + name| <= |r| && r[..|"Patient: " + name|] == "Patient: " + name
    ensures |Disclaimer| <= |r| && r[|r| - |Disclaimer|..] == Disclaimer
  {
    var lines := SummaryLines(name, weightText, heightText, bmiText, categoryText);
    JoinEnds(lines, "\n");
    Join(lines, "\n")
  }

  /** When no value holds a line feed, the summary splits at line feeds
      into exactly its six lines. */
  lemma SummaryHasSixLines(name: string, weightText: string, heightText: string,
                           bmiText: string, categoryText: string)
    requires '\n' !in name && '\n' !in weightText && '\n' !in heightText
    requires '\n' !in bmiText && '\n' !in categoryText
    ensures Split(Summary(name, weightText, heightText, bmiText, categoryText), '\n')
         == SummaryLines(name, weightText, heightText, bmiText, categoryText)
  {
    var lines := SummaryLines(name, weightText, heightText, bmiText, categoryText);
    DisclaimerOneLine();
    forall i | 0 <= i < |lines| ensures '\n' !in lines[i] {
      if i == 0 {
        NoSepAround("Patient: ", name, "");
      } else if i == 1 {
        NoSepAround("Weight: ", weightText, " kg");
      } else if i == 2 {
        NoSepAround("Height: ", heightText, " cm");
      } else if i == 3 {
        NoSepAround("BMI: ", bmiText, "");
      } else if i == 4 {
        NoSepAround("Category: ", categoryText, "");
      }
    }
    SplitJoin(lines, '\n');
  }

  lemma NoSepAround(a: string, b: string, c: string)
    requires '\n' !in a && '\n' !in b && '\n' !in c
    ensures '\n' !in a + b + c && '\n' !in a + b
  {
  }

  // ---- copy text ----

  /** The clipboard text: name and displayed BMI on one line, the name
      right after the leading label and the BMI text at the end. */
  function CopyText(name: string, bmiText: string): (r: string)
    ensures |r| == 17 + |name| + |bmiText|
    ensures r[..9] == "Patient: " && r[9..9 + |name|] == name
    ensures r[|r| - |bmiText|..] == bmiText
  {
    "Patient: " + name + " | BMI: " + bmiText
  }

  /** Length of the longest run of digits and points at the end of `t`. */
  function NumericTailLength(t: string): (n: nat)
    ensures n <= |t|
  {
    if t != [] && IsNumericChar(t[|t| - 1]) then 1 + NumericTailLength(t[..|t| - 1]) else 0
  }

  /** Reads a copy text back: the BMI is the numeric run at the end, the
      name what lies between the two labels. */
  function ReadCopyText(t: string): Option<(string, string)> {
    var n := NumericTailLength(t);
    var head := t[..|t| - n];
    if |head| >= 17 && head[..9] == "Patient: " && head[|head| - 8..] == " | BMI: " then
      Some((head[9..|head| - 8], t[|t| - n..]))
    else None
  }

  lemma {:induction false} NumericTailAfterSpace(head: string, bmi: string)
    requires head != [] && head[|head| - 1] == ' '
    requires forall k :: 0 <= k < |bmi| ==> IsNumericChar(bmi[k])
    ensures NumericTailLength(head + bmi) == |bmi|
  {
    if bmi == [] {
      assert head + bmi == head;
    } else {
      var init := bmi[..|bmi| - 1];
      assert (head + bmi)[..|head + bmi| - 1] == head + init;
      NumericTailAfterSpace(head, init);
    }
  }

  /** Round trip: the copied text gives back the name and the BMI text,
      whatever the name holds, when the BMI text is numeric. */
  lemma ReadCopyTextBack(name: string, bmiText: string)
    requires forall k :: 0 <= k < |bmiText| ==> IsNumericChar(bmiText[k])
    ensures ReadCopyText(CopyText(name, bmiText)) == Some((name, bmiText))
  {
    var head := "Patient: " + name + " | BMI: ";
    var t := CopyText(name, bmiText);
    assert t == head + bmiText;
    NumericTailAfterSpace(head, bmiText);
    assert t[..|t| - |bmiText|] == head;
    assert t[|t| - |bmiText|..] == bmiText;
    assert head[..9] == "Patient: ";
    assert head[|head| - 8..] == " | BMI: ";
    assert head[9..|head| - 8] == name;
  }

  // ---- status messages ----

  /** What the platform share sheet or clipboard did with a payload. */
  datatype Outcome = Done | Unsupported | Failed

  const ShareGuard: string := "Fix input errors before sharing."
  const CopyGuard: string := "Fix input errors before copying."
  const ExportGuard: string := "Fix input errors before exporting."
  const ExportDone: string := "CSV file downloaded."

  function ShareStatus(o: Outcome): string {
    match o
    case Done => "Shared via system share (if app selected)."
    case Unsupported => "System share not supported; use copy instead."
    case Failed => "Share cancelled or failed."
  }

  function CopyStatus(o: Outcome): string {
    match o
    case Done => "Name & BMI copied to clipboard."
    case Unsupported => "Clipboard API not supported in this browser."
    case Failed => "Copy to clipboard failed."
  }

  /** Different outcomes leave different share messages, so the status
      line tells the user what the share sheet did. */
  lemma ShareStatusesDistinct(o1: Outcome, o2: Outcome)
    requires o1 != o2
    ensures ShareStatus(o1) != ShareStatus(o2)
  {
    assert |ShareStatus(o1)| != |ShareStatus(o2)|;
  }

  /** Different outcomes leave different copy messages. */
  lemma CopyStatusesDistinct(o1: Outcome, o2: Outcome)
    requires o1 != o2
    ensures CopyStatus(o1) != CopyStatus(o2)
  {
    assert |CopyStatus(o1)| != |CopyStatus(o2)|;
  }
}

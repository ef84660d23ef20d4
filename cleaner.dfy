/**
  The row logic of `process_csv` in clay.py: rewrite every first name, record the names
  that could not be cleaned confidently, validate every email in row order, keep the rows
  whose email passed, and write the body of the report.
 */
module Cleaner {
  import opened Common
  import opened Text
  import opened Names
  import opened Masks
  import opened EmailValidation

  /** A contact row: its "First Name" and "Email" cells and the other columns, passed through. */
  datatype Row = Row(firstName: Cell, email: Cell, rest: seq<Cell>)

  /** An entry of the invalid-name list: the name as read, and the row's email. */
  datatype InvalidName = InvalidName(originalName: Cell, email: Cell)

  /** What one file's processing produces: the cleaned table, the invalid names, the count of valid emails and the report's lines. */
  datatype Processed = Processed(rows: seq<Row>, invalidNames: seq<InvalidName>, validCount: nat, report: seq<string>)

  /** No first name of the table makes the normaliser raise. */
  predicate NamesClean(rows: seq<Row>) {
    forall i :: 0 <= i < |rows| ==> !IsBlank(rows[i].firstName)
  }

  /** The normaliser's output name for a cell it does not raise on. */
  function CleanedName(name: Cell): (cleaned: Cell)
    requires !IsBlank(name)
  {
    CleanFirstNameContract(name);
    CleanFirstName(name).value.name
  }

  /** The series `df.apply(clean_and_track, axis=1)` returns: one cleaned name per row. */
  function CleanedNames(rows: seq<Row>): (names: seq<Cell>)
    requires NamesClean(rows)
    ensures |names| == |rows|
  {
    if rows == [] then []
    else
      var front := rows[..|rows| - 1];
      assert NamesClean(front) by {
        forall k | 0 <= k < |front| ensures !IsBlank(front[k].firstName) {
          assert front[k] == rows[k];
        }
      }
      CleanedNames(front) + [CleanedName(rows[|rows| - 1].firstName)]
  }

  /** The table with its "First Name" column replaced by `names`, everything else kept. */
  function WithFirstNames(rows: seq<Row>, names: seq<Cell>): (r: seq<Row>)
    requires |names| == |rows|
    ensures |r| == |rows|
    ensures forall k :: 0 <= k < |rows| ==> r[k] == rows[k].(firstName := names[k])
  {
    seq(|rows|, k requires 0 <= k < |rows| => rows[k].(firstName := names[k]))
  }

  /** The table after its "First Name" column is rewritten. */
  function RenamedRows(rows: seq<Row>): (renamed: seq<Row>)
    requires NamesClean(rows)
  {
    WithFirstNames(rows, CleanedNames(rows))
  }

  /** The entry each row would contribute to the invalid-name list. */
  function Entries(rows: seq<Row>): (entries: seq<InvalidName>) {
    seq(|rows|, k requires 0 <= k < |rows| => InvalidName(rows[k].firstName, rows[k].email))
  }

  /** Which rows the normaliser flags as not confidently cleaned: missing names and initials. */
  function Unconfident(rows: seq<Row>): (flags: seq<bool>) {
    seq(|rows|, k requires 0 <= k < |rows| => rows[k].firstName.None? || IsInitials(rows[k].firstName))
  }

  /** The invalid-name list: one entry per flagged row, in table order. */
  function InvalidNames(rows: seq<Row>): (invalid: seq<InvalidName>) {
    Select(Entries(rows), Unconfident(rows))
  }

  /** The `is_valid_email` column: one validation per row, over that row's replies. */
  function Verdicts(replies: seq<seq<Reply>>): (verdicts: seq<bool>)
    requires forall i :: 0 <= i < |replies| ==> Settles(replies[i])
  {
    seq(|replies|, k requires 0 <= k < |replies| => Validate(replies[k]))
  }

  /** `"-" * n`. */
  function Dashes(n: nat): (r: string)
    ensures |r| == n && forall i :: 0 <= i < n ==> r[i] == '-'
  {
    if n == 0 then [] else Dashes(n - 1) + "-"
  }

  /** The rule written under the section heading and after every entry. */
  const Rule: string := Dashes(50)

  const SectionHeading: string := "Invalid Names Found:"

  /** The three lines written for one invalid name. */
  function EntryLines(e: InvalidName): (lines: seq<string>) {
    ["Original Name: " + Show(e.originalName), "Email: " + Show(e.email), Rule]
  }

  function AllEntryLines(entries: seq<InvalidName>): (lines: seq<string>) {
    if entries == [] then []
    else AllEntryLines(entries[..|entries| - 1]) + EntryLines(entries[|entries| - 1])
  }

  function SummaryLines(total: nat, valid: nat, invalid: nat): (lines: seq<string>) {
    [ "Summary:",
      "- Total rows processed: " + Decimal(total),
      "- Valid emails: " + Decimal(valid),
      "- Invalid names found: " + Decimal(invalid),
      "" ]
  }

  /**
    The report's lines after its header (the file name, the time and a blank line); each
    line is written followed by a newline.
   */
  function ReportLines(total: nat, valid: nat, invalid: seq<InvalidName>): (lines: seq<string>) {
    SummaryLines(total, valid, |invalid|)
    + (if invalid == [] then [] else [SectionHeading, Rule] + AllEntryLines(invalid))
  }

  /**
    `df.apply(clean_and_track, axis=1)` and the column assignment after it: every first name
    is rewritten, and every row the normaliser flags adds its original name and email to
    the invalid-name list, in table order. A name that makes the normaliser raise aborts.
   */
  method CleanNames(input: seq<Row>) returns (r: Result<(seq<Row>, seq<InvalidName>), NameError>)
    ensures r.Err? <==> !NamesClean(input)
    ensures r.Ok? ==> NamesClean(input) && r.value.0 == RenamedRows(input) && r.value.1 == InvalidNames(input)
  {
    var names: seq<Cell> := [];
    var invalidNames: seq<InvalidName> := [];
    var i := 0;
    while i < |input|
      invariant 0 <= i <= |input|
      invariant NamesClean(input[..i])
      invariant names == CleanedNames(input[..i])
      invariant invalidNames == InvalidNames(input[..i])
    {
      var row := input[i];
      var cleaned := CleanFirstName(row.firstName);
      CleanFirstNameContract(row.firstName);
      if cleaned.Err? {
        return Err(cleaned.error);
      }
      NamesCleanSnoc(input, i);
      CleanedNamesSnoc(input, i);
      InvalidNamesSnoc(input, i);
      if !cleaned.value.confident {
        invalidNames := invalidNames + [InvalidName(row.firstName, row.email)];
      }
      names := names + [cleaned.value.name];
      i := i + 1;
    }
    assert input[..i] == input;
    var df := WithFirstNames(input, names);
    return Ok((df, invalidNames));
  }

  /** `df['Email'].apply(validate_with_progress)`: one validation per row, in row order. */
  method ValidateAll(replies: seq<seq<Reply>>) returns (verdicts: seq<bool>)
    requires forall i :: 0 <= i < |replies| ==> Settles(replies[i])
    ensures verdicts == Verdicts(replies)
  {
    verdicts := [];
    var validated := 0;
    while validated < |replies|
      invariant 0 <= validated <= |replies|
      invariant |verdicts| == validated
      invariant forall k :: 0 <= k < validated ==> verdicts[k] == Validate(replies[k])
    {
      var ok := Validate(replies[validated]);
      verdicts := verdicts + [ok];
      validated := validated + 1;
    }
  }

  /** `valid_count` and `df[df['is_valid_email']]`: the rows that passed, in order, and how many. */
  method KeepValid(df: seq<Row>, verdicts: seq<bool>) returns (kept: seq<Row>, validCount: nat)
    requires |df| == |verdicts|
    ensures kept == Select(df, verdicts)
    ensures validCount == CountTrue(verdicts) == |kept|
  {
    validCount := 0;
    kept := [];
    var i := 0;
    while i < |df|
      invariant 0 <= i <= |df|
      invariant kept == Select(df[..i], verdicts[..i])
      invariant validCount == CountTrue(verdicts[..i])
    {
      SelectSnoc(df, verdicts, i);
      if verdicts[i] {
        kept := kept + [df[i]];
        validCount := validCount + 1;
      }
      i := i + 1;
    }
    assert df[..i] == df && verdicts[..i] == verdicts;
    SelectAtTrueIndices(df, verdicts);
  }

  /** The report body: the summary, then the invalid-name section when there is one. */
  method WriteReport(total: nat, validCount: nat, invalidNames: seq<InvalidName>) returns (report: seq<string>)
    ensures report == ReportLines(total, validCount, invalidNames)
  {
    report := SummaryLines(total, validCount, |invalidNames|);
    if invalidNames != [] {
      report := report + [SectionHeading, Rule];
      var i := 0;
      while i < |invalidNames|
        invariant 0 <= i <= |invalidNames|
        invariant report == SummaryLines(total, validCount, |invalidNames|) + [SectionHeading, Rule]
          + AllEntryLines(invalidNames[..i])
      {
        assert invalidNames[..i + 1][..i] == invalidNames[..i];
        report := report + EntryLines(invalidNames[i]);
        i := i + 1;
      }
      assert invalidNames[..i] == invalidNames;
    }
  }

  /**
    `process_csv` once the table is loaded: `replies[i]` are the service's replies to the
    requests validating row `i`. A name that makes the normaliser raise aborts the file.
   */
  method ProcessCsv(input: seq<Row>, replies: seq<seq<Reply>>) returns (r: Result<Processed, NameError>)
    requires |replies| == |input|
    requires forall i :: 0 <= i < |replies| ==> Settles(replies[i])
    ensures r.Err? <==> !NamesClean(input)
    ensures r.Ok? ==>
      && NamesClean(input)
      && r.value.rows == Select(RenamedRows(input), Verdicts(replies))
      && r.value.invalidNames == InvalidNames(input)
      && r.value.validCount == |r.value.rows|
      && r.value.report == ReportLines(|input|, r.value.validCount, r.value.invalidNames)
  {
    var cleaned := CleanNames(input);
    if cleaned.Err? {
      return Err(cleaned.error);
    }
    var (df, invalidNames) := cleaned.value;
    var verdicts := ValidateAll(replies);
    var kept, validCount := KeepValid(df, verdicts);
    var report := WriteReport(|input|, validCount, invalidNames);
    return Ok(Processed(kept, invalidNames, validCount, report));
  }

  lemma NamesCleanSnoc(rows: seq<Row>, i: nat)
    requires i < |rows| && NamesClean(rows[..i]) && !IsBlank(rows[i].firstName)
    ensures NamesClean(rows[..i + 1])
  {
    var p, q := rows[..i], rows[..i + 1];
    assert forall k :: 0 <= k < i ==> p[k] == q[k];
    assert q[i] == rows[i];
  }

  /** One more row of the scan appends that row's cleaned name. */
  lemma CleanedNamesSnoc(rows: seq<Row>, i: nat)
    requires i < |rows| && NamesClean(rows[..i + 1])
    ensures NamesClean(rows[..i]) && !IsBlank(rows[i].firstName)
    ensures CleanedNames(rows[..i + 1]) == CleanedNames(rows[..i]) + [CleanedName(rows[i].firstName)]
  {
    var q := rows[..i + 1];
    assert q[i] == rows[i];
    assert q[..i] == rows[..i];
  }

  lemma EntriesPrefix(rows: seq<Row>, i: nat)
    requires i <= |rows|
    ensures Entries(rows[..i]) == Entries(rows)[..i]
  {
    var p := rows[..i];
    forall k | 0 <= k < i ensures Entries(p)[k] == Entries(rows)[k] {
      assert p[k] == rows[k];
    }
  }

  lemma UnconfidentPrefix(rows: seq<Row>, i: nat)
    requires i <= |rows|
    ensures Unconfident(rows[..i]) == Unconfident(rows)[..i]
  {
    var p := rows[..i];
    forall k | 0 <= k < i ensures Unconfident(p)[k] == Unconfident(rows)[k] {
      assert p[k] == rows[k];
    }
  }

  /** One more row of the scan adds that row's entry, if it is flagged. */
  lemma InvalidNamesSnoc(rows: seq<Row>, i: nat)
    requires i < |rows|
    ensures InvalidNames(rows[..i + 1]) == InvalidNames(rows[..i])
      + (if rows[i].firstName.None? || IsInitials(rows[i].firstName)
         then [InvalidName(rows[i].firstName, rows[i].email)] else [])
  {
    var e, u := Entries(rows), Unconfident(rows);
    EntriesPrefix(rows, i);
    EntriesPrefix(rows, i + 1);
    UnconfidentPrefix(rows, i);
    UnconfidentPrefix(rows, i + 1);
    SelectSnoc(e, u, i);
  }

  // ---------------------------------------------------------------------------
  // What process_csv promises
  // ---------------------------------------------------------------------------

  /** The cleaned-name series holds, at every row, the normaliser's output for that row. */
  lemma {:induction false} CleanedNamesAt(rows: seq<Row>, k: nat)
    requires NamesClean(rows) && k < |rows|
    ensures CleanedNames(rows)[k] == CleanedName(rows[k].firstName)
    decreases |rows|
  {
    var front := rows[..|rows| - 1];
    if k < |front| {
      assert NamesClean(front) by {
        forall j | 0 <= j < |front| ensures !IsBlank(front[j].firstName) {
          assert front[j] == rows[j];
        }
      }
      CleanedNamesAt(front, k);
      assert front[k] == rows[k];
    }
  }

  /**
    Every row of the cleaned table is its input row with the first name replaced by the
    normaliser's output; the email and the other columns are untouched.
   */
  lemma RenamedRowsAt(rows: seq<Row>, k: nat)
    requires NamesClean(rows) && k < |rows|
    ensures |RenamedRows(rows)| == |rows|
    ensures RenamedRows(rows)[k] == rows[k].(firstName := CleanedName(rows[k].firstName))
    ensures RenamedRows(rows)[k].email == rows[k].email && RenamedRows(rows)[k].rest == rows[k].rest
  {
    CleanedNamesAt(rows, k);
  }

  /**
    The output table: one row per email that passed validation, in input order, each the
    renamed input row; every row whose email passed is there, and `valid_count` counts them.
   */
  lemma KeptRowsAreValidatedRows(input: seq<Row>, replies: seq<seq<Reply>>)
    requires NamesClean(input) && |replies| == |input|
    requires forall i :: 0 <= i < |replies| ==> Settles(replies[i])
    ensures var kept, idx := Select(RenamedRows(input), Verdicts(replies)), TrueIndices(Verdicts(replies));
      && |kept| == |idx| == CountTrue(Verdicts(replies))
      && (forall k :: 0 <= k < |idx| ==> idx[k] < |input| && Validate(replies[idx[k]]))
      && (forall k :: 0 <= k < |idx| ==>
            kept[k] == input[idx[k]].(firstName := CleanedName(input[idx[k]].firstName)))
      && (forall k, l :: 0 <= k < l < |idx| ==> idx[k] < idx[l])
      && (forall i :: 0 <= i < |input| && Validate(replies[i]) ==> i in idx)
  {
    var renamed, v := RenamedRows(input), Verdicts(replies);
    SelectAtTrueIndices(renamed, v);
    var idx := TrueIndices(v);
    forall k | 0 <= k < |idx|
      ensures Select(renamed, v)[k] == input[idx[k]].(firstName := CleanedName(input[idx[k]].firstName))
    {
      RenamedRowsAt(input, idx[k]);
    }
  }

  /**
    The invalid-name list in table order: its k-th entry is the name and email of the k-th
    flagged row, and every flagged row has its entry.
   */
  lemma InvalidNamesInOrder(rows: seq<Row>)
    ensures var l, idx := InvalidNames(rows), TrueIndices(Unconfident(rows));
      && |l| == |idx|
      && (forall k :: 0 <= k < |l| ==>
            idx[k] < |rows| && l[k] == InvalidName(rows[idx[k]].firstName, rows[idx[k]].email))
      && (forall k, j :: 0 <= k < j < |idx| ==> idx[k] < idx[j])
      && (forall i :: 0 <= i < |rows| && (rows[i].firstName.None? || IsInitials(rows[i].firstName)) ==> i in idx)
  {
    SelectAtTrueIndices(Entries(rows), Unconfident(rows));
  }

  /** The invalid-name list has one entry for each flagged row and nothing else. */
  lemma InvalidNamesIff(rows: seq<Row>, e: InvalidName)
    ensures |InvalidNames(rows)| == CountTrue(Unconfident(rows))
    ensures e in InvalidNames(rows) <==>
      exists i :: 0 <= i < |rows| && (rows[i].firstName.None? || IsInitials(rows[i].firstName))
        && e == InvalidName(rows[i].firstName, rows[i].email)
  {
    var en, u := Entries(rows), Unconfident(rows);
    SelectAtTrueIndices(en, u);
    SelectMembership(en, u, e);
    if e in InvalidNames(rows) {
      var i :| 0 <= i < |en| && u[i] && en[i] == e;
      assert rows[i].firstName.None? || IsInitials(rows[i].firstName);
    }
    if exists i :: 0 <= i < |rows| && (rows[i].firstName.None? || IsInitials(rows[i].firstName))
        && e == InvalidName(rows[i].firstName, rows[i].email) {
      var i :| 0 <= i < |rows| && (rows[i].firstName.None? || IsInitials(rows[i].firstName))
        && e == InvalidName(rows[i].firstName, rows[i].email);
      assert u[i] && en[i] == e;
    }
  }

  /** A row is flagged exactly when the normaliser reports it was not cleaned confidently. */
  lemma FlaggedIffUnconfident(rows: seq<Row>, i: nat)
    requires NamesClean(rows) && i < |rows|
    ensures CleanFirstName(rows[i].firstName).Ok?
    ensures Unconfident(rows)[i] <==> !CleanFirstName(rows[i].firstName).value.confident
  {
    CleanFirstNameContract(rows[i].firstName);
  }

  /** A row with no first name is always listed, whatever its email's fate. */
  lemma MissingNameListed(rows: seq<Row>, i: nat)
    requires i < |rows| && rows[i].firstName.None?
    ensures InvalidName(None, rows[i].email) in InvalidNames(rows)
  {
    InvalidNamesIff(rows, InvalidName(None, rows[i].email));
  }

  // ---------------------------------------------------------------------------
  // The report
  // ---------------------------------------------------------------------------

  /** How many of `lines` are exactly `l`. */
  function Occurrences(lines: seq<string>, l: string): (n: nat)
    ensures n <= |lines|
    ensures n == 0 <==> l !in lines
  {
    if lines == [] then 0
    else Occurrences(lines[..|lines| - 1], l) + (if lines[|lines| - 1] == l then 1 else 0)
  }

  lemma {:induction false} OccurrencesAppend(a: seq<string>, b: seq<string>, l: string)
    ensures Occurrences(a + b, l) == Occurrences(a, l) + Occurrences(b, l)
    decreases |b|
  {
    if b == [] {
      assert a + b == a;
    } else {
      var b' := b[..|b| - 1];
      assert (a + b)[..|a + b| - 1] == a + b';
      OccurrencesAppend(a, b', l);
    }
  }

  /** Lines that start differently from the rule and from the section heading are neither. */
  lemma NotMarker(l: string)
    requires l == [] || (l[0] != 'I' && (l[0] != '-' || (|l| > 1 && l[1] != '-')))
    ensures l != Rule && l != SectionHeading
  {
    assert Rule[0] == '-' && Rule[1] == '-' && SectionHeading[0] == 'I';
  }

  /** The entry lines hold `|entries|` rules and no section heading; three lines per entry. */
  lemma {:induction false} AllEntryLinesCounts(entries: seq<InvalidName>)
    ensures |AllEntryLines(entries)| == 3 * |entries|
    ensures Occurrences(AllEntryLines(entries), Rule) == |entries|
    ensures Occurrences(AllEntryLines(entries), SectionHeading) == 0
    decreases |entries|
  {
    if entries != [] {
      var front, e := entries[..|entries| - 1], entries[|entries| - 1];
      AllEntryLinesCounts(front);
      var lines := EntryLines(e);
      NotMarker(lines[0]);
      NotMarker(lines[1]);
      assert Occurrences(lines, Rule) == 1 by {
        assert lines[..2][..1] == [lines[0]];
        assert lines[..1][..0] == [];
      }
      assert Occurrences(lines, SectionHeading) == 0;
      OccurrencesAppend(AllEntryLines(front), lines, Rule);
      OccurrencesAppend(AllEntryLines(front), lines, SectionHeading);
    }
  }

  lemma SummaryHasNoMarkers(total: nat, valid: nat, invalid: nat)
    ensures Rule !in SummaryLines(total, valid, invalid)
    ensures SectionHeading !in SummaryLines(total, valid, invalid)
  {
    var summary := SummaryLines(total, valid, invalid);
    NotMarker(summary[0]);
    NotMarker(summary[1]);
    NotMarker(summary[2]);
    NotMarker(summary[3]);
    NotMarker(summary[4]);
  }

  /**
    The report body: five summary lines, then, only when some name was flagged, the section
    heading, a rule, and three lines per entry. There are `|invalid| + 1` rules in all when
    the section is written and none otherwise.
   */
  lemma ReportShape(total: nat, valid: nat, invalid: seq<InvalidName>)
    ensures var r := ReportLines(total, valid, invalid);
      && |r| == (if invalid == [] then 5 else 7 + 3 * |invalid|)
      && (SectionHeading in r <==> invalid != [])
      && Occurrences(r, Rule) == (if invalid == [] then 0 else |invalid| + 1)
      && r[3] == "- Invalid names found: " + Decimal(|invalid|)
  {
    var summary := SummaryLines(total, valid, |invalid|);
    SummaryHasNoMarkers(total, valid, |invalid|);
    if invalid != [] {
      AllEntryLinesCounts(invalid);
      var section := [SectionHeading, Rule] + AllEntryLines(invalid);
      OccurrencesAppend([SectionHeading, Rule], AllEntryLines(invalid), Rule);
      OccurrencesAppend([SectionHeading, Rule], AllEntryLines(invalid), SectionHeading);
      assert [SectionHeading, Rule][..1] == [SectionHeading];
      OccurrencesAppend(summary, section, Rule);
      OccurrencesAppend(summary, section, SectionHeading);
    } else {
      assert ReportLines(total, valid, invalid) == summary;
    }
  }

  /** The three summary counts, read back from the report's text, are the counts given. */
  lemma SummaryCountsReadBack(total: nat, valid: nat, invalid: seq<InvalidName>)
    ensures var r := ReportLines(total, valid, invalid);
      && |r| >= 5 && r[0] == "Summary:"
      && r[1][..24] == "- Total rows processed: " && r[1][24..] == Decimal(total)
      && DigitsValue(r[1][24..]) == total
      && r[2][..16] == "- Valid emails: " && r[2][16..] == Decimal(valid)
      && DigitsValue(r[2][16..]) == valid
      && r[3][..23] == "- Invalid names found: " && r[3][23..] == Decimal(|invalid|)
      && DigitsValue(r[3][23..]) == |invalid|
  {
    DecimalRoundTrip(total);
    DecimalRoundTrip(valid);
    DecimalRoundTrip(|invalid|);
  }

  // ---------------------------------------------------------------------------
  // A two-row file
  // ---------------------------------------------------------------------------

  lemma InitialsRowFacts()
    ensures IsInitials(Some("A.B.")) && !IsBlank(Some("A.B."))
    ensures CleanedName(Some("A.B.")) == Some("A.B.")
  {
    StripTrimmed("A.B.");
    InitialsExamples();
    CleanKeepsInitials(Some("A.B."));
  }

  lemma PlainRowFacts()
    ensures !IsInitials(Some("maria garcia")) && !IsBlank(Some("maria garcia"))
    ensures CleanedName(Some("maria garcia")) == Some("Maria")
  {
    PlainNameStrip();
    PlainNameNotInitials();
    CleanPlainNameExample();
  }

  /**
    An initials row and a plain row whose emails both pass: both rows are kept, the
    initials unchanged and the plain name cleaned, and only the initials row is listed.
   */
  lemma TwoRowShape(x: string, y: string, cy: string, a: Cell, m: Cell)
    requires IsInitials(Some(x)) && !IsBlank(Some(x)) && CleanedName(Some(x)) == Some(x)
    requires !IsInitials(Some(y)) && !IsBlank(Some(y)) && CleanedName(Some(y)) == Some(cy)
    ensures var input := [Row(Some(x), a, []), Row(Some(y), m, [])];
      && NamesClean(input)
      && Select(RenamedRows(input), [true, true]) == [Row(Some(x), a, []), Row(Some(cy), m, [])]
      && InvalidNames(input) == [InvalidName(Some(x), a)]
  {
    var input := [Row(Some(x), a, []), Row(Some(y), m, [])];
    RenamedRowsAt(input, 0);
    RenamedRowsAt(input, 1);
    SelectAll(RenamedRows(input), [true, true]);
    assert Unconfident(input) == [true, false];
    InvalidNamesSnoc(input, 0);
    InvalidNamesSnoc(input, 1);
    assert input[..0] == [] && input[..2] == input;
  }

  /** The file ("A.B.", a), ("maria garcia", m) with both emails passing. */
  lemma TwoRowExample(a: Cell, m: Cell)
    ensures var input := [Row(Some("A.B."), a, []), Row(Some("maria garcia"), m, [])];
      && NamesClean(input)
      && Select(RenamedRows(input), [true, true]) == [Row(Some("A.B."), a, []), Row(Some("Maria"), m, [])]
      && InvalidNames(input) == [InvalidName(Some("A.B."), a)]
  {
    InitialsRowFacts();
    PlainRowFacts();
    TwoRowShape("A.B.", "maria garcia", "Maria", a, m);
  }
}

/** The corpus normalizer of src/tmp.py: for each subject, every file of the
    subject's directory listing is read line by line; a line is split on tabs,
    a line without a tab is skipped, and otherwise the last field loses its
    final character (meant to be the "\n" terminator) and the fields are
    appended to the subject's table. The directory listing is an arbitrary
    given sequence of file texts, in listing order. */
module CorpusNormalizer {
  import opened Text

  datatype Option<T> = None | Some(value: T)

  /** The fields of one accepted line: Word, POS, Lemma and Root in a
      well-formed corpus, although the number of fields is not enforced. */
  type Record = seq<string>

  /** What one line contributes to the table: the split fields with the last
      one trimmed by `[:-1]`, or nothing when the line has no tab. */
  function ParseLine(line: string): (r: Option<Record>)
    ensures r.Some? ==> |r.value| >= 2
  {
    var d := Split(line, '\t');
    if |d| > 1 then Some(d[|d| - 1 := DropLast(d[|d| - 1])]) else None
  }

  /** The records an optional parse contributes: one or none. */
  function Emit(r: Option<Record>): seq<Record>
  {
    if r.Some? then [r.value] else []
  }

  /** The records of the lines of one file, in line order. */
  function ParseLines(lines: seq<string>): (records: seq<Record>)
    ensures |records| <= |lines|
  {
    if lines == [] then []
    else ParseLines(lines[..|lines| - 1]) + Emit(ParseLine(lines[|lines| - 1]))
  }

  /** The table of one subject: the records of every file of the listing, by
      file in listing order and by line within a file. */
  function ParseListing(listing: seq<string>): (table: seq<Record>)
    ensures |table| <= |AllLines(listing)|
  {
    if listing == [] then []
    else ParseListing(listing[..|listing| - 1]) + ParseLines(SplitLines(listing[|listing| - 1]))
  }

  /** All lines of all files of a listing, file after file. */
  function AllLines(listing: seq<string>): (lines: seq<string>)
  {
    if listing == [] then []
    else AllLines(listing[..|listing| - 1]) + SplitLines(listing[|listing| - 1])
  }

  /** The accumulation loop for one subject: `data` starts empty, and each
      accepted line of each file is appended in turn. */
  method NormalizeSubject(listing: seq<string>) returns (data: seq<Record>)
    ensures data == ParseListing(listing)
  {
    data := [];
    for k := 0 to |listing|
      invariant data == ParseListing(listing[..k])
    {
      var lines := SplitLines(listing[k]);
      ghost var before := data;
      for j := 0 to |lines|
        invariant data == before + ParseLines(lines[..j])
      {
        ghost var prev := data;
        var d := Split(lines[j], '\t');
        if |d| > 1 {
          d := d[|d| - 1 := DropLast(d[|d| - 1])];
          data := data + [d];
        }
        assert data == prev + Emit(ParseLine(lines[j]));
        ParseLinesStep(lines, j);
        AppendAssoc(before, ParseLines(lines[..j]), Emit(ParseLine(lines[j])));
      }
      assert lines[..|lines|] == lines;
      ParseListingStep(listing, k);
    }
    assert listing[..|listing|] == listing;
  }

  lemma ParseLinesStep(lines: seq<string>, j: nat)
    requires j < |lines|
    ensures ParseLines(lines[..j + 1]) == ParseLines(lines[..j]) + Emit(ParseLine(lines[j]))
  {
    assert lines[..j + 1][..j] == lines[..j];
  }

  lemma ParseListingStep(listing: seq<string>, k: nat)
    requires k < |listing|
    ensures ParseListing(listing[..k + 1])
         == ParseListing(listing[..k]) + ParseLines(SplitLines(listing[k]))
  {
    assert listing[..k + 1][..k] == listing[..k];
  }

  /** The loop over subjects: each subject gets its own table, built from an
      empty one. */
  method NormalizeSubjects(subjects: seq<seq<string>>) returns (tables: seq<seq<Record>>)
    ensures |tables| == |subjects|
    ensures forall s :: 0 <= s < |subjects| ==> tables[s] == ParseListing(subjects[s])
  {
    tables := [];
    for s := 0 to |subjects|
      invariant |tables| == s
      invariant forall t :: 0 <= t < s ==> tables[t] == ParseListing(subjects[t])
    {
      var data := NormalizeSubject(subjects[s]);
      tables := tables + [data];
    }
  }

  /** A line contributes a record exactly when it holds a tab, and the record
      has one field per tab-separated segment: the number of tabs plus one. */
  lemma ParseLineFilter(line: string)
    ensures ParseLine(line).None? <==> '\t' !in line
    ensures ParseLine(line).Some? ==> |ParseLine(line).value| == Count(line, '\t') + 1
  {
    SplitCount(line, '\t');
    CountPositive(line, '\t');
  }

  /** Every field but the last is the split segment unchanged, the last is
      the last segment without its final character (empty stays empty), and no
      field contains a tab. */
  lemma ParseLineFields(line: string)
    requires '\t' in line
    ensures ParseLine(line).Some?
    ensures var d := Split(line, '\t');
      var r := ParseLine(line).value;
      && |r| == |d|
      && r[..|r| - 1] == d[..|d| - 1]
      && r[|r| - 1] == DropLast(d[|d| - 1])
      && (d[|d| - 1] != [] ==> |r[|r| - 1]| == |d[|d| - 1]| - 1)
      && (forall i :: 0 <= i < |r| ==> '\t' !in r[i])
  {
    var d := Split(line, '\t');
    ParseLineFilter(line);
    SplitPiecesFree(line, '\t');
    assert forall i :: 0 <= i < |d| - 1 ==> ParseLine(line).value[i] == d[i];
  }

  /** Joining a record's fields with tabs gives the line minus its final
      character, when the last segment is not empty. */
  lemma ParseLineRoundTrip(line: string)
    requires ParseLine(line).Some?
    requires var d := Split(line, '\t'); d[|d| - 1] != []
    ensures line != [] && Join(ParseLine(line).value, '\t') == DropLast(line)
  {
    var d := Split(line, '\t');
    var trimmed := d[..|d| - 1] + [DropLast(d[|d| - 1])];
    assert ParseLine(line).value == trimmed by {
      assert d[|d| - 1 := DropLast(d[|d| - 1])] == trimmed;
    }
    JoinSplit(line, '\t');
    JoinNonEmptyLast(d, '\t');
    JoinDropLast(d, '\t');
  }

  /** A line with a tab that ends with its "\n" terminator is stored without
      loss: the fields joined by tabs, followed by "\n", are the line. */
  lemma TerminatedLineLossless(line: string)
    requires '\t' in line && line[|line| - 1] == '\n'
    ensures ParseLine(line).Some? && Join(ParseLine(line).value, '\t') + "\n" == line
  {
    ParseLineFilter(line);
    JoinSplit(line, '\t');
    JoinSplitLastNonEmpty(line);
    ParseLineRoundTrip(line);
  }

  /** When the line does not end in a tab, the last segment of its split is
      not empty. */
  lemma {:induction false} JoinSplitLastNonEmpty(line: string)
    requires line != [] && line[|line| - 1] != '\t'
    ensures var d := Split(line, '\t'); d[|d| - 1] != []
  {
    var d := Split(line, '\t');
    JoinSplit(line, '\t');
    if |d| == 1 {
    } else if d[|d| - 1] == [] {
      JoinLastEmpty(d, '\t');
    }
  }

  /** A join of two or more fields whose last field is empty ends in the
      separator. */
  lemma {:induction false} JoinLastEmpty(fields: seq<string>, sep: char)
    requires |fields| >= 2 && fields[|fields| - 1] == []
    ensures var j := Join(fields, sep); j != [] && j[|j| - 1] == sep
  {
    if |fields| > 2 {
      JoinLastEmpty(fields[1..], sep);
    }
  }

  /** The last line of a file that does not end in "\n" has no terminator,
      so when it holds a tab its record loses a genuine character of the
      text: the fields joined by tabs are the line minus a final character
      that is not "\n". */
  lemma FinalLineLosesCharacter(text: string)
    requires text != [] && text[|text| - 1] != '\n' && text[|text| - 1] != '\t'
    ensures var lines := SplitLines(text);
      var last := lines[|lines| - 1];
      '\t' in last ==>
        && ParseLine(last).Some?
        && Join(ParseLine(last).value, '\t') == DropLast(last)
        && last[|last| - 1] != '\n'
  {
    SplitLinesLastLine(text);
    var lines := SplitLines(text);
    var last := lines[|lines| - 1];
    assert last[|last| - 1] == text[|text| - 1];
    if '\t' in last {
      ParseLineFilter(last);
      JoinSplitLastNonEmpty(last);
      ParseLineRoundTrip(last);
    }
  }

  /** Parsing consecutive runs of lines appends their records. */
  lemma {:induction false} ParseLinesAppend(a: seq<string>, b: seq<string>)
    ensures ParseLines(a + b) == ParseLines(a) + ParseLines(b)
  {
    if b == [] {
      assert a + b == a;
    } else {
      var b' := b[..|b| - 1];
      assert (a + b)[..|a + b| - 1] == a + b';
      ParseLinesAppend(a, b');
    }
  }

  /** Records are in line order: those of the lines before line i, then the
      one of line i if any, then those of the lines after it. */
  lemma ParseLinesInOrder(lines: seq<string>, i: nat)
    requires i < |lines|
    ensures ParseLines(lines)
         == ParseLines(lines[..i]) + Emit(ParseLine(lines[i])) + ParseLines(lines[i + 1..])
  {
    assert lines == lines[..i + 1] + lines[i + 1..];
    ParseLinesAppend(lines[..i + 1], lines[i + 1..]);
    ParseLinesStep(lines, i);
  }

  /** Appending only: the records of the first i lines are a prefix of the
      records of all lines, so nothing already accumulated ever changes. */
  lemma ParseLinesPrefix(lines: seq<string>, i: nat)
    requires i <= |lines|
    ensures ParseLines(lines[..i]) <= ParseLines(lines)
  {
    assert lines == lines[..i] + lines[i..];
    ParseLinesAppend(lines[..i], lines[i..]);
  }

  /** A subject's table is the parse of all its lines taken file by file in
      listing order, so it holds at most one record per line. */
  lemma {:induction false} ParseListingAllLines(listing: seq<string>)
    ensures ParseListing(listing) == ParseLines(AllLines(listing))
    ensures |ParseListing(listing)| <= |AllLines(listing)|
  {
    if listing != [] {
      var init := listing[..|listing| - 1];
      ParseListingAllLines(init);
      ParseLinesAppend(AllLines(init), SplitLines(listing[|listing| - 1]));
    }
  }

  /** Appending only, across files: the table after the first k files is a
      prefix of the table after all of them. */
  lemma {:induction false} ParseListingPrefix(listing: seq<string>, k: nat)
    requires k <= |listing|
    ensures ParseListing(listing[..k]) <= ParseListing(listing)
  {
    if k < |listing| {
      var init := listing[..|listing| - 1];
      assert listing[..k] == init[..k];
      ParseListingPrefix(init, k);
    } else {
      assert listing[..k] == listing;
    }
  }

  /** Four tab-free fields joined by tabs split back into those four. */
  lemma SplitFourFields(a: string, b: string, c: string, e: string)
    requires '\t' !in a && '\t' !in b && '\t' !in c && '\t' !in e
    ensures Split(a + (['\t'] + (b + (['\t'] + (c + (['\t'] + e))))), '\t') == [a, b, c, e]
  {
    var fields := [a, b, c, e];
    assert forall i :: 0 <= i < |fields| ==> '\t' !in fields[i];
    SplitJoin(fields, '\t');
    JoinFour(a, b, c, e);
  }

  lemma JoinFour(a: string, b: string, c: string, e: string)
    ensures Join([a, b, c, e], '\t') == a + (['\t'] + (b + (['\t'] + (c + (['\t'] + e)))))
  {
    assert [a, b, c, e][1..] == [b, c, e];
    assert [b, c, e][1..] == [c, e];
    assert [c, e][1..] == [e];
    assert Join([c, e], '\t') == c + ['\t'] + e == c + (['\t'] + e);
    var ce := c + (['\t'] + e);
    assert Join([b, c, e], '\t') == b + ['\t'] + ce == b + (['\t'] + ce);
    var bce := b + (['\t'] + ce);
    assert Join([a, b, c, e], '\t') == a + ['\t'] + bce == a + (['\t'] + bce);
  }

  /** A line of four tab-free fields gives those fields, the last one trimmed. */
  lemma ParseFourFields(a: string, b: string, c: string, e: string)
    requires '\t' !in a && '\t' !in b && '\t' !in c && '\t' !in e
    ensures ParseLine(a + (['\t'] + (b + (['\t'] + (c + (['\t'] + e))))))
         == Some([a, b, c, DropLast(e)])
  {
    SplitFourFields(a, b, c, e);
    assert [a, b, c, e][3 := DropLast(e)] == [a, b, c, DropLast(e)];
  }

  /** A tagged line and a blank line give exactly one record; the blank line
      contributes nothing. */
  lemma ExampleBlankLineSkipped()
    ensures ParseLines(["run\tVERB\trun\trun\n", "\n"]) == [["run", "VERB", "run", "run"]]
  {
    var tagged, blank := "run\tVERB\trun\trun\n", "\n";
    ExampleTaggedLine();
    SplitFree(blank, '\t');
    assert ParseLine(blank) == None;
    ParseLinesStep([tagged, blank], 0);
    ParseLinesStep([tagged, blank], 1);
    assert [tagged, blank][..0] == [];
    assert [tagged, blank][..2] == [tagged, blank];
  }

  lemma ExampleTaggedLine()
    ensures ParseLine("run\tVERB\trun\trun\n") == Some(["run", "VERB", "run", "run"])
  {
    ParseFourFields("run", "VERB", "run", "run\n");
    assert "run\tVERB\trun\trun\n" == "run" + (['\t'] + ("VERB" + (['\t'] + ("run" + (['\t'] + "run\n")))));
    assert DropLast("run\n") == "run";
  }

  /** A last line without terminator loses a real character of its last field. */
  lemma ExampleUnterminatedLastLine()
    ensures ParseLine("run\tVERB\trun\troot") == Some(["run", "VERB", "run", "roo"])
  {
    ParseFourFields("run", "VERB", "run", "root");
    assert "run\tVERB\trun\troot" == "run" + (['\t'] + ("VERB" + (['\t'] + ("run" + (['\t'] + "root")))));
    assert DropLast("root") == "roo";
  }
}

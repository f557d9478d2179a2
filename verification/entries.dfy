/** From the extractor's `<title>|<id>` lines to playlist entries: line
    admission, the split on the last delimiter, and title sanitising. */
module Entries {
  import opened Results
  import opened Text
  import opened Filtering

  /** One playlist video: its display title and its platform identifier. */
  datatype Entry = Entry(title: string, id: string)

  const Delimiter: char := '|'
  const PrivateMarker: string := "[Private video]"
  /** The fixed width of a video identifier. */
  const IdLength: nat := 11

  /** What every entry the parser keeps satisfies: an identifier of the
      fixed width, and a title that holds no double quote and has no
      surrounding whitespace. */
  predicate Admissible(e: Entry) {
    |e.id| == IdLength && '"' !in e.title && Bare(e.title, IsSpace)
  }

  /** sanitize_title: double quotes become single quotes, then surrounding
      whitespace is stripped. */
  function SanitizeTitle(t: string): (r: string)
    ensures IsTrimOf(r, ReplaceChar(t, '"', '\''), IsSpace)
    ensures '"' !in r
    ensures Bare(r, IsSpace)
    ensures |r| <= |t|
  {
    var q := ReplaceChar(t, '"', '\'');
    var r := StripSpace(q);
    StripIsTrim(q, IsSpace);
    assert forall j :: 0 <= j < |r| ==> r[j] in q;
    r
  }

  /** The titles sanitising leaves alone are exactly the clean ones, so
      sanitising twice is sanitising once. */
  lemma SanitizeFixpoints(t: string)
    ensures SanitizeTitle(t) == t <==> ('"' !in t && Bare(t, IsSpace))
    ensures SanitizeTitle(SanitizeTitle(t)) == SanitizeTitle(t)
  {
    if '"' !in t && Bare(t, IsSpace) {
      CleanTitleUnchanged(t);
    }
    CleanTitleUnchanged(SanitizeTitle(t));
  }

  lemma CleanTitleUnchanged(t: string)
    requires '"' !in t && Bare(t, IsSpace)
    ensures SanitizeTitle(t) == t
  {
    assert ReplaceChar(t, '"', '\'') == t;
    StripBare(t, IsSpace);
  }

  /** Index of the last occurrence of c in s. */
  function LastIndexOf(s: string, c: char): (k: nat)
    requires c in s
    ensures k < |s| && s[k] == c
    ensures c !in s[k + 1..]
    decreases |s|
  {
    if s[|s| - 1] == c then |s| - 1
    else
      assert c in s[..|s| - 1];
      LastIndexOf(s[..|s| - 1], c)
  }

  /** extract_entry: `line.rsplit("|", 1)`, title sanitised and id
      stripped. The line must hold a delimiter: Python's unpacking of the
      one-element split would raise otherwise. */
  function ExtractEntry(line: string): (e: Entry)
    requires Delimiter in line
    ensures '"' !in e.title && Bare(e.title, IsSpace)
    ensures Bare(e.id, IsSpace)
  {
    var k := LastIndexOf(line, Delimiter);
    Entry(SanitizeTitle(line[..k]), StripSpace(line[k + 1..]))
  }

  /** The split is on the last delimiter: a `|` inside the title stays in
      the title. */
  lemma ExtractSplitsOnLast(t: string, v: string)
    requires Delimiter !in v
    ensures ExtractEntry(t + [Delimiter] + v) == Entry(SanitizeTitle(t), StripSpace(v))
  {
    var line := t + [Delimiter] + v;
    assert line[|t|] == Delimiter;
    var k := LastIndexOf(line, Delimiter);
    assert k == |t|;
    assert line[..k] == t;
    assert line[k + 1..] == v;
  }

  /** Round trip: a clean title and a bare, delimiter-free id come back
      unchanged from their `<title>|<id>` line. */
  lemma ExtractRoundTrip(t: string, v: string)
    requires '"' !in t && Bare(t, IsSpace)
    requires Delimiter !in v && Bare(v, IsSpace)
    ensures ExtractEntry(t + [Delimiter] + v) == Entry(t, v)
  {
    ExtractSplitsOnLast(t, v);
    CleanTitleUnchanged(t);
    StripBare(v, IsSpace);
  }

  /** One turn of the loop in main: a line without a delimiter, a line
      marking a private video, and a line whose stripped id does not have
      the fixed width are dropped. */
  function ParseLine(line: string): (r: Option<Entry>)
    ensures Delimiter !in line ==> r == None
    ensures Contains(line, PrivateMarker) ==> r == None
    ensures r.Some? ==> Admissible(r.value) && r.value == ExtractEntry(line)
  {
    if Delimiter !in line then None
    else if Contains(line, PrivateMarker) then None
    else
      var e := ExtractEntry(line);
      if |e.id| != IdLength then None else Some(e)
  }

  /** The verdict on a line `t|v`, with v free of delimiters, in terms of
      its two fields. */
  lemma ParseFieldLine(t: string, v: string)
    requires Delimiter !in v
    ensures var line := t + [Delimiter] + v;
      ParseLine(line) ==
        if Contains(line, PrivateMarker) || |StripSpace(v)| != IdLength then None
        else Some(Entry(SanitizeTitle(t), StripSpace(v)))
  {
    assert (t + [Delimiter] + v)[|t|] == Delimiter;
    ExtractSplitsOnLast(t, v);
  }

  /** The entries of all lines, in input order. */
  function ParseLines(lines: seq<string>): (es: seq<Entry>)
    ensures |es| <= |lines|
    ensures forall e :: e in es ==> Admissible(e)
  {
    EntriesFromLines(lines);
    Survivors(lines, ParseLine)
  }

  /** The loop of main (lines 166-177) over already split lines. */
  method CollectEntries(lines: seq<string>) returns (entries: seq<Entry>)
    ensures entries == ParseLines(lines)
  {
    entries := [];
    var i := 0;
    while i < |lines|
      invariant 0 <= i <= |lines|
      invariant entries == Survivors(lines[..i], ParseLine)
    {
      var line := lines[i];
      assert lines[..i + 1][..i] == lines[..i];
      i := i + 1;
      if Delimiter !in line {
        continue;
      }
      if Contains(line, PrivateMarker) {
        continue;
      }
      var e := ExtractEntry(line);
      if |e.id| != IdLength {
        continue;
      }
      entries := entries + [e];
    }
    assert lines[..i] == lines;
  }

  /** Every entry comes from some line of the input. */
  lemma EntriesFromLines(lines: seq<string>)
    ensures forall e :: e in Survivors(lines, ParseLine) ==> exists i :: 0 <= i < |lines| && ParseLine(lines[i]) == Some(e)
  {
    SurvivorsFrom(lines, ParseLine);
  }

  /** Parsing distributes over concatenation of the input: every line is
      judged on its own and the survivors keep their input order. */
  lemma ParseLinesAppend(a: seq<string>, b: seq<string>)
    ensures ParseLines(a + b) == ParseLines(a) + ParseLines(b)
  {
    SurvivorsAppend(a, b, ParseLine);
  }

  /** A dropped line leaves the entries of the other lines as they were. */
  lemma DroppedLineIrrelevant(a: seq<string>, l: string, b: seq<string>)
    requires ParseLine(l) == None
    ensures ParseLines(a + [l] + b) == ParseLines(a + b)
  {
    DroppedIrrelevant(a, l, b, ParseLine);
  }

  /** An accepted line contributes its entry exactly at its position among
      the survivors. */
  lemma AcceptedLineKept(lines: seq<string>, i: nat, e: Entry)
    requires i < |lines| && ParseLine(lines[i]) == Some(e)
    ensures ParseLines(lines) == ParseLines(lines[..i]) + [e] + ParseLines(lines[i + 1..])
  {
    SplitAt(lines, i);
    KeptBetween(lines[..i], lines[i], lines[i + 1..], e, ParseLine);
  }

  /** The entry stage of main: the accepted entries, or the failure that
      ends the run when no line was accepted. */
  function ParseEntries(lines: seq<string>): (r: Result<seq<Entry>>)
    ensures r.Err? <==> forall i :: 0 <= i < |lines| ==> ParseLine(lines[i]) == None
    ensures r.Err? ==> r.failure == NoValidVideos
    ensures r.Ok? ==> r.value == ParseLines(lines)
    ensures r.Ok? ==> r.value != [] && forall e :: e in r.value ==> Admissible(e)
  {
    var es := ParseLines(lines);
    NothingAccepted(lines);
    if es == [] then Err(NoValidVideos) else Ok(es)
  }

  lemma NothingAccepted(lines: seq<string>)
    ensures ParseLines(lines) == [] <==> forall i :: 0 <= i < |lines| ==> ParseLine(lines[i]) == None
  {
    NoneSurvive(lines, ParseLine);
  }
}

/** main once the extractor has succeeded: from its output lines and the
    typed page title to what is written. */
module Pipeline {
  import opened Results
  import opened Entries
  import opened NaturalSort
  import StableSort
  import opened PageTitles
  import opened FileNames
  import opened LectureArray

  /** What main writes: the page title shown twice in the template, the
      output file name, the sorted entries and their serialised array. */
  datatype Page = Page(title: string, fileName: string, entries: seq<Entry>, lectures: string)

  /** main after the extractor has succeeded with the given output lines. */
  function Generate(typedTitle: string, lines: seq<string>): (r: Result<Page>)
    ensures r.Err? <==> forall i :: 0 <= i < |lines| ==> ParseLine(lines[i]) == None
    ensures r.Err? ==> r.failure == NoValidVideos
    ensures r.Ok? ==> var p := r.value;
      && p.title == PageTitle(typedTitle)
      && p.fileName == SafeFilename(p.title)
      && multiset(p.entries) == multiset(ParseLines(lines))
      && SortedByKey(p.entries)
      && p.entries != []
      && (forall e :: e in p.entries ==> Admissible(e))
      && p.lectures == Lectures(p.entries)
  {
    var title := PageTitle(typedTitle);
    match ParseEntries(lines)
    case Err(f) => Err(f)
    case Ok(es) =>
      var sorted := SortEntries(es);
      assert forall e :: e in sorted ==> e in multiset(es);
      Ok(Page(title, SafeFilename(title), sorted, Lectures(sorted)))
  }

  /** The generated page lists every accepted entry once, in sorted order,
      with entries of equal key in input order; when no id holds a double
      quote its array reads back as exactly those entries. */
  lemma GeneratedPageFaithful(typedTitle: string, lines: seq<string>)
    requires Generate(typedTitle, lines).Ok?
    ensures var p := Generate(typedTitle, lines).value;
      && p.entries == SortEntries(ParseLines(lines))
      && (forall k :: StableSort.WithKey(p.entries, TitleKey, k) == StableSort.WithKey(ParseLines(lines), TitleKey, k))
      && ((forall e :: e in p.entries ==> '"' !in e.id) ==> ReadLectures(p.lectures) == Some(p.entries))
  {
    var p := Generate(typedTitle, lines).value;
    forall k ensures StableSort.WithKey(p.entries, TitleKey, k) == StableSort.WithKey(ParseLines(lines), TitleKey, k) {
      SortEntriesStable(ParseLines(lines), k);
    }
    if forall e :: e in p.entries ==> '"' !in e.id {
      LecturesRoundTrip(p.entries);
    }
  }
}

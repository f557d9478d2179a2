/** The page title of main: what the user typed, stripped, or a fixed
    default. */
module PageTitles {
  import opened Text

  const DefaultTitle: string := "YouTube Playlist"

  /** `input(...).strip() or "YouTube Playlist"`: the typed title without
      surrounding whitespace, or the fixed default when nothing is left. */
  function PageTitle(typed: string): (t: string)
    ensures t != [] && Bare(t, IsSpace)
    ensures StripSpace(typed) == [] ==> t == DefaultTitle
    ensures StripSpace(typed) != [] ==> IsTrimOf(t, typed, IsSpace)
  {
    var s := StripSpace(typed);
    StripIsTrim(typed, IsSpace);
    if s == [] then DefaultTitleBare(); DefaultTitle else s
  }

  lemma DefaultTitleBare()
    ensures DefaultTitle != [] && Bare(DefaultTitle, IsSpace)
  {
  }

  /** A page title typed back in is kept as it is. */
  lemma PageTitleStable(typed: string)
    ensures PageTitle(PageTitle(typed)) == PageTitle(typed)
  {
    StripBare(PageTitle(typed), IsSpace);
  }
}

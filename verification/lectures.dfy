/** The `lectures` array embedded in the page: one record per entry, and
    a reader that recovers the entries from it. */
module LectureArray {
  import opened Results
  import opened Text
  import opened Entries

  const Open: string := "  { title: \""
  const Middle: string := "\", id: \""
  const Close: string := "\" }"
  const RecordSep: string := ",\n"

  /** One line of the embedded array: `  { title: "<t>", id: "<vid>" }`. */
  function Record(e: Entry): string {
    Open + e.title + Middle + e.id + Close
  }

  /** `",\n".join(...)` over the records of the sorted entries. */
  function Lectures(es: seq<Entry>): string {
    Join(seq(|es|, i requires 0 <= i < |es| => Record(es[i])), RecordSep)
  }

  predicate StartsWith(s: string, p: string) {
    |p| <= |s| && s[..|p|] == p
  }

  /** What follows the prefix p of s, if s starts with it. */
  function Expect(s: string, p: string): (r: Option<string>)
    ensures r.Some? <==> StartsWith(s, p)
    ensures r.Some? ==> s == p + r.value
  {
    if StartsWith(s, p) then
      assert s == s[..|p|] + s[|p|..];
      Some(s[|p|..])
    else None
  }

  /** Length of the longest prefix of s without c. */
  function Span(s: string, c: char): (n: nat)
    ensures n <= |s| && c !in s[..n]
    ensures n < |s| ==> s[n] == c
    decreases |s|
  {
    if s == [] || s[0] == c then 0
    else
      var m := Span(s[1..], c);
      assert s[..1 + m] == [s[0]] + s[1..][..m];
      1 + m
  }

  /** Splits s before its first double quote: the field and the rest. */
  function ReadField(s: string): (f: (string, string))
    ensures f.0 + f.1 == s && '"' !in f.0
    ensures f.1 == [] || f.1[0] == '"'
  {
    var n := Span(s, '"');
    assert s == s[..n] + s[n..];
    (s[..n], s[n..])
  }

  /** Reads one record from the front of s, returning it and what follows. */
  function ReadRecord(s: string): (r: Option<(Entry, string)>)
    ensures r.Some? ==> |r.value.1| < |s|
  {
    match Expect(s, Open)
    case None => None
    case Some(a) =>
      var (t, b) := ReadField(a);
      match Expect(b, Middle)
      case None => None
      case Some(c) =>
        var (v, d) := ReadField(c);
        match Expect(d, Close)
        case None => None
        case Some(rest) => Some((Entry(t, v), rest))
  }

  /** Reads a `,\n`-separated list of one or more records, the whole of s. */
  function ReadLectures(s: string): Option<seq<Entry>>
    decreases |s|
  {
    match ReadRecord(s)
    case None => None
    case Some((e, rest)) =>
      if rest == [] then Some([e])
      else
        match Expect(rest, RecordSep)
        case None => None
        case Some(more) =>
          match ReadLectures(more)
          case None => None
          case Some(es) => Some([e] + es)
  }

  /** Neither field of e holds a double quote. */
  predicate Quotable(e: Entry) {
    '"' !in e.title && '"' !in e.id
  }

  lemma ExpectOf(p: string, t: string)
    ensures Expect(p + t, p) == Some(t)
  {
    assert (p + t)[..|p|] == p;
  }

  /** A field without quotes, followed by text that starts with a quote,
      is read back whole. */
  lemma ReadFieldOf(x: string, t: string)
    requires '"' !in x && t != [] && t[0] == '"'
    ensures ReadField(x + t) == (x, t)
  {
    var s := x + t;
    assert s[..|x|] == x && s[|x|..] == t;
    assert forall k :: 0 <= k < |x| ==> s[k] == x[k];
  }

  lemma RecordShape(e: Entry, rest: string)
    ensures Record(e) + rest == Open + (e.title + (Middle + (e.id + (Close + rest))))
  {
  }

  lemma QuoteFirst(x: string)
    ensures (Middle + x)[0] == '"' && (Close + x)[0] == '"'
  {
  }

  lemma ReadRecordOf(e: Entry, rest: string)
    requires Quotable(e)
    ensures ReadRecord(Record(e) + rest) == Some((e, rest))
  {
    var d := Close + rest;
    var c := e.id + d;
    var b := Middle + c;
    var a := e.title + b;
    RecordShape(e, rest);
    QuoteFirst(c);
    QuoteFirst(rest);
    ExpectOf(Open, a);
    ReadFieldOf(e.title, b);
    ExpectOf(Middle, c);
    ReadFieldOf(e.id, d);
    ExpectOf(Close, rest);
  }

  lemma LecturesOne(es: seq<Entry>)
    requires |es| == 1
    ensures Lectures(es) == Record(es[0])
  {
  }

  lemma LecturesCons(es: seq<Entry>)
    requires |es| >= 2
    ensures Lectures(es) == Record(es[0]) + (RecordSep + Lectures(es[1..]))
  {
    var rs := seq(|es|, i requires 0 <= i < |es| => Record(es[i]));
    var tail := es[1..];
    assert rs[1..] == seq(|tail|, i requires 0 <= i < |tail| => Record(tail[i]));
  }

  lemma ReadOnlyRecord(e: Entry)
    requires Quotable(e)
    ensures ReadLectures(Record(e)) == Some([e])
  {
    ReadRecordOf(e, []);
    assert Record(e) + [] == Record(e);
  }

  lemma ReadRecordThenMore(e: Entry, more: string)
    requires Quotable(e)
    ensures ReadLectures(Record(e) + (RecordSep + more)) ==
      match ReadLectures(more) case None => None case Some(es) => Some([e] + es)
  {
    ReadRecordOf(e, RecordSep + more);
    ExpectOf(RecordSep, more);
  }

  lemma RoundTripOne(es: seq<Entry>)
    requires |es| == 1 && Quotable(es[0])
    ensures ReadLectures(Lectures(es)) == Some(es)
  {
    LecturesOne(es);
    ReadOnlyRecord(es[0]);
    assert es == [es[0]];
  }

  lemma RoundTripMore(es: seq<Entry>)
    requires |es| >= 2 && Quotable(es[0])
    requires ReadLectures(Lectures(es[1..])) == Some(es[1..])
    ensures ReadLectures(Lectures(es)) == Some(es)
  {
    LecturesCons(es);
    ReadRecordThenMore(es[0], Lectures(es[1..]));
    assert es == [es[0]] + es[1..];
  }

  /** Round trip: the serialised array reads back as exactly the entries,
      one record per entry, in order. */
  lemma {:induction false} LecturesRoundTrip(es: seq<Entry>)
    requires es != []
    requires forall e :: e in es ==> Quotable(e)
    ensures ReadLectures(Lectures(es)) == Some(es)
    decreases |es|
  {
    if |es| == 1 {
      RoundTripOne(es);
    } else {
      LecturesRoundTrip(es[1..]);
      RoundTripMore(es);
    }
  }
}

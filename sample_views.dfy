/**
 * fta/samples/views.py: `get_frozen_metadata` reads the source url and the
 * capture time out of the comment SingleFile puts at the top of a saved
 * page. Parsing the page (to reach that comment), reading the clock for the
 * default time and parsing the time text are outside the model: the comment
 * text is a parameter and the time is returned as the raw text handed to
 * the date parser.
 */
module SampleViews {
  import opened Wrappers
  import opened PyStr

  const SinglePage: string := "SinglePage"
  const SingleFileBanner: string := "Page saved with SingleFile"
  const UrlMarker: string := "url:"
  const DateMarker: string := "date:"

  /** Why `get_frozen_metadata` fails. */
  datatype MetadataError =
    | NotSingleFile   // the first line does not start with the SingleFile banner (assertion)
    | WrongLineCount  // the comment does not have exactly three lines (assertion)
    | NoUrlMarker     // the second line has no "url:" (IndexError)
    | NoDateMarker    // the third line has no "date:" (IndexError)

  /**
   * The url and, for SingleFile pages, the raw capture-time text. `None`
   * stands for the default `datetime.now()`.
   */
  datatype FrozenMetadata = FrozenMetadata(url: string, rawTime: Option<string>)

  /** The comment's lines: `comment.strip().split("\n")`. */
  function Lines(comment: string): seq<string> {
    Split(Strip(comment), "\n")
  }

  /** The url on the second line: the text after "url:" (up to any second "url:"), stripped. */
  function UrlField(line: string): (r: Result<string, MetadataError>)
    ensures r.Err? <==> Find(line, UrlMarker).None?
    ensures r.Err? ==> r.error == NoUrlMarker
  {
    SplitFirstPiece(line, UrlMarker);
    var parts := Split(line, UrlMarker);
    if |parts| < 2 then Err(NoUrlMarker) else Ok(Strip(parts[1]))
  }

  /** The time text on the third line: the text after "date:", stripped, cut before its first "(". */
  function RawTimeField(line: string): (r: Result<string, MetadataError>)
    ensures r.Err? <==> Find(line, DateMarker).None?
    ensures r.Err? ==> r.error == NoDateMarker
  {
    SplitFirstPiece(line, DateMarker);
    var parts := Split(line, DateMarker);
    if |parts| < 2 then Err(NoDateMarker) else Ok(Split(Strip(parts[1]), "(")[0])
  }

  /**
   * `get_frozen_metadata(page, freeze_software)`, where `comment` is the
   * text of the first child of the page's `<html>` element. The url is read
   * before the date, so a comment lacking both markers fails on the url.
   */
  function GetFrozenMetadata(comment: string, freezeSoftware: string): (r: Result<FrozenMetadata, MetadataError>)
    ensures freezeSoftware != SinglePage ==> r == Ok(FrozenMetadata("", None))
    ensures freezeSoftware == SinglePage && r.Ok? ==>
      && StartsWith(Lines(comment)[0], SingleFileBanner) && |Lines(comment)| == 3 && r.value.rawTime.Some?
      && UrlField(Lines(comment)[1]) == Ok(r.value.url)
      && RawTimeField(Lines(comment)[2]) == Ok(r.value.rawTime.value)
    ensures freezeSoftware == SinglePage && !StartsWith(Lines(comment)[0], SingleFileBanner) ==>
      r == Err(NotSingleFile)
    ensures freezeSoftware == SinglePage && StartsWith(Lines(comment)[0], SingleFileBanner) && |Lines(comment)| != 3 ==>
      r == Err(WrongLineCount)
    ensures freezeSoftware == SinglePage && StartsWith(Lines(comment)[0], SingleFileBanner) && |Lines(comment)| == 3 ==>
      && (UrlField(Lines(comment)[1]).Err? ==> r == Err(NoUrlMarker))
      && (UrlField(Lines(comment)[1]).Ok? && RawTimeField(Lines(comment)[2]).Err? ==> r == Err(NoDateMarker))
  {
    if freezeSoftware != SinglePage then Ok(FrozenMetadata("", None))
    else
      var pieces := Lines(comment);
      if !StartsWith(pieces[0], SingleFileBanner) then Err(NotSingleFile)
      else if |pieces| != 3 then Err(WrongLineCount)
      else
        match UrlField(pieces[1])
        case Err(e) => Err(e)
        case Ok(url) =>
          match RawTimeField(pieces[2])
          case Err(e) => Err(e)
          case Ok(rawTime) => Ok(FrozenMetadata(url, Some(rawTime)))
  }

  /** The text after the first occurrence of `sep` up to the next one (or to the end). */
  function BetweenFirstAndSecond(s: string, sep: string): (r: Option<string>)
    requires sep != []
    ensures r.None? <==> Lacks(s, sep)
  {
    FindNoneIffLacks(s, sep);
    match Find(s, sep)
    case None => None
    case Some(k) =>
      match FindFrom(s, sep, k + |sep|)
      case None => Some(s[k + |sep|..])
      case Some(k2) => Some(s[k + |sep|..k2])
  }

  /** The second piece of `s.split(sep)` is the text between the first and second occurrences of `sep`. */
  lemma SecondPieceIsBetween(s: string, sep: string)
    requires sep != []
    ensures |Split(s, sep)| >= 2 <==> BetweenFirstAndSecond(s, sep).Some?
    ensures |Split(s, sep)| >= 2 ==> Split(s, sep)[1] == BetweenFirstAndSecond(s, sep).value
  {
    SplitFirstPiece(s, sep);
    FindNoneIffLacks(s, sep);
    if Find(s, sep).Some? {
      SplitSecondPiece(s, sep, Find(s, sep).value);
    }
  }

  /**
   * The url is the text between the first and second "url:" on its line,
   * stripped of whitespace; there is none exactly when the line has no "url:".
   */
  lemma UrlFieldIsBetween(line: string)
    ensures UrlField(line).Ok? <==> BetweenFirstAndSecond(line, UrlMarker).Some?
    ensures UrlField(line).Err? ==> UrlField(line).error == NoUrlMarker
    ensures UrlField(line).Ok? ==> UrlField(line).value == Strip(BetweenFirstAndSecond(line, UrlMarker).value)
  {
    SecondPieceIsBetween(line, UrlMarker);
  }

  /**
   * The raw time is the text after the first "date:" on its line (up to any
   * second "date:"), stripped, then cut before its first "(" (whitespace
   * before the "(" is kept); there is none exactly when the line has no "date:".
   */
  lemma RawTimeFieldIsBeforeParen(line: string)
    ensures RawTimeField(line).Ok? <==> BetweenFirstAndSecond(line, DateMarker).Some?
    ensures RawTimeField(line).Err? ==> RawTimeField(line).error == NoDateMarker
    ensures RawTimeField(line).Ok? ==>
      var afterDate := Strip(BetweenFirstAndSecond(line, DateMarker).value);
      RawTimeField(line).value == (match Find(afterDate, "(") case None => afterDate case Some(k) => afterDate[..k])
  {
    SecondPieceIsBetween(line, DateMarker);
    if BetweenFirstAndSecond(line, DateMarker).Some? {
      var afterDate := Strip(BetweenFirstAndSecond(line, DateMarker).value);
      SplitFirstPiece(afterDate, "(");
      assert afterDate[..|afterDate|] == afterDate;
    }
  }

  /** A `freeze_software` other than the literal "SinglePage" yields an empty url and the default time, whatever the text. */
  lemma OtherSoftwareIsNotParsed(comment: string, freezeSoftware: string)
    requires freezeSoftware != SinglePage
    ensures GetFrozenMetadata(comment, freezeSoftware) == Ok(FrozenMetadata("", None))
  {
  }

  /** `s` contains no character `c`. */
  predicate NoChar(s: string, c: char) {
    forall j :: 0 <= j < |s| ==> s[j] != c
  }

  /** No character `c` in either part means none in their concatenation. */
  lemma NoCharConcat(a: string, b: string, c: char)
    requires NoChar(a, c) && NoChar(b, c)
    ensures NoChar(a + b, c)
  {
    forall j | 0 <= j < |a + b| ensures (a + b)[j] != c {
      if j >= |a| { assert (a + b)[j] == b[j - |a|]; }
    }
  }

  /** Scanning from `i` for a one-character separator stops at the first position holding it. */
  lemma {:induction false} FindCharFrom(s: string, c: char, i: nat, k: nat)
    requires i <= k < |s| && s[k] == c && forall j :: i <= j < k ==> s[j] != c
    ensures FindFrom(s, [c], i) == Some(k)
    decreases k - i
  {
    assert s[i..i + 1] == [s[i]];
    if i < k {
      FindCharFrom(s, c, i + 1, k);
    }
  }

  /** Scanning from `i` for a one-character separator that no longer occurs finds nothing. */
  lemma {:induction false} NoCharFrom(s: string, c: char, i: nat)
    requires forall j :: i <= j < |s| ==> s[j] != c
    ensures FindFrom(s, [c], i).None?
    decreases |s| - i
  {
    if i < |s| {
      assert s[i..i + 1] == [s[i]];
      NoCharFrom(s, c, i + 1);
    }
  }

  /** An occurrence past a prefix `p` is an occurrence in the text after `p`. */
  lemma OccursPast(p: string, t: string, sep: string, v: nat)
    requires |p| <= v && OccursAt(p + t, sep, v)
    ensures OccursAt(t, sep, v - |p|)
  {
    var s := p + t;
    var w := v - |p|;
    forall q | 0 <= q < |sep| ensures t[w + q] == sep[q] {
      assert s[v..v + |sep|][q] == sep[q];
    }
    assert t[w..w + |sep|] == sep;
  }

  /** A separator absent from the text after a prefix `p` is not found past `p`. */
  lemma NotFoundPast(p: string, t: string, sep: string)
    requires sep != [] && Lacks(t, sep)
    ensures FindFrom(p + t, sep, |p|).None?
  {
    var s := p + t;
    var r := FindFrom(s, sep, |p|);
    if r.Some? {
      FindFromIsFirst(s, sep, |p|);
      OccursPast(p, t, sep, r.value);
      assert false;
    }
  }

  /** Cutting at a one-character separator: the piece before position `k`, then the pieces after it. */
  lemma CharCut(s: string, c: char, i: nat, k: nat)
    requires i <= k < |s| && s[k] == c && NoChar(s[i..k], c)
    ensures SplitFrom(s, [c], i) == [s[i..k]] + SplitFrom(s, [c], k + 1)
  {
    forall j | i <= j < k ensures s[j] != c {
      assert s[j] == s[i..k][j - i];
    }
    FindCharFrom(s, c, i, k);
    SplitFromStep(s, [c], i, k);
  }

  /** No separator character left from position `i`: the rest is the last piece. */
  lemma CharRest(s: string, c: char, i: nat)
    requires i <= |s| && NoChar(s[i..], c)
    ensures SplitFrom(s, [c], i) == [s[i..]]
  {
    forall j | i <= j < |s| ensures s[j] != c {
      assert s[j] == s[i..][j - i];
    }
    NoCharFrom(s, c, i);
    SplitFromLast(s, [c], i);
  }

  /** The pieces of a text that contains exactly two `c`, split on `c`. */
  lemma SplitThree(a: string, b: string, d: string, c: char)
    requires NoChar(a, c) && NoChar(b, c) && NoChar(d, c)
    ensures Split(a + [c] + b + [c] + d, [c]) == [a, b, d]
  {
    var s := a + [c] + b + [c] + d;
    var i1 := |a| + 1;
    var i2 := |a| + 1 + |b| + 1;
    assert s[0..|a|] == a && s[|a|] == c;
    assert s[i1..i1 + |b|] == b && s[i1 + |b|] == c;
    assert s[i2..] == d;
    CharRest(s, c, i2);
    CharCut(s, c, i1, i1 + |b|);
    var tail := SplitFrom(s, [c], i1);
    assert tail == [b, d];
    CharCut(s, c, 0, |a|);
    assert [a] + tail == [a, b, d];
  }

  /** The pieces of a text that contains exactly one `c`, split on `c`. */
  lemma SplitTwo(a: string, d: string, c: char)
    requires NoChar(a, c) && NoChar(d, c)
    ensures Split(a + [c] + d, [c]) == [a, d]
  {
    var s := a + [c] + d;
    assert s[0..|a|] == a && s[|a|] == c;
    assert s[|a| + 1..] == d;
    CharCut(s, c, 0, |a|);
    CharRest(s, c, |a| + 1);
  }

  /** Splitting on a character: the first piece is the text before its first occurrence. */
  lemma SplitCharFirst(a: string, c: char, b: string)
    requires NoChar(a, c)
    ensures Split(a + [c] + b, [c])[0] == a
  {
    var s := a + [c] + b;
    assert s[0..|a|] == a && s[|a|] == c;
    CharCut(s, c, 0, |a|);
  }

  /** A string with no whitespace at either end is its own `strip()`. */
  lemma StripTrimmed(s: string)
    requires s == [] || (!IsSpace(s[0]) && !IsSpace(s[|s| - 1]))
    ensures Strip(s) == s
  {
  }

  /** The url line of a header of the form `<banner>\nurl: <url>\ndate: <time> (<zone>)`. */
  function UrlLineOf(url: string): string {
    UrlMarker + (" " + url)
  }

  /** The date line of that header form: a capture time and its time zone. */
  function DateLineOf(time: string, zone: string): string {
    DateMarker + " " + time + " (" + zone + ")"
  }

  /**
   * A comment of the form `<banner>\nurl: <url>\ndate: <time> (<zone>)`.
   * fta/samples/views.py:22-26 fixes only the banner prefix, the three lines
   * and the two markers; this is one layout that meets them, not the exact
   * text of any particular SingleFile release.
   */
  function BannerUrlDateHeader(url: string, time: string, zone: string): string {
    SingleFileBanner + "\n" + UrlLineOf(url) + "\n" + DateLineOf(time, zone)
  }

  /** A stripped text made of three newline-free lines joined by newlines has those lines. */
  lemma ThreeLines(comment: string, l0: string, l1: string, l2: string)
    requires NoChar(l0, '\n') && NoChar(l1, '\n') && NoChar(l2, '\n')
    requires comment == l0 + "\n" + l1 + "\n" + l2 && Strip(comment) == comment
    ensures Lines(comment) == [l0, l1, l2]
  {
    SplitThree(l0, l1, l2, '\n');
  }

  /** A header of that form has no whitespace at either end. */
  lemma HeaderStripped(url: string, time: string, zone: string)
    ensures Strip(BannerUrlDateHeader(url, time, zone)) == BannerUrlDateHeader(url, time, zone)
  {
    var h := BannerUrlDateHeader(url, time, zone);
    assert h[0] == 'P' && h[|h| - 1] == ')';
    StripTrimmed(h);
  }

  /** A header of that form splits into its three lines. */
  lemma HeaderLines(url: string, time: string, zone: string)
    requires NoChar(url, '\n') && NoChar(time, '\n') && NoChar(zone, '\n')
    ensures Lines(BannerUrlDateHeader(url, time, zone))
            == [SingleFileBanner, UrlLineOf(url), DateLineOf(time, zone)]
  {
    var l0 := SingleFileBanner;
    var l1 := UrlLineOf(url);
    var l2 := DateLineOf(time, zone);
    assert NoChar(l0, '\n');
    NoCharConcat(" ", url, '\n');
    NoCharConcat(UrlMarker, " " + url, '\n');
    NoCharConcat(DateMarker + " ", time, '\n');
    NoCharConcat(DateMarker + " " + time, " (", '\n');
    NoCharConcat(DateMarker + " " + time + " (", zone, '\n');
    NoCharConcat(DateMarker + " " + time + " (" + zone, ")", '\n');
    HeaderStripped(url, time, zone);
    ThreeLines(BannerUrlDateHeader(url, time, zone), l0, l1, l2);
  }

  /** Putting a space in front of a text cannot create a marker that starts with something else. */
  lemma LacksAfterSpace(s: string, marker: string)
    requires marker != [] && marker[0] != ' ' && Lacks(s, marker)
    ensures Lacks(" " + s, marker)
  {
    var t := " " + s;
    forall j | OccursAt(t, marker, j) ensures false {
      if j > 0 {
        OccursPast(" ", s, marker, j);
      }
    }
  }

  /** A line that starts with `marker` and has no other: its second piece is the rest of the line. */
  lemma MarkerLine(marker: string, rest: string)
    requires marker != [] && Lacks(rest, marker)
    ensures |Split(marker + rest, marker)| == 2
    ensures Split(marker + rest, marker)[1] == rest
  {
    var l := marker + rest;
    assert l[0..|marker|] == marker;
    assert OccursAt(l, marker, 0);
    assert FindFrom(l, marker, 0) == Some(0);
    NotFoundPast(marker, rest, marker);
    SplitFromStep(l, marker, 0, 0);
    SplitFromLast(l, marker, |marker|);
    assert l[|marker|..] == rest;
  }

  /** Stripping a text that is already stripped, with one space put in front, gives the text back. */
  lemma StripSpacePrefix(s: string)
    requires Strip(s) == s
    ensures Strip(" " + s) == s
  {
    var t := " " + s;
    assert t[1..] == s;
    assert StripLeft(t) == StripLeft(s);
  }

  /** A marker, a space and a stripped text without the marker: the second piece, stripped, is the text. */
  lemma MarkerThenText(marker: string, text: string)
    requires marker != [] && marker[0] != ' ' && Lacks(text, marker) && Strip(text) == text
    ensures |Split(marker + (" " + text), marker)| == 2
    ensures Strip(Split(marker + (" " + text), marker)[1]) == text
  {
    LacksAfterSpace(text, marker);
    MarkerLine(marker, " " + text);
    StripSpacePrefix(text);
  }

  /** The url line yields the url: "url:" occurs once, at its start. */
  lemma UrlLine(url: string)
    requires Strip(url) == url && Lacks(url, UrlMarker)
    ensures UrlField(UrlLineOf(url)) == Ok(url)
  {
    MarkerThenText(UrlMarker, url);
  }

  /** The date line yields the time text up to "(", keeping the space before it. */
  lemma DateLine(time: string, zone: string)
    requires time != [] && !IsSpace(time[0]) && NoChar(time, '(')
    requires Lacks(" " + time + " (" + zone + ")", DateMarker)
    ensures RawTimeField(DateLineOf(time, zone)) == Ok(time + " ")
  {
    var stripped := time + " (" + zone + ")";
    var dateText := " " + stripped;
    var l2 := DateMarker + dateText;
    assert dateText == " " + time + " (" + zone + ")";
    assert l2 == DateLineOf(time, zone);
    assert dateText[1..] == stripped && stripped[0] == time[0];
    assert stripped == (time + " ") + ['('] + (zone + ")");
    assert stripped[|stripped| - 1] == ')';
    assert NoChar(" ", '(');
    NoCharConcat(time, " ", '(');
    SplitCharFirst(time + " ", '(', zone + ")");
    assert StripLeft(dateText) == stripped;
    StripTrimmed(stripped);
    assert Strip(dateText) == stripped;
    MarkerLine(DateMarker, dateText);
    assert Split(l2, DateMarker)[1] == dateText;
  }

  /** Three lines that pass every check give the url and the raw time of the last two. */
  lemma ParsedLines(comment: string, url: string, rawTime: string)
    requires |Lines(comment)| == 3 && StartsWith(Lines(comment)[0], SingleFileBanner)
    requires UrlField(Lines(comment)[1]) == Ok(url)
    requires RawTimeField(Lines(comment)[2]) == Ok(rawTime)
    ensures GetFrozenMetadata(comment, SinglePage) == Ok(FrozenMetadata(url, Some(rawTime)))
  {
  }

  /** A comment whose lines are those of a banner/url/date header yields its url and time text. */
  lemma HeaderLinesParse(comment: string, url: string, time: string, zone: string)
    requires Lines(comment) == [SingleFileBanner, UrlLineOf(url), DateLineOf(time, zone)]
    requires Strip(url) == url && Lacks(url, UrlMarker)
    requires time != [] && !IsSpace(time[0]) && NoChar(time, '(')
    requires Lacks(" " + time + " (" + zone + ")", DateMarker)
    ensures GetFrozenMetadata(comment, SinglePage) == Ok(FrozenMetadata(url, Some(time + " ")))
  {
    var lines := Lines(comment);
    assert StartsWith(lines[0], SingleFileBanner) by {
      assert StartsWith(SingleFileBanner, SingleFileBanner);
    }
    assert UrlField(lines[1]) == Ok(url) by { UrlLine(url); }
    assert RawTimeField(lines[2]) == Ok(time + " ") by { DateLine(time, zone); }
    ParsedLines(comment, url, time + " ");
  }

  /**
   * Reading back a banner/url/date header recovers the url exactly, and the time
   * text with the space that stood before "(" still attached.
   */
  lemma HeaderRoundTrip(url: string, time: string, zone: string)
    requires NoChar(url, '\n') && NoChar(time, '\n') && NoChar(zone, '\n')
    requires Strip(url) == url && Lacks(url, UrlMarker)
    requires time != [] && !IsSpace(time[0]) && NoChar(time, '(')
    requires Lacks(" " + time + " (" + zone + ")", DateMarker)
    ensures GetFrozenMetadata(BannerUrlDateHeader(url, time, zone), SinglePage)
            == Ok(FrozenMetadata(url, Some(time + " ")))
  {
    HeaderLines(url, time, zone);
    HeaderLinesParse(BannerUrlDateHeader(url, time, zone), url, time, zone);
  }

  /** A banner line followed by a url line splits into those two lines. */
  lemma BannerThenUrlLines(urlLine: string)
    requires NoChar(urlLine, '\n') && Strip(urlLine) == urlLine && urlLine != []
    ensures Lines(SingleFileBanner + "\n" + urlLine) == [SingleFileBanner, urlLine]
  {
    var h := SingleFileBanner + "\n" + urlLine;
    assert NoChar(SingleFileBanner, '\n');
    assert h[0] == 'P' && h[|h| - 1] == urlLine[|urlLine| - 1];
    StripTrimmed(h);
    SplitTwo(SingleFileBanner, urlLine, '\n');
  }

  /** A header without its date line fails the line-count assertion. */
  lemma MissingDateLine(urlLine: string)
    requires NoChar(urlLine, '\n') && Strip(urlLine) == urlLine && urlLine != []
    ensures GetFrozenMetadata(SingleFileBanner + "\n" + urlLine, SinglePage) == Err(WrongLineCount)
  {
    BannerThenUrlLines(urlLine);
    assert StartsWith(SingleFileBanner, SingleFileBanner);
  }
}

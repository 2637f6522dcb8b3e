/**
 The album page generator: every album row is validated in one pass
 (required fields, rating range, non-increasing ratings, video-link prefix
 and uniqueness), rendered as one `<li>` fragment, and the fragments are
 substituted for the single placeholder of the page template.
 */
module CreateHtml {
  import opened Wrappers
  import opened PyStr
  import opened PyFloat

  /** Every video link must start with the long YouTube watch URL ... */
  const YT_PREFIX: string := "https://www.youtube.com/watch?v="

  /** ... and the page links to the short form instead. The list-item
      template, as the literal text around its five fields
      (youtube, artist, album, rating, genre): */
  const LI_TEMPLATE: seq<string> := [
    "<li><a href=\"https://youtu.be/",
    "\" class=\"YT\"></a><b>",
    "</b> - <i>",
    "</i><span class=\"rating\">",
    "/5</span><span class=\"genre\">",
    "</span></li>"
  ]

  /** The token of the page template that the album list replaces. */
  const PLACEHOLDER: string := "<!--PLACEHOLDER_ALBUM_LIST-->"

  /** Ratings lie in [MIN_RATING, MAX_RATING]; MAX_RATING is also the
      "previous rating" the first row is compared with. */
  const MIN_RATING: real := 1.0
  const MAX_RATING: real := 5.0

  /** One album row, as the five raw (untrimmed) column values. */
  datatype Row = Row(artist: string, album: string, rating: string, youtube: string, genre: string)

  /** The outcome of the validation pass: the rendered fragments, or the
      first row that failed a check (the run stops there). */
  datatype Validation = Accepted(fragments: seq<string>) | Rejected(index: nat, row: Row)

  /** The outcome of a whole run. Only `Written` carries a document: a
      rejected run writes nothing. */
  datatype Outcome =
    | RowRejected(index: nat, row: Row)
    | PlaceholderCount(count: nat)
    | Written(document: string)

  // ---------------------------------------------------------------------
  // Rendering one row

  /** The trimmed video link, used for uniqueness and rendering. */
  function Link(row: Row): (r: string)
  {
    Strip(row.youtube)
  }

  /** The video id: the trimmed link without the long prefix. */
  function VideoId(row: Row): (r: string)
  {
    RemovePrefix(Link(row), YT_PREFIX)
  }

  /** The field values of one row, in the order of the template's fields. */
  function Fields(row: Row): (r: seq<string>)
  {
    [VideoId(row), Strip(row.artist), Strip(row.album), Strip(row.rating), Strip(row.genre)]
  }

  /** The list item for one row; field values are inserted verbatim, without escaping. */
  function Render(row: Row): (r: string)
  {
    Format(LI_TEMPLATE, Fields(row))
  }

  /** The fragments of all rows, in input order. */
  function RenderAll(rows: seq<Row>): (fragments: seq<string>)
    ensures |fragments| == |rows|
    ensures forall k :: 0 <= k < |rows| ==> fragments[k] == Render(rows[k])
  {
    if rows == [] then [] else [Render(rows[0])] + RenderAll(rows[1..])
  }

  /** The short link of a fragment, put back behind the long prefix, is the
      trimmed link of its row: the id after "https://youtu.be/" is exactly
      the trimmed link with the prefix removed. */
  lemma LinkRoundTrip(row: Row)
    requires StartsWith(row.youtube, YT_PREFIX)
    ensures StartsWith(Render(row), LI_TEMPLATE[0])
    ensures |YT_PREFIX| <= |Link(row)|
    ensures YT_PREFIX + Render(row)[|LI_TEMPLATE[0]|..|LI_TEMPLATE[0]| + |Link(row)| - |YT_PREFIX|] == Link(row)
  {
    StripKeepsPrefix(row.youtube, YT_PREFIX);
    var id := VideoId(row);
    assert YT_PREFIX + id == Link(row);
    var open := LI_TEMPLATE[0];
    var rest := Format(LI_TEMPLATE[1..], Fields(row)[1..]);
    var f := Render(row);
    assert f == open + id + rest;
    assert f[..|open|] == open;
    assert f[|open|..|open| + |id|] == id;
  }

  /** A fragment shows the trimmed artist in bold. */
  lemma RenderShowsArtist(row: Row)
    ensures Contains(Render(row), "<b>" + Strip(row.artist) + "</b>")
  {
    FormatFieldAround(LI_TEMPLATE, Fields(row), 1, "<b>", "</b>");
  }

  /** A fragment shows the trimmed album in italics. */
  lemma RenderShowsAlbum(row: Row)
    ensures Contains(Render(row), "<i>" + Strip(row.album) + "</i>")
  {
    FormatFieldAround(LI_TEMPLATE, Fields(row), 2, "<i>", "</i>");
  }

  /** A fragment shows the trimmed rating text, as written in the row, followed by "/5". */
  lemma RenderShowsRating(row: Row)
    ensures Contains(Render(row), Strip(row.rating) + "/5")
  {
    FormatFieldAround(LI_TEMPLATE, Fields(row), 3, "", "/5");
    assert "" + Strip(row.rating) + "/5" == Strip(row.rating) + "/5";
  }

  /** A fragment shows the trimmed genre in its own span. */
  lemma RenderShowsGenre(row: Row)
    ensures Contains(Render(row), "<span class=\"genre\">" + Strip(row.genre) + "</span>")
  {
    FormatFieldAround(LI_TEMPLATE, Fields(row), 4, "<span class=\"genre\">", "</span>");
  }

  /** The video id has no line break unless the trimmed link has one. */
  lemma VideoIdSingleLine(row: Row)
    requires '\n' !in Link(row)
    ensures '\n' !in VideoId(row)
  {
    var id := VideoId(row);
    if StartsWith(Link(row), YT_PREFIX) {
      assert id == Link(row)[|YT_PREFIX|..];
      forall k | 0 <= k < |id| ensures id[k] != '\n' {
        assert id[k] == Link(row)[k + |YT_PREFIX|];
      }
    }
  }

  /** The literal text of the list-item template has no line break. */
  lemma TemplateSingleLine()
    ensures |LI_TEMPLATE| == 6
    ensures forall k :: 0 <= k < |LI_TEMPLATE| ==> '\n' !in LI_TEMPLATE[k]
  {
  }

  /** No trimmed field of the row holds a line break. */
  predicate SingleLineFields(row: Row)
  {
    && '\n' !in Strip(row.artist) && '\n' !in Strip(row.album) && '\n' !in Strip(row.rating)
    && '\n' !in Strip(row.genre) && '\n' !in Strip(row.youtube)
  }

  /** No trimmed field of any row holds a line break. */
  predicate SingleLineRows(rows: seq<Row>)
  {
    forall k :: 0 <= k < |rows| ==> SingleLineFields(rows[k])
  }

  /** A fragment has no line break unless one of its trimmed fields has one. */
  lemma RenderSingleLine(row: Row)
    requires SingleLineFields(row)
    ensures '\n' !in Render(row)
  {
    var v := Fields(row);
    assert forall k :: 0 <= k < |v| ==> '\n' !in v[k] by {
      VideoIdSingleLine(row);
    }
    TemplateSingleLine();
    FormatSingleLine(LI_TEMPLATE, v);
  }

  // ---------------------------------------------------------------------
  // Validating rows

  /** The checks on one row alone: artist, album and rating non-empty after
      trimming; the trimmed rating parses to a number in [1, 5]; genre and
      link non-empty after trimming; the untrimmed link has the long prefix. */
  predicate FieldsOk(row: Row)
  {
    && Strip(row.artist) != ""
    && Strip(row.album) != ""
    && Strip(row.rating) != ""
    && ParseFloat(Strip(row.rating)).Some?
    && MIN_RATING <= ParseFloat(Strip(row.rating)).value <= MAX_RATING
    && Strip(row.genre) != ""
    && Strip(row.youtube) != ""
    && StartsWith(row.youtube, YT_PREFIX)
  }

  /** The rating of a row that passed its field checks. */
  function Rating(row: Row): (r: real)
    requires FieldsOk(row)
    ensures MIN_RATING <= r <= MAX_RATING
  {
    ParseFloat(Strip(row.rating)).value
  }

  /** All checks on a row, given the previous rating and the links seen so far.
      The source makes the ordering check right after the range check; the
      order is not observable, since any failing check rejects the same row. */
  predicate Admissible(row: Row, prev: real, seen: set<string>)
  {
    FieldsOk(row) && Rating(row) <= prev && Link(row) !in seen
  }

  /** A whole album list is valid: every row passes its field checks, each
      rating is at most the one before it, and no two trimmed links are equal. */
  predicate ValidAlbums(rows: seq<Row>)
  {
    && (forall k :: 0 <= k < |rows| ==> FieldsOk(rows[k]))
    && (forall k :: 0 < k < |rows| ==> Rating(rows[k]) <= Rating(rows[k - 1]))
    && DistinctLinks(rows)
  }

  /** No two rows have the same trimmed link. */
  predicate DistinctLinks(rows: seq<Row>)
  {
    forall i, j :: 0 <= i < j < |rows| ==> Link(rows[i]) != Link(rows[j])
  }

  /** Row `i` is the first one that makes the list invalid. */
  predicate FirstOffender(rows: seq<Row>, i: nat)
  {
    i < |rows| && ValidAlbums(rows[..i]) && !ValidAlbums(rows[..i + 1])
  }

  /** The rating the next row is compared with after `rows`. */
  function LastRating(rows: seq<Row>): real
    requires forall k :: 0 <= k < |rows| ==> FieldsOk(rows[k])
  {
    if rows == [] then MAX_RATING else Rating(rows[|rows| - 1])
  }

  /** The trimmed links of `rows`. */
  function Links(rows: seq<Row>): set<string>
  {
    set k | 0 <= k < |rows| :: Link(rows[k])
  }

  /** A shorter prefix of a valid prefix is valid. */
  lemma ValidShorterPrefix(rows: seq<Row>, m: nat, n: nat)
    requires m <= n <= |rows| && ValidAlbums(rows[..n])
    ensures ValidAlbums(rows[..m])
  {
    ValidPrefix(rows[..n], m);
    assert rows[..n][..m] == rows[..m];
  }

  /** One more row adds its trimmed link to the seen-set. */
  lemma LinksAppend(rows: seq<Row>, row: Row)
    ensures Links(rows + [row]) == Links(rows) + {Link(row)}
  {
    var ext := rows + [row];
    assert ext[|rows|] == row;
    assert forall k :: 0 <= k < |rows| ==> ext[k] == rows[k];
    assert forall x :: x in Links(ext) ==> x in Links(rows) + {Link(row)};
  }

  /** Every prefix of a valid list is valid. */
  lemma ValidPrefix(rows: seq<Row>, n: nat)
    requires ValidAlbums(rows) && n <= |rows|
    ensures ValidAlbums(rows[..n])
  {
    var p := rows[..n];
    assert forall k :: 0 <= k < n ==> p[k] == rows[k];
  }

  /** A row that extends a valid list passes the checks of the pass. */
  lemma {:induction false} ExtendValidNecessary(rows: seq<Row>, row: Row)
    requires ValidAlbums(rows) && ValidAlbums(rows + [row])
    ensures Admissible(row, LastRating(rows), Links(rows))
  {
    var ext := rows + [row];
    var n := |rows|;
    assert ext[n] == row;
    assert forall k :: 0 <= k < n ==> ext[k] == rows[k];
    assert FieldsOk(row);
    if n > 0 {
      assert ext[n - 1] == rows[n - 1];
      assert Rating(ext[n]) <= Rating(ext[n - 1]);
    }
    if Link(row) in Links(rows) {
      assert false;
    }
  }

  /** A row that passes the checks of the pass extends a valid list to a valid list. */
  lemma {:induction false} ExtendValidSufficient(rows: seq<Row>, row: Row)
    requires ValidAlbums(rows) && Admissible(row, LastRating(rows), Links(rows))
    ensures ValidAlbums(rows + [row])
  {
    var ext := rows + [row];
    var n := |rows|;
    assert ext[n] == row;
    assert forall k :: 0 <= k < n ==> ext[k] == rows[k];
    assert forall k :: 0 <= k < |ext| ==> FieldsOk(ext[k]);
    ExtendOrdered(rows, row);
    ExtendDistinct(rows, row);
  }

  /** The ordering part of `ExtendValidSufficient`. */
  lemma ExtendOrdered(rows: seq<Row>, row: Row)
    requires forall k :: 0 <= k < |rows| ==> FieldsOk(rows[k])
    requires forall k :: 0 < k < |rows| ==> Rating(rows[k]) <= Rating(rows[k - 1])
    requires FieldsOk(row) && Rating(row) <= LastRating(rows)
    ensures forall k :: 0 <= k < |rows + [row]| ==> FieldsOk((rows + [row])[k])
    ensures forall k :: 0 < k < |rows + [row]| ==> Rating((rows + [row])[k]) <= Rating((rows + [row])[k - 1])
  {
    var ext := rows + [row];
    var n := |rows|;
    assert ext[n] == row;
    assert forall k :: 0 <= k < n ==> ext[k] == rows[k];
  }

  /** The uniqueness part of `ExtendValidSufficient`. */
  lemma ExtendDistinct(rows: seq<Row>, row: Row)
    requires DistinctLinks(rows) && Link(row) !in Links(rows)
    ensures DistinctLinks(rows + [row])
  {
    var ext := rows + [row];
    var n := |rows|;
    assert ext[n] == row;
    forall i, j | 0 <= i < j < |ext| ensures Link(ext[i]) != Link(ext[j]) {
      assert ext[i] == rows[i] || i == n;
      if j == n {
        assert Link(rows[i]) in Links(rows);
      } else {
        assert ext[j] == rows[j];
      }
    }
  }

  /** One step of the validation pass: a valid list stays valid after one
      more row exactly when that row passes the checks against the last
      rating and the links seen so far. */
  lemma ExtendValid(rows: seq<Row>, row: Row)
    requires ValidAlbums(rows)
    ensures ValidAlbums(rows + [row]) <==> Admissible(row, LastRating(rows), Links(rows))
  {
    if ValidAlbums(rows + [row]) {
      ExtendValidNecessary(rows, row);
    }
    if Admissible(row, LastRating(rows), Links(rows)) {
      ExtendValidSufficient(rows, row);
    }
  }

  /** The first offending row is unique: it is the row where validation stops. */
  lemma FirstOffenderUnique(rows: seq<Row>, i: nat, j: nat)
    requires FirstOffender(rows, i) && FirstOffender(rows, j)
    ensures i == j
  {
    if i < j {
      ValidShorterPrefix(rows, i + 1, j);
    } else if j < i {
      ValidShorterPrefix(rows, j + 1, i);
    }
  }

  /** The first offending row fails one of the checks of the pass. */
  lemma FirstOffenderFails(rows: seq<Row>, i: nat)
    requires FirstOffender(rows, i)
    ensures !Admissible(rows[i], LastRating(rows[..i]), Links(rows[..i]))
  {
    assert rows[..i + 1] == rows[..i] + [rows[i]];
    if Admissible(rows[i], LastRating(rows[..i]), Links(rows[..i])) {
      ExtendValidSufficient(rows[..i], rows[i]);
    }
  }

  /** An invalid list has a first offending row. */
  lemma {:induction false} FirstOffenderExists(rows: seq<Row>) returns (i: nat)
    requires !ValidAlbums(rows)
    ensures FirstOffender(rows, i)
    decreases |rows|
  {
    assert rows != [];
    var n := |rows| - 1;
    assert rows[..n + 1] == rows;
    if ValidAlbums(rows[..n]) {
      i := n;
    } else {
      i := FirstOffenderExists(rows[..n]);
      assert rows[..n][..i] == rows[..i];
      assert rows[..n][..i + 1] == rows[..i + 1];
    }
  }

  /** In a valid list every rating is in [1, 5] and ratings never increase:
      a later row's rating is at most an earlier row's (equal is allowed). */
  lemma {:induction false} RatingsNonIncreasing(rows: seq<Row>, i: nat, j: nat)
    requires ValidAlbums(rows) && i <= j < |rows|
    ensures MIN_RATING <= Rating(rows[j]) <= Rating(rows[i]) <= MAX_RATING
    decreases j - i
  {
    if i < j {
      RatingsNonIncreasing(rows, i, j - 1);
    }
  }

  /** With distinct links, the seen-set holds one trimmed link per row. */
  lemma {:induction false} LinksDistinct(rows: seq<Row>)
    requires DistinctLinks(rows)
    ensures |Links(rows)| == |rows|
    decreases |rows|
  {
    if rows != [] {
      var n := |rows| - 1;
      var init := rows[..n];
      assert forall k :: 0 <= k < n ==> init[k] == rows[k];
      LinksDistinct(init);
      assert rows == init + [rows[n]];
      LinksAppend(init, rows[n]);
      assert Link(rows[n]) !in Links(init);
    }
  }

  /** The fragments of one more row are the fragments so far plus its own. */
  lemma RenderAllAppend(rows: seq<Row>, row: Row)
    ensures RenderAll(rows + [row]) == RenderAll(rows) + [Render(row)]
  {
    var ext := rows + [row];
    assert ext[|rows|] == row;
    assert forall k :: 0 <= k < |rows| ==> ext[k] == rows[k];
  }

  /** A row of a valid prefix that passes the checks extends the valid
      prefix by one, with its rating as the new previous rating and its link
      added to the seen-set. */
  lemma AcceptRow(rows: seq<Row>, i: nat)
    requires i < |rows| && ValidAlbums(rows[..i])
    requires Admissible(rows[i], LastRating(rows[..i]), Links(rows[..i]))
    ensures ValidAlbums(rows[..i + 1])
    ensures LastRating(rows[..i + 1]) == Rating(rows[i])
    ensures Links(rows[..i + 1]) == Links(rows[..i]) + {Link(rows[i])}
    ensures RenderAll(rows[..i + 1]) == RenderAll(rows[..i]) + [Render(rows[i])]
  {
    assert rows[..i + 1] == rows[..i] + [rows[i]];
    ExtendValidSufficient(rows[..i], rows[i]);
    LinksAppend(rows[..i], rows[i]);
    RenderAllAppend(rows[..i], rows[i]);
  }

  /** A row of a valid prefix that fails the checks is the first offender,
      and the whole list is invalid. */
  lemma RejectRow(rows: seq<Row>, i: nat)
    requires i < |rows| && ValidAlbums(rows[..i])
    requires !Admissible(rows[i], LastRating(rows[..i]), Links(rows[..i]))
    ensures FirstOffender(rows, i) && !ValidAlbums(rows)
  {
    assert rows[..i + 1] == rows[..i] + [rows[i]];
    ExtendValid(rows[..i], rows[i]);
    if ValidAlbums(rows) {
      ValidPrefix(rows, i + 1);
    }
  }

  /** The validation pass: rows are checked in order against the previous
      rating and the set of links seen so far; the first failing row stops
      the pass, otherwise every row contributes its fragment. */
  method ValidateAlbums(rows: seq<Row>) returns (v: Validation)
    ensures v.Accepted? <==> ValidAlbums(rows)
    ensures v.Accepted? ==> v.fragments == RenderAll(rows)
    ensures v.Rejected? ==> FirstOffender(rows, v.index) && v.row == rows[v.index]
  {
    var htmlAlbums: seq<string> := [];
    var allYoutubes: set<string> := {};
    var prevRating := MAX_RATING;
    var i := 0;
    while i < |rows|
      invariant 0 <= i <= |rows|
      invariant ValidAlbums(rows[..i])
      invariant allYoutubes == Links(rows[..i])
      invariant prevRating == LastRating(rows[..i])
      invariant htmlAlbums == RenderAll(rows[..i])
    {
      var row := rows[i];
      if !Admissible(row, prevRating, allYoutubes) {
        RejectRow(rows, i);
        return Rejected(i, row);
      }
      AcceptRow(rows, i);
      allYoutubes := allYoutubes + {Link(row)};
      prevRating := Rating(row);
      htmlAlbums := htmlAlbums + [Render(row)];
      i := i + 1;
    }
    assert rows[..i] == rows;
    return Accepted(htmlAlbums);
  }

  // ---------------------------------------------------------------------
  // Composing the page

  /** The template with its single placeholder replaced by the fragments,
      one per line; `None` when the placeholder does not occur exactly once.
      Everything before and after the placeholder is kept verbatim. */
  function Compose(template: string, fragments: seq<string>): (page: Option<string>)
    ensures page.Some? <==> Count(template, PLACEHOLDER) == 1
    ensures page.Some? ==> Find(template, PLACEHOLDER).Some?
    ensures page.Some? ==>
      var k := Find(template, PLACEHOLDER).value;
      && template == template[..k] + PLACEHOLDER + template[k + |PLACEHOLDER|..]
      && Count(template[..k], PLACEHOLDER) == 0
      && Count(template[k + |PLACEHOLDER|..], PLACEHOLDER) == 0
      && page.value == template[..k] + Join("\n", fragments) + template[k + |PLACEHOLDER|..]
  {
    if Count(template, PLACEHOLDER) == 1 then
      SingleOccurrence(template, PLACEHOLDER, Join("\n", fragments));
      Some(Replace(template, PLACEHOLDER, Join("\n", fragments)))
    else
      None
  }

  /** No fragment has a line break when no trimmed field of any row has one. */
  lemma FragmentsSingleLine(rows: seq<Row>)
    requires SingleLineRows(rows)
    ensures NoneContains(RenderAll(rows), '\n')
  {
    forall k | 0 <= k < |rows| ensures '\n' !in Render(rows[k]) {
      RenderSingleLine(rows[k]);
    }
  }

  /** The album list substituted into the page splits back, line by line,
      into exactly the fragments of the rows in input order, provided no
      trimmed field holds a line break. */
  lemma AlbumListSplitsIntoFragments(rows: seq<Row>)
    requires rows != []
    requires SingleLineRows(rows)
    ensures Split(Join("\n", RenderAll(rows)), '\n') == RenderAll(rows)
  {
    FragmentsSingleLine(rows);
    SplitJoin(RenderAll(rows), '\n');
  }

  /** A whole run: validate and render the rows, check the placeholder, and
      pass the composed page through the minifier. A rejected row stops the
      run before the template is looked at. */
  method BuildIndex(rows: seq<Row>, template: string, minify: string -> string) returns (outcome: Outcome)
    ensures outcome.RowRejected? <==> !ValidAlbums(rows)
    ensures outcome.RowRejected? ==> FirstOffender(rows, outcome.index) && outcome.row == rows[outcome.index]
    ensures outcome.PlaceholderCount? <==> ValidAlbums(rows) && Count(template, PLACEHOLDER) != 1
    ensures outcome.PlaceholderCount? ==> outcome.count == Count(template, PLACEHOLDER)
    ensures outcome.Written? <==> ValidAlbums(rows) && Count(template, PLACEHOLDER) == 1
    ensures outcome.Written? ==>
      && Compose(template, RenderAll(rows)).Some?
      && outcome.document == minify(Compose(template, RenderAll(rows)).value)
  {
    var v := ValidateAlbums(rows);
    if v.Rejected? {
      return RowRejected(v.index, v.row);
    }
    var count := Count(template, PLACEHOLDER);
    if count != 1 {
      return PlaceholderCount(count);
    }
    var page := Replace(template, PLACEHOLDER, Join("\n", v.fragments));
    return Written(minify(page));
  }
}

/**
 Worked examples of the validation pass on two concrete album rows: their
 fields as rendered into the list items, acceptance of a list in descending
 rating order and of an equal rating, and rejection of the second row when
 its rating is above five.
 */
module AlbumExamples {
  import opened Wrappers
  import opened PyStr
  import opened PyFloat
  import opened CreateHtml

  const RADIOHEAD: Row := Row("Radiohead", "OK Computer", "5", "https://www.youtube.com/watch?v=abc123", "Rock")

  /** The second example row, with its rating text as a parameter. */
  function Air(rating: string): Row
  {
    Row("Air", "Moon Safari", rating, "https://www.youtube.com/watch?v=def456", "Electronic")
  }

  /** `s` is non-empty and has no white space at either end. */
  predicate Trimmed(s: string)
  {
    s != [] && !IsSpace(s[0]) && !IsSpace(s[|s| - 1])
  }

  /** A row whose fields need no trimming, whose link has the long prefix and
      whose rating is one digit: its fields are its own values with the prefix
      removed from the link, and it passes its field checks exactly when the
      digit is between 1 and 5, which is then its rating. */
  lemma OneDigitRow(row: Row)
    requires Trimmed(row.artist) && Trimmed(row.album) && Trimmed(row.genre) && Trimmed(row.youtube)
    requires |row.rating| == 1 && IsDigit(row.rating[0])
    requires StartsWith(row.youtube, YT_PREFIX)
    ensures Link(row) == row.youtube
    ensures Fields(row) == [row.youtube[|YT_PREFIX|..], row.artist, row.album, row.rating, row.genre]
    ensures FieldsOk(row) <==> 1 <= DigitValue(row.rating[0]) <= 5
    ensures FieldsOk(row) ==> Rating(row) == DigitValue(row.rating[0]) as real
  {
    StripUnchanged(row.artist);
    StripUnchanged(row.album);
    StripUnchanged(row.genre);
    StripUnchanged(row.youtube);
    StripUnchanged(row.rating);
    ParseDigits(row.rating);
    var d := row.rating;
    assert d[1..] == [];
    assert DigitsValue(d) == Accumulate(DigitValue(d[0]), d[1..]);
  }

  /** The example links have the long prefix and differ in their last character. */
  lemma ExampleLinks(rating: string)
    ensures StartsWith(RADIOHEAD.youtube, YT_PREFIX) && StartsWith(Air(rating).youtube, YT_PREFIX)
    ensures RADIOHEAD.youtube != Air(rating).youtube
  {
    var a := Air(rating).youtube;
    assert a[|a| - 1] != RADIOHEAD.youtube[|RADIOHEAD.youtube| - 1];
  }

  /** The fields of the first example row are already trimmed and pass their checks. */
  lemma RadioheadFields()
    ensures Fields(RADIOHEAD) == ["abc123", "Radiohead", "OK Computer", "5", "Rock"]
    ensures FieldsOk(RADIOHEAD) && Rating(RADIOHEAD) == 5.0
    ensures Link(RADIOHEAD) == RADIOHEAD.youtube
  {
    ExampleLinks("5");
    OneDigitRow(RADIOHEAD);
  }

  /** The fields of the second example row, with a one-digit rating text `rating`. */
  lemma AirFields(rating: string)
    requires |rating| == 1 && IsDigit(rating[0])
    ensures Fields(Air(rating)) == ["def456", "Air", "Moon Safari", rating, "Electronic"]
  {
    ExampleLinks(rating);
    OneDigitRow(Air(rating));
  }

  /** The second example row passes its field checks exactly when its
      one-digit rating is between 1 and 5, and its link differs from the
      first row's. */
  lemma AirChecks(rating: string)
    requires |rating| == 1 && IsDigit(rating[0])
    ensures FieldsOk(Air(rating)) <==> 1 <= DigitValue(rating[0]) <= 5
    ensures FieldsOk(Air(rating)) ==> Rating(Air(rating)) == DigitValue(rating[0]) as real
    ensures Link(Air(rating)) != Link(RADIOHEAD)
  {
    ExampleLinks(rating);
    OneDigitRow(Air(rating));
    RadioheadFields();
  }

  /** The two-row form of `ExtendValidSufficient`. */
  lemma ExtendPair(first: Row, second: Row)
    requires ValidAlbums([first])
    requires Admissible(second, LastRating([first]), Links([first]))
    ensures ValidAlbums([first, second])
  {
    ExtendValidSufficient([first], second);
    assert [first] + [second] == [first, second];
  }

  /** A one-row list holding the first example row is valid. */
  lemma RadioheadValid()
    ensures ValidAlbums([RADIOHEAD]) && LastRating([RADIOHEAD]) == 5.0
    ensures Links([RADIOHEAD]) == {Link(RADIOHEAD)}
  {
    RadioheadFields();
    assert [] + [RADIOHEAD] == [RADIOHEAD];
    ExtendValidSufficient([], RADIOHEAD);
    LinksAppend([], RADIOHEAD);
  }

  /** With rating "4" or "5", the second row passes every check after the first row. */
  lemma AirAdmissible(rating: string)
    requires rating == "4" || rating == "5"
    ensures Admissible(Air(rating), 5.0, {Link(RADIOHEAD)})
  {
    AirChecks(rating);
  }

  /** The second row is accepted after the first when its rating is "4" or an equal "5". */
  lemma ExampleAccepted(rating: string)
    requires rating == "4" || rating == "5"
    ensures ValidAlbums([RADIOHEAD, Air(rating)])
  {
    RadioheadValid();
    AirAdmissible(rating);
    ExtendPair(RADIOHEAD, Air(rating));
  }

  /** A rating of "6" on the second row is out of range: the pass stops at that row. */
  lemma ExampleOutOfRange()
    ensures FirstOffender([RADIOHEAD, Air("6")], 1)
    ensures !ValidAlbums([RADIOHEAD, Air("6")])
  {
    var rows := [RADIOHEAD, Air("6")];
    RadioheadValid();
    AirChecks("6");
    assert rows[..1] == [RADIOHEAD];
    RejectRow(rows, 1);
  }
}

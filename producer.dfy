/**
 The producer's row normaliser: each dataset row becomes one flat message,
 with the coordinates taken from a "POINT (lon lat)" location text.
 */
module Producer {
  import opened Wrappers
  import opened PyStr

  /** A dataset row, from column name to cell text. */
  type Row = map<string, string>

  /** The payload published for one row; a coordinate is `None` when it stays unset. */
  datatype Message = Message(
    offense: string,
    description: string,
    address: string,
    reportedDate: string,
    reportedTime: string,
    latitude: Option<real>,
    longitude: Option<real>)

  datatype Coordinates = Coordinates(latitude: Option<real>, longitude: Option<real>)

  /** `row.get(name, "")`. */
  function Column(row: Row, name: string): string {
    if name in row then row[name] else ""
  }

  /** `location.replace("POINT (", "").replace(")", "").strip()`. */
  function CoordinateText(location: string): string {
    Strip(RemoveAll(RemoveAll(location, "POINT ("), ")"))
  }

  /**
   The coordinates of a location text. `parseNum` stands for Python's
   `float()` on one token, `None` where it raises. The longitude is assigned
   before the latitude is parsed, so a failure on the second token leaves
   the longitude set.
   */
  function ParseLocation(location: string, parseNum: string -> Option<real>): (r: Coordinates)
    ensures r.latitude.Some? ==> r.longitude.Some?
    ensures !Contains(location, "POINT") ==> r == Coordinates(None, None)
  {
    if location == "" || !Contains(location, "POINT") then Coordinates(None, None)
    else
      var tokens := Split(CoordinateText(location));
      if |tokens| != 2 then Coordinates(None, None)
      else
        match parseNum(tokens[0])
        case None => Coordinates(None, None)
        case Some(lon) => Coordinates(parseNum(tokens[1]), Some(lon))
  }

  /** The message built for one row. */
  function ToMessage(row: Row, parseNum: string -> Option<real>): Message {
    var coordinates := ParseLocation(Column(row, "Location"), parseNum);
    Message(Column(row, "Offense"), Column(row, "Description"), Column(row, "Address"),
            Column(row, "Reported_Date"), Column(row, "Reported_Time"),
            coordinates.latitude, coordinates.longitude)
  }

  /**
   The body of `generate_messages` for one row: both coordinates start
   unset and are assigned step by step, as far as the parse gets.
   */
  method RowMessage(row: Row, parseNum: string -> Option<real>) returns (message: Message)
    ensures message == ToMessage(row, parseNum)
  {
    var latitude: Option<real> := None;
    var longitude: Option<real> := None;
    var location := Column(row, "Location");
    if location != "" && Contains(location, "POINT") {
      var tokens := Split(CoordinateText(location));
      if |tokens| == 2 {
        var lon := parseNum(tokens[0]);
        if lon.Some? {
          longitude := lon;
          latitude := parseNum(tokens[1]);
        }
      }
    }
    assert Coordinates(latitude, longitude) == ParseLocation(location, parseNum);
    message := Message(Column(row, "Offense"), Column(row, "Description"), Column(row, "Address"),
                       Column(row, "Reported_Date"), Column(row, "Reported_Time"),
                       latitude, longitude);
  }

  /** `generate_messages`: one message per row, in row order. */
  method GenerateMessages(rows: seq<Row>, parseNum: string -> Option<real>) returns (messages: seq<Message>)
    ensures Produced(rows, parseNum, messages)
  {
    messages := [];
    var n := 0;
    while n < |rows|
      invariant n <= |rows|
      invariant Produced(rows[..n], parseNum, messages)
    {
      var message := RowMessage(rows[n], parseNum);
      ProducedSnoc(rows[..n], parseNum, messages, rows[n], message);
      assert rows[..n + 1] == rows[..n] + [rows[n]];
      messages := messages + [message];
      n := n + 1;
    }
    assert rows[..n] == rows;
  }

  /** `messages` are the messages of `rows`, one per row and in the same order. */
  predicate Produced(rows: seq<Row>, parseNum: string -> Option<real>, messages: seq<Message>) {
    |messages| == |rows| && forall i :: 0 <= i < |rows| ==> messages[i] == ToMessage(rows[i], parseNum)
  }

  lemma ProducedSnoc(rows: seq<Row>, parseNum: string -> Option<real>, messages: seq<Message>, row: Row, message: Message)
    requires Produced(rows, parseNum, messages) && message == ToMessage(row, parseNum)
    ensures Produced(rows + [row], parseNum, messages + [message])
  {
    var rows', messages' := rows + [row], messages + [message];
    forall i | 0 <= i < |rows'|
      ensures messages'[i] == ToMessage(rows'[i], parseNum)
    {
      if i < |rows| {
        assert messages'[i] == messages[i] && rows'[i] == rows[i];
      }
    }
  }

  /* ---------- the fields of a message ---------- */

  /** Every textual field is its column's text, or "" when the row lacks that column. */
  lemma MissingColumnsAreEmpty(row: Row, parseNum: string -> Option<real>)
    ensures var m := ToMessage(row, parseNum);
      && ("Offense" !in row ==> m.offense == "")
      && ("Description" !in row ==> m.description == "")
      && ("Address" !in row ==> m.address == "")
      && ("Reported_Date" !in row ==> m.reportedDate == "")
      && ("Reported_Time" !in row ==> m.reportedTime == "")
      && ("Location" !in row ==> m.latitude == None && m.longitude == None)
  {
  }

  /* ---------- the location parse ---------- */

  /** A token of a well-formed point: non-empty, without whitespace or parentheses. */
  predicate PlainToken(t: string) {
    t != [] && NoSpace(t) && '(' !in t && ')' !in t
  }

  /** After the deletions and the strip, "POINT (a b)" leaves exactly the tokens `a` and `b`. */
  lemma PointTokens(location: string, a: string, b: string)
    requires PlainToken(a) && PlainToken(b)
    requires location == "POINT (" + (a + ([' '] + (b + ")")))
    ensures Contains(location, "POINT")
    ensures Split(CoordinateText(location)) == [a, b]
  {
    ContainsAt(location, "POINT", 0);
    var mid := a + ([' '] + b);
    var rest := mid + ")";
    assert rest == a + ([' '] + (b + ")"));
    RemoveAllLeading("POINT (", rest);
    assert '(' !in rest;
    AbsentChar(rest, "POINT (", '(');
    RemoveAllChangesIff(rest, "POINT (");
    assert ')' !in mid;
    RemoveAllTrailingChar(mid, ')');
    assert mid[0] == a[0] && mid[|mid| - 1] == b[|b| - 1];
    StripTrimmed(mid);
    SplitPair(a, ' ', b);
  }

  /** A well-formed point whose two tokens parse: the first is the longitude, the second the latitude. */
  lemma PointParses(location: string, a: string, b: string, parseNum: string -> Option<real>, lon: real, lat: real)
    requires PlainToken(a) && PlainToken(b)
    requires location == "POINT (" + (a + ([' '] + (b + ")")))
    requires parseNum(a) == Some(lon) && parseNum(b) == Some(lat)
    ensures ParseLocation(location, parseNum) == Coordinates(Some(lat), Some(lon))
  {
    PointTokens(location, a, b);
  }

  /** A well-formed point whose second token does not parse keeps its longitude and has no latitude. */
  lemma PointLatitudeFails(location: string, a: string, b: string, parseNum: string -> Option<real>, lon: real)
    requires PlainToken(a) && PlainToken(b)
    requires location == "POINT (" + (a + ([' '] + (b + ")")))
    requires parseNum(a) == Some(lon) && parseNum(b) == None
    ensures ParseLocation(location, parseNum) == Coordinates(None, Some(lon))
  {
    PointTokens(location, a, b);
  }

  /** A well-formed point whose first token does not parse has neither coordinate. */
  lemma PointLongitudeFails(location: string, a: string, b: string, parseNum: string -> Option<real>)
    requires PlainToken(a) && PlainToken(b)
    requires location == "POINT (" + (a + ([' '] + (b + ")")))
    requires parseNum(a) == None
    ensures ParseLocation(location, parseNum) == Coordinates(None, None)
  {
    PointTokens(location, a, b);
  }

  /** Anything but exactly two tokens leaves both coordinates unset. */
  lemma WrongTokenCount(location: string, parseNum: string -> Option<real>)
    requires |Split(CoordinateText(location))| != 2
    ensures ParseLocation(location, parseNum) == Coordinates(None, None)
  {
  }

  /** Whatever the parse does, a set longitude is the parse of the first of exactly two tokens. */
  lemma LongitudeIsFirstToken(location: string, parseNum: string -> Option<real>)
    requires ParseLocation(location, parseNum).longitude.Some?
    ensures var tokens := Split(CoordinateText(location));
      && Contains(location, "POINT")
      && |tokens| == 2
      && ParseLocation(location, parseNum).longitude == parseNum(tokens[0])
      && ParseLocation(location, parseNum).latitude == parseNum(tokens[1])
  {
  }

  /* ---------- a dataset row ---------- */

  /** The location text of a dataset row parses to its point, longitude first. */
  lemma KansasCityPoint(parseNum: string -> Option<real>)
    requires parseNum("-94.5785") == Some(-94.5785) && parseNum("39.0997") == Some(39.0997)
    ensures ParseLocation("POINT (-94.5785 39.0997)", parseNum) == Coordinates(Some(39.0997), Some(-94.5785))
  {
    var a, b := "-94.5785", "39.0997";
    assert PlainToken(a) && PlainToken(b);
    assert "POINT (-94.5785 39.0997)" == "POINT (" + (a + ([' '] + (b + ")")));
    PointParses("POINT (-94.5785 39.0997)", a, b, parseNum, -94.5785, 39.0997);
  }

  /** An aggravated assault row with a Kansas City location gives a message with both coordinates. */
  lemma AssaultRowMessage(row: Row, parseNum: string -> Option<real>)
    requires Column(row, "Offense") == "AGG ASSAULT" && Column(row, "Location") == "POINT (-94.5785 39.0997)"
    requires parseNum("-94.5785") == Some(-94.5785) && parseNum("39.0997") == Some(39.0997)
    ensures ToMessage(row, parseNum).offense == "AGG ASSAULT"
    ensures ToMessage(row, parseNum).latitude == Some(39.0997)
    ensures ToMessage(row, parseNum).longitude == Some(-94.5785)
  {
    KansasCityPoint(parseNum);
  }
}

/** The segment service: the settings it runs with, the name of a box's data
    directory, the extraction of trail segments from clustered GPS points,
    and the four-field line format of a segments file. */
module SegmentService {
  import opened Wrappers
  import opened Models
  import opened Text

  // ---------------------------------------------------------------------
  // Settings
  // ---------------------------------------------------------------------

  /** The extraction thresholds: the largest time gap between two points, in
      seconds; the largest distance between two cluster centres, in
      kilometres; and the number of clusters asked of k-means. */
  datatype Settings = Settings(timeDelta: real, distanceDelta: real, nClusters: int)

  const DefaultSettings: Settings := Settings(300.0, 0.1, 500)

  /** The keys a settings file holds; a key the file lacks is `None`. */
  datatype SettingsJson = SettingsJson(timeDelta: Option<real>, distanceDelta: Option<real>, nClusters: Option<int>)

  /** A settings file that exists: either it parses, or reading or parsing it
      raises. */
  datatype SettingsFile = Unreadable | Parsed(json: SettingsJson)

  /** `load_settings`: the file in the backend directory if there is one,
      otherwise the one in the skeleton directory. Each key the file holds
      overrides its default; no file, or one that raises, gives the defaults. */
  function LoadSettings(backend: Option<SettingsFile>, skeleton: Option<SettingsFile>): (s: Settings)
    ensures backend.None? && skeleton.None? ==> s == DefaultSettings
    ensures var file := if backend.Some? then backend else skeleton;
      && (file == Some(Unreadable) ==> s == DefaultSettings)
      && (file.Some? && file.value.Parsed? ==>
            var j := file.value.json;
            && s.timeDelta == (if j.timeDelta.Some? then j.timeDelta.value else DefaultSettings.timeDelta)
            && s.distanceDelta == (if j.distanceDelta.Some? then j.distanceDelta.value else DefaultSettings.distanceDelta)
            && s.nClusters == (if j.nClusters.Some? then j.nClusters.value else DefaultSettings.nClusters))
  {
    var file := if backend.Some? then backend else skeleton;
    match file
    case None => DefaultSettings
    case Some(Unreadable) => DefaultSettings
    case Some(Parsed(j)) =>
      Settings(j.timeDelta.GetOr(DefaultSettings.timeDelta),
               j.distanceDelta.GetOr(DefaultSettings.distanceDelta),
               j.nClusters.GetOr(DefaultSettings.nClusters))
  }

  /** A file holding all three keys sets exactly those values, and a file
      holding none of them gives the defaults. */
  lemma {:induction false} SettingsFromFile(j: SettingsJson, skeleton: Option<SettingsFile>)
    ensures j.timeDelta.Some? && j.distanceDelta.Some? && j.nClusters.Some? ==>
      LoadSettings(Some(Parsed(j)), skeleton) == Settings(j.timeDelta.value, j.distanceDelta.value, j.nClusters.value)
    ensures j == SettingsJson(None, None, None) ==> LoadSettings(Some(Parsed(j)), skeleton) == DefaultSettings
  {
    var s := LoadSettings(Some(Parsed(j)), skeleton);
    assert s.timeDelta == j.timeDelta.GetOr(300.0);
  }

  /** Only one file is read: a backend file hides the skeleton one, and
      without a backend file the skeleton file is read as if it were the
      backend one. */
  lemma SettingsFileChoice(backend: SettingsFile, skeleton: Option<SettingsFile>, other: Option<SettingsFile>)
    ensures LoadSettings(Some(backend), skeleton) == LoadSettings(Some(backend), other)
    ensures LoadSettings(None, skeleton) == LoadSettings(skeleton, None)
  {
  }

  /** A file that raises and a file holding none of the keys both act as no
      file at all. */
  lemma SettingsWithoutKeys(skeleton: Option<SettingsFile>)
    ensures LoadSettings(Some(Unreadable), skeleton) == LoadSettings(None, None)
    ensures LoadSettings(Some(Parsed(SettingsJson(None, None, None))), skeleton) == LoadSettings(None, None)
  {
  }

  // ---------------------------------------------------------------------
  // Numbers as text
  // ---------------------------------------------------------------------

  /** Python's `str` of a float and `float` of a string (`None` where it
      raises), and which reals a Python float holds exactly; inputs of the
      model. Every coordinate the program formats is a float. */
  datatype NumberFormat = NumberFormat(show: real -> string, parse: string -> Option<real>, isFloat: real -> bool)

  /** A character Python's float formatting may produce next to the
      separators used here. */
  predicate Plain(c: char)
  {
    !IsSpace(c) && c != ',' && c != '_'
  }

  /** What the model assumes of float formatting: parsing the text of a
      float gives the float back, and the text is non-empty and free of
      whitespace, commas and underscores. Python's `repr`-style `str` of a
      float has this property. */
  ghost predicate IsFaithful(f: NumberFormat)
  {
    forall x :: f.isFloat(x) ==>
      f.parse(f.show(x)) == Some(x) && f.show(x) != [] && (forall i :: 0 <= i < |f.show(x)| ==> Plain(f.show(x)[i]))
  }

  /** Both coordinates of `c` are floats. */
  predicate CoordIsFloat(f: NumberFormat, c: Coord)
  {
    f.isFloat(c.lat) && f.isFloat(c.lon)
  }

  predicate SegmentIsFloat(f: NumberFormat, s: Segment)
  {
    CoordIsFloat(f, s.start) && CoordIsFloat(f, s.end)
  }

  predicate BoxIsFloat(f: NumberFormat, box: Box)
  {
    CoordIsFloat(f, box.bottomLeft) && CoordIsFloat(f, box.topRight)
  }

  /** The integers written in decimal, a minus sign before a negative one. */
  function ShowInteger(x: real): string
  {
    if x < 0.0 then "-" + Digits(-x.Floor) else Digits(x.Floor)
  }

  function ReadInteger(t: string): Option<real>
  {
    if t != [] && t[0] == '-' then
      match ReadDigits(t[1..])
      case None => None
      case Some(n) => Some(-(n as real))
    else
      match ReadDigits(t)
      case None => None
      case Some(n) => Some(n as real)
  }

  predicate IsInteger(x: real)
  {
    x == x.Floor as real
  }

  /** A number format that writes the integers exactly. */
  const IntegerFormat: NumberFormat := NumberFormat(ShowInteger, ReadInteger, IsInteger)

  /** Faithfulness can be met: the integer format has it, and it counts
      exactly the integers as floats. */
  lemma IntegerFormatIsFaithful()
    ensures IsFaithful(IntegerFormat)
    ensures forall x :: IntegerFormat.isFloat(x) <==> x == x.Floor as real
  {
    var f := IntegerFormat;
    forall x | f.isFloat(x)
      ensures f.parse(f.show(x)) == Some(x) && f.show(x) != [] && (forall i :: 0 <= i < |f.show(x)| ==> Plain(f.show(x)[i]))
    {
      IntegerReadsBack(x);
    }
  }

  /** The text of an integer reads back as that integer and holds only
      digits and a leading minus sign. */
  lemma IntegerReadsBack(x: real)
    requires IsInteger(x)
    ensures ReadInteger(ShowInteger(x)) == Some(x)
    ensures ShowInteger(x) != [] && forall i :: 0 <= i < |ShowInteger(x)| ==> Plain(ShowInteger(x)[i])
  {
    var t := ShowInteger(x);
    if x < 0.0 {
      var n: nat := -x.Floor;
      ReadDigitsOf(n);
      assert t == "-" + Digits(n);
      assert t[1..] == Digits(n);
    } else {
      var n: nat := x.Floor;
      ReadDigitsOf(n);
      assert t == Digits(n);
    }
    forall i | 0 <= i < |t| ensures Plain(t[i]) {
      DigitIsPlain(t[i]);
    }
  }

  /** Digits and the minus sign are plain. */
  lemma DigitIsPlain(c: char)
    requires '0' <= c <= '9' || c == '-'
    ensures Plain(c)
  {
  }

  /** The text of `x` contains neither separator. */
  lemma ShowIsPlain(f: NumberFormat, x: real)
    requires IsFaithful(f) && f.isFloat(x)
    ensures ',' !in f.show(x) && '_' !in f.show(x)
    ensures f.show(x) != [] && !IsSpace(f.show(x)[0]) && !IsSpace(f.show(x)[|f.show(x)| - 1])
  {
    var t := f.show(x);
    forall i | 0 <= i < |t| ensures t[i] != ',' && t[i] != '_' {
      assert Plain(t[i]);
    }
    assert Plain(t[0]) && Plain(t[|t| - 1]);
  }

  /** Equal texts come from equal floats. */
  lemma ShowInjective(f: NumberFormat, x: real, y: real)
    requires IsFaithful(f) && f.isFloat(x) && f.isFloat(y)
    ensures f.show(x) == f.show(y) <==> x == y
  {
    if f.show(x) == f.show(y) {
      assert Some(x) == f.parse(f.show(x)) == f.parse(f.show(y)) == Some(y);
    }
  }

  // ---------------------------------------------------------------------
  // Directory names
  // ---------------------------------------------------------------------

  /** The four coordinates of a box, as text, in the order the directory name
      lists them. */
  function BoxFields(box: Box, f: NumberFormat): seq<string>
  {
    [f.show(box.bottomLeft.lat), f.show(box.bottomLeft.lon), f.show(box.topRight.lat), f.show(box.topRight.lon)]
  }

  /** `_get_directory_name`: the four coordinates joined by underscores. With
      a faithful number format the name of a box of floats splits back at its
      underscores into exactly the four printed coordinates. */
  function DirectoryName(box: Box, f: NumberFormat): (r: string)
    ensures IsFaithful(f) && BoxIsFloat(f, box) ==> Split(r, '_') == BoxFields(box, f)
  {
    var fields := BoxFields(box, f);
    assert IsFaithful(f) && BoxIsFloat(f, box) ==> Split(Join(fields, '_'), '_') == fields by {
      if IsFaithful(f) && BoxIsFloat(f, box) {
        FieldsHaveNoSeparator(fields, f, '_');
        SplitJoin(fields, '_');
      }
    }
    Join(fields, '_')
  }

  /** Distinct boxes get distinct directories, so the cached files of two
      boxes never mix. */
  lemma DirectoryNameInjective(b1: Box, b2: Box, f: NumberFormat)
    requires IsFaithful(f) && BoxIsFloat(f, b1) && BoxIsFloat(f, b2)
    ensures DirectoryName(b1, f) == DirectoryName(b2, f) <==> b1 == b2
  {
    if DirectoryName(b1, f) == DirectoryName(b2, f) {
      FieldsHaveNoSeparator(BoxFields(b1, f), f, '_');
      FieldsHaveNoSeparator(BoxFields(b2, f), f, '_');
      SplitJoin(BoxFields(b1, f), '_');
      SplitJoin(BoxFields(b2, f), '_');
      var s1, s2 := BoxFields(b1, f), BoxFields(b2, f);
      assert s1 == s2;
      ShowInjective(f, b1.bottomLeft.lat, b2.bottomLeft.lat);
      ShowInjective(f, b1.bottomLeft.lon, b2.bottomLeft.lon);
      ShowInjective(f, b1.topRight.lat, b2.topRight.lat);
      ShowInjective(f, b1.topRight.lon, b2.topRight.lon);
    }
  }

  /** Four formatted numbers hold neither separator. */
  lemma FieldsHaveNoSeparator(fields: seq<string>, f: NumberFormat, sep: char)
    requires IsFaithful(f) && (sep == ',' || sep == '_')
    requires |fields| == 4 && forall i :: 0 <= i < 4 ==> exists x :: f.isFloat(x) && fields[i] == f.show(x)
    ensures forall i :: 0 <= i < |fields| ==> sep !in fields[i]
  {
    forall i | 0 <= i < |fields| ensures sep !in fields[i] {
      assert exists x :: f.isFloat(x) && fields[i] == f.show(x);
      var x :| f.isFloat(x) && fields[i] == f.show(x);
      ShowIsPlain(f, x);
    }
  }

  // ---------------------------------------------------------------------
  // The segments file
  // ---------------------------------------------------------------------

  /** The four coordinates of a segment, as text, start first. */
  function SegmentFields(s: Segment, f: NumberFormat): seq<string>
  {
    [f.show(s.start.lat), f.show(s.start.lon), f.show(s.end.lat), f.show(s.end.lon)]
  }

  /** One line of a segments file, without its newline: `lat1,lon1,lat2,lon2`.
      With a faithful number format the line of a segment of floats holds no
      line break and splits back at its commas into exactly the four printed
      coordinates. */
  function FormatSegment(s: Segment, f: NumberFormat): (r: string)
    ensures IsFaithful(f) && SegmentIsFloat(f, s) ==>
      Split(r, ',') == SegmentFields(s, f) && '\n' !in r && '\r' !in r
  {
    var fields := SegmentFields(s, f);
    var line := Join(fields, ',');
    assert IsFaithful(f) && SegmentIsFloat(f, s) ==> Split(line, ',') == fields && '\n' !in line && '\r' !in line by {
      if IsFaithful(f) && SegmentIsFloat(f, s) {
        FieldsHaveNoSeparator(fields, f, ',');
        SplitJoin(fields, ',');
        JoinNoNewline(fields, ',', f);
      }
    }
    line
  }

  /** The text `download_segments` writes for the segments in the order
      given: one line per segment, each ending with a newline. */
  function SegmentsText(segs: seq<Segment>, f: NumberFormat): string
  {
    Terminated(FormattedLines(segs, f))
  }

  /** Each segment formatted as one line, without its line ending. */
  function FormattedLines(segs: seq<Segment>, f: NumberFormat): seq<string>
  {
    seq(|segs|, i requires 0 <= i < |segs| => FormatSegment(segs[i], f))
  }

  /** One line read back: stripped, split at commas, unpacked into exactly
      four fields, each converted by `float`; `None` where any of these
      raises. */
  function ParseLine(line: string, f: NumberFormat): Option<Segment>
  {
    var fields := Split(Strip(line), ',');
    if |fields| != 4 then None
    else
      match (f.parse(fields[0]), f.parse(fields[1]), f.parse(fields[2]), f.parse(fields[3]))
      case (Some(a), Some(b), Some(c), Some(d)) => Some(Segment(Coord(a, b), Coord(c, d)))
      case _ => None
  }

  /** A line reads as a segment exactly when it has four comma-separated
      fields that all convert, and the segment holds the four numbers in
      field order: start latitude, start longitude, end latitude, end
      longitude. */
  lemma ParseLineFields(line: string, f: NumberFormat)
    ensures var r := ParseLine(line, f);
      var fields := Split(Strip(line), ',');
      && (r.Some? <==> |fields| == 4 && f.parse(fields[0]).Some? && f.parse(fields[1]).Some?
                                       && f.parse(fields[2]).Some? && f.parse(fields[3]).Some?)
      && (r.Some? ==>
            && f.parse(fields[0]) == Some(r.value.start.lat) && f.parse(fields[1]) == Some(r.value.start.lon)
            && f.parse(fields[2]) == Some(r.value.end.lat) && f.parse(fields[3]) == Some(r.value.end.lon))
  {
  }

  /** A written line, newline included, reads back as its segment. */
  lemma ParseFormattedLine(s: Segment, f: NumberFormat)
    requires IsFaithful(f) && SegmentIsFloat(f, s)
    ensures ParseLine(FormatSegment(s, f) + "\n", f) == Some(s)
  {
    var fields := SegmentFields(s, f);
    var line := FormatSegment(s, f);
    FieldsHaveNoSeparator(fields, f, ',');
    ShowIsPlain(f, s.start.lat);
    ShowIsPlain(f, s.end.lon);
    JoinEnds(fields, ',');
    StripNewline(line);
    SplitJoin(fields, ',');
  }

  /** A joined text starts with its first field and ends with its last. */
  lemma JoinEnds(fields: seq<string>, sep: char)
    requires |fields| == 4 && fields[0] != [] && fields[3] != []
    ensures var s := Join(fields, sep);
      s != [] && s[0] == fields[0][0] && s[|s| - 1] == fields[3][|fields[3]| - 1]
  {
    var tail := Join(fields[2..], sep);
    assert Join(fields[3..], sep) == fields[3];
    assert tail == fields[2] + [sep] + fields[3];
    var mid := Join(fields[1..], sep);
    assert mid == fields[1] + [sep] + tail;
  }

  /** Parses every line; `None` as soon as one fails. */
  function ParseLines(lines: seq<string>, f: NumberFormat): Option<seq<Segment>>
  {
    AllSome(lines, line => ParseLine(line, f))
  }

  /** Parsing the lines fails exactly when some line fails; otherwise it
      gives each line's segment, in order. */
  lemma ParseLinesSpec(lines: seq<string>, f: NumberFormat)
    ensures var r := ParseLines(lines, f);
      && (r.None? <==> exists i :: 0 <= i < |lines| && ParseLine(lines[i], f).None?)
      && (r.Some? ==> |r.value| == |lines| && forall i :: 0 <= i < |lines| ==> ParseLine(lines[i], f) == Some(r.value[i]))
  {
    AllSomeSpec(lines, line => ParseLine(line, f));
  }

  /** `load_segments`: the segments of the file, one per line, in file order;
      `[]` when the file is missing or unreadable (`None`) or when any line
      fails to parse. */
  function LoadSegments(file: Option<string>, f: NumberFormat): (r: seq<Segment>)
    ensures file.None? ==> r == []
    ensures file.Some? && (exists i :: 0 <= i < |Lines(file.value)| && ParseLine(Lines(file.value)[i], f).None?) ==> r == []
    ensures file.Some? && (forall i :: 0 <= i < |Lines(file.value)| ==> ParseLine(Lines(file.value)[i], f).Some?) ==>
      |r| == |Lines(file.value)| && forall i :: 0 <= i < |r| ==> ParseLine(Lines(file.value)[i], f) == Some(r[i])
    ensures file.Some? && r != [] ==>
      |r| == |Lines(file.value)| && forall i :: 0 <= i < |r| ==> ParseLine(Lines(file.value)[i], f) == Some(r[i])
  {
    if file.None? then []
    else
      ParseLinesSpec(Lines(file.value), f);
      match ParseLines(Lines(file.value), f)
      case None => []
      case Some(segs) => segs
  }

  /** Writing segments and loading the file gives them back, in order. */
  lemma LoadSavedSegments(segs: seq<Segment>, f: NumberFormat)
    requires IsFaithful(f) && forall i :: 0 <= i < |segs| ==> SegmentIsFloat(f, segs[i])
    ensures LoadSegments(Some(SegmentsText(segs, f)), f) == segs
  {
    var lines := Lines(SegmentsText(segs, f));
    WrittenLines(segs, f);
    WrittenLinesParse(segs, f, lines);
    ParseLinesSpec(lines, f);
    var r := ParseLines(lines, f);
    assert r.Some?;
    assert r.value == segs;
  }

  /** The written text reads back as one line per segment, each its
      formatted segment and a newline. */
  lemma WrittenLines(segs: seq<Segment>, f: NumberFormat)
    requires IsFaithful(f) && forall i :: 0 <= i < |segs| ==> SegmentIsFloat(f, segs[i])
    ensures var lines := Lines(SegmentsText(segs, f));
      |lines| == |segs| && forall i :: 0 <= i < |segs| ==> lines[i] == FormatSegment(segs[i], f) + "\n"
  {
    var ls := FormattedLines(segs, f);
    assert forall i :: 0 <= i < |ls| ==> '\n' !in ls[i] && '\r' !in ls[i];
    LinesOfTerminated(ls);
  }

  /** A file of the same lines separated by `\r` or `\r\n` instead of `\n`
      loads the same segments, in order: reading uses universal newlines. */
  lemma LoadWithLineEnding(segs: seq<Segment>, f: NumberFormat, eol: string)
    requires IsLineEnding(eol)
    requires IsFaithful(f) && forall i :: 0 <= i < |segs| ==> SegmentIsFloat(f, segs[i])
    ensures LoadSegments(Some(EndedBy(FormattedLines(segs, f), eol)), f) == segs
  {
    var ls := FormattedLines(segs, f);
    assert forall i :: 0 <= i < |ls| ==> '\n' !in ls[i] && '\r' !in ls[i];
    LinesOfEndedBy(ls, eol);
    var lines := Lines(EndedBy(ls, eol));
    WrittenLinesParse(segs, f, lines);
    ParseLinesSpec(lines, f);
    var r := ParseLines(lines, f);
    assert r.Some?;
    assert r.value == segs;
  }

  /** Each written line, newline included, reads back as its segment. */
  lemma WrittenLinesParse(segs: seq<Segment>, f: NumberFormat, lines: seq<string>)
    requires IsFaithful(f) && forall i :: 0 <= i < |segs| ==> SegmentIsFloat(f, segs[i])
    requires |lines| == |segs| && forall i :: 0 <= i < |segs| ==> lines[i] == FormatSegment(segs[i], f) + "\n"
    ensures forall i :: 0 <= i < |lines| ==> ParseLine(lines[i], f) == Some(segs[i])
  {
    forall i | 0 <= i < |lines| ensures ParseLine(lines[i], f) == Some(segs[i]) {
      ParseFormattedLine(segs[i], f);
    }
  }

  /** A comma-joined text of formatted floats holds no line break. */
  lemma JoinNoNewline(fields: seq<string>, sep: char, f: NumberFormat)
    requires IsFaithful(f) && sep == ','
    requires forall i :: 0 <= i < |fields| ==> exists x :: f.isFloat(x) && fields[i] == f.show(x)
    ensures '\n' !in Join(fields, sep) && '\r' !in Join(fields, sep)
    decreases |fields|
  {
    if fields != [] {
      var x :| f.isFloat(x) && fields[0] == f.show(x);
      forall i | 0 <= i < |fields[0]| ensures fields[0][i] != '\n' && fields[0][i] != '\r' {
        assert Plain(f.show(x)[i]);
      }
      if |fields| > 1 {
        assert forall i :: 0 <= i < |fields[1..]| ==> fields[1..][i] == fields[i + 1];
        JoinNoNewline(fields[1..], sep, f);
      }
    }
  }

  /** The file holds the segment set in Python's iteration order, which the
      model takes as an input: any order listing each segment once. Loading
      the file gives back every segment of the set, once each. */
  lemma LoadSavedSet(segs: set<Segment>, order: seq<Segment>, f: NumberFormat)
    requires IsFaithful(f) && forall s :: s in segs ==> SegmentIsFloat(f, s)
    requires forall s :: s in order <==> s in segs
    requires forall i, j :: 0 <= i < j < |order| ==> order[i] != order[j]
    ensures var r := LoadSegments(Some(SegmentsText(order, f)), f);
      (forall s :: s in r <==> s in segs) && |r| == |segs|
  {
    LoadSavedSegments(order, f);
    DistinctCard(order, segs);
  }

  /** A list naming each member of a set exactly once is as long as the set. */
  lemma {:induction false} DistinctCard<T>(order: seq<T>, s: set<T>)
    requires forall x :: x in order <==> x in s
    requires forall i, j :: 0 <= i < j < |order| ==> order[i] != order[j]
    ensures |order| == |s|
    decreases |order|
  {
    if order != [] {
      var x := order[0];
      var rest := order[1..];
      forall y ensures y in rest <==> y in s - {x} {
        if y in rest {
          var k :| 0 <= k < |rest| && rest[k] == y;
          assert order[k + 1] == y;
        }
        if y in s - {x} {
          var k :| 0 <= k < |order| && order[k] == y;
          assert k != 0;
          assert rest[k - 1] == y;
        }
      }
      DistinctCard(rest, s - {x});
    } else {
      assert forall x :: x !in s;
      assert s == {};
    }
  }

  // ---------------------------------------------------------------------
  // Segment extraction
  // ---------------------------------------------------------------------

  /** A downloaded GPS point: position, time in seconds, the index of its
      track within its page, and the page. */
  datatype TrackPoint = TrackPoint(lat: real, lon: real, time: real, track: int, page: int)

  /** The outcome of k-means: a centre per cluster and a cluster label per
      point. */
  datatype Clustering = Clustering(centers: seq<Coord>, labels: seq<int>)

  /** `c` labels each of `n` points with one of its clusters. */
  predicate LabelsPoints(c: Clustering, n: nat)
  {
    |c.labels| == n && forall i :: 0 <= i < n ==> 0 <= c.labels[i] < |c.centers|
  }

  /** k-means asked for `k` clusters of some positions; an input of the model. */
  type KMeans = (seq<Coord>, nat) -> Clustering

  /** What the model assumes of k-means: for `1 <= k <= |points|` it gives
      `k` centres and labels every point with one of them. */
  ghost predicate IsKMeans(kmeans: KMeans)
  {
    forall points, k :: 1 <= k <= |points| ==> LabelsPoints(kmeans(points, k), |points|) && |kmeans(points, k).centers| == k
  }

  /** The positions handed to k-means, in point order. */
  function Positions(points: seq<TrackPoint>): (r: seq<Coord>)
    ensures |r| == |points|
  {
    seq(|points|, i requires 0 <= i < |points| => Coord(points[i].lat, points[i].lon))
  }

  /** The centre of point `i`'s cluster. */
  function Center(c: Clustering, n: nat, i: nat): Coord
    requires LabelsPoints(c, n) && i < n
  {
    c.centers[c.labels[i]]
  }

  /** The test for the consecutive points `i - 1` and `i`: close in time,
      centres close together, different clusters, and the same track of the
      same page. */
  predicate Links(points: seq<TrackPoint>, c: Clustering, s: Settings, dist: Metric, i: nat)
    requires LabelsPoints(c, |points|) && 1 <= i < |points|
  {
    && Abs(points[i].time - points[i - 1].time) < s.timeDelta
    && dist(Center(c, |points|, i - 1), Center(c, |points|, i)) < s.distanceDelta
    && c.labels[i - 1] != c.labels[i]
    && points[i - 1].track == points[i].track
    && points[i - 1].page == points[i].page
  }

  /** The segment the pair `(i - 1, i)` gives: from the earlier point's centre
      when a next point exists and has a smaller label than point `i`,
      otherwise from point `i`'s centre. */
  function Oriented(c: Clustering, n: nat, i: nat): Segment
    requires LabelsPoints(c, n) && 1 <= i < n
  {
    if i + 1 < n && c.labels[i + 1] < c.labels[i] then Segment(Center(c, n, i - 1), Center(c, n, i))
    else Segment(Center(c, n, i), Center(c, n, i - 1))
  }

  /** Some linked pair `(j - 1, j)` with `j < bound` gives `seg`. */
  ghost predicate ProducedBefore(points: seq<TrackPoint>, c: Clustering, s: Settings, dist: Metric, seg: Segment, bound: nat)
    requires LabelsPoints(c, |points|)
  {
    exists j :: 1 <= j < bound && j < |points| && Links(points, c, s, dist, j) && seg == Oriented(c, |points|, j)
  }

  /** Some linked pair of consecutive points gives `seg`. */
  ghost predicate Produces(points: seq<TrackPoint>, c: Clustering, s: Settings, dist: Metric, seg: Segment)
    requires LabelsPoints(c, |points|)
  {
    ProducedBefore(points, c, s, dist, seg, |points|)
  }

  /** The loop of `download_segments` over consecutive points: the set of the
      segments that linked pairs give, duplicates collapsed, so at most one
      per pair. */
  method ExtractSegments(points: seq<TrackPoint>, c: Clustering, s: Settings, dist: Metric) returns (segs: set<Segment>)
    requires LabelsPoints(c, |points|)
    ensures forall seg :: seg in segs <==> Produces(points, c, s, dist, seg)
    ensures |points| >= 1 ==> |segs| <= |points| - 1
  {
    segs := {};
    if |points| == 0 {
      return;
    }
    for i := 1 to |points|
      invariant forall seg :: seg in segs <==> ProducedBefore(points, c, s, dist, seg, i)
      invariant |segs| <= i - 1
    {
      if Links(points, c, s, dist, i) {
        segs := segs + {Oriented(c, |points|, i)};
      }
      forall seg | ProducedBefore(points, c, s, dist, seg, i + 1) ensures seg in segs {
        var j :| 1 <= j < i + 1 && j < |points| && Links(points, c, s, dist, j) && seg == Oriented(c, |points|, j);
        if j < i {
          assert ProducedBefore(points, c, s, dist, seg, i);
        }
      }
    }
  }

  /** Every extracted segment joins the centres of two different clusters
      that lie closer together than `distanceDelta`, in either direction. */
  lemma ProducedSegmentIsShort(points: seq<TrackPoint>, c: Clustering, s: Settings, dist: Metric, seg: Segment)
    requires LabelsPoints(c, |points|) && IsDistance(dist)
    requires Produces(points, c, s, dist, seg)
    ensures dist(seg.start, seg.end) < s.distanceDelta
    ensures exists i, j ::
      (0 <= i < |c.centers| && 0 <= j < |c.centers| && i != j && seg.start == c.centers[i] && seg.end == c.centers[j])
  {
    var k :| 1 <= k < |points| && Links(points, c, s, dist, k) && seg == Oriented(c, |points|, k);
    var a, b := c.labels[k - 1], c.labels[k];
    assert dist(c.centers[a], c.centers[b]) == dist(c.centers[b], c.centers[a]);
    if seg.start == c.centers[a] && seg.end == c.centers[b] {
    } else {
      assert seg.start == c.centers[b] && seg.end == c.centers[a];
    }
  }

  /** Why extraction can fail: scikit-learn refuses fewer than one cluster. */
  datatype SegmentError = InvalidClusterCount

  /** What `download_segments` works out: the cluster count handed to k-means
      (`None` when it returns early, before clustering) and the segment set
      whose size it returns. */
  datatype Extraction = Extraction(clusters: Option<nat>, segments: set<Segment>)

  /** `download_segments` once the points are loaded: fewer than two points
      give no segments and no clustering; otherwise k-means runs with
      `min(n_clusters, len(points))` clusters and the segment loop runs over
      its labels. */
  method DownloadSegments(points: seq<TrackPoint>, s: Settings, kmeans: KMeans, dist: Metric)
    returns (r: Result<Extraction, SegmentError>)
    requires IsKMeans(kmeans)
    ensures |points| < 2 ==> r == Success(Extraction(None, {}))
    ensures |points| >= 2 && s.nClusters < 1 ==> r == Failure(InvalidClusterCount)
    ensures |points| >= 2 && s.nClusters >= 1 ==>
      r.Success? && r.value.clusters == Some(if s.nClusters <= |points| then s.nClusters else |points|)
    ensures r.Success? && r.value.clusters.Some? ==>
      var k := r.value.clusters.value;
      var c := kmeans(Positions(points), k);
      && k <= |points| && k as int <= s.nClusters && (k == |points| || k as int == s.nClusters)
      && LabelsPoints(c, |points|)
      && (forall seg :: seg in r.value.segments <==> Produces(points, c, s, dist, seg))
      && |r.value.segments| <= |points| - 1
  {
    if |points| < 2 {
      return Success(Extraction(None, {}));
    }
    if s.nClusters < 1 {
      return Failure(InvalidClusterCount);
    }
    var k: nat := if s.nClusters <= |points| then s.nClusters else |points|;
    var c := kmeans(Positions(points), k);
    var segs := ExtractSegments(points, c, s, dist);
    r := Success(Extraction(Some(k), segs));
  }
}

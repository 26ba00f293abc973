/**
 * `parse_edit_file` (convert_edited_data.py): a line-by-line state machine
 * over the hand-edited text file. Comment lines carrying an image header
 * select the current image and category; comma-separated data lines add
 * points to the current image. The file is given as its sequence of lines.
 */
module EditParser {
  import opened Optional
  import opened Text

  /** One `{'number', 'name', 'reading'}` dictionary of an image's `points`. */
  datatype PointRecord = PointRecord(number: string, name: string, reading: string)

  /** The `{'category', 'points'}` dictionary stored for one image. */
  datatype ImageEntry = ImageEntry(category: string, points: seq<PointRecord>)

  /**
   * `vital_points_data`: a Python dict from image name to entry. `order` is
   * the dict's insertion order; assigning to a key that is already present
   * keeps its position.
   */
  datatype EditData = EditData(order: seq<string>, entries: map<string, ImageEntry>)

  const EmptyData := EditData([], map[])

  /** `order` lists each key of `entries` exactly once. */
  ghost predicate DataValid(d: EditData)
  {
    (forall i, j | 0 <= i < j < |d.order| :: d.order[i] != d.order[j])
    && (forall k | k in d.order :: k in d.entries)
    && (forall k | k in d.entries :: k in d.order)
  }

  /** `d[key] = e`. */
  function PutEntry(d: EditData, key: string, e: ImageEntry): (r: EditData)
    ensures r.entries == d.entries[key := e]
    ensures key in d.entries ==> r.order == d.order
  {
    if key in d.entries then d.(entries := d.entries[key := e])
    else EditData(d.order + [key], d.entries[key := e])
  }

  lemma PutEntryKeepsValid(d: EditData, key: string, e: ImageEntry)
    requires DataValid(d)
    ensures DataValid(PutEntry(d, key, e))
  {
  }

  /**
   * The dict's `items()`: one pair per key, no key twice, each key paired
   * with its own entry, listed in insertion order.
   */
  function Items(d: EditData): (r: seq<(string, ImageEntry)>)
    requires DataValid(d)
    ensures forall i, j | 0 <= i < j < |r| :: r[i].0 != r[j].0
    ensures forall key :: key in d.entries <==> exists k | 0 <= k < |r| :: r[k].0 == key
    ensures forall k | 0 <= k < |r| :: r[k].0 in d.entries && r[k].1 == d.entries[r[k].0]
    ensures |r| == |d.order| && forall k | 0 <= k < |r| :: r[k].0 == d.order[k]
  {
    var r := seq(|d.order|, k requires 0 <= k < |d.order| => (d.order[k], d.entries[d.order[k]]));
    assert forall key | key in d.entries :: exists k | 0 <= k < |r| :: r[k].0 == key by {
      forall key | key in d.entries ensures exists k | 0 <= k < |r| :: r[k].0 == key {
        var k :| 0 <= k < |d.order| && d.order[k] == key;
        assert r[k].0 == key;
      }
    }
    r
  }

  // ---------------------------------------------------------------------
  // The regular expression `(Scan.*\.png)` under `re.search`
  // ---------------------------------------------------------------------

  /** `s[p..e]` is a match of `Scan.*\.png`: `.` matches anything but a newline. */
  ghost predicate PatternAt(s: string, p: nat, e: nat)
  {
    p + 8 <= e <= |s| && IsAt(s, "Scan", p) && IsAt(s, ".png", e - 4)
    && forall k | p <= k < e :: s[k] != '\n'
  }

  /** The first newline at or after `j`, or `|s|`. */
  function LineEnd(s: string, j: nat): (e: nat)
    requires j <= |s|
    ensures j <= e <= |s|
    ensures forall k | j <= k < e :: s[k] != '\n'
    ensures e == |s| || s[e] == '\n'
    decreases |s| - j
  {
    if j == |s| || s[j] == '\n' then j else LineEnd(s, j + 1)
  }

  /** The last `.png` that starts at or after `lo` and ends by `hi`. */
  function LastPng(s: string, lo: nat, hi: nat): (r: Option<nat>)
    requires lo <= hi <= |s|
    ensures r.Some? ==> lo <= r.value && r.value + 4 <= hi && IsAt(s, ".png", r.value)
    ensures r.Some? ==> forall q | r.value < q && q + 4 <= hi :: !IsAt(s, ".png", q)
    ensures r.None? ==> forall q | lo <= q && q + 4 <= hi :: !IsAt(s, ".png", q)
    decreases hi - lo
  {
    if hi < lo + 4 then None
    else if IsAt(s, ".png", hi - 4) then Some(hi - 4)
    else LastPng(s, lo, hi - 1)
  }

  /** The end of the greedy match that starts at `p`, if one starts there. */
  function MatchEndAt(s: string, p: nat): (r: Option<nat>)
    ensures r.Some? ==> PatternAt(s, p, r.value)
    ensures r.Some? ==> forall e: nat | PatternAt(s, p, e) :: e <= r.value
    ensures r.None? ==> forall e: nat :: !PatternAt(s, p, e)
  {
    if !IsAt(s, "Scan", p) then None
    else
      var hi := LineEnd(s, p + 4);
      assert forall e: nat | PatternAt(s, p, e) :: e <= hi;
      assert forall k | p <= k < p + 4 :: s[k] == "Scan"[k - p];
      match LastPng(s, p + 4, hi)
      case None => None
      case Some(q) => Some(q + 4)
  }

  /** The leftmost match starting at or after `p`, extended greedily. */
  function SearchFrom(s: string, p: nat): (r: Option<(nat, nat)>)
    ensures r.Some? ==> p <= r.value.0 && PatternAt(s, r.value.0, r.value.1)
    ensures r.Some? ==> forall e: nat | PatternAt(s, r.value.0, e) :: e <= r.value.1
    ensures r.Some? ==> forall a: nat, e: nat | p <= a < r.value.0 :: !PatternAt(s, a, e)
    ensures r.None? ==> forall a: nat, e: nat | p <= a :: !PatternAt(s, a, e)
    decreases |s| - p
  {
    if |s| < p + 8 then None
    else
      match MatchEndAt(s, p)
      case Some(e) => Some((p, e))
      case None => SearchFrom(s, p + 1)
  }

  /**
   * `re.search(r'(Scan.*\.png)', line).group(1)`: the text of the leftmost
   * match, extended to the last `.png` on that line; `None` exactly when
   * the string holds no match at all.
   */
  function ScanSearch(s: string): Option<string>
  {
    match SearchFrom(s, 0)
    case None => None
    case Some((a, e)) => Some(s[a..e])
  }

  /**
   * `ScanSearch` is the leftmost match, extended greedily: no match starts
   * earlier and none from the same start ends later; there is a result
   * exactly when the string holds some match.
   */
  lemma ScanSearchSpec(s: string)
    ensures ScanSearch(s).None? <==> forall a: nat, e: nat :: !PatternAt(s, a, e)
    ensures ScanSearch(s).Some? ==>
      var (a, e) := SearchFrom(s, 0).value;
      && ScanSearch(s).value == s[a..e]
      && PatternAt(s, a, e)
      && (forall a': nat, e': nat | a' < a :: !PatternAt(s, a', e'))
      && (forall e': nat | PatternAt(s, a, e') :: e' <= e)
  {
  }

  /** A found image name starts with `Scan` and ends with `.png`, so it is never empty. */
  lemma ScanSearchShape(s: string)
    requires ScanSearch(s).Some?
    ensures var m := ScanSearch(s).value;
      |m| >= 8 && m[..4] == "Scan" && m[|m| - 4..] == ".png"
  {
    var (a, e) := SearchFrom(s, 0).value;
    assert s[a..e][..4] == s[a..a + 4];
    assert s[a..e][e - a - 4..] == s[e - 4..e];
  }

  // ---------------------------------------------------------------------
  // Classifying a stripped line
  // ---------------------------------------------------------------------

  /** `not line or line.startswith('#')`. */
  predicate IsCommentLine(l: string)
  {
    |l| == 0 || l[0] == '#'
  }

  /** A comment line that mentions both `画像` and `.png`. */
  predicate IsHeaderLine(l: string)
  {
    IsCommentLine(l) && Contains(l, "画像") && Contains(l, ".png")
  }

  /** A header line that names an image, so the current image changes. */
  predicate IsImageHeader(l: string)
  {
    IsHeaderLine(l) && ScanSearch(l).Some?
  }

  const HeadCategory := "頭部・頸部・顔面の急所"
  const ArmCategory := "上肢（手足）の急所"
  const TrunkCategory := "胴部の急所"
  const LegFrontCategory := "下肢の急所（前面）"
  const LegBackCategory := "下肢の急所（後面）"

  /** The category a header line names: the first keyword test that matches. */
  function CategoryOf(l: string): (r: Option<string>)
    ensures r.Some? ==> r.value in {HeadCategory, ArmCategory, TrunkCategory, LegFrontCategory, LegBackCategory}
    ensures Contains(l, "頭部") ==> r == Some(HeadCategory)
    ensures !Contains(l, "頭部") && Contains(l, "上肢") ==> r == Some(ArmCategory)
    ensures !Contains(l, "頭部") && !Contains(l, "上肢") && Contains(l, "胴部") ==> r == Some(TrunkCategory)
    ensures (!Contains(l, "頭部") && !Contains(l, "上肢") && !Contains(l, "胴部")
             && Contains(l, "下肢") && Contains(l, "前面")) ==> r == Some(LegFrontCategory)
    ensures (!Contains(l, "頭部") && !Contains(l, "上肢") && !Contains(l, "胴部")
             && Contains(l, "下肢") && !Contains(l, "前面") && Contains(l, "後面")) ==> r == Some(LegBackCategory)
    ensures r.None? <==>
      !Contains(l, "頭部") && !Contains(l, "上肢") && !Contains(l, "胴部")
      && !(Contains(l, "下肢") && (Contains(l, "前面") || Contains(l, "後面")))
  {
    if Contains(l, "頭部") then Some(HeadCategory)
    else if Contains(l, "上肢") then Some(ArmCategory)
    else if Contains(l, "胴部") then Some(TrunkCategory)
    else if Contains(l, "下肢") && Contains(l, "前面") then Some(LegFrontCategory)
    else if Contains(l, "下肢") && Contains(l, "後面") then Some(LegBackCategory)
    else None
  }

  /** The section a comment line marks, if any: `[内側]` is tested first. */
  function SectionOf(l: string): (r: Option<string>)
    ensures r.Some? ==> r.value in {"内側", "外側"}
  {
    if Contains(l, "[内側]") then Some("内側")
    else if Contains(l, "[外側]") then Some("外側")
    else None
  }

  /**
   * The point a stripped non-comment line describes: it must contain a
   * comma and split into at least three fields; the first three, stripped,
   * are number, name and reading, and name and reading must be non-empty.
   */
  function LinePoint(l: string): (r: Option<PointRecord>)
    ensures r.Some? ==> r.value.name != "" && r.value.reading != ""
    ensures r.Some? ==> IsStripped(r.value.number) && IsStripped(r.value.name) && IsStripped(r.value.reading)
    ensures r.Some? ==> ',' !in r.value.number && ',' !in r.value.name && ',' !in r.value.reading
  {
    if ',' in l then
      var parts := Split(l, ',');
      if |parts| >= 3 then
        var number, name, reading := Strip(parts[0]), Strip(parts[1]), Strip(parts[2]);
        if name != "" && reading != "" then Some(PointRecord(number, name, reading)) else None
      else None
    else None
  }

  /**
   * What the loop body's tests find on one line once it is stripped: the
   * comment test, the header test, the image match, the category keyword,
   * the section marker and, for a non-comment line, the point it describes.
   */
  datatype LineInfo = LineInfo(
    isComment: bool,
    isHeader: bool,
    image: Option<string>,
    category: Option<string>,
    section: Option<string>,
    point: Option<PointRecord>)

  function Classify(raw: string): LineInfo
  {
    var l := Strip(raw);
    LineInfo(IsCommentLine(l), IsHeaderLine(l), ScanSearch(l), CategoryOf(l), SectionOf(l),
             if IsCommentLine(l) then None else LinePoint(l))
  }

  /** Every line of `lines`, classified. */
  function Classified(lines: seq<string>): (r: seq<LineInfo>)
    ensures |r| == |lines|
  {
    if |lines| == 0 then []
    else Classified(lines[..|lines| - 1]) + [Classify(lines[|lines| - 1])]
  }

  lemma {:induction false} ClassifiedAt(lines: seq<string>, k: nat)
    requires k < |lines|
    ensures Classified(lines)[k] == Classify(lines[k])
  {
    if k < |lines| - 1 {
      ClassifiedAt(lines[..|lines| - 1], k);
    }
  }

  /** The line is a header naming an image, so the current image changes. */
  predicate NamesImage(info: LineInfo)
  {
    info.isComment && info.isHeader && info.image.Some?
  }

  // ---------------------------------------------------------------------
  // The state machine
  // ---------------------------------------------------------------------

  datatype ParserState = ParserState(
    data: EditData,
    currentImage: Option<string>,
    currentCategory: Option<string>,
    currentSection: Option<string>)

  const InitialState := ParserState(EmptyData, None, None, None)

  /** The current image, once set, has an entry. */
  ghost predicate StateValid(st: ParserState)
  {
    st.currentImage.Some? ==> st.currentImage.value in st.data.entries
  }

  /** A header line: maybe a new image, maybe a new category, then the category is written. */
  function HeaderStep(st: ParserState, info: LineInfo): (r: ParserState)
    requires StateValid(st)
    ensures StateValid(r)
  {
    var st1 :=
      match info.image
      case Some(image) =>
        st.(currentImage := Some(image), data := PutEntry(st.data, image, ImageEntry("", [])))
      case None => st;
    var st2 :=
      match info.category
      case Some(c) => st1.(currentCategory := Some(c))
      case None => st1;
    if st2.currentImage.Some? && st2.currentCategory.Some? then
      var image := st2.currentImage.value;
      var e := st2.data.entries[image];
      st2.(data := PutEntry(st2.data, image, e.(category := st2.currentCategory.value)))
    else
      st2
  }

  /** A comment or empty line: the header part, then the section marker. */
  function CommentStep(st: ParserState, info: LineInfo): (r: ParserState)
    requires StateValid(st)
    ensures StateValid(r)
  {
    var st1 := if info.isHeader then HeaderStep(st, info) else st;
    if info.section.Some? then st1.(currentSection := info.section) else st1
  }

  /** A data line: its point, if any, is appended to the current image's points. */
  function DataStep(st: ParserState, info: LineInfo): (r: ParserState)
    requires StateValid(st)
    ensures StateValid(r)
  {
    if st.currentImage.Some? then
      match info.point
      case Some(p) =>
        var image := st.currentImage.value;
        var e := st.data.entries[image];
        st.(data := PutEntry(st.data, image, e.(points := e.points + [p])))
      case None => st
    else
      st
  }

  /** One iteration of the loop over the file's lines. */
  function Step(st: ParserState, info: LineInfo): (r: ParserState)
    requires StateValid(st)
    ensures StateValid(r)
  {
    if info.isComment then CommentStep(st, info) else DataStep(st, info)
  }

  /** The state after the loop has consumed `lines`. */
  function ParseLines(lines: seq<string>): (st: ParserState)
    ensures StateValid(st)
  {
    if |lines| == 0 then InitialState
    else Step(ParseLines(lines[..|lines| - 1]), Classify(lines[|lines| - 1]))
  }

  /** `parse_edit_file` over the file's lines: the dict the loop fills in place. */
  method ParseEditFile(lines: seq<string>) returns (data: EditData)
    ensures data == ParseLines(lines).data
  {
    data := EmptyData;
    var currentImage: Option<string> := None;
    var currentCategory: Option<string> := None;
    var currentSection: Option<string> := None;
    for i := 0 to |lines|
      invariant ParserState(data, currentImage, currentCategory, currentSection) == ParseLines(lines[..i])
    {
      assert lines[..i + 1][..i] == lines[..i];
      var line := Strip(lines[i]);
      if |line| == 0 || line[0] == '#' {
        if Contains(line, "画像") && Contains(line, ".png") {
          var found := ScanSearch(line);
          if found.Some? {
            currentImage := found;
            data := PutEntry(data, found.value, ImageEntry("", []));
          }
          var category := CategoryOf(line);
          if category.Some? {
            currentCategory := category;
          }
          if currentImage.Some? && currentCategory.Some? {
            var e := data.entries[currentImage.value];
            data := PutEntry(data, currentImage.value, e.(category := currentCategory.value));
          }
        }
        var section := SectionOf(line);
        if section.Some? {
          currentSection := section;
        }
        continue;
      }
      if currentImage.Some? {
        var point := LinePoint(line);
        if point.Some? {
          var e := data.entries[currentImage.value];
          data := PutEntry(data, currentImage.value, e.(points := e.points + [point.value]));
        }
      }
    }
    assert lines[..|lines|] == lines;
  }

  // ---------------------------------------------------------------------
  // Properties
  // ---------------------------------------------------------------------

  lemma HeaderKeepsDataValid(st: ParserState, info: LineInfo)
    requires StateValid(st) && DataValid(st.data)
    ensures DataValid(HeaderStep(st, info).data)
  {
    var st1 := st;
    if info.image.Some? {
      PutEntryKeepsValid(st.data, info.image.value, ImageEntry("", []));
      st1 := st.(currentImage := info.image, data := PutEntry(st.data, info.image.value, ImageEntry("", [])));
    }
    var st2 := if info.category.Some? then st1.(currentCategory := info.category) else st1;
    if st2.currentImage.Some? && st2.currentCategory.Some? {
      var image := st2.currentImage.value;
      PutEntryKeepsValid(st2.data, image, st2.data.entries[image].(category := st2.currentCategory.value));
    }
  }

  lemma StepKeepsDataValid(st: ParserState, info: LineInfo)
    requires StateValid(st) && DataValid(st.data)
    ensures DataValid(Step(st, info).data)
  {
    if info.isComment && info.isHeader {
      HeaderKeepsDataValid(st, info);
    } else if !info.isComment && st.currentImage.Some? && info.point.Some? {
      var image := st.currentImage.value;
      var e := st.data.entries[image];
      PutEntryKeepsValid(st.data, image, e.(points := e.points + [info.point.value]));
    }
  }

  /** The dict `parse_edit_file` returns lists each image once, in first-header order. */
  lemma {:induction false} ParsedDataValid(lines: seq<string>)
    ensures DataValid(ParseLines(lines).data)
  {
    if |lines| > 0 {
      ParsedDataValid(lines[..|lines| - 1]);
      StepKeepsDataValid(ParseLines(lines[..|lines| - 1]), Classify(lines[|lines| - 1]));
    }
  }

  /** A stored point: non-empty name and reading, every field stripped and comma-free. */
  predicate PointClean(p: PointRecord)
  {
    p.name != "" && p.reading != ""
    && IsStripped(p.number) && IsStripped(p.name) && IsStripped(p.reading)
    && ',' !in p.number && ',' !in p.name && ',' !in p.reading
  }

  ghost predicate PointsClean(d: EditData)
  {
    forall k, j | k in d.entries && 0 <= j < |d.entries[k].points| :: PointClean(d.entries[k].points[j])
  }

  lemma HeaderKeepsClean(st: ParserState, info: LineInfo)
    requires StateValid(st) && PointsClean(st.data)
    ensures PointsClean(HeaderStep(st, info).data)
  {
  }

  lemma StepKeepsClean(st: ParserState, info: LineInfo)
    requires StateValid(st) && PointsClean(st.data)
    requires info.point.Some? ==> PointClean(info.point.value)
    ensures PointsClean(Step(st, info).data)
  {
    if info.isComment && info.isHeader {
      HeaderKeepsClean(st, info);
    }
  }

  /** Every point the parser stores has a non-empty stripped name and reading. */
  lemma {:induction false} ParsedPointsClean(lines: seq<string>)
    ensures PointsClean(ParseLines(lines).data)
  {
    if |lines| > 0 {
      ParsedPointsClean(lines[..|lines| - 1]);
      var info := Classify(lines[|lines| - 1]);
      assert info.point.Some? ==> PointClean(info.point.value);
      StepKeepsClean(ParseLines(lines[..|lines| - 1]), info);
    }
  }

  /** Until a line names an image, nothing is stored: earlier data lines are ignored. */
  lemma {:induction false} NoImageNoData(lines: seq<string>)
    requires forall k | 0 <= k < |lines| :: !IsImageHeader(Strip(lines[k]))
    ensures ParseLines(lines).data == EmptyData
    ensures ParseLines(lines).currentImage.None?
  {
    if |lines| > 0 {
      NoImageNoData(lines[..|lines| - 1]);
      assert !NamesImage(Classify(lines[|lines| - 1]));
    }
  }

  /** A non-comment line that yields no point leaves the state as it was. */
  lemma IgnoredDataLine(st: ParserState, raw: string)
    requires StateValid(st)
    requires !IsCommentLine(Strip(raw)) && LinePoint(Strip(raw)).None?
    ensures Step(st, Classify(raw)) == st
  {
  }

  /** A data line yields no point without a comma, or with fewer than three fields. */
  lemma ShortLineYieldsNothing(l: string)
    requires ',' !in l || |Split(l, ',')| < 3
    ensures LinePoint(l).None?
  {
  }

  /** A line whose first three comma fields are already stripped yields exactly them. */
  lemma CleanFieldsYieldPoint(l: string, number: string, name: string, reading: string)
    requires IsStripped(number) && IsStripped(name) && IsStripped(reading)
    requires name != "" && reading != ""
    requires ',' in l
    requires var parts := Split(l, ',');
      |parts| >= 3 && parts[0] == number && parts[1] == name && parts[2] == reading
    ensures LinePoint(l) == Some(PointRecord(number, name, reading))
  {
    StripStripped(number);
    StripStripped(name);
    StripStripped(reading);
  }

  /**
   * A line made of comma-free fields reads as the first three fields, each
   * stripped, and is dropped exactly when the stripped name or reading is
   * blank; the fields after the third are ignored.
   */
  lemma LinePointOfFields(parts: seq<string>)
    requires |parts| >= 3
    requires forall k | 0 <= k < |parts| :: ',' !in parts[k]
    ensures LinePoint(Join(parts, ','))
         == if Strip(parts[1]) != "" && Strip(parts[2]) != ""
            then Some(PointRecord(Strip(parts[0]), Strip(parts[1]), Strip(parts[2])))
            else None
  {
    SplitJoin(parts, ',');
    JoinHasSeparator(parts, ',');
  }

  /** The usual spacing after the commas is stripped away. */
  lemma SpacedLineExample(l: string)
    requires l == "1, 百会, ひゃくえ"
    ensures LinePoint(l) == Some(PointRecord("1", "百会", "ひゃくえ"))
  {
    var parts := ["1", " 百会", " ひゃくえ"];
    assert Join(parts, ',') == l by { SpacedLineFields(); }
    assert Strip(parts[0]) == "1" by { StripStripped("1"); }
    assert Strip(parts[1]) == "百会" by {
      assert parts[1] == " " + "百会";
      StripLeadingSpace("百会");
    }
    assert Strip(parts[2]) == "ひゃくえ" by {
      assert parts[2] == " " + "ひゃくえ";
      StripLeadingSpace("ひゃくえ");
    }
    LinePointOfFields(parts);
  }

  lemma SpacedLineFields()
    ensures Join(["1", " 百会", " ひゃくえ"], ',') == "1, 百会, ひゃくえ"
  {
    var parts := ["1", " 百会", " ひゃくえ"];
    assert Join(parts[2..], ',') == " ひゃくえ";
    assert Join(parts[1..], ',') == " 百会, ひゃくえ";
  }

  /**
   * Only the first three fields are used: joining clean comma-free fields
   * with commas and reading the line back gives the first three of them as
   * number, name and reading, whatever follows.
   */
  lemma FieldsRoundTrip(parts: seq<string>)
    requires |parts| >= 3
    requires forall k | 0 <= k < |parts| :: ',' !in parts[k]
    requires IsStripped(parts[0]) && IsStripped(parts[1]) && IsStripped(parts[2])
    requires parts[1] != "" && parts[2] != ""
    ensures LinePoint(Join(parts, ',')) == Some(PointRecord(parts[0], parts[1], parts[2]))
  {
    var line := Join(parts, ',');
    SplitJoin(parts, ',');
    JoinHasSeparator(parts, ',');
    CleanFieldsYieldPoint(line, parts[0], parts[1], parts[2]);
  }

  /**
   * A data line with a current image appends its point to that image's
   * list; no other entry, the key order, the image and the category change.
   */
  lemma DataLineEffect(st: ParserState, raw: string)
    requires StateValid(st) && st.currentImage.Some?
    requires !IsCommentLine(Strip(raw)) && LinePoint(Strip(raw)).Some?
    ensures var r := Step(st, Classify(raw)); var image := st.currentImage.value;
      && r.currentImage == st.currentImage
      && r.currentCategory == st.currentCategory
      && r.data.order == st.data.order
      && r.data.entries == st.data.entries[image := st.data.entries[image].(points := st.data.entries[image].points + [LinePoint(Strip(raw)).value])]
  {
  }

  /**
   * A header line that names an image makes it current and (re)initialises
   * its entry: no points, and the current category if there is one, else
   * the empty category. A repeated header therefore drops earlier points;
   * the entry keeps its place in the dict.
   */
  lemma ImageHeaderEffect(st: ParserState, raw: string)
    requires StateValid(st)
    requires IsImageHeader(Strip(raw))
    ensures var l := Strip(raw); var r := Step(st, Classify(raw)); var image := ScanSearch(l).value;
      var category := if CategoryOf(l).Some? then CategoryOf(l) else st.currentCategory;
      && r.currentImage == Some(image)
      && r.currentCategory == category
      && r.data.entries == st.data.entries[image := ImageEntry(category.GetOr(""), [])]
      && r.data.order == (if image in st.data.entries then st.data.order else st.data.order + [image])
  {
  }

  /**
   * A header line that names no image keeps the current image; when both an
   * image and a category are current, it rewrites that image's category
   * and nothing else.
   */
  lemma CategoryOnlyHeaderEffect(st: ParserState, raw: string)
    requires StateValid(st)
    requires IsHeaderLine(Strip(raw)) && !IsImageHeader(Strip(raw))
    ensures var l := Strip(raw); var r := Step(st, Classify(raw));
      var category := if CategoryOf(l).Some? then CategoryOf(l) else st.currentCategory;
      && r.currentImage == st.currentImage
      && r.currentCategory == category
      && r.data.order == st.data.order
      && r.data.entries == (if st.currentImage.Some? && category.Some?
                            then st.data.entries[st.currentImage.value := st.data.entries[st.currentImage.value].(category := category.value)]
                            else st.data.entries)
  {
  }

  /**
   * A comment line that is not a header changes only the section: the
   * stored data, the current image and the current category are kept.
   */
  lemma PlainCommentEffect(st: ParserState, raw: string)
    requires StateValid(st)
    requires IsCommentLine(Strip(raw)) && !IsHeaderLine(Strip(raw))
    ensures var section := SectionOf(Strip(raw));
      Step(st, Classify(raw)) == if section.Some? then st.(currentSection := section) else st
  {
  }

  /** The current category and the current image change only on header lines. */
  lemma CategoryOnlyOnHeaders(st: ParserState, raw: string)
    requires StateValid(st)
    requires !IsHeaderLine(Strip(raw))
    ensures Step(st, Classify(raw)).currentCategory == st.currentCategory
    ensures Step(st, Classify(raw)).currentImage == st.currentImage
  {
  }

  /** Empty and '#' lines never add a point: each list is kept or reset to empty. */
  lemma CommentLineAddsNoPoints(st: ParserState, raw: string)
    requires StateValid(st)
    requires IsCommentLine(Strip(raw))
    ensures var r := Step(st, Classify(raw));
      forall k | k in r.data.entries ::
        r.data.entries[k].points == [] ||
        (k in st.data.entries && r.data.entries[k].points == st.data.entries[k].points)
  {
    HeaderAddsNoPoints(st, Classify(raw));
  }

  lemma HeaderAddsNoPoints(st: ParserState, info: LineInfo)
    requires StateValid(st)
    ensures var r := HeaderStep(st, info);
      forall k | k in r.data.entries ::
        r.data.entries[k].points == [] ||
        (k in st.data.entries && r.data.entries[k].points == st.data.entries[k].points)
  {
  }

  /**
   * The section never influences a step: two states that differ only in
   * the section step to states that differ only in the section. So
   * `[内側]`/`[外側]` markers never reach the output.
   */
  lemma StepIgnoresSection(st: ParserState, section: Option<string>, info: LineInfo)
    requires StateValid(st)
    ensures Step(st.(currentSection := section), info).(currentSection := None)
         == Step(st, info).(currentSection := None)
  {
  }

  /** The state after `infos` when the loop starts from `st`. */
  function ParseFrom(st: ParserState, infos: seq<LineInfo>): (r: ParserState)
    requires StateValid(st)
    ensures StateValid(r)
  {
    if |infos| == 0 then st
    else Step(ParseFrom(st, infos[..|infos| - 1]), infos[|infos| - 1])
  }

  /** Reading `before` and then `after` is reading `before + after`. */
  lemma {:induction false} ParseLinesSplit(before: seq<string>, after: seq<string>)
    ensures ParseLines(before + after) == ParseFrom(ParseLines(before), Classified(after))
  {
    if |after| == 0 {
      assert before + after == before;
    } else {
      var front := after[..|after| - 1];
      ParseLinesSplit(before, front);
      assert (before + after)[..|before + after| - 1] == before + front;
      assert Classified(after) == Classified(front) + [Classify(after[|after| - 1])];
      assert Classified(after)[..|after| - 1] == Classified(front);
    }
  }

  /** The points the data lines among `infos` describe, in file order. */
  function PointsOf(infos: seq<LineInfo>): (r: seq<PointRecord>)
    ensures |r| <= |infos|
  {
    if |infos| == 0 then []
    else
      var last := infos[|infos| - 1];
      PointsOf(infos[..|infos| - 1]) + (if !last.isComment && last.point.Some? then [last.point.value] else [])
  }

  /** How one image's list and the other entries relate between two states. */
  ghost predicate ExtendsImage(st: ParserState, r: ParserState, image: string, added: seq<PointRecord>)
    requires image in st.data.entries
  {
    && r.currentImage == st.currentImage
    && r.data.order == st.data.order
    && image in r.data.entries
    && r.data.entries[image].points == st.data.entries[image].points + added
    && (forall k | k in st.data.entries && k != image :: k in r.data.entries && r.data.entries[k] == st.data.entries[k])
  }

  lemma ExtendsImageTrans(st: ParserState, mid: ParserState, r: ParserState, image: string, a: seq<PointRecord>, b: seq<PointRecord>)
    requires image in st.data.entries && image in mid.data.entries
    requires ExtendsImage(st, mid, image, a) && ExtendsImage(mid, r, image, b)
    ensures ExtendsImage(st, r, image, a + b)
  {
  }

  /** One line that names no image: the current image's list grows by that line's point. */
  lemma StepAppends(st: ParserState, info: LineInfo)
    requires StateValid(st) && st.currentImage.Some?
    requires !NamesImage(info)
    ensures ExtendsImage(st, Step(st, info), st.currentImage.value, PointsOf([info]))
  {
    assert [info][..0] == [];
  }

  /** From any state with a current image, the lines that name no image only extend its list. */
  lemma {:induction false} AppendFrom(st: ParserState, infos: seq<LineInfo>)
    requires StateValid(st) && st.currentImage.Some?
    requires forall k | 0 <= k < |infos| :: !NamesImage(infos[k])
    ensures ExtendsImage(st, ParseFrom(st, infos), st.currentImage.value, PointsOf(infos))
  {
    if |infos| > 0 {
      var front, info := infos[..|infos| - 1], infos[|infos| - 1];
      var mid := ParseFrom(st, front);
      AppendFrom(st, front);
      StepAppends(mid, info);
      ExtendsImageTrans(st, mid, Step(mid, info), st.currentImage.value, PointsOf(front), PointsOf([info]));
      assert [info][..0] == [];
    }
  }

  /**
   * Points are appended to the current image in file order: while no line
   * names a new image, that image's list grows by exactly the points of the
   * data lines read, and no other entry changes.
   */
  lemma AppendInFileOrder(before: seq<string>, after: seq<string>)
    requires ParseLines(before).currentImage.Some?
    requires forall k | 0 <= k < |after| :: !IsImageHeader(Strip(after[k]))
    ensures var st := ParseLines(before); var r := ParseLines(before + after);
      var image := st.currentImage.value;
      && r.currentImage == st.currentImage
      && r.data.order == st.data.order
      && r.data.entries[image].points == st.data.entries[image].points + PointsOf(Classified(after))
      && (forall k | k in st.data.entries && k != image :: k in r.data.entries && r.data.entries[k] == st.data.entries[k])
  {
    ParseLinesSplit(before, after);
    var infos := Classified(after);
    assert forall k | 0 <= k < |infos| :: !NamesImage(infos[k]) by {
      forall k | 0 <= k < |infos| ensures !NamesImage(infos[k]) {
        ClassifiedAt(after, k);
      }
    }
    AppendFrom(ParseLines(before), infos);
  }
}

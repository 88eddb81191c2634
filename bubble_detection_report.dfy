/** evaluate_questions_bubble_detection.py: a batch report over the question crops of
    a sample. Every `question_*.jpg` of the left, middle and right questions
    directories goes through the bubble detector; the records are kept per section,
    then merged and sorted by question number for the summary. A directory is given
    as a listing (BubbleScanner.Listing): each file's name and, when the image can be
    read, the contours the detector finds in it. */
module BubbleDetectionReport {
  import opened Basics
  import opened QuestionFiles
  import opened BubbleDetector
  import opened BubbleScanner
  import EvaluateQuestions
  import StableSort
  import Raster

  /** `selected_bubbles`: the 1-based positions, or the list `['null']`. */
  datatype Marks = Positions(positions: seq<nat>) | NullMark

  /** One record of `process_question`, without the drawn image. */
  datatype Report = Report(questionNumber: nat, bubblesDetected: nat, selected: Marks, fillRatios: seq<real>)

  /** `[i + 1 for i in selected]`. */
  function OneBased(selected: seq<nat>): (r: seq<nat>)
    ensures |r| == |selected| && forall k :: 0 <= k < |r| ==> r[k] == selected[k] + 1
  {
    seq(|selected|, k requires 0 <= k < |selected| => selected[k] + 1)
  }

  /** `selected_bubbles` for the detector's selection `selected`. */
  function MarksOf(selected: seq<nat>): Marks
  {
    if selected == [] then NullMark else Positions(OneBased(selected))
  }

  /** `process_question`: a record with the question's number, one fill ratio per
      detected bubble and at most four bubbles; an unreadable image gives no
      bubbles, no ratios and `['null']`, as `process` answers `None, [], [], []` for
      it. */
  function ReportOf(number: nat, image: Option<seq<Contour>>): (r: Report)
    ensures r.questionNumber == number
    ensures r.bubblesDetected == |r.fillRatios| <= MaxBubbles
    ensures image.None? ==> r.bubblesDetected == 0 && r.selected == NullMark
  {
    match image
    case None => Report(number, 0, NullMark, [])
    case Some(contours) =>
      var bubbles := KeptOf(contours);
      KeptBubbles(contours);
      Report(number, |bubbles|, MarksOf(AnalyzeSelections(bubbles)), FillRatios(bubbles))
  }

  /** `['null']` exactly when no bubble is filled beyond the threshold; otherwise the
      1-based positions of exactly the filled bubbles, each once, most filled first.
      The selection is taken as `analyze_selections` promises it (SelectionFacts). */
  lemma MarksSpec(sel: seq<nat>, fill: seq<real>)
    requires forall i: nat :: i in sel <==> i < |fill| && fill[i] > FillRatioThreshold
    requires forall j, k :: 0 <= j < k < |sel| ==>
               sel[j] < |fill| && sel[k] < |fill| && sel[j] != sel[k] && fill[sel[j]] >= fill[sel[k]]
    ensures MarksOf(sel).NullMark? <==> forall i :: 0 <= i < |fill| ==> fill[i] <= FillRatioThreshold
    ensures MarksOf(sel).Positions? ==>
              var p := MarksOf(sel).positions;
              forall m: nat :: m in p <==> 1 <= m <= |fill| && fill[m - 1] > FillRatioThreshold
    ensures MarksOf(sel).Positions? ==>
              var p := MarksOf(sel).positions;
              forall j, k :: 0 <= j < k < |p| ==>
                1 <= p[j] <= |fill| && 1 <= p[k] <= |fill| && p[j] != p[k] && fill[p[j] - 1] >= fill[p[k] - 1]
  {
    NoSelection(sel, fill);
    if sel != [] {
      var p := OneBased(sel);
      assert MarksOf(sel) == Positions(p);
      OneBasedMembers(sel, fill);
      SelectionBounds(sel, fill);
      OneBasedOrder(sel, fill);
    }
  }

  lemma SelectionBounds(sel: seq<nat>, fill: seq<real>)
    requires forall i: nat :: i in sel ==> i < |fill|
    ensures forall j :: 0 <= j < |sel| ==> sel[j] < |fill|
  {
    forall j | 0 <= j < |sel| ensures sel[j] < |fill| {
      assert sel[j] in sel;
    }
  }

  /** The selection stated on the fill ratios alone. */
  lemma SelectionFacts(bubbles: seq<Bubble>)
    ensures var sel := AnalyzeSelections(bubbles);
            var fill := FillRatios(bubbles);
            (forall i: nat :: i in sel <==> i < |fill| && fill[i] > FillRatioThreshold) &&
            (forall j, k :: 0 <= j < k < |sel| ==>
               sel[j] < |fill| && sel[k] < |fill| && sel[j] != sel[k] && fill[sel[j]] >= fill[sel[k]])
  {
    var sel := AnalyzeSelections(bubbles);
    AnalyzeSelectionsSpec(bubbles);
    var fill := FillRatios(bubbles);
    forall i: nat ensures i in sel <==> i < |fill| && fill[i] > FillRatioThreshold {
      if i < |fill| {
        assert fill[i] == bubbles[i].fillRatio;
      }
    }
    forall j, k | 0 <= j < k < |sel|
      ensures sel[j] < |fill| && sel[k] < |fill| && sel[j] != sel[k] && fill[sel[j]] >= fill[sel[k]]
    {
      assert fill[sel[j]] == bubbles[sel[j]].fillRatio && fill[sel[k]] == bubbles[sel[k]].fillRatio;
    }
  }

  lemma NoSelection(sel: seq<nat>, fill: seq<real>)
    requires forall i: nat :: i in sel <==> i < |fill| && fill[i] > FillRatioThreshold
    ensures sel == [] <==> forall i :: 0 <= i < |fill| ==> fill[i] <= FillRatioThreshold
  {
    if sel == [] {
      forall i | 0 <= i < |fill| ensures fill[i] <= FillRatioThreshold {
        assert i !in sel;
      }
    } else {
      assert sel[0] in sel;
    }
  }

  lemma OneBasedMembers(sel: seq<nat>, fill: seq<real>)
    requires forall i: nat :: i in sel <==> i < |fill| && fill[i] > FillRatioThreshold
    ensures forall m: nat :: m in OneBased(sel) <==> 1 <= m <= |fill| && fill[m - 1] > FillRatioThreshold
  {
    var p := OneBased(sel);
    forall m: nat ensures m in p <==> 1 <= m <= |fill| && fill[m - 1] > FillRatioThreshold {
      if m in p {
        var k :| 0 <= k < |p| && p[k] == m;
        assert sel[k] in sel;
      }
      if 1 <= m <= |fill| && fill[m - 1] > FillRatioThreshold {
        assert (m - 1) in sel;
        var k :| 0 <= k < |sel| && sel[k] == m - 1;
        assert p[k] == m;
      }
    }
  }

  lemma OneBasedOrder(sel: seq<nat>, fill: seq<real>)
    requires forall j :: 0 <= j < |sel| ==> sel[j] < |fill|
    requires forall j, k :: 0 <= j < k < |sel| ==> sel[j] != sel[k] && fill[sel[j]] >= fill[sel[k]]
    ensures var p := OneBased(sel);
            (forall j :: 0 <= j < |p| ==> 1 <= p[j] <= |fill|) &&
            (forall j, k :: 0 <= j < k < |p| ==> p[j] != p[k] && fill[p[j] - 1] >= fill[p[k] - 1])
  {
    var p := OneBased(sel);
    forall j, k | 0 <= j < k < |p| ensures p[j] != p[k] && fill[p[j] - 1] >= fill[p[k] - 1] {
      assert p[j] - 1 == sel[j] && p[k] - 1 == sel[k];
    }
  }

  /** The marks of a readable image, stated on its fill ratios. */
  lemma ReportMarks(number: nat, contours: seq<Contour>)
    ensures var r := ReportOf(number, Some(contours));
            (r.selected.NullMark? <==> forall i :: 0 <= i < |r.fillRatios| ==> r.fillRatios[i] <= FillRatioThreshold) &&
            (r.selected.Positions? ==>
               forall m: nat :: m in r.selected.positions <==>
                 1 <= m <= |r.fillRatios| && r.fillRatios[m - 1] > FillRatioThreshold)
  {
    var bubbles := KeptOf(contours);
    SelectionFacts(bubbles);
    MarksSpec(AnalyzeSelections(bubbles), FillRatios(bubbles));
  }

  /** A file with the number its name parses to, the key the listing is sorted by. */
  datatype Keyed = Keyed(number: nat, file: QuestionFile)

  function KeyNumber(k: Keyed): real
  {
    k.number as real
  }

  /** `key=get_question_number` over the whole listing: it parses every name, the
      `question_*.jpg` ones and the others alike, so one unparsable name is a
      ValueError for the section. */
  function KeysOf(files: seq<QuestionFile>): (r: Outcome<seq<Keyed>>)
    ensures r.Raised? <==> exists i :: 0 <= i < |files| && FileNumber(files[i].name).None?
    ensures r.Raised? ==> r == Raised("ValueError")
    ensures r.Done? ==>
              (|r.value| == |files| &&
               forall i :: 0 <= i < |files| ==>
                 FileNumber(files[i].name).Some? && r.value[i] == Keyed(FileNumber(files[i].name).value, files[i]))
  {
    var n := |files|;
    if n == 0 then Done([])
    else
      var init := files[..n - 1];
      assert forall i :: 0 <= i < n - 1 ==> init[i] == files[i];
      match KeysOf(init)
      case Raised(x) => Raised(x)
      case Done(keyed) =>
        match FileNumber(files[n - 1].name)
        case None => Raised("ValueError")
        case Some(number) => Done(keyed + [Keyed(number, files[n - 1])])
  }

  /** The `question_*.jpg` files among `keyed`, in their order there. */
  function QuestionImages(keyed: seq<Keyed>): (f: seq<Keyed>)
    ensures forall k :: k in f <==> k in keyed && IsQuestionImage(k.file.name)
  {
    var n := |keyed|;
    if n == 0 then []
    else
      var init := keyed[..n - 1];
      assert forall k :: k in keyed <==> k in init || k == keyed[n - 1];
      QuestionImages(init) + (if IsQuestionImage(keyed[n - 1].file.name) then [keyed[n - 1]] else [])
  }

  /** The record of one numbered file of `section`. */
  function FileReport(section: string, k: Keyed): Report
  {
    ReportOf(EvaluateQuestions.AdjustedQuestionNumber(section, k.number), k.file.contours)
  }

  /** The records of the question images among `sorted`, in that order. */
  function ReportsOf(sorted: seq<Keyed>, section: string): seq<Report>
  {
    var f := QuestionImages(sorted);
    seq(|f|, k requires 0 <= k < |f| => FileReport(section, f[k]))
  }

  /** One more file appends its record when it is a question image. */
  lemma ReportsOfSnoc(s: seq<Keyed>, x: Keyed, section: string)
    ensures ReportsOf(s + [x], section) ==
            ReportsOf(s, section) + (if IsQuestionImage(x.file.name) then [FileReport(section, x)] else [])
  {
    assert (s + [x])[..|s|] == s;
    var f := QuestionImages(s);
    assert QuestionImages(s + [x]) == f + (if IsQuestionImage(x.file.name) then [x] else []);
  }

  /** `process_section`: a missing directory gives no records; otherwise the listing
      sorted by file number (a stable sort) and filtered to `question_*.jpg`. */
  function SectionReports(listing: Listing, section: string): Outcome<seq<Report>>
  {
    match listing
    case Missing => Done([])
    case Listed(files) =>
      match KeysOf(files)
      case Raised(x) => Raised(x)
      case Done(keyed) => Done(ReportsOf(StableSort.SortBy(keyed, KeyNumber, false), section))
  }

  /** `process_section` step by step: the keys, the sort, then the loop that appends
      one record per question image. */
  method ProcessSection(listing: Listing, section: string) returns (r: Outcome<seq<Report>>)
    ensures r == SectionReports(listing, section)
  {
    if listing.Missing? {
      return Done([]);
    }
    var keys := NumberFiles(listing.files);
    if keys.Raised? {
      return Raised(keys.exception);
    }
    var sorted := StableSort.SortBy(keys.value, KeyNumber, false);
    var results := ReportFiles(sorted, section);
    return Done(results);
  }

  /** The sort keys of the whole listing, parsed one by one. */
  method NumberFiles(files: seq<QuestionFile>) returns (r: Outcome<seq<Keyed>>)
    ensures r == KeysOf(files)
  {
    var keyed: seq<Keyed> := [];
    for i := 0 to |files|
      invariant |keyed| == i
      invariant forall j :: 0 <= j < i ==>
                  FileNumber(files[j].name).Some? && keyed[j] == Keyed(FileNumber(files[j].name).value, files[j])
    {
      var number := FileNumber(files[i].name);
      if number.None? {
        return Raised("ValueError");
      }
      keyed := keyed + [Keyed(number.value, files[i])];
    }
    var keys := KeysOf(files);
    assert keys.Done?;
    assert keys.value == keyed;
    return Done(keyed);
  }

  /** The loop of `process_section` over the sorted listing. */
  method ReportFiles(sorted: seq<Keyed>, section: string) returns (results: seq<Report>)
    ensures results == ReportsOf(sorted, section)
  {
    results := [];
    for j := 0 to |sorted|
      invariant results == ReportsOf(sorted[..j], section)
    {
      assert sorted[..j + 1] == sorted[..j] + [sorted[j]];
      ReportsOfSnoc(sorted[..j], sorted[j], section);
      var file := sorted[j].file;
      if IsQuestionImage(file.name) {
        var questionNumber := EvaluateQuestions.AdjustedQuestionNumber(section, sorted[j].number);
        results := results + [ReportOf(questionNumber, file.contours)];
      }
    }
    assert sorted[..|sorted|] == sorted;
  }

  /** A missing directory gives no records; an unparsable name anywhere in the
      listing is a ValueError. */
  lemma SectionReportsOutcome(listing: Listing, section: string)
    ensures listing.Missing? ==> SectionReports(listing, section) == Done([])
    ensures listing.Listed? ==>
              (SectionReports(listing, section).Raised? <==>
                 exists i :: 0 <= i < |listing.files| && FileNumber(listing.files[i].name).None?)
  {
  }

  /** Every `question_*.jpg` file of the listing has its record among a section's
      records. */
  lemma SectionReportsComplete(files: seq<QuestionFile>, section: string)
    requires SectionReports(Listed(files), section).Done?
    ensures forall f :: f in files && IsQuestionImage(f.name) ==>
              FileNumber(f.name).Some? &&
              ReportOf(EvaluateQuestions.AdjustedQuestionNumber(section, FileNumber(f.name).value), f.contours) in
                SectionReports(Listed(files), section).value
  {
    var keyed := KeysOf(files).value;
    var sorted := StableSort.SortBy(keyed, KeyNumber, false);
    var images := QuestionImages(sorted);
    var rs := ReportsOf(sorted, section);
    assert SectionReports(Listed(files), section).value == rs;
    forall f | f in files && IsQuestionImage(f.name)
      ensures FileNumber(f.name).Some? &&
              ReportOf(EvaluateQuestions.AdjustedQuestionNumber(section, FileNumber(f.name).value), f.contours) in rs
    {
      var i :| 0 <= i < |files| && files[i] == f;
      assert keyed[i] in multiset(sorted);
      assert keyed[i] in images;
      var m :| 0 <= m < |images| && images[m] == keyed[i];
      assert rs[m] == FileReport(section, keyed[i]);
    }
  }

  /** Every record of a section comes from a `question_*.jpg` file of the listing. */
  lemma SectionReportsSound(files: seq<QuestionFile>, section: string)
    requires SectionReports(Listed(files), section).Done?
    ensures forall r :: r in SectionReports(Listed(files), section).value ==>
              exists f :: f in files && IsQuestionImage(f.name) && FileNumber(f.name).Some? &&
                r == ReportOf(EvaluateQuestions.AdjustedQuestionNumber(section, FileNumber(f.name).value), f.contours)
  {
    var keyed := KeysOf(files).value;
    var sorted := StableSort.SortBy(keyed, KeyNumber, false);
    var images := QuestionImages(sorted);
    var rs := ReportsOf(sorted, section);
    assert SectionReports(Listed(files), section).value == rs;
    forall r | r in rs
      ensures exists f :: f in files && IsQuestionImage(f.name) && FileNumber(f.name).Some? &&
                r == ReportOf(EvaluateQuestions.AdjustedQuestionNumber(section, FileNumber(f.name).value), f.contours)
    {
      var m :| 0 <= m < |rs| && rs[m] == r;
      var x := images[m];
      assert x in images;
      assert x in multiset(keyed);
      KeyedFromFiles(files, x);
      assert r == FileReport(section, x);
      var f := x.file;
      assert f in files && IsQuestionImage(f.name) && FileNumber(f.name) == Some(x.number);
    }
  }

  /** A numbered file comes from the listing, with its own number. */
  lemma KeyedFromFiles(files: seq<QuestionFile>, x: Keyed)
    requires KeysOf(files).Done? && x in KeysOf(files).value
    ensures x.file in files && FileNumber(x.file.name) == Some(x.number)
  {
    var keyed := KeysOf(files).value;
    var i :| 0 <= i < |keyed| && keyed[i] == x;
    assert files[i] == x.file;
  }

  /** A section's records are in ascending order of question number: the listing is
      sorted by file number and the offset is the same for the whole section. */
  lemma SectionReportsOrdered(files: seq<QuestionFile>, section: string)
    requires SectionReports(Listed(files), section).Done?
    ensures var rs := SectionReports(Listed(files), section).value;
            forall j, k :: 0 <= j < k < |rs| ==> rs[j].questionNumber <= rs[k].questionNumber
  {
    var keyed := KeysOf(files).value;
    var sorted := StableSort.SortBy(keyed, KeyNumber, false);
    var images := QuestionImages(sorted);
    var rs := ReportsOf(sorted, section);
    assert SectionReports(Listed(files), section).value == rs;
    QuestionImagesSorted(sorted);
    forall j, k | 0 <= j < k < |rs| ensures rs[j].questionNumber <= rs[k].questionNumber {
      assert KeyNumber(images[j]) <= KeyNumber(images[k]);
      FileReportNumber(section, images[j]);
      FileReportNumber(section, images[k]);
    }
  }

  lemma FileReportNumber(section: string, k: Keyed)
    ensures FileReport(section, k).questionNumber == EvaluateQuestions.AdjustedQuestionNumber(section, k.number)
  {
  }

  /** Filtering a listing sorted by file number keeps it sorted. */
  lemma {:induction false} QuestionImagesSorted(sorted: seq<Keyed>)
    requires StableSort.SortedBy(sorted, KeyNumber, false)
    ensures StableSort.SortedBy(QuestionImages(sorted), KeyNumber, false)
  {
    var n := |sorted|;
    if n > 0 {
      var init := sorted[..n - 1];
      var last := sorted[n - 1];
      assert StableSort.SortedBy(init, KeyNumber, false) by {
        forall i, j | 0 <= i < j < |init| ensures KeyNumber(init[i]) <= KeyNumber(init[j]) {
          assert init[i] == sorted[i] && init[j] == sorted[j];
        }
      }
      QuestionImagesSorted(init);
      var f0 := QuestionImages(init);
      var f := QuestionImages(sorted);
      if IsQuestionImage(last.file.name) {
        assert f == f0 + [last];
        forall j, k | 0 <= j < k < |f| ensures KeyNumber(f[j]) <= KeyNumber(f[k]) {
          assert f[j] == f0[j] && f0[j] in init;
          if k < |f0| {
            assert f[k] == f0[k];
          } else {
            var i :| 0 <= i < |init| && init[i] == f0[j];
            assert sorted[i] == init[i];
          }
        }
      } else {
        assert f == f0;
      }
    }
  }

  /** The three sections of a sample, in the order `process_sample` visits them. */
  datatype Sample = Sample(left: Listing, middle: Listing, right: Listing)

  /** The records of a sample, section by section. */
  datatype SampleReports = SampleReports(left: seq<Report>, middle: seq<Report>, right: seq<Report>)

  /** A listed section with a file name that `int()` cannot read. */
  ghost predicate HasUnparsableName(listing: Listing)
  {
    listing.Listed? && exists i :: 0 <= i < |listing.files| && FileNumber(listing.files[i].name).None?
  }

  /** `process_sample`: left, middle, right, the first ValueError ending it; it
      raises exactly when some section lists a name without a number. */
  function ProcessSample(sample: Sample): (r: Outcome<SampleReports>)
    ensures r.Raised? <==>
              HasUnparsableName(sample.left) || HasUnparsableName(sample.middle) || HasUnparsableName(sample.right)
    ensures r.Raised? ==> r.exception == "ValueError"
  {
    SectionReportsOutcome(sample.left, Left);
    SectionReportsOutcome(sample.middle, Middle);
    SectionReportsOutcome(sample.right, Right);
    match SectionReports(sample.left, Left)
    case Raised(x) => Raised(x)
    case Done(left) =>
      match SectionReports(sample.middle, Middle)
      case Raised(x) => Raised(x)
      case Done(middle) =>
        match SectionReports(sample.right, Right)
        case Raised(x) => Raised(x)
        case Done(right) => Done(SampleReports(left, middle, right))
  }

  /** The sections of a sample number their files `question_1` to `question_15` onto
      31-45 (left), 16-30 (middle) and 1-15 (right), the offsets the scanner uses. */
  lemma SampleNumbering(section: string, local: nat)
    ensures section in SectionOrder ==>
              GlobalNumber(section, local) == Some(EvaluateQuestions.AdjustedQuestionNumber(section, local))
    ensures section !in SectionOrder ==> EvaluateQuestions.AdjustedQuestionNumber(section, local) == local
  {
  }

  function QuestionNumber(r: Report): real
  {
    r.questionNumber as real
  }

  /** `all_questions` of `save_results`: the three sections concatenated in the order
      left, middle, right, then sorted by question number (a stable sort). */
  function Combined(results: SampleReports): seq<Report>
  {
    StableSort.SortBy(results.left + results.middle + results.right, QuestionNumber, false)
  }

  /** `save_results` up to the summary text: extend the list section by section, then
      sort it in place. */
  method CombineResults(results: SampleReports) returns (allQuestions: seq<Report>)
    ensures allQuestions == Combined(results)
  {
    allQuestions := [];
    var sections := [results.left, results.middle, results.right];
    for k := 0 to |sections|
      invariant allQuestions == Raster.Flatten(sections[..k])
    {
      assert sections[..k + 1] == sections[..k] + [sections[k]];
      Raster.FlattenAppend(sections[..k], sections[k]);
      allQuestions := allQuestions + sections[k];
    }
    assert sections[..3] == sections;
    FlattenThree(results.left, results.middle, results.right);
    allQuestions := StableSort.SortBy(allQuestions, QuestionNumber, false);
  }

  lemma FlattenThree(a: seq<Report>, b: seq<Report>, c: seq<Report>)
    ensures Raster.Flatten([a, b, c]) == a + b + c
  {
    var parts := [a, b, c];
    assert parts[1..] == [b, c] && [b, c][1..] == [c] && [c][1..] == [];
    assert Raster.Flatten([c]) == c;
  }

  /** The summary list holds every record of the three sections once, so its length
      is the total `main` reports; it is in ascending order of question number, and
      records sharing a number stay in the order left, middle, right. */
  lemma CombinedSpec(results: SampleReports, x: nat)
    ensures var all := Combined(results);
            var joined := results.left + results.middle + results.right;
            |all| == |results.left| + |results.middle| + |results.right| &&
            multiset(all) == multiset(joined) &&
            (forall j, k :: 0 <= j < k < |all| ==> all[j].questionNumber <= all[k].questionNumber) &&
            StableSort.WithKey(all, QuestionNumber, x as real) == StableSort.WithKey(joined, QuestionNumber, x as real)
  {
    var joined := results.left + results.middle + results.right;
    StableSort.SortIsStable(joined, QuestionNumber, false, x as real);
  }

  /** A record of a `question_*.jpg` file of a listed section. */
  ghost predicate RecordOf(listing: Listing, section: string, r: Report)
  {
    listing.Listed? &&
    exists f :: f in listing.files && IsQuestionImage(f.name) && FileNumber(f.name).Some? &&
      r == ReportOf(EvaluateQuestions.AdjustedQuestionNumber(section, FileNumber(f.name).value), f.contours)
  }

  /** A section's records are exactly the records of its question images. */
  lemma SectionRecords(listing: Listing, section: string)
    requires SectionReports(listing, section).Done?
    ensures forall r :: r in SectionReports(listing, section).value <==> RecordOf(listing, section, r)
  {
    if listing.Listed? {
      var files := listing.files;
      SectionReportsComplete(files, section);
      SectionReportsSound(files, section);
    }
  }

  /** The summary list of a sample that `process_sample` completes holds exactly the
      records of the question images of its three sections, in ascending order of
      question number. */
  lemma SampleSummary(sample: Sample)
    requires ProcessSample(sample).Done?
    ensures var all := Combined(ProcessSample(sample).value);
            forall r :: r in all <==>
              RecordOf(sample.left, Left, r) || RecordOf(sample.middle, Middle, r) || RecordOf(sample.right, Right, r)
    ensures var all := Combined(ProcessSample(sample).value);
            forall j, k :: 0 <= j < k < |all| ==> all[j].questionNumber <= all[k].questionNumber
  {
    var results := ProcessSample(sample).value;
    SectionRecords(sample.left, Left);
    SectionRecords(sample.middle, Middle);
    SectionRecords(sample.right, Right);
    CombinedSpec(results, 0);
    var all := Combined(results);
    var joined := results.left + results.middle + results.right;
    forall r ensures r in all <==> r in joined {
      assert r in all <==> r in multiset(all);
      assert r in joined <==> r in multiset(joined);
    }
  }
}

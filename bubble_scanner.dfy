/** bubble_scanner.py: the end-to-end scan of one answer sheet. The cropped sheet is
    cut into three sections; each section is cut into question rows written as
    `question_<n>.jpg`; every question image goes through the bubble detector, and the
    answers are numbered globally (right section 1-15, middle 16-30, left 31-45),
    sorted by question number and gathered in a dictionary keyed `question_<N>`.
    The files a section's questions directory holds are given as a listing: each
    file's name and, when the image can be read, the contours the detector finds. */
module BubbleScanner {
  import opened Basics
  import opened QuestionFiles
  import opened BubbleDetector
  import opened Dicts
  import StableSort

  const Right: string := "right"
  const Middle: string := "middle"
  const Left: string := "left"

  /** The order of the `sections` dictionary, which is the order they are scanned in. */
  const SectionOrder: seq<string> := [Right, Middle, Left]

  /** Questions per section. */
  const SectionSize: nat := 15

  /** `section_offsets[section]`; any other name is the KeyError path, None. */
  function SectionOffset(section: string): Option<nat>
  {
    if section == Left then Some(30)
    else if section == Middle then Some(15)
    else if section == Right then Some(0)
    else None
  }

  /** `get_section_question_number`: the global number of a section's local question. */
  function GlobalNumber(section: string, local: nat): (g: Option<nat>)
    ensures g.Some? <==> section in SectionOrder
    ensures g.Some? ==> g.value - local == SectionOffset(section).value
  {
    match SectionOffset(section)
    case Some(offset) => Some(offset + local)
    case None => None
  }

  /** The three sections number their local questions 1-15 onto disjoint ranges that
      together are 1-45: every global number in 1-45 comes from exactly one section
      and local number, and no other global number comes from a local number in 1-15. */
  lemma SectionsPartitionQuestions(g: int)
    ensures (1 <= g <= 3 * SectionSize) <==>
              exists s, n :: s in SectionOrder && 1 <= n <= SectionSize && GlobalNumber(s, n) == Some(g)
    ensures forall s, n, t, m ::
              (s in SectionOrder && t in SectionOrder && 1 <= n <= SectionSize && 1 <= m <= SectionSize &&
               GlobalNumber(s, n) == Some(g) && GlobalNumber(t, m) == Some(g)) ==> s == t && n == m
  {
    assert Left != Middle && Left != Right && Middle != Right;
    if 1 <= g <= SectionSize {
      assert GlobalNumber(Right, g) == Some(g);
    } else if SectionSize < g <= 2 * SectionSize {
      assert GlobalNumber(Middle, g - 15) == Some(g);
    } else if 2 * SectionSize < g <= 3 * SectionSize {
      assert GlobalNumber(Left, g - 30) == Some(g);
    }
  }

  /** `[s for s in selected if s < 4]`. */
  function BelowFour(selected: seq<nat>): (valid: seq<nat>)
    ensures forall x :: x in valid <==> x in selected && x < MaxBubbles
    ensures (forall k :: 0 <= k < |selected| ==> selected[k] < MaxBubbles) ==> valid == selected
  {
    if selected == [] then []
    else (if selected[0] < MaxBubbles then [selected[0]] else []) + BelowFour(selected[1..])
  }

  /** The answer recorded for a question: None when nothing is selected; otherwise the
      selected positions below 4 in their selection order, or None if there is none. */
  function AnswerOf(selected: seq<nat>): Option<seq<nat>>
  {
    if |selected| > 0 && |BelowFour(selected)| > 0 then Some(BelowFour(selected)) else None
  }

  /** One `question_result`. */
  datatype QuestionResult = QuestionResult(
    number: nat, answer: Option<seq<nat>>, fillRatios: seq<real>, bubblesDetected: nat)

  /** `[b['fill_ratio'] for b in bubbles]`. */
  function FillRatios(bubbles: seq<Bubble>): (r: seq<real>)
    ensures |r| == |bubbles| && forall k :: 0 <= k < |r| ==> r[k] == bubbles[k].fillRatio
  {
    seq(|bubbles|, k requires 0 <= k < |bubbles| => bubbles[k].fillRatio)
  }

  /** The record of a readable question image with global number `number`. */
  function ResultOf(number: nat, contours: seq<Contour>): QuestionResult
  {
    var bubbles := KeptOf(contours);
    QuestionResult(number, AnswerOf(AnalyzeSelections(bubbles)), FillRatios(bubbles), |bubbles|)
  }

  /** What a record promises: one fill ratio per detected bubble and at most four
      bubbles; an answer exactly when some bubble is filled beyond the threshold, and
      then the answer holds exactly those positions, each once, most filled first. */
  lemma ResultSpec(number: nat, contours: seq<Contour>)
    ensures var r := ResultOf(number, contours);
            r.number == number && r.bubblesDetected == |r.fillRatios| <= MaxBubbles &&
            (r.answer.Some? <==> exists i :: 0 <= i < |r.fillRatios| && r.fillRatios[i] > FillRatioThreshold) &&
            (r.answer.Some? ==>
              (forall i: nat :: i in r.answer.value <==> i < |r.fillRatios| && r.fillRatios[i] > FillRatioThreshold) &&
              (forall j, k :: 0 <= j < k < |r.answer.value| ==>
                 r.answer.value[j] < |r.fillRatios| && r.answer.value[k] < |r.fillRatios| &&
                 r.answer.value[j] != r.answer.value[k] &&
                 r.fillRatios[r.answer.value[j]] >= r.fillRatios[r.answer.value[k]]))
  {
    KeptBubbles(contours);
    AnswerSpec(KeptOf(contours));
  }

  /** The answer to at most four bubbles, stated on their fill ratios. */
  lemma AnswerSpec(bubbles: seq<Bubble>)
    requires |bubbles| <= MaxBubbles
    ensures var answer := AnswerOf(AnalyzeSelections(bubbles));
            var fill := FillRatios(bubbles);
            (answer.Some? <==> exists i :: 0 <= i < |fill| && fill[i] > FillRatioThreshold) &&
            (answer.Some? ==>
              (forall i: nat :: i in answer.value <==> i < |fill| && fill[i] > FillRatioThreshold) &&
              (forall j, k :: 0 <= j < k < |answer.value| ==>
                 answer.value[j] < |fill| && answer.value[k] < |fill| &&
                 answer.value[j] != answer.value[k] && fill[answer.value[j]] >= fill[answer.value[k]]))
  {
    var sel := AnalyzeSelections(bubbles);
    AnalyzeSelectionsSpec(bubbles);
    AnswerIsSelection(sel);
    SelectionOnFills(bubbles, sel);
  }

  /** The selection properties restated on the list of fill ratios. */
  lemma SelectionOnFills(bubbles: seq<Bubble>, sel: seq<nat>)
    requires forall k :: 0 <= k < |sel| ==> sel[k] < |bubbles|
    requires forall i: nat :: i in sel <==> i < |bubbles| && bubbles[i].fillRatio > FillRatioThreshold
    requires forall j, k :: 0 <= j < k < |sel| ==>
               sel[j] != sel[k] && bubbles[sel[j]].fillRatio >= bubbles[sel[k]].fillRatio
    ensures var answer := if sel == [] then None else Some(sel);
            var fill := FillRatios(bubbles);
            (answer.Some? <==> exists i :: 0 <= i < |fill| && fill[i] > FillRatioThreshold) &&
            (answer.Some? ==>
              (forall i: nat :: i in answer.value <==> i < |fill| && fill[i] > FillRatioThreshold) &&
              (forall j, k :: 0 <= j < k < |answer.value| ==>
                 answer.value[j] < |fill| && answer.value[k] < |fill| &&
                 answer.value[j] != answer.value[k] && fill[answer.value[j]] >= fill[answer.value[k]]))
  {
    var fill := FillRatios(bubbles);
    if sel != [] {
      assert sel[0] in sel;
    }
    if exists i :: 0 <= i < |fill| && fill[i] > FillRatioThreshold {
      var i :| 0 <= i < |fill| && fill[i] > FillRatioThreshold;
      assert i in sel;
    }
  }

  /** A selection of positions below 4 passes the `s < 4` filter whole, so the answer
      is the selection itself, or None when it is empty. */
  lemma AnswerIsSelection(sel: seq<nat>)
    requires forall k :: 0 <= k < |sel| ==> sel[k] < MaxBubbles
    ensures AnswerOf(sel) == if sel == [] then None else Some(sel)
  {
  }

  /** A file of a section's questions directory: its name and, if the image can be
      read, the contours found in it. */
  datatype QuestionFile = QuestionFile(name: string, contours: Option<seq<Contour>>)

  /** A section's questions directory, or its absence. */
  datatype Listing = Missing | Listed(files: seq<QuestionFile>)

  /** The questions directories of the three sections of a cropped sheet. */
  datatype Sheet = Sheet(right: Listing, middle: Listing, left: Listing)

  /** The `sections` dictionary: section names with their directories, in scan order. */
  function Sections(sheet: Sheet): (ss: seq<(string, Listing)>)
    ensures |ss| == |SectionOrder| && forall k :: 0 <= k < |ss| ==> ss[k].0 == SectionOrder[k]
  {
    [(Right, sheet.right), (Middle, sheet.middle), (Left, sheet.left)]
  }

  /** The files the scanner reads, in listing order. */
  function ScannerInputs(files: seq<QuestionFile>): (inputs: seq<QuestionFile>)
    ensures forall f :: f in inputs <==> f in files && IsScannerInput(f.name)
    ensures |inputs| <= |files|
  {
    if files == [] then []
    else (if IsScannerInput(files[0].name) then [files[0]] else []) + ScannerInputs(files[1..])
  }

  /** The records of a section's question files, in order: a name whose number does not
      parse raises ValueError, an unknown section raises KeyError, and an unreadable
      image is skipped. */
  function SectionResults(inputs: seq<QuestionFile>, section: string): Outcome<seq<QuestionResult>>
  {
    if inputs == [] then Done([])
    else match SectionResults(inputs[..|inputs| - 1], section)
      case Raised(e) => Raised(e)
      case Done(rs) => FileStep(rs, inputs[|inputs| - 1], section)
  }

  /** One pass of the loop, after the records `rs`: a name whose number does not parse
      raises ValueError, an unknown section raises KeyError, an unreadable image adds
      nothing and a readable one adds its record. */
  function FileStep(rs: seq<QuestionResult>, f: QuestionFile, section: string): Outcome<seq<QuestionResult>>
  {
    match FileNumber(f.name)
    case None => Raised("ValueError")
    case Some(local) =>
      match GlobalNumber(section, local)
      case None => Raised("KeyError")
      case Some(g) => if f.contours.None? then Done(rs) else Done(rs + [ResultOf(g, f.contours.value)])
  }

  /** The records of all sections, section after section; a missing directory adds none. */
  function CollectResults(sections: seq<(string, Listing)>): Outcome<seq<QuestionResult>>
  {
    if sections == [] then Done([])
    else match CollectResults(sections[..|sections| - 1])
      case Raised(e) => Raised(e)
      case Done(rs) => SectionStep(rs, sections[|sections| - 1])
  }

  /** One pass of the loop over the sections, after the records `rs`. */
  function SectionStep(rs: seq<QuestionResult>, section: (string, Listing)): Outcome<seq<QuestionResult>>
  {
    match section.1
    case Missing => Done(rs)
    case Listed(files) =>
      match SectionResults(ScannerInputs(files), section.0)
      case Raised(e) => Raised(e)
      case Done(more) => Done(rs + more)
  }

  /** The sort key `x['question_number']`. */
  function Number(r: QuestionResult): real
  {
    r.number as real
  }

  /** The dictionary key of question n. */
  function QuestionKey(n: nat): string
  {
    Prefix + Decimal(n)
  }

  /** The value stored for a record: the record without its number. */
  datatype Entry = Entry(answer: Option<seq<nat>>, fillRatios: seq<real>, bubblesDetected: nat)

  function EntryOf(r: QuestionResult): Entry
  {
    Entry(r.answer, r.fillRatios, r.bubblesDetected)
  }

  /** `results_dict` after storing the records of `rs` one after another. */
  function ResultsDict(rs: seq<QuestionResult>): seq<(string, Entry)>
  {
    if rs == [] then []
    else
      var last := rs[|rs| - 1];
      Put(ResultsDict(rs[..|rs| - 1]), QuestionKey(last.number), EntryOf(last))
  }

  /** What `process_bubble_sheet` returns for a sheet: None when the sheet could not be
      cropped, otherwise the dictionary of the records sorted by question number. */
  function Scan(sheet: Option<Sheet>): Outcome<Option<seq<(string, Entry)>>>
  {
    match sheet
    case None => Done(None)
    case Some(s) =>
      match CollectResults(Sections(s))
      case Raised(e) => Raised(e)
      case Done(all) => Done(Some(ResultsDict(StableSort.SortBy(all, Number, false))))
  }

  /** `process_bubble_sheet` without its file output: `sheet` is None when
      `process_images` could not crop the sheet. */
  method ProcessBubbleSheet(sheet: Option<Sheet>) returns (r: Outcome<Option<seq<(string, Entry)>>>)
    ensures r == Scan(sheet)
  {
    if sheet.None? {
      return Done(None);
    }
    var collected := CollectSections(Sections(sheet.value));
    if collected.Raised? {
      return Raised(collected.exception);
    }
    var sorted := StableSort.SortBy(collected.value, Number, false);
    var resultsDict := StoreResults(sorted);
    return Done(Some(resultsDict));
  }

  /** The loop over the sections: each present directory adds its records. */
  method CollectSections(sections: seq<(string, Listing)>) returns (r: Outcome<seq<QuestionResult>>)
    ensures r == CollectResults(sections)
  {
    var allAnswers: seq<QuestionResult> := [];
    var i := 0;
    while i < |sections|
      invariant 0 <= i <= |sections|
      invariant CollectResults(sections[..i]) == Done(allAnswers)
    {
      var (name, listing) := sections[i];
      assert sections[..i + 1][..i] == sections[..i];
      assert CollectResults(sections[..i + 1]) == SectionStep(allAnswers, sections[i]);
      if listing.Listed? {
        var found := ProcessSection(listing.files, name);
        if found.Raised? {
          assert CollectResults(sections[..i + 1]) == Raised(found.exception);
          CollectStopsAtError(sections, i + 1);
          assert sections[..|sections|] == sections;
          return Raised(found.exception);
        }
        allAnswers := allAnswers + found.value;
      }
      i := i + 1;
    }
    assert sections[..i] == sections;
    return Done(allAnswers);
  }

  /** The loop `results_dict[f"question_{n}"] = ...` over the sorted records. */
  method StoreResults(sorted: seq<QuestionResult>) returns (resultsDict: seq<(string, Entry)>)
    ensures resultsDict == ResultsDict(sorted)
  {
    resultsDict := [];
    for j := 0 to |sorted|
      invariant resultsDict == ResultsDict(sorted[..j])
    {
      assert sorted[..j + 1][..j] == sorted[..j];
      resultsDict := Put(resultsDict, QuestionKey(sorted[j].number), EntryOf(sorted[j]));
    }
    assert sorted[..|sorted|] == sorted;
  }

  /** The loop over one section's question files. */
  method ProcessSection(files: seq<QuestionFile>, section: string) returns (r: Outcome<seq<QuestionResult>>)
    ensures r == SectionResults(ScannerInputs(files), section)
  {
    r := ScanFiles(ScannerInputs(files), section);
  }

  /** The loop itself, over the files the scanner reads. */
  method ScanFiles(questionFiles: seq<QuestionFile>, section: string) returns (r: Outcome<seq<QuestionResult>>)
    ensures r == SectionResults(questionFiles, section)
  {
    var results: seq<QuestionResult> := [];
    for i := 0 to |questionFiles|
      invariant SectionResults(questionFiles[..i], section) == Done(results)
    {
      assert questionFiles[..i + 1][..i] == questionFiles[..i];
      var step := ProcessFile(results, questionFiles[i], section);
      assert SectionResults(questionFiles[..i + 1], section) == step;
      if step.Raised? {
        SectionStopsAtError(questionFiles, section, i + 1);
        assert questionFiles[..|questionFiles|] == questionFiles;
        return step;
      }
      results := step.value;
    }
    assert questionFiles[..|questionFiles|] == questionFiles;
    return Done(results);
  }

  /** One pass of the loop: number the file, then scan it if it can be read. */
  method ProcessFile(results: seq<QuestionResult>, f: QuestionFile, section: string)
    returns (r: Outcome<seq<QuestionResult>>)
    ensures r == FileStep(results, f, section)
  {
    var local := FileNumber(f.name);
    if local.None? {
      return Raised("ValueError");
    }
    var global := GlobalNumber(section, local.value);
    if global.None? {
      return Raised("KeyError");
    }
    if f.contours.Some? {
      var result := ProcessQuestion(global.value, f.contours.value);
      return Done(results + [result]);
    }
    return Done(results);
  }

  /** The body of the loop for a readable question image: detect, select, and keep
      the selected positions below 4 as the answer. */
  method ProcessQuestion(number: nat, contours: seq<Contour>) returns (result: QuestionResult)
    ensures result == ResultOf(number, contours)
  {
    var bubbles, rejected := FindBubbles(contours);
    var selected := AnalyzeSelections(bubbles);
    var answer: Option<seq<nat>> := None;
    if |selected| > 0 {
      var validSelected := BelowFour(selected);
      if |validSelected| > 0 {
        answer := Some(validSelected);
      }
    }
    result := QuestionResult(number, answer, FillRatios(bubbles), |bubbles|);
  }

  /** Once a file of a section raises, the section raises that exception. */
  lemma {:induction false} SectionStopsAtError(inputs: seq<QuestionFile>, section: string, i: nat)
    requires i <= |inputs| && SectionResults(inputs[..i], section).Raised?
    ensures SectionResults(inputs, section) == SectionResults(inputs[..i], section)
    decreases |inputs| - i
  {
    if i < |inputs| {
      assert inputs[..i + 1][..i] == inputs[..i];
      SectionStopsAtError(inputs, section, i + 1);
    } else {
      assert inputs[..i] == inputs;
    }
  }

  /** Once a section raises, the scan raises that exception. */
  lemma {:induction false} CollectStopsAtError(sections: seq<(string, Listing)>, i: nat)
    requires i <= |sections| && CollectResults(sections[..i]).Raised?
    ensures CollectResults(sections) == CollectResults(sections[..i])
    decreases |sections| - i
  {
    if i < |sections| {
      assert sections[..i + 1][..i] == sections[..i];
      CollectStopsAtError(sections, i + 1);
    } else {
      assert sections[..i] == sections;
    }
  }

  /** Distinct question numbers get distinct dictionary keys. */
  lemma QuestionKeyInjective(a: nat, b: nat)
    requires QuestionKey(a) == QuestionKey(b)
    ensures a == b
  {
    assert Decimal(a) == QuestionKey(a)[|Prefix|..];
    assert Decimal(b) == QuestionKey(b)[|Prefix|..];
    DecimalRoundTrip(a);
    DecimalRoundTrip(b);
  }

  /** The dictionary holds one key per question number met, each once, and under each
      key the entry of the last record with that number. */
  lemma ResultsDictSpec(rs: seq<QuestionResult>)
    ensures DistinctKeys(ResultsDict(rs))
    ensures forall k :: HasKey(ResultsDict(rs), k) <==> exists i :: 0 <= i < |rs| && k == QuestionKey(rs[i].number)
    ensures forall i :: 0 <= i < |rs| && (forall j :: i < j < |rs| ==> rs[j].number != rs[i].number) ==>
              Get(ResultsDict(rs), QuestionKey(rs[i].number)) == Some(EntryOf(rs[i]))
  {
    ResultsDictDistinct(rs);
    ResultsDictKeys(rs);
    ResultsDictLastWins(rs);
  }

  lemma {:induction false} ResultsDictDistinct(rs: seq<QuestionResult>)
    ensures DistinctKeys(ResultsDict(rs))
  {
    if rs != [] {
      var last := rs[|rs| - 1];
      ResultsDictDistinct(rs[..|rs| - 1]);
      PutKeepsKeysDistinct(ResultsDict(rs[..|rs| - 1]), QuestionKey(last.number), EntryOf(last));
    }
  }

  lemma {:induction false} ResultsDictKeys(rs: seq<QuestionResult>)
    ensures forall k :: HasKey(ResultsDict(rs), k) <==> exists i :: 0 <= i < |rs| && k == QuestionKey(rs[i].number)
  {
    if rs != [] {
      var init := rs[..|rs| - 1];
      var last := rs[|rs| - 1];
      ResultsDictKeys(init);
      var d := ResultsDict(rs);
      forall k ensures HasKey(d, k) <==> exists i :: 0 <= i < |rs| && k == QuestionKey(rs[i].number) {
        if k != QuestionKey(last.number) {
          assert Get(d, k) == Get(ResultsDict(init), k);
          if exists i :: 0 <= i < |rs| && k == QuestionKey(rs[i].number) {
            var i :| 0 <= i < |rs| && k == QuestionKey(rs[i].number);
            assert i < |init| && init[i] == rs[i];
          }
          if exists i :: 0 <= i < |init| && k == QuestionKey(init[i].number) {
            var i :| 0 <= i < |init| && k == QuestionKey(init[i].number);
            assert rs[i] == init[i];
          }
        } else {
          assert Get(d, k).Some?;
        }
      }
    }
  }

  lemma {:induction false} ResultsDictLastWins(rs: seq<QuestionResult>)
    ensures forall i :: 0 <= i < |rs| && (forall j :: i < j < |rs| ==> rs[j].number != rs[i].number) ==>
              Get(ResultsDict(rs), QuestionKey(rs[i].number)) == Some(EntryOf(rs[i]))
  {
    if rs != [] {
      var init := rs[..|rs| - 1];
      var last := rs[|rs| - 1];
      ResultsDictLastWins(init);
      var d := ResultsDict(rs);
      forall i | 0 <= i < |rs| && (forall j :: i < j < |rs| ==> rs[j].number != rs[i].number)
        ensures Get(d, QuestionKey(rs[i].number)) == Some(EntryOf(rs[i]))
      {
        if i < |rs| - 1 {
          assert init[i] == rs[i];
          assert forall j :: i < j < |init| ==> init[j] == rs[j];
          if QuestionKey(rs[i].number) == QuestionKey(last.number) {
            QuestionKeyInjective(rs[i].number, last.number);
          }
        }
      }
    }
  }

  /** Records with strictly increasing numbers become the dictionary items in the
      same order, one item per record. */
  lemma {:induction false} ResultsDictInOrder(rs: seq<QuestionResult>)
    requires forall i, j :: 0 <= i < j < |rs| ==> rs[i].number < rs[j].number
    ensures |ResultsDict(rs)| == |rs|
    ensures forall i :: 0 <= i < |rs| ==> ResultsDict(rs)[i] == (QuestionKey(rs[i].number), EntryOf(rs[i]))
  {
    if rs != [] {
      var init := rs[..|rs| - 1];
      var last := rs[|rs| - 1];
      ResultsDictInOrder(init);
      ResultsDictSpec(init);
      var k := QuestionKey(last.number);
      if HasKey(ResultsDict(init), k) {
        var i :| 0 <= i < |init| && k == QuestionKey(init[i].number);
        QuestionKeyInjective(init[i].number, last.number);
        assert false;
      }
      var d := ResultsDict(init);
      PutPlacement(d, k, EntryOf(last));
      assert ResultsDict(rs) == d + [(k, EntryOf(last))];
      forall i | 0 <= i < |rs| ensures ResultsDict(rs)[i] == (QuestionKey(rs[i].number), EntryOf(rs[i])) {
        if i < |init| {
          assert init[i] == rs[i] && ResultsDict(rs)[i] == d[i];
        }
      }
    }
  }

  /** `r` is the record of the readable file `f` of `section`, under its global number. */
  predicate ScannedFrom(r: QuestionResult, f: QuestionFile, section: string)
  {
    f.contours.Some? && FileNumber(f.name).Some? &&
    GlobalNumber(section, FileNumber(f.name).value) == Some(r.number) &&
    r == ResultOf(r.number, f.contours.value)
  }

  /** The section raises exactly when some input's number does not parse or the
      section has no offset; otherwise its records are the readable inputs' records,
      one per readable input, in input order (`ReadableRecords`), and nothing else. */
  lemma SectionResultsSpec(inputs: seq<QuestionFile>, section: string)
    ensures SectionResults(inputs, section).Raised? <==>
              exists f :: f in inputs && (FileNumber(f.name).None? || section !in SectionOrder)
    ensures SectionResults(inputs, section).Done? ==>
              |SectionResults(inputs, section).value| == Readable(inputs) &&
              forall r :: r in SectionResults(inputs, section).value ==>
                exists f :: f in inputs && ScannedFrom(r, f, section)
    ensures SectionResults(inputs, section).Done? ==>
              SectionResults(inputs, section).value == ReadableRecords(inputs, section) &&
              forall f :: f in inputs && f.contours.Some? ==>
                exists r :: r in SectionResults(inputs, section).value && ScannedFrom(r, f, section)
  {
    SectionRaises(inputs, section);
    SectionCount(inputs, section);
    SectionRecords(inputs, section);
    SectionInInputOrder(inputs, section);
    if SectionResults(inputs, section).Done? {
      forall f | f in inputs && f.contours.Some?
        ensures exists r :: r in SectionResults(inputs, section).value && ScannedFrom(r, f, section)
      {
        SectionComplete(inputs, section, f);
        var r := ResultOf(GlobalNumber(section, FileNumber(f.name).value).value, f.contours.value);
        assert ScannedFrom(r, f, section);
      }
    }
  }

  lemma {:induction false} SectionRaises(inputs: seq<QuestionFile>, section: string)
    ensures SectionResults(inputs, section).Raised? <==>
              exists f :: f in inputs && (FileNumber(f.name).None? || section !in SectionOrder)
  {
    if inputs != [] {
      var init := inputs[..|inputs| - 1];
      var f := inputs[|inputs| - 1];
      SectionRaises(init, section);
      assert inputs == init + [f];
      if SectionResults(init, section).Raised? {
        var g :| g in init && (FileNumber(g.name).None? || section !in SectionOrder);
        assert g in inputs;
      } else {
        assert SectionResults(inputs, section) == FileStep(SectionResults(init, section).value, f, section);
        if exists g :: g in inputs && (FileNumber(g.name).None? || section !in SectionOrder) {
          var g :| g in inputs && (FileNumber(g.name).None? || section !in SectionOrder);
          if g != f {
            assert g in init;
          }
        }
      }
    }
  }

  lemma {:induction false} SectionCount(inputs: seq<QuestionFile>, section: string)
    ensures SectionResults(inputs, section).Done? ==> |SectionResults(inputs, section).value| == Readable(inputs)
  {
    if inputs != [] && SectionResults(inputs, section).Done? {
      var init := inputs[..|inputs| - 1];
      SectionCount(init, section);
      assert SectionResults(inputs, section) ==
             FileStep(SectionResults(init, section).value, inputs[|inputs| - 1], section);
    }
  }

  lemma {:induction false} SectionRecords(inputs: seq<QuestionFile>, section: string)
    ensures SectionResults(inputs, section).Done? ==>
              forall r :: r in SectionResults(inputs, section).value ==>
                exists f :: f in inputs && ScannedFrom(r, f, section)
  {
    if inputs != [] && SectionResults(inputs, section).Done? {
      var init := inputs[..|inputs| - 1];
      var f := inputs[|inputs| - 1];
      SectionRecords(init, section);
      var rs := SectionResults(init, section).value;
      var out := SectionResults(inputs, section).value;
      assert SectionResults(inputs, section) == FileStep(rs, f, section);
      forall r | r in out
        ensures exists g :: g in inputs && ScannedFrom(r, g, section)
      {
        if r in rs {
          var g :| g in init && ScannedFrom(r, g, section);
          InEarlierFiles(inputs, g);
        } else {
          NewRecord(rs, f, section, r);
          assert f in inputs;
        }
      }
    }
  }

  lemma InEarlierFiles(inputs: seq<QuestionFile>, g: QuestionFile)
    requires inputs != [] && g in inputs[..|inputs| - 1]
    ensures g in inputs
  {
    var n :| 0 <= n < |inputs| - 1 && inputs[..|inputs| - 1][n] == g;
    assert inputs[n] == g;
  }

  lemma NewRecord(rs: seq<QuestionResult>, f: QuestionFile, section: string, r: QuestionResult)
    requires FileStep(rs, f, section).Done? && r in FileStep(rs, f, section).value && r !in rs
    ensures ScannedFrom(r, f, section)
  {
    var number := GlobalNumber(section, FileNumber(f.name).value).value;
    assert FileStep(rs, f, section).value == rs + [ResultOf(number, f.contours.value)];
  }

  /** The record a single input contributes: its `ResultOf` under its global number
      when it is readable and numbered, nothing otherwise. */
  function RecordFor(f: QuestionFile, section: string): seq<QuestionResult>
  {
    if f.contours.Some? && FileNumber(f.name).Some? && GlobalNumber(section, FileNumber(f.name).value).Some?
    then [ResultOf(GlobalNumber(section, FileNumber(f.name).value).value, f.contours.value)]
    else []
  }

  /** The readable inputs mapped to their records, front to back: the reference the
      section loop is proved against. */
  function ReadableRecords(inputs: seq<QuestionFile>, section: string): seq<QuestionResult>
  {
    if inputs == [] then [] else RecordFor(inputs[0], section) + ReadableRecords(inputs[1..], section)
  }

  lemma {:induction false} ReadableRecordsSnoc(init: seq<QuestionFile>, f: QuestionFile, section: string)
    ensures ReadableRecords(init + [f], section) == ReadableRecords(init, section) + RecordFor(f, section)
  {
    if init == [] {
      assert init + [f] == [f];
      assert [f][1..] == [];
    } else {
      assert (init + [f])[1..] == init[1..] + [f];
      ReadableRecordsSnoc(init[1..], f, section);
    }
  }

  lemma ReadableRecordsLast(inputs: seq<QuestionFile>, section: string)
    requires inputs != []
    ensures ReadableRecords(inputs, section) ==
              ReadableRecords(inputs[..|inputs| - 1], section) + RecordFor(inputs[|inputs| - 1], section)
  {
    assert inputs == inputs[..|inputs| - 1] + [inputs[|inputs| - 1]];
    ReadableRecordsSnoc(inputs[..|inputs| - 1], inputs[|inputs| - 1], section);
  }

  /** A completed section's records are exactly the readable inputs' records, one each,
      in input order. */
  lemma {:induction false} SectionInInputOrder(inputs: seq<QuestionFile>, section: string)
    ensures SectionResults(inputs, section).Done? ==>
              SectionResults(inputs, section).value == ReadableRecords(inputs, section)
  {
    if inputs != [] && SectionResults(inputs, section).Done? {
      var init := inputs[..|inputs| - 1];
      var f := inputs[|inputs| - 1];
      var rs := SectionResults(init, section).value;
      assert SectionResults(inputs, section) == FileStep(rs, f, section);
      SectionInInputOrder(init, section);
      FileStepAppends(rs, f, section);
      ReadableRecordsLast(inputs, section);
    }
  }

  lemma FileStepAppends(rs: seq<QuestionResult>, f: QuestionFile, section: string)
    requires FileStep(rs, f, section).Done?
    ensures FileStep(rs, f, section).value == rs + RecordFor(f, section)
  {
  }

  lemma {:induction false} ReadableRecordsComplete(inputs: seq<QuestionFile>, section: string, f: QuestionFile)
    requires f in inputs && RecordFor(f, section) != []
    ensures RecordFor(f, section)[0] in ReadableRecords(inputs, section)
  {
    if inputs[0] != f {
      assert f in inputs[1..];
      ReadableRecordsComplete(inputs[1..], section, f);
    }
  }

  /** Every readable input of a completed section has its record in the result, under
      its global number. */
  lemma SectionComplete(inputs: seq<QuestionFile>, section: string, f: QuestionFile)
    requires SectionResults(inputs, section).Done? && f in inputs && f.contours.Some?
    ensures FileNumber(f.name).Some? && GlobalNumber(section, FileNumber(f.name).value).Some?
    ensures ResultOf(GlobalNumber(section, FileNumber(f.name).value).value, f.contours.value)
              in SectionResults(inputs, section).value
  {
    SectionRaises(inputs, section);
    assert section in SectionOrder;
    SectionInInputOrder(inputs, section);
    ReadableRecordsComplete(inputs, section, f);
  }

  /** How many files of `inputs` are readable images. */
  function Readable(inputs: seq<QuestionFile>): (n: nat)
    ensures n <= |inputs|
  {
    if inputs == [] then 0
    else Readable(inputs[..|inputs| - 1]) + (if inputs[|inputs| - 1].contours.Some? then 1 else 0)
  }

  /** The records whose number lies in [lo, hi], in order. */
  function InRange(rs: seq<QuestionResult>, lo: int, hi: int): seq<QuestionResult>
  {
    if rs == [] then []
    else (if lo <= rs[0].number <= hi then [rs[0]] else []) + InRange(rs[1..], lo, hi)
  }

  /** The records the summary lists under a section: numbers offset+1 to offset+15. */
  function SectionAnswers(all: seq<QuestionResult>, section: string): seq<QuestionResult>
    requires section in SectionOrder
  {
    InRange(all, GlobalNumber(section, 1).value, GlobalNumber(section, SectionSize).value)
  }

  /** `sum(1 for r in rs if r['answer'] is not None)`. The contract gives only the bound;
      how the counts of the sections add up is proved in `SectionCountsAddUp`. */
  function Answered(rs: seq<QuestionResult>): (n: nat)
    ensures n <= |rs|
  {
    if rs == [] then 0 else (if rs[0].answer.Some? then 1 else 0) + Answered(rs[1..])
  }

  /** The three section counts of the summary add up to the answered questions
      numbered 1-45: every such question is counted in exactly one section. */
  lemma SectionCountsAddUp(all: seq<QuestionResult>)
    ensures Answered(SectionAnswers(all, Right)) + Answered(SectionAnswers(all, Middle)) +
            Answered(SectionAnswers(all, Left)) == Answered(InRange(all, 1, 3 * SectionSize))
  {
    AnsweredSplit(all, 1, 15, 30);
    AnsweredSplit(all, 1, 30, 45);
  }

  /** Splitting a number range in two splits the answered count. */
  lemma {:induction false} AnsweredSplit(rs: seq<QuestionResult>, lo: int, mid: int, hi: int)
    requires lo <= mid <= hi
    ensures Answered(InRange(rs, lo, mid)) + Answered(InRange(rs, mid + 1, hi)) == Answered(InRange(rs, lo, hi))
  {
    if rs != [] {
      AnsweredSplit(rs[1..], lo, mid, hi);
      var h := rs[0];
      var a, b, c := InRange(rs[1..], lo, mid), InRange(rs[1..], mid + 1, hi), InRange(rs[1..], lo, hi);
      if h.number < lo || h.number > hi {
        assert InRange(rs, lo, mid) == a && InRange(rs, mid + 1, hi) == b && InRange(rs, lo, hi) == c;
      } else if h.number <= mid {
        assert InRange(rs, lo, mid) == [h] + a && InRange(rs, mid + 1, hi) == b && InRange(rs, lo, hi) == [h] + c;
        AnsweredCons(h, a);
        AnsweredCons(h, c);
      } else {
        assert InRange(rs, lo, mid) == a && InRange(rs, mid + 1, hi) == [h] + b && InRange(rs, lo, hi) == [h] + c;
        AnsweredCons(h, b);
        AnsweredCons(h, c);
      }
    }
  }

  lemma AnsweredCons(h: QuestionResult, t: seq<QuestionResult>)
    ensures Answered([h] + t) == (if h.answer.Some? then 1 else 0) + Answered(t)
  {
    assert ([h] + t)[1..] == t;
  }

  /** What a successful scan returns: the dictionary of the records sorted by question
      number, holding no key twice. */
  lemma ScanDictionary(sheet: Sheet)
    requires CollectResults(Sections(sheet)).Done?
    ensures var sorted := StableSort.SortBy(CollectResults(Sections(sheet)).value, Number, false);
            Scan(Some(sheet)) == Done(Some(ResultsDict(sorted))) && DistinctKeys(ResultsDict(sorted))
  {
    ResultsDictDistinct(StableSort.SortBy(CollectResults(Sections(sheet)).value, Number, false));
  }

  /** When no two records share a number, the dictionary items are the records
      themselves, in strictly increasing question order. */
  lemma SortedDictionary(all: seq<QuestionResult>)
    requires forall i, j :: 0 <= i < j < |all| ==> all[i].number != all[j].number
    ensures var sorted := StableSort.SortBy(all, Number, false);
            var d := ResultsDict(sorted);
            |d| == |all| &&
            (forall i :: 0 <= i < |d| ==> d[i] == (QuestionKey(sorted[i].number), EntryOf(sorted[i]))) &&
            (forall i, j :: 0 <= i < j < |d| ==> sorted[i].number < sorted[j].number)
  {
    var sorted := StableSort.SortBy(all, Number, false);
    assert StableSort.KeysDistinct(all, Number);
    StableSort.SortKeepsKeysDistinct(all, Number, false);
    forall i, j | 0 <= i < j < |sorted| ensures sorted[i].number < sorted[j].number {
      assert StableSort.Precedes(Number(sorted[i]), Number(sorted[j]), false);
      assert Number(sorted[i]) != Number(sorted[j]);
    }
    ResultsDictInOrder(sorted);
  }
}

/** evaluate_questions.py: the older evaluator. It keeps its own conventions, apart
    from the bubble detector's: other contour bounds, bubbles read left to right by
    the x of their bounding boxes, a fill threshold of 0.3, then a 0.6 confidence cut,
    and every question stored in a 45-slot list. A contour is given by what OpenCV
    reports for it: area, perimeter, bounding-box x, and the number of foreground
    pixels of the binarised image inside its filled mask. */
module EvaluateQuestions {
  import opened Basics
  import opened Shape
  import opened QuestionFiles
  import StableSort

  const MinBlobArea: real := 100.0
  const MaxBlobArea: real := 1000.0
  const MinBlobCircularity: real := 0.7
  /** `fill_threshold` of `detect_bubbles`. */
  const FillThreshold: real := 0.3
  /** Bubbles examined per question: positions 0 to 3. */
  const Examined: nat := 4
  /** The confidence cut of `evaluate_question_image`. */
  const MinConfidence: real := 0.6
  /** Questions on a sheet, and slots in the result list. */
  const SlotCount: nat := 45

  datatype Blob = Blob(area: real, perimeter: real, boxX: int, filled: nat)

  /** The contour filter of `detect_bubbles`. */
  predicate IsCandidate(b: Blob)
  {
    MinBlobArea < b.area < MaxBlobArea && Circularity(b.area, b.perimeter) > MinBlobCircularity
  }

  /** The candidates among `blobs`, in contour order. */
  function CandidatesOf(blobs: seq<Blob>): (cs: seq<Blob>)
    ensures forall b :: b in cs <==> b in blobs && IsCandidate(b)
  {
    if blobs == [] then []
    else CandidatesOf(blobs[..|blobs| - 1]) +
         (if IsCandidate(blobs[|blobs| - 1]) then [blobs[|blobs| - 1]] else [])
  }

  /** The sort key `cv2.boundingRect(c)[0]`. */
  function BoxX(b: Blob): real
  {
    b.boxX as real
  }

  /** The bubbles `detect_bubbles` examines: the candidates sorted left to right
      (a stable sort), the first four of them. */
  function ExaminedOf(blobs: seq<Blob>): (bs: seq<Blob>)
    ensures |bs| <= Examined
    ensures AllCandidates(bs)
    ensures forall i, j :: 0 <= i < j < |bs| ==> bs[i].boxX <= bs[j].boxX
  {
    var sorted := StableSort.SortBy(CandidatesOf(blobs), BoxX, false);
    SortedCandidates(blobs);
    var bs := Take(sorted, Examined);
    assert forall i :: 0 <= i < |bs| ==> bs[i] == sorted[i];
    assert forall i, j :: 0 <= i < j < |bs| ==> StableSort.Precedes(BoxX(sorted[i]), BoxX(sorted[j]), false);
    bs
  }

  /** The examined bubbles are the leftmost four candidates: as many as there are
      candidates up to four, drawn from the candidates, and none of the candidates left
      out lies further left than any examined one. */
  lemma ExaminedAreLeftmost(blobs: seq<Blob>)
    ensures |ExaminedOf(blobs)| == Min(|CandidatesOf(blobs)|, Examined)
    ensures multiset(ExaminedOf(blobs)) <= multiset(CandidatesOf(blobs))
    ensures forall b, c ::
              b in ExaminedOf(blobs) && c in multiset(CandidatesOf(blobs)) - multiset(ExaminedOf(blobs)) ==>
                b.boxX <= c.boxX
  {
    var candidates := CandidatesOf(blobs);
    var bs := ExaminedOf(blobs);
    assert bs == StableSort.SortBy(candidates, BoxX, false)[..|bs|];
    StableSort.SortPrefixIsTop(candidates, BoxX, false, |bs|);
  }

  /** `filled_area / bubble_area`; a candidate's area exceeds 100, so it is positive. */
  function Fill(b: Blob): real
    requires b.area > 0.0
  {
    b.filled as real / b.area
  }

  predicate AllCandidates(bs: seq<Blob>)
  {
    forall i :: 0 <= i < |bs| ==> IsCandidate(bs[i])
  }

  /** The selected positions of `bs` and their fill ratios, in position order. */
  function Detect(bs: seq<Blob>): (d: (seq<nat>, seq<real>))
    requires AllCandidates(bs)
  {
    if bs == [] then ([], [])
    else
      var (positions, confidences) := Detect(bs[..|bs| - 1]);
      var b := bs[|bs| - 1];
      if Fill(b) > FillThreshold then (positions + [|bs| - 1], confidences + [Fill(b)])
      else (positions, confidences)
  }

  /** What `detect_bubbles` promises: the selected positions are strictly increasing
      positions of `bs`, they are exactly the positions filled beyond 0.3, and the
      confidences are their fill ratios, one for one. */
  lemma {:induction false} DetectSpec(bs: seq<Blob>)
    requires AllCandidates(bs)
    ensures var (p, c) := Detect(bs);
            |p| == |c| &&
            (forall k :: 0 <= k < |p| ==> p[k] < |bs| && c[k] == Fill(bs[p[k]]) && c[k] > FillThreshold) &&
            (forall j, k :: 0 <= j < k < |p| ==> p[j] < p[k]) &&
            (forall i :: 0 <= i < |bs| && Fill(bs[i]) > FillThreshold ==> i in p)
  {
    if bs != [] {
      var init := bs[..|bs| - 1];
      assert AllCandidates(init) by {
        forall i | 0 <= i < |init| ensures IsCandidate(init[i]) { assert init[i] == bs[i]; }
      }
      DetectSpec(init);
      forall i | 0 <= i < |init| ensures init[i] == bs[i] { }
    }
  }

  /** The candidates sorted left to right are all candidates. */
  lemma SortedCandidates(blobs: seq<Blob>)
    ensures AllCandidates(StableSort.SortBy(CandidatesOf(blobs), BoxX, false))
  {
    var sorted := StableSort.SortBy(CandidatesOf(blobs), BoxX, false);
    forall i | 0 <= i < |sorted| ensures IsCandidate(sorted[i]) {
      assert sorted[i] in multiset(sorted);
    }
  }

  /** `detect_bubbles` after contour extraction. */
  method DetectBubbles(blobs: seq<Blob>) returns (positions: seq<nat>, confidences: seq<real>)
    ensures AllCandidates(ExaminedOf(blobs)) && (positions, confidences) == Detect(ExaminedOf(blobs))
  {
    var bubbles: seq<Blob> := [];
    for i := 0 to |blobs|
      invariant bubbles == CandidatesOf(blobs[..i])
    {
      assert blobs[..i + 1][..i] == blobs[..i];
      if IsCandidate(blobs[i]) {
        bubbles := bubbles + [blobs[i]];
      }
    }
    assert blobs[..|blobs|] == blobs;
    bubbles := StableSort.SortBy(bubbles, BoxX, false);
    SortedCandidates(blobs);
    positions, confidences := MarkFilled(bubbles);
  }

  /** The loop of `detect_bubbles` over the sorted candidates, which stops after
      position 3. */
  method MarkFilled(bubbles: seq<Blob>) returns (positions: seq<nat>, confidences: seq<real>)
    requires AllCandidates(bubbles)
    ensures AllCandidates(Take(bubbles, Examined))
    ensures (positions, confidences) == Detect(Take(bubbles, Examined))
  {
    positions, confidences := [], [];
    var i := 0;
    while i < |bubbles|
      invariant 0 <= i <= |bubbles| && i <= Examined
      invariant (positions, confidences) == Detect(bubbles[..i])
    {
      if i >= Examined {
        break;
      }
      var bubble := bubbles[i];
      assert bubbles[..i + 1][..i] == bubbles[..i];
      var fillRatio := bubble.filled as real / bubble.area;
      if fillRatio > FillThreshold {
        positions := positions + [i];
        confidences := confidences + [fillRatio];
      }
      i := i + 1;
    }
    assert bubbles[..i] == Take(bubbles, Examined);
  }

  /** `get_adjusted_question_number`: left adds 30, middle adds 15, any other part
      keeps the local number. The local questions 1-15 of the three parts so land
      on the disjoint blocks 31-45 (left), 16-30 (middle) and 1-15 (right). */
  function AdjustedQuestionNumber(part: string, local: nat): (n: nat)
    ensures n >= local
    ensures part != "left" && part != "middle" ==> n == local
    ensures 1 <= local <= 15 ==>
              (part == "left" ==> 31 <= n <= 45) && (part == "middle" ==> 16 <= n <= 30) &&
              (part == "right" ==> 1 <= n <= 15)
  {
    if part == "left" then local + 30
    else if part == "middle" then local + 15
    else local
  }

  /** The value `evaluate_question_image` returns for a readable image. */
  datatype Evaluation = Evaluation(questionNumber: nat, selectedPositions: seq<nat>, confidences: seq<real>)

  /** The pairs of `zip(positions, confidences)` whose confidence is at least 0.6. */
  function Confident(positions: seq<nat>, confidences: seq<real>): (f: (seq<nat>, seq<real>))
    ensures |f.0| == |f.1|
  {
    var n := Min(|positions|, |confidences|);
    if n == 0 then ([], [])
    else
      var (ps, cs) := Confident(positions[..n - 1], confidences[..n - 1]);
      if confidences[n - 1] >= MinConfidence then (ps + [positions[n - 1]], cs + [confidences[n - 1]])
      else (ps, cs)
  }

  /** The indices, in increasing order, of the confidences of at least 0.6. */
  function KeptIndices(confidences: seq<real>): (src: seq<nat>)
    ensures forall k :: 0 <= k < |src| ==> src[k] < |confidences| && confidences[src[k]] >= MinConfidence
    ensures forall j, k :: 0 <= j < k < |src| ==> src[j] < src[k]
    ensures forall i :: 0 <= i < |confidences| && confidences[i] >= MinConfidence ==> i in src
  {
    var n := |confidences|;
    if n == 0 then []
    else
      var src0 := KeptIndices(confidences[..n - 1]);
      assert forall i :: 0 <= i < n - 1 ==> confidences[..n - 1][i] == confidences[i];
      if confidences[n - 1] >= MinConfidence then src0 + [n - 1] else src0
  }

  /** The confidence cut keeps, in order and still paired, exactly the pairs whose
      confidence is at least 0.6: the kept pairs are the pairs at `KeptIndices`. */
  lemma {:induction false} ConfidentSpec(positions: seq<nat>, confidences: seq<real>)
    requires |positions| == |confidences|
    ensures var (ps, cs) := Confident(positions, confidences);
            var src := KeptIndices(confidences);
            |ps| == |src| &&
            forall k :: 0 <= k < |src| ==> ps[k] == positions[src[k]] && cs[k] == confidences[src[k]]
  {
    var n := |positions|;
    if n > 0 {
      var (ps, cs) := Confident(positions, confidences);
      var (ps0, cs0) := Confident(positions[..n - 1], confidences[..n - 1]);
      ConfidentSpec(positions[..n - 1], confidences[..n - 1]);
      var src0 := KeptIndices(confidences[..n - 1]);
      var src := KeptIndices(confidences);
      var kept := confidences[n - 1] >= MinConfidence;
      assert src == (if kept then src0 + [n - 1] else src0);
      assert ps == (if kept then ps0 + [positions[n - 1]] else ps0);
      assert cs == (if kept then cs0 + [confidences[n - 1]] else cs0);
      forall k | 0 <= k < |src0| ensures ps[k] == positions[src[k]] && cs[k] == confidences[src[k]] {
        assert src[k] == src0[k] && ps[k] == ps0[k] && cs[k] == cs0[k];
        assert positions[..n - 1][src0[k]] == positions[src0[k]];
        assert confidences[..n - 1][src0[k]] == confidences[src0[k]];
      }
    }
  }

  /** What `evaluate_question_image` returns for a question file: None for an
      unreadable image, ValueError when the stem's last `_` piece is not a number. */
  function EvaluationOf(name: string, part: string, image: Option<seq<Blob>>): (r: Outcome<Option<Evaluation>>)
    ensures r == Done(None) <==> image.None?
    ensures r.Raised? <==> image.Some? && StemNumber(name).None?
    ensures r.Raised? ==> r.exception == "ValueError"
    ensures r.Done? && r.value.Some? ==>
              r.value.value.questionNumber == AdjustedQuestionNumber(part, StemNumber(name).value) &&
              |r.value.value.selectedPositions| == |r.value.value.confidences|
  {
    match image
    case None => Done(None)
    case Some(blobs) =>
      match StemNumber(name)
      case None => Raised("ValueError")
      case Some(local) =>
        var (positions, confidences) := Detect(ExaminedOf(blobs));
        var (ps, cs) := Confident(positions, confidences);
        Done(Some(Evaluation(AdjustedQuestionNumber(part, local), ps, cs)))
  }

  /** `evaluate_question_image`, given the file name, the part, and the contours of
      the image when it can be read. */
  method EvaluateQuestionImage(name: string, part: string, image: Option<seq<Blob>>)
    returns (r: Outcome<Option<Evaluation>>)
    ensures r == EvaluationOf(name, part, image)
  {
    if image.None? {
      return Done(None);
    }
    var local := StemNumber(name);
    if local.None? {
      return Raised("ValueError");
    }
    var questionNumber := AdjustedQuestionNumber(part, local.value);
    var selectedPositions, confidences := DetectBubbles(image.value);
    DetectLengths(ExaminedOf(image.value));
    var filteredPositions: seq<nat> := [];
    var filteredConfidences: seq<real> := [];
    for i := 0 to |selectedPositions|
      invariant |selectedPositions| == |confidences|
      invariant (filteredPositions, filteredConfidences) == Confident(selectedPositions[..i], confidences[..i])
    {
      assert selectedPositions[..i + 1][..i] == selectedPositions[..i];
      assert confidences[..i + 1][..i] == confidences[..i];
      if confidences[i] >= MinConfidence {
        filteredPositions := filteredPositions + [selectedPositions[i]];
        filteredConfidences := filteredConfidences + [confidences[i]];
      }
    }
    assert selectedPositions[..|selectedPositions|] == selectedPositions;
    assert confidences[..|confidences|] == confidences;
    return Done(Some(Evaluation(questionNumber, filteredPositions, filteredConfidences)));
  }

  lemma DetectLengths(bs: seq<Blob>)
    requires AllCandidates(bs)
    ensures |Detect(bs).0| == |Detect(bs).1|
  {
    DetectSpec(bs);
  }

  /** The confidence cut applied to the selection of `bs`: strictly increasing
      positions of `bs` paired with their fill ratios, exactly those filled to at
      least 0.6. */
  lemma ConfidentOfDetect(bs: seq<Blob>)
    requires AllCandidates(bs)
    ensures var (ps, cs) := Confident(Detect(bs).0, Detect(bs).1);
            |ps| == |cs| &&
            (forall k :: 0 <= k < |ps| ==>
               (ps[k] < |bs| && cs[k] == Fill(bs[ps[k]]) && cs[k] >= MinConfidence)) &&
            (forall j, k :: 0 <= j < k < |ps| ==> ps[j] < ps[k]) &&
            (forall i :: 0 <= i < |bs| && Fill(bs[i]) >= MinConfidence ==> i in ps)
  {
    ConfidentPaired(bs);
    ConfidentIncreasing(bs);
    ConfidentComplete(bs);
  }

  lemma ConfidentPaired(bs: seq<Blob>)
    requires AllCandidates(bs)
    ensures var (ps, cs) := Confident(Detect(bs).0, Detect(bs).1);
            |ps| == |cs| &&
            forall k :: 0 <= k < |ps| ==> ps[k] < |bs| && cs[k] == Fill(bs[ps[k]]) && cs[k] >= MinConfidence
  {
    var (p, c) := Detect(bs);
    DetectSpec(bs);
    ConfidentSpec(p, c);
    var (ps, cs) := Confident(p, c);
    var src := KeptIndices(c);
    forall k | 0 <= k < |ps| ensures ps[k] < |bs| && cs[k] == Fill(bs[ps[k]]) && cs[k] >= MinConfidence {
      assert ps[k] == p[src[k]] && cs[k] == c[src[k]];
    }
  }

  lemma ConfidentIncreasing(bs: seq<Blob>)
    requires AllCandidates(bs)
    ensures var ps := Confident(Detect(bs).0, Detect(bs).1).0;
            forall j, k :: 0 <= j < k < |ps| ==> ps[j] < ps[k]
  {
    var (p, c) := Detect(bs);
    DetectSpec(bs);
    ConfidentSpec(p, c);
    var ps := Confident(p, c).0;
    var src := KeptIndices(c);
    forall j, k | 0 <= j < k < |ps| ensures ps[j] < ps[k] {
      assert ps[j] == p[src[j]] && ps[k] == p[src[k]];
    }
  }

  lemma ConfidentComplete(bs: seq<Blob>)
    requires AllCandidates(bs)
    ensures var ps := Confident(Detect(bs).0, Detect(bs).1).0;
            forall i :: 0 <= i < |bs| && Fill(bs[i]) >= MinConfidence ==> i in ps
  {
    var (p, c) := Detect(bs);
    DetectSpec(bs);
    ConfidentSpec(p, c);
    var ps := Confident(p, c).0;
    var src := KeptIndices(c);
    forall i | 0 <= i < |bs| && Fill(bs[i]) >= MinConfidence ensures i in ps {
      assert Fill(bs[i]) > FillThreshold;
      assert i in p;
      var j :| 0 <= j < |p| && p[j] == i;
      assert c[j] == Fill(bs[i]);
      assert j in src;
      var k :| 0 <= k < |src| && src[k] == j;
      assert ps[k] == p[src[k]] == i;
    }
  }

  /** An evaluation's positions are strictly increasing positions 0-3 of the
      examined bubbles, paired with their fill ratios, and they are exactly the
      examined bubbles whose fill ratio is at least 0.6. */
  lemma EvaluationSpec(name: string, part: string, blobs: seq<Blob>)
    requires StemNumber(name).Some?
    ensures EvaluationOf(name, part, Some(blobs)).Done?
    ensures var e := EvaluationOf(name, part, Some(blobs)).value.value;
            var bs := ExaminedOf(blobs);
            e.questionNumber == AdjustedQuestionNumber(part, StemNumber(name).value) &&
            |e.selectedPositions| == |e.confidences| &&
            (forall k :: 0 <= k < |e.selectedPositions| ==>
               (e.selectedPositions[k] < |bs| && e.selectedPositions[k] < Examined &&
                e.confidences[k] == Fill(bs[e.selectedPositions[k]]) && e.confidences[k] >= MinConfidence)) &&
            (forall j, k :: 0 <= j < k < |e.selectedPositions| ==> e.selectedPositions[j] < e.selectedPositions[k]) &&
            (forall i :: 0 <= i < |bs| && Fill(bs[i]) >= MinConfidence ==> i in e.selectedPositions)
  {
    ConfidentOfDetect(ExaminedOf(blobs));
  }

  /** `all_questions[index]` on a list of n items: a negative index counts from the
      end; out of range is the IndexError path, None. */
  function ListIndex(index: int, n: nat): (r: Option<nat>)
    ensures r.Some? <==> -(n as int) <= index < n
    ensures r.Some? ==> r.value < n && (index >= 0 ==> r.value == index) &&
                        (index < 0 ==> r.value == n + index)
  {
    if 0 <= index < n then Some(index)
    else if -(n as int) <= index < 0 then Some(n + index)
    else None
  }

  /** `all_questions[q - 1] = e`: an IndexError when the list is empty or q is past
      its end; otherwise e goes into slot q - 1 (question 0 into the last slot) and
      no other slot changes. */
  function Store(slots: seq<Option<Evaluation>>, e: Evaluation): (r: Outcome<seq<Option<Evaluation>>>)
    ensures r.Raised? <==> |slots| == 0 || e.questionNumber > |slots|
    ensures r.Raised? ==> r.exception == "IndexError"
    ensures r.Done? ==>
              var i := if e.questionNumber == 0 then |slots| - 1 else e.questionNumber - 1;
              |r.value| == |slots| && r.value[i] == Some(e) &&
              forall j :: 0 <= j < |slots| && j != i ==> r.value[j] == slots[j]
  {
    match ListIndex(e.questionNumber - 1, |slots|)
    case None => Raised("IndexError")
    case Some(i) => Done(slots[i := Some(e)])
  }

  /** Storing question q: numbers 1 to 45 land in slot q - 1; question 0 reads
      index -1, which Python takes as the last slot; a number above 45 is the
      IndexError path. Nothing else in the list changes. */
  lemma StoreSpec(slots: seq<Option<Evaluation>>, e: Evaluation)
    requires |slots| == SlotCount
    ensures Store(slots, e).Raised? <==> e.questionNumber > SlotCount
    ensures 1 <= e.questionNumber <= SlotCount ==> Store(slots, e) == Done(slots[e.questionNumber - 1 := Some(e)])
    ensures e.questionNumber == 0 ==> Store(slots, e) == Done(slots[SlotCount - 1 := Some(e)])
  {
  }

  /** A slot list of 45 slots in which each filled slot holds the evaluation of its
      own question, slot j question j + 1, except that the last slot may also hold a
      question numbered 0. */
  predicate WellPlaced(slots: seq<Option<Evaluation>>)
  {
    |slots| == SlotCount &&
    forall j :: 0 <= j < |slots| && slots[j].Some? ==>
      slots[j].value.questionNumber == j + 1 || (j == SlotCount - 1 && slots[j].value.questionNumber == 0)
  }

  lemma StoreKeepsWellPlaced(slots: seq<Option<Evaluation>>, e: Evaluation)
    requires WellPlaced(slots)
    ensures Store(slots, e).Done? ==> WellPlaced(Store(slots, e).value)
  {
    StoreSpec(slots, e);
  }

  /** A file of a part's questions directory: its name and, when the image can be
      read, its contours. */
  datatype EvalFile = EvalFile(name: string, image: Option<seq<Blob>>)

  /** The body of the loop over a part's files. */
  function Step(slots: seq<Option<Evaluation>>, part: string, f: EvalFile): Outcome<seq<Option<Evaluation>>>
  {
    if !IsQuestionImage(f.name) then Done(slots)
    else
      match EvaluationOf(f.name, part, f.image)
      case Raised(x) => Raised(x)
      case Done(None) => Done(slots)
      case Done(Some(e)) => Store(slots, e)
  }

  /** The slots after the files of one part, taken in order. */
  function PlaceFiles(slots: seq<Option<Evaluation>>, part: string, files: seq<EvalFile>): Outcome<seq<Option<Evaluation>>>
    decreases |files|
  {
    if files == [] then Done(slots)
    else
      match Step(slots, part, files[0])
      case Raised(x) => Raised(x)
      case Done(next) => PlaceFiles(next, part, files[1..])
  }

  /** The parts of a folder: each part's directory listing, None when it is missing. */
  datatype Folder = Folder(left: Option<seq<EvalFile>>, middle: Option<seq<EvalFile>>, right: Option<seq<EvalFile>>)

  function Parts(folder: Folder): seq<(string, Option<seq<EvalFile>>)>
  {
    [("left", folder.left), ("middle", folder.middle), ("right", folder.right)]
  }

  /** The slots after the parts, taken in order; a missing directory changes nothing. */
  function PlaceParts(slots: seq<Option<Evaluation>>, parts: seq<(string, Option<seq<EvalFile>>)>): Outcome<seq<Option<Evaluation>>>
    decreases |parts|
  {
    if parts == [] then Done(slots)
    else
      match parts[0].1
      case None => PlaceParts(slots, parts[1..])
      case Some(files) =>
        match PlaceFiles(slots, parts[0].0, files)
        case Raised(x) => Raised(x)
        case Done(next) => PlaceParts(next, parts[1..])
  }

  /** Every file step, and so every part, keeps the slots well placed. */
  lemma {:induction false} PlaceFilesKeepsWellPlaced(slots: seq<Option<Evaluation>>, part: string, files: seq<EvalFile>)
    requires WellPlaced(slots)
    ensures PlaceFiles(slots, part, files).Done? ==> WellPlaced(PlaceFiles(slots, part, files).value)
    decreases |files|
  {
    if files != [] {
      var f := files[0];
      if IsQuestionImage(f.name) {
        match EvaluationOf(f.name, part, f.image)
        case Raised(_) =>
        case Done(None) =>
        case Done(Some(e)) => StoreKeepsWellPlaced(slots, e);
      }
      match Step(slots, part, f)
      case Raised(_) =>
      case Done(next) => PlaceFilesKeepsWellPlaced(next, part, files[1..]);
    }
  }

  lemma {:induction false} PlacePartsKeepsWellPlaced(slots: seq<Option<Evaluation>>, parts: seq<(string, Option<seq<EvalFile>>)>)
    requires WellPlaced(slots)
    ensures PlaceParts(slots, parts).Done? ==> WellPlaced(PlaceParts(slots, parts).value)
    decreases |parts|
  {
    if parts != [] {
      match parts[0].1
      case None => PlacePartsKeepsWellPlaced(slots, parts[1..]);
      case Some(files) =>
        PlaceFilesKeepsWellPlaced(slots, parts[0].0, files);
        match PlaceFiles(slots, parts[0].0, files)
        case Raised(_) =>
        case Done(next) => PlacePartsKeepsWellPlaced(next, parts[1..]);
    }
  }

  /** The list `process_all_questions` returns has 45 slots, each holding nothing
      or the evaluation of its own question (question 0 wrapping to the last slot). */
  lemma FolderWellPlaced(folder: Folder)
    ensures PlaceParts(EmptySlots(), Parts(folder)).Done? ==> WellPlaced(PlaceParts(EmptySlots(), Parts(folder)).value)
  {
    PlacePartsKeepsWellPlaced(EmptySlots(), Parts(folder));
  }

  /** `after` has as many slots as `before` and keeps every filled slot filled. */
  ghost predicate Grows(before: seq<Option<Evaluation>>, after: seq<Option<Evaluation>>)
  {
    |after| == |before| && forall j :: 0 <= j < |before| && before[j].Some? ==> after[j].Some?
  }

  lemma {:induction false} PlaceFilesGrows(slots: seq<Option<Evaluation>>, part: string, files: seq<EvalFile>)
    ensures PlaceFiles(slots, part, files).Done? ==> Grows(slots, PlaceFiles(slots, part, files).value)
    decreases |files|
  {
    if files != [] {
      match Step(slots, part, files[0])
      case Raised(_) =>
      case Done(next) =>
        assert Grows(slots, next);
        PlaceFilesGrows(next, part, files[1..]);
    }
  }

  lemma {:induction false} PlacePartsGrows(slots: seq<Option<Evaluation>>, parts: seq<(string, Option<seq<EvalFile>>)>)
    ensures PlaceParts(slots, parts).Done? ==> Grows(slots, PlaceParts(slots, parts).value)
    decreases |parts|
  {
    if parts != [] {
      match parts[0].1
      case None => PlacePartsGrows(slots, parts[1..]);
      case Some(files) =>
        PlaceFilesGrows(slots, parts[0].0, files);
        match PlaceFiles(slots, parts[0].0, files)
        case Raised(_) =>
        case Done(next) => PlacePartsGrows(next, parts[1..]);
    }
  }

  /** A question file evaluated to question q, 1 <= q <= the slot count, leaves slot
      q - 1 filled once the part's loop completes. */
  lemma {:induction false} PlaceFilesStores(slots: seq<Option<Evaluation>>, part: string, files: seq<EvalFile>, f: EvalFile, e: Evaluation)
    requires f in files && IsQuestionImage(f.name) && EvaluationOf(f.name, part, f.image) == Done(Some(e))
    requires 1 <= e.questionNumber <= |slots|
    ensures PlaceFiles(slots, part, files).Done? ==>
              var s := PlaceFiles(slots, part, files).value;
              |s| == |slots| && s[e.questionNumber - 1].Some?
    decreases |files|
  {
    if files[0] == f {
      assert Step(slots, part, f) == Store(slots, e);
      PlaceFilesGrows(Store(slots, e).value, part, files[1..]);
    } else {
      assert f in files[1..];
      match Step(slots, part, files[0])
      case Raised(_) =>
      case Done(next) => PlaceFilesStores(next, part, files[1..], f, e);
    }
  }

  /** A question file evaluated to a question past the slot count makes the part's
      loop raise: IndexError at that file, or an earlier exception. */
  lemma {:induction false} PlaceFilesRaises(slots: seq<Option<Evaluation>>, part: string, files: seq<EvalFile>, f: EvalFile, e: Evaluation)
    requires f in files && IsQuestionImage(f.name) && EvaluationOf(f.name, part, f.image) == Done(Some(e))
    requires e.questionNumber > |slots|
    ensures PlaceFiles(slots, part, files).Raised?
    decreases |files|
  {
    if files[0] == f {
      assert Step(slots, part, f) == Store(slots, e);
    } else {
      assert f in files[1..];
      match Step(slots, part, files[0])
      case Raised(_) =>
      case Done(next) => PlaceFilesRaises(next, part, files[1..], f, e);
    }
  }

  lemma {:induction false} PlacePartsStores(slots: seq<Option<Evaluation>>, parts: seq<(string, Option<seq<EvalFile>>)>,
                                            part: string, files: seq<EvalFile>, f: EvalFile, e: Evaluation)
    requires (part, Some(files)) in parts
    requires f in files && IsQuestionImage(f.name) && EvaluationOf(f.name, part, f.image) == Done(Some(e))
    requires 1 <= e.questionNumber <= |slots|
    ensures PlaceParts(slots, parts).Done? ==>
              var s := PlaceParts(slots, parts).value;
              |s| == |slots| && s[e.questionNumber - 1].Some?
    decreases |parts|
  {
    if parts[0] == (part, Some(files)) {
      PlaceFilesStores(slots, part, files, f, e);
      match PlaceFiles(slots, part, files)
      case Raised(_) =>
      case Done(next) => PlacePartsGrows(next, parts[1..]);
    } else {
      assert (part, Some(files)) in parts[1..];
      match parts[0].1
      case None => PlacePartsStores(slots, parts[1..], part, files, f, e);
      case Some(first) =>
        PlaceFilesGrows(slots, parts[0].0, first);
        match PlaceFiles(slots, parts[0].0, first)
        case Raised(_) =>
        case Done(next) => PlacePartsStores(next, parts[1..], part, files, f, e);
    }
  }

  lemma {:induction false} PlacePartsRaises(slots: seq<Option<Evaluation>>, parts: seq<(string, Option<seq<EvalFile>>)>,
                                            part: string, files: seq<EvalFile>, f: EvalFile, e: Evaluation)
    requires (part, Some(files)) in parts
    requires f in files && IsQuestionImage(f.name) && EvaluationOf(f.name, part, f.image) == Done(Some(e))
    requires e.questionNumber > |slots|
    ensures PlaceParts(slots, parts).Raised?
    decreases |parts|
  {
    if parts[0] == (part, Some(files)) {
      PlaceFilesRaises(slots, part, files, f, e);
    } else {
      assert (part, Some(files)) in parts[1..];
      match parts[0].1
      case None => PlacePartsRaises(slots, parts[1..], part, files, f, e);
      case Some(first) =>
        PlaceFilesGrows(slots, parts[0].0, first);
        match PlaceFiles(slots, parts[0].0, first)
        case Raised(_) =>
        case Done(next) => PlacePartsRaises(next, parts[1..], part, files, f, e);
    }
  }

  /** Every question image of a folder leaves its mark on the list
      `process_all_questions` returns: an evaluation numbered 1-45 fills its slot
      (with it, or with a later file of the same number), and one numbered above 45
      makes the call raise. */
  lemma FolderComplete(folder: Folder, part: string, files: seq<EvalFile>, f: EvalFile, e: Evaluation)
    requires (part, Some(files)) in Parts(folder)
    requires f in files && IsQuestionImage(f.name) && EvaluationOf(f.name, part, f.image) == Done(Some(e))
    ensures 1 <= e.questionNumber <= SlotCount && PlaceParts(EmptySlots(), Parts(folder)).Done? ==>
              var s := PlaceParts(EmptySlots(), Parts(folder)).value;
              |s| == SlotCount && s[e.questionNumber - 1].Some?
    ensures e.questionNumber > SlotCount ==> PlaceParts(EmptySlots(), Parts(folder)).Raised?
  {
    if e.questionNumber <= SlotCount {
      if 1 <= e.questionNumber {
        PlacePartsStores(EmptySlots(), Parts(folder), part, files, f, e);
      }
    } else {
      PlacePartsRaises(EmptySlots(), Parts(folder), part, files, f, e);
    }
  }

  function EmptySlots(): seq<Option<Evaluation>>
  {
    seq(SlotCount, _ => None)
  }

  /** The list `process_all_questions` builds for one folder. */
  method ProcessFolder(folder: Folder) returns (r: Outcome<seq<Option<Evaluation>>>)
    ensures r == PlaceParts(EmptySlots(), Parts(folder))
  {
    var allQuestions := new Option<Evaluation>[SlotCount](_ => None);
    assert allQuestions[..] == EmptySlots();
    var parts := Parts(folder);
    for k := 0 to |parts|
      invariant PlaceParts(allQuestions[..], parts[k..]) == PlaceParts(EmptySlots(), parts)
    {
      assert parts[k..][1..] == parts[k + 1..];
      var (part, listing) := parts[k];
      if listing.Some? {
        ghost var before := allQuestions[..];
        var raised := PlacePart(allQuestions, part, listing.value);
        if raised.Some? {
          assert PlaceFiles(before, part, listing.value) == Raised(raised.value);
          return Raised(raised.value);
        }
      }
    }
    return Done(allQuestions[..]);
  }

  /** The loop over one part's question files, storing into the list in place; it
      stops at the first exception. */
  method PlacePart(allQuestions: array<Option<Evaluation>>, part: string, files: seq<EvalFile>)
    returns (raised: Option<string>)
    modifies allQuestions
    ensures PlaceFiles(old(allQuestions[..]), part, files) ==
              if raised.Some? then Raised(raised.value) else Done(allQuestions[..])
  {
    for i := 0 to |files|
      invariant PlaceFiles(old(allQuestions[..]), part, files) == PlaceFiles(allQuestions[..], part, files[i..])
    {
      assert files[i..][1..] == files[i + 1..];
      var f := files[i];
      if IsQuestionImage(f.name) {
        var result := EvaluateQuestionImage(f.name, part, f.image);
        if result.Raised? {
          return Some(result.exception);
        }
        if result.value.Some? {
          var e := result.value.value;
          var index := ListIndex(e.questionNumber - 1, allQuestions.Length);
          if index.None? {
            return Some("IndexError");
          }
          allQuestions[index.value] := Some(e);
        }
      }
    }
    return None;
  }
}

# bubble-sheet-scan in Dafny

A model of the decoding core of bubble-sheet-scan. The scanner works in these stages:

1. It finds a photographed answer sheet, puts the sheet upright and crops it.
2. It cuts the sheet into three vertical sections.
3. It cuts each section into fifteen overlapping question rows, saved as `question_<n>.jpg`.
4. It runs a bubble detector over every row. The detector accepts or rejects contours by size and shape, and orders the accepted bubbles right to left. It measures each bubble's fill ratio and selects the bubbles filled beyond 0.46.
5. It numbers the questions globally: right section 1-15, middle section 16-30, left section 31-45.
6. It gathers the answers in a dictionary keyed `question_<N>`. A validator accepts that dictionary only when every question has four bubbles.

An older evaluator, `evaluate_questions.py`, keeps its own conventions:
- different contour bounds;
- bubbles ordered left to right;
- a fill threshold of 0.3, then a 0.6 confidence cut;
- results placed in a 45-slot list.

A batch reporter, `evaluate_questions_bubble_detection.py`, and an edge black-border check complete the core.

Every OpenCV call is replaced by the numbers it would report:
- for a contour: its area, perimeter, bounding box, moments, and the intensities of the pixels under its filled mask;
- for the sheet search: the corners of the approximated quadrilateral, the minimum-area rectangle and the bounding box;
- images are replaced by pixel grids, or by their sizes where only the size matters.

Directory listings are given as sequences of files. Each file carries its name and, when it can be read, the contours found in it. An exception is an explicit `Raised` outcome. Python's `None` is an `Option`. A dictionary is the sequence of its items in insertion order.

Module layout, one module per source file plus shared pieces:
- `Basics` holds `Option`, `Outcome` and `Take`.
- `Raster` holds NumPy slices and pixel grids.
- `StableSort` is Python's stable `list.sort`/`sorted` with a key, in both directions.
- `Dicts` holds insertion-ordered dictionaries.
- `QuestionFiles` holds the `question_<n>.jpg` naming and the two ways of parsing it.
- `Shape` holds circularity, aspect ratio and `int()` truncation.
- `BubbleDetector`, `DivideQuestions`, `ImageProcessing`, `ImageCropping`, `BubbleScanner`, `EvaluateQuestions`, `BubbleDetectionReport`, `Validator` and `ImageCheck` each model one source file.

Where the source changes state step by step, the model is a method proved equal to a specification function. The method uses a loop with invariants, an array written in place, or sequential reassignment. The properties are then proved about that function.

## Model

| member | source | states |
|---|---|---|
| BubbleDetector.AreaBounds | bubble_detector.py:7-10 | the area bounds derived from diameters 25 and 100 are `int(pi*12.5^2)` = 490 and `int(pi*50^2)` = 7853 |
| Shape.Circularity | bubble_detector.py:61 | circularity is 0 when the perimeter is not positive, otherwise c*p^2 = 4*pi*area |
| Shape.AspectRatio | bubble_detector.py:64-65 | the aspect ratio is 0 for a box with a non-positive side, otherwise at least 1 and max(w,h)/min(w,h) |
| Shape.AspectRatioSymmetric | bubble_detector.py:65 | the aspect ratio does not depend on which side is the width |
| Shape.Trunc | bubble_detector.py:9-10 | Python `int()` of a float truncates toward zero, bracketing the value from below for non-negative inputs and from above for negative ones |
| BubbleDetector.FindBubbles | bubble_detector.py:49-133 | the returned bubbles are at most four accepted, measured contours in non-increasing centre x; every rejection is of a refused contour with a non-empty reason; both equal the specification functions KeptOf and RejectedOf |
| BubbleDetector.Classify | bubble_detector.py:58-125 | the classification loop yields exactly the accepted bubbles and the rejections, in discovery order |
| BubbleDetector.KeptBubbles | bubble_detector.py:127-131 | the kept list has at most 4 bubbles, each an accepted contour, ordered right to left by centre x |
| BubbleDetector.KeptAreRightmost | bubble_detector.py:127-131 | the kept bubbles are min(accepted, 4) of the accepted ones, and every accepted bubble left out has its centre no further right than any kept one |
| BubbleDetector.KeptTiesInDiscoveryOrder | bubble_detector.py:127-131 | bubbles with equal centre x keep their discovery order: for each x the kept ones are a prefix of the accepted ones |
| BubbleDetector.AcceptedAreBubbles | bubble_detector.py:71-92 | every accepted bubble passes `min_area < area < max_area`, `circularity > 0.20` and `aspect_ratio < 2.5`, and carries its own measurements |
| BubbleDetector.RejectedAreExplained | bubble_detector.py:96-116 | every rejected contour fails the acceptance test and has a non-empty reason |
| BubbleDetector.EveryContourClassified | bubble_detector.py:58-116 | accepted plus rejected counts equal the number of contours |
| BubbleDetector.ReasonsExplainRejection | bubble_detector.py:97-108 | reasons are empty iff the contour is accepted; a size failure gives exactly one of "Too small" (area <= min_area) or "Too large"; "Low circularity" and "High aspect ratio" appear exactly when their bounds fail |
| BubbleDetector.RejectionReasons | bubble_detector.py:97-108 | no reason iff the contour is accepted; at most three reasons, each one of the four tags |
| BubbleDetector.JoinNonEmpty | bubble_detector.py:115 | joining a non-empty list of reasons whose first is non-empty gives a non-empty string |
| BubbleDetector.CountDark | bubble_detector.py:80 | the dark-pixel count never exceeds the mask's pixel count |
| BubbleDetector.FillRatio | bubble_detector.py:80-81 | the fill ratio lies in [0,1], is 0 with no dark pixel or an empty mask, 1 for an all-dark mask, and ratio times mask size is the dark count |
| BubbleDetector.FillRatioMonotonic | bubble_detector.py:80-81 | for masks of one size the fill ratio grows with the dark count |
| BubbleDetector.Center | bubble_detector.py:135-139 | the centre is (0,0) when m00 <= 0, otherwise the truncated centroid coordinates |
| BubbleDetector.Candidates | bubble_detector.py:156-157 | the comprehension keeps exactly the indices with fill ratio > 0.46, paired with their ratios, in increasing index order |
| BubbleDetector.AnalyzeSelectionsSpec | bubble_detector.py:141-166 | the result is exactly the indices with fill ratio > 0.46, each once and in range, in non-increasing fill ratio, with equal ratios in index order |
| BubbleDetector.AnalyzeSelections | bubble_detector.py:141-166 | empty input gives []; every position returned is a bubble's, filled beyond 0.46 |
| BubbleDetector.CandidateTiesByPosition | bubble_detector.py:160 | the stable sort by fill ratio keeps equally filled candidates in index order |
| BubbleDetector.SortedCandidates | bubble_detector.py:156-160 | any arrangement of the candidates that is sorted by ratio with ties by index has the selection properties |
| StableSort.SortBy | bubble_detector.py:128 | Python's sort with a key returns a permutation of its input, sorted by the key in the requested direction |
| StableSort.SortPrefixIsTop | bubble_detector.py:128-131 | the first m elements of a sorted list come from the input and each may precede every input element they leave out |
| StableSort.InsertKeepsSorted | bubble_detector.py:128 | inserting an element into a sorted list keeps it sorted |
| StableSort.SortIsStable | bubble_detector.py:160 | for each key value, the sorted elements carrying it are in their input order (`reverse=True` included) |
| StableSort.SortKeepsTieOrder | bubble_detector.py:160 | input in increasing rank stays in increasing rank among equal keys after sorting |
| StableSort.SortKeepsKeysDistinct | bubble_scanner.py:134 | sorting elements with pairwise distinct keys keeps them distinct, so the sorted order is strict |
| DivideQuestions.RowSpan | divide_questions.py:78-82 | the slice `img[start_y:end_y]` of row i is a valid span inside the image |
| DivideQuestions.RowBounds | divide_questions.py:78-79 | for a non-negative overlap 0 <= start <= end <= height, and the crop is exactly [start, end) |
| DivideQuestions.AdjacentRowsOverlap | divide_questions.py:78-79 | where not clamped, row i ends exactly 2*overlap below where row i+1 starts |
| DivideQuestions.Coverage | divide_questions.py:58-79 | the last row ends at min(height, 15*h + overlap); every image line lies in some row iff height mod 15 <= overlap |
| DivideQuestions.DefaultRowsOfStandardSection | divide_questions.py:44-79 | at the default overlap 5, a 480-row section of the 600-row sheet has row i at [max(0, 32i-5), min(480, 32(i+1)+5)) and every line lies in some row |
| DivideQuestions.RowOfLine | divide_questions.py:76-79 | when height mod 15 <= overlap, every line lies in some row |
| DivideQuestions.DivideIntoQuestions | divide_questions.py:44-86 | exactly 15 full-width crops in increasing row order, crop i being rows RowSpan(i) saved as `question_<i+1>.jpg`, whose name parses back to i+1 |
| DivideQuestions.CutVisualization | divide_questions.py:6-42 | 14 cut lines at i*h, 15 labels at i*h + h//2 and 14 overlap bands [y-overlap, y+overlap]; the lines lie inside the image when it has a row per section |
| DivideQuestions.CutLineInsideImage | divide_questions.py:27-29 | every cut line is inside an image with at least one row per section |
| DivideQuestions.CutLinesInsideCrops | divide_questions.py:27-79 | with a positive overlap each cut line lies in both crops that meet there, and each label lies in its own question's crop |
| QuestionFiles.FileNumber | evaluate_questions_bubble_detection.py:5-7 | the name `question_<n>.jpg` written for question n parses back to n by deleting `question_` and `.jpg` |
| QuestionFiles.StemNumber | evaluate_questions.py:95 | the name written for question n parses back to n via the last `_` piece of its stem |
| QuestionFiles.FileNamePassesFilters | bubble_scanner.py:76-77 | every crop name passes the scanner's filter and the evaluators' `question_*.jpg` filter |
| QuestionFiles.ParseInt | bubble_scanner.py:83 | `int()` of a string succeeds iff it is a non-empty string of decimal digits |
| QuestionFiles.DecimalRoundTrip | bubble_scanner.py:83 | `int()` of the decimal digits of n gives back n |
| QuestionFiles.LastIndex | evaluate_questions.py:95 | the last occurrence of a character, or None when it is absent |
| QuestionFiles.RemoveAll | bubble_scanner.py:83 | `str.replace(pat, '')` never lengthens the string |
| Raster.Bound | image_check.py:17-20 | a slice bound is clamped to [0, n] and a negative bound counts from the end |
| Raster.Slice | image_processing.py:41-43 | a slice is a valid span within the sequence; in-range bounds are kept as given; `[:]` is everything |
| Raster.Crop | image_processing.py:41-43 | `img[a:b, c:d]` has the spans' sizes and pixel (r,k) of the crop is pixel (a+r, c+k) of the image |
| Raster.FlattenLength | image_check.py:35 | an image of h rows of w pixels has h*w pixels |
| ImageProcessing.CropIntoThirds | image_processing.py:30-45 | three valid parts (left, middle, right), widths sw, sw and sw + width mod 3, all max(0, height-120) rows, each pixel taken from row 60+r and the part's column offset |
| ImageProcessing.ThirdsPartitionColumns | image_processing.py:35-43 | the column ranges are [0,sw), [sw,2sw), [2sw,width); every column is in exactly one, and none lies outside the image |
| ImageProcessing.SectionRowsSpan | image_processing.py:41-43 | every part keeps rows [60, height-60), which is max(0, height-120) rows |
| ImageCropping.ArgMinBy | image_croping.py:11-18 | `np.argmin`: the first index holding the least key |
| ImageCropping.ArgMaxBy | image_croping.py:13-19 | `np.argmax`: the first index holding the greatest key |
| ImageCropping.OrderedCorners | image_croping.py:5-21 | four corners, each one of the input points |
| ImageCropping.OrderPoints | image_croping.py:5-21 | filling the four slots of `rect` in place gives the least-sum, least-difference, greatest-sum and greatest-difference points |
| ImageCropping.OrdersUprightRectangle | image_croping.py:9-19 | the corners of an upright rectangle, in any order, come out as top-left, top-right, bottom-right, bottom-left |
| ImageCropping.DiamondRepeatsCorner | image_croping.py:11-19 | for a square turned by 45 degrees the same vertex fills two slots |
| ImageCropping.WarpOutput | image_croping.py:47 | the warped image has the requested maxHeight by maxWidth size, or the source image's size when a side is 0 |
| ImageCropping.UprightWarpOutput | image_croping.py:23-47 | an upright rectangle's corners, in any order, warp onto an image of the rectangle's own size |
| ImageCropping.KiteKeepsSourceSize | image_croping.py:5-47 | a tall narrow kite repeats two corners, asks for width 0, and so keeps the source size |
| ImageCropping.ISqrt | image_croping.py:29-36 | `int(np.sqrt(n))` for whole n is the integer square root r, with r^2 <= n < (r+1)^2 |
| ImageCropping.ISqrtOfSquare | image_croping.py:29-36 | the square root of d^2 is d |
| ImageCropping.AxisEdgeLength | image_croping.py:29-36 | an axis-parallel edge is measured exactly |
| ImageCropping.UprightWarpSize | image_croping.py:29-36 | an upright rectangle warps onto an image of exactly its size |
| ImageCropping.WarpSize | image_croping.py:29-36 | the width is the longer of the bottom and top edges and the height the longer of the right and left edges |
| ImageCropping.Destination | image_croping.py:39-43 | four corners of an upright box from (0,0) to (W-1,H-1), clockwise from the top left; warped back they measure (W-1) by (H-1) |
| ImageCropping.DestinationInOrder | image_croping.py:39-43 | the destination corners are already in `order_points` order |
| ImageCropping.Orient | image_croping.py:58-62 | after orientation height >= width; the size is kept or swapped, and kept when already upright |
| ImageCropping.DetectAndCropBorder | image_croping.py:51-146 | an unreadable image raises; with no contours the oriented image is returned; a quadrilateral is warped (to WarpOutput's size, the oriented image's size when a side is 0) and padded by 10 per side; otherwise it is the fallback crop |
| ImageCropping.StraightenAndCrop | image_croping.py:108-146 | the sequential reassignment of angle, x, y, w and h yields the fallback crop |
| ImageCropping.FallbackWindow | image_croping.py:137-144 | the fallback window stays in the image, is at most 20 px larger than the box, and covers a box inside the image, starting at most 10 px before it |
| ImageCropping.FallbackCrop | image_croping.py:120-144 | the crop is of the straightened image, within its size; the angle gains 90 degrees exactly when int(width) < int(height) |
| ImageCropping.FallbackShiftsClampedPadding | image_croping.py:138-140 | padding clamped off at the left edge moves to the right: the window is [0, w+20) |
| ImageCropping.ProcessImages | image_croping.py:148-189 | an unreadable image or a crop without pixels gives None; otherwise the result is the 800x600 standard size |
| BubbleScanner.GlobalNumber | bubble_scanner.py:9-16 | the global number is the section offset plus the local number; an unknown section is the KeyError path |
| BubbleScanner.SectionsPartitionQuestions | bubble_scanner.py:9-16 | local numbers 1-15 of the three sections map one-to-one onto 1-45, and onto nothing else |
| BubbleScanner.BelowFour | bubble_scanner.py:111 | the filter keeps exactly the selected indices below 4, and everything when all are below 4 |
| BubbleScanner.FillRatios | bubble_scanner.py:124 | one fill ratio per bubble, in order |
| BubbleScanner.ResultSpec | bubble_scanner.py:107-126 | a record has its number and one ratio per bubble (at most 4); its answer is present iff some ratio exceeds 0.46, and then holds exactly those positions, each once, most filled first |
| BubbleScanner.AnswerSpec | bubble_scanner.py:107-118 | the answer stated on the fill ratios of at most four bubbles |
| BubbleScanner.AnswerIsSelection | bubble_scanner.py:108-118 | a selection of positions below 4 is the answer itself, or None when empty |
| BubbleScanner.Sections | bubble_scanner.py:46-50 | the sections are visited in the order right, middle, left |
| BubbleScanner.ScannerInputs | bubble_scanner.py:76-77 | exactly the `question_*` files not ending in `_orig.jpg` |
| BubbleScanner.ProcessBubbleSheet | bubble_scanner.py:18-183 | equals Scan: None when the sheet cannot be cropped, otherwise the dictionary of the records sorted by question number, or the first exception |
| BubbleScanner.CollectSections | bubble_scanner.py:57-131 | the loop over the sections collects CollectResults, stopping at the first exception |
| BubbleScanner.ProcessSection | bubble_scanner.py:71-131 | one section's loop over the scanner's inputs gives SectionResults |
| BubbleScanner.ScanFiles | bubble_scanner.py:81-131 | the per-file loop gives SectionResults of its inputs |
| BubbleScanner.ProcessFile | bubble_scanner.py:82-128 | one pass: parse the number, skip an unreadable image, otherwise append the record |
| BubbleScanner.ProcessQuestion | bubble_scanner.py:97-126 | the record of a readable image is ResultOf its contours |
| BubbleScanner.StoreResults | bubble_scanner.py:137-144 | the dictionary loop yields ResultsDict of the sorted records |
| BubbleScanner.SectionStopsAtError | bubble_scanner.py:83-84 | once a file raises, the section raises that exception |
| BubbleScanner.CollectStopsAtError | bubble_scanner.py:57-84 | once a section raises, the scan raises that exception |
| BubbleScanner.SectionResultsSpec | bubble_scanner.py:81-128 | a section raises iff some input's number does not parse or the section is unknown; otherwise its records equal the readable inputs' records in input order, every readable input has its record and every record is scanned from an input |
| BubbleScanner.SectionInInputOrder | bubble_scanner.py:81-128 | a completed section's records are ReadableRecords: each readable input's record under its global number, one each, in input order, unreadable images skipped |
| BubbleScanner.SectionComplete | bubble_scanner.py:88-128 | every readable input of a completed section has a parsed number, a known section, and its record in the result |
| BubbleScanner.SectionRaises | bubble_scanner.py:83-84 | the raising condition of a section, both directions |
| BubbleScanner.SectionCount | bubble_scanner.py:88-128 | unreadable images are skipped, so the records count the readable inputs |
| BubbleScanner.SectionRecords | bubble_scanner.py:121-128 | every record is the record of a readable input under its global number; none is synthesised |
| BubbleScanner.QuestionKeyInjective | bubble_scanner.py:139 | distinct question numbers get distinct keys |
| BubbleScanner.ResultsDictSpec | bubble_scanner.py:137-144 | the dictionary has distinct keys, one per question number met, and each holds the last record with that number |
| BubbleScanner.ResultsDictInOrder | bubble_scanner.py:137-144 | records in strictly increasing number become the dictionary items in the same order |
| BubbleScanner.SectionCountsAddUp | bubble_scanner.py:169-175 | the three section summary counts add up to the answered questions numbered 1-45 |
| BubbleScanner.AnsweredSplit | bubble_scanner.py:170-173 | splitting a number range splits the answered count |
| BubbleScanner.Answered | bubble_scanner.py:173 | the answered count is at most the number of records |
| BubbleScanner.ScanDictionary | bubble_scanner.py:133-144 | a successful scan returns the dictionary of the records sorted by number, holding no key twice |
| BubbleScanner.SortedDictionary | bubble_scanner.py:133-144 | with distinct numbers the dictionary holds every record once, in strictly increasing question order |
| Dicts.Get | main.py:88-90 | a lookup finds a value iff the key is present, and the value is stored under that key |
| Dicts.Put | bubble_scanner.py:140 | after `d[k] = v`, k reads v and every other key reads what it read before |
| Dicts.PutPlacement | bubble_scanner.py:140 | assigning to a present key keeps the key order; a new key is appended |
| Dicts.PutKeepsKeysDistinct | bubble_scanner.py:140 | assignment never makes a dictionary hold a key twice |
| EvaluateQuestions.CandidatesOf | evaluate_questions.py:26-34 | exactly the contours with 100 < area < 1000 and circularity > 0.7 |
| EvaluateQuestions.ExaminedOf | evaluate_questions.py:37-46 | the examined bubbles are at most 4 candidates in non-decreasing bounding-box x |
| EvaluateQuestions.ExaminedAreLeftmost | evaluate_questions.py:37-46 | the examined bubbles are min(candidates, 4) of the candidates, and no candidate left out lies further left than an examined one |
| EvaluateQuestions.DetectSpec | evaluate_questions.py:52-61 | strictly increasing positions of the examined bubbles, exactly those filled beyond 0.3, each paired with its fill ratio |
| EvaluateQuestions.DetectBubbles | evaluate_questions.py:7-61 | the method returns Detect of the first four candidates sorted left to right |
| EvaluateQuestions.MarkFilled | evaluate_questions.py:40-61 | the loop with its `break` after position 3 computes Detect of the first four |
| EvaluateQuestions.KeptIndices | evaluate_questions.py:106-107 | exactly the increasing indices with confidence >= 0.6 |
| EvaluateQuestions.Confident | evaluate_questions.py:104-109 | the filtered positions and confidences have equal length |
| EvaluateQuestions.ConfidentSpec | evaluate_questions.py:104-109 | the kept pairs are the input pairs at KeptIndices, in order and still paired |
| EvaluateQuestions.ConfidentOfDetect | evaluate_questions.py:101-109 | after the cut: increasing positions with their fill ratios, exactly those filled to at least 0.6 |
| EvaluateQuestions.EvaluationSpec | evaluate_questions.py:79-115 | a readable image with a numeric stem gives its adjusted number and strictly increasing positions below 4 with their ratios, exactly those with ratio >= 0.6 |
| EvaluateQuestions.EvaluationOf | evaluate_questions.py:79-115 | None iff the image is unreadable; ValueError iff it is readable and the stem's last `_` piece is not a number; otherwise the adjusted number with as many positions as confidences |
| EvaluateQuestions.EvaluateQuestionImage | evaluate_questions.py:79-115 | the method equals EvaluationOf: None for an unreadable image, ValueError for a non-numeric stem |
| EvaluateQuestions.ListIndex | evaluate_questions.py:153 | Python list indexing: a negative index counts from the end; out of range is the IndexError path |
| EvaluateQuestions.StoreSpec | evaluate_questions.py:153-157 | question q in 1-45 lands in slot q-1, question 0 in the last slot, and q > 45 raises IndexError; nothing else changes |
| EvaluateQuestions.Store | evaluate_questions.py:153-157 | IndexError iff the list is empty or q exceeds its length; otherwise slot q-1 (the last for q = 0) holds the evaluation and every other slot is unchanged |
| EvaluateQuestions.StoreKeepsWellPlaced | evaluate_questions.py:153 | storing keeps every filled slot holding its own question |
| EvaluateQuestions.PlaceFilesKeepsWellPlaced | evaluate_questions.py:147-157 | the loop over a part's files keeps the slots well placed |
| EvaluateQuestions.PlacePartsKeepsWellPlaced | evaluate_questions.py:141-157 | the loop over the parts keeps the slots well placed |
| EvaluateQuestions.FolderWellPlaced | evaluate_questions.py:138-157 | the 45-slot list holds nothing or its own question in each slot |
| EvaluateQuestions.FolderComplete | evaluate_questions.py:138-157 | a question image of any part that evaluates to q in 1-45 leaves slot q-1 filled when the call completes; one evaluating to q > 45 makes the call raise |
| EvaluateQuestions.ProcessFolder | evaluate_questions.py:133-160 | writing `all_questions` in place over the parts yields PlaceParts of 45 empty slots |
| EvaluateQuestions.PlacePart | evaluate_questions.py:147-157 | the in-place loop over one part's files ends in PlaceFiles of the old list, or in its exception |
| BubbleDetectionReport.OneBased | evaluate_questions_bubble_detection.py:24 | `[i+1 for i in selected]`, index by index |
| BubbleDetectionReport.MarksSpec | evaluate_questions_bubble_detection.py:24 | the marks are `['null']` iff no bubble exceeds 0.46; otherwise the 1-based positions of exactly those bubbles, each once, most filled first |
| BubbleDetectionReport.SelectionFacts | bubble_detector.py:155-166 | the selection stated on the list of fill ratios |
| BubbleDetectionReport.NoSelection | evaluate_questions_bubble_detection.py:24 | the selection is empty iff no ratio exceeds 0.46 |
| BubbleDetectionReport.OneBasedMembers | evaluate_questions_bubble_detection.py:24 | the 1-based marks are exactly the positions above the threshold, plus one |
| BubbleDetectionReport.OneBasedOrder | evaluate_questions_bubble_detection.py:24 | the 1-based marks stay in range, distinct and in non-increasing fill ratio |
| BubbleDetectionReport.ReportOf | evaluate_questions_bubble_detection.py:18-27 | a record has its number, bubbles_detected = len(fill_ratios) <= 4, and nothing detected and `['null']` for an unreadable image |
| BubbleDetectionReport.ReportMarks | evaluate_questions_bubble_detection.py:23-25 | the marks of a readable image stated on its own fill ratios |
| BubbleDetectionReport.KeysOf | evaluate_questions_bubble_detection.py:33 | the sort key is computed for every file; any unparsable name is a ValueError |
| BubbleDetectionReport.QuestionImages | evaluate_questions_bubble_detection.py:34 | exactly the `question_*.jpg` files |
| BubbleDetectionReport.ReportsOfSnoc | evaluate_questions_bubble_detection.py:33-39 | one more file appends its record when it is a question image |
| BubbleDetectionReport.ProcessSection | evaluate_questions_bubble_detection.py:29-40 | the method equals SectionReports: keys, stable sort, then the append loop |
| BubbleDetectionReport.NumberFiles | evaluate_questions_bubble_detection.py:33 | the loop computing the keys equals KeysOf |
| BubbleDetectionReport.ReportFiles | evaluate_questions_bubble_detection.py:33-39 | the append loop equals ReportsOf |
| BubbleDetectionReport.SectionReportsOutcome | evaluate_questions_bubble_detection.py:31-40 | a missing directory gives []; a listing raises iff some name does not parse |
| BubbleDetectionReport.SectionReportsComplete | evaluate_questions_bubble_detection.py:34-39 | every question image of the listing has its record |
| BubbleDetectionReport.SectionRecords | evaluate_questions_bubble_detection.py:29-40 | a completed section's records are exactly the records of its question images |
| BubbleDetectionReport.SectionReportsSound | evaluate_questions_bubble_detection.py:34-39 | every record comes from a question image of the listing |
| BubbleDetectionReport.KeyedFromFiles | evaluate_questions_bubble_detection.py:33 | each keyed file is in the listing, with its parsed number |
| BubbleDetectionReport.SectionReportsOrdered | evaluate_questions_bubble_detection.py:33-39 | a section's records are in ascending question number |
| BubbleDetectionReport.QuestionImagesSorted | evaluate_questions_bubble_detection.py:33-34 | filtering a listing sorted by number keeps it sorted |
| BubbleDetectionReport.FileReportNumber | evaluate_questions_bubble_detection.py:35-36 | a record's number is the section-adjusted file number |
| BubbleDetectionReport.SampleNumbering | evaluate_questions_bubble_detection.py:9-16 | the batch offsets equal the scanner's offsets for the three sections, and an unknown section keeps its local number |
| EvaluateQuestions.AdjustedQuestionNumber | evaluate_questions.py:63-77 | never below the local number; unchanged for parts other than left and middle; local 1-15 land on 31-45 (left), 16-30 (middle), 1-15 (right) |
| BubbleDetectionReport.CombineResults | evaluate_questions_bubble_detection.py:68-71 | extend left, middle, right, then sort in place: equals Combined |
| BubbleDetectionReport.FlattenThree | evaluate_questions_bubble_detection.py:69-70 | extending an empty list by three lists concatenates them |
| BubbleDetectionReport.CombinedSpec | evaluate_questions_bubble_detection.py:68-71 | the summary holds every section record once, has total length, ascending numbers, and ties in left, middle, right order |
| BubbleDetectionReport.ProcessSample | evaluate_questions_bubble_detection.py:42-56 | raises ValueError exactly when some section lists a file name without a number |
| BubbleDetectionReport.SampleSummary | evaluate_questions_bubble_detection.py:42-71 | a completed sample's summary holds exactly the records of the question images of its three sections, in ascending question number |
| Validator.CheckEntriesSpec | main.py:83-92 | the loop with early returns is true iff every `question_` item is valid |
| Validator.ValidateResults | main.py:70-94 | True iff a non-empty dict whose every `question_` value is a dict with `bubbles_detected` == 4 |
| Validator.OrderIrrelevant | main.py:83-94 | the verdict does not depend on the order of the items |
| Validator.OneBadQuestion | main.py:88-92 | one failing question makes the result invalid wherever it stands |
| Validator.NoQuestionsIsValid | main.py:83-94 | a non-empty dict without `question_` keys is valid |
| Validator.NonDictionaryIsInvalid | main.py:75-80 | a falsy or non-dict value is invalid |
| Validator.ResultsJson | bubble_scanner.py:137-144 | the scanner dictionary as a Python value has one item per entry |
| Validator.ScanValidation | main.py:83-94 | a scanner dictionary is accepted iff it is non-empty and every `question_` entry detected 4 bubbles |
| ImageCheck.EdgeSpans | image_check.py:16-21 | each edge's row and column spans are valid and inside the image |
| ImageCheck.Edge | image_check.py:16-21 | each edge is a valid pixel grid |
| ImageCheck.CountBelow | image_check.py:34 | the black count never exceeds the pixel count |
| ImageCheck.HasBlackBorder | image_check.py:6-62 | the flag equals HasBorder; no report for an unreadable image, otherwise one report per edge in the order top, bottom, left, right |
| ImageCheck.PercentageRule | image_check.py:36-42 | `black/total*100 >= 50` iff `2*black >= total` |
| ImageCheck.EdgeReportSpec | image_check.py:34-46 | an edge is bordered iff it has pixels and at least half are black; it clears the flag iff it has pixels and fewer than half are black |
| ImageCheck.EdgeSpansWithin | image_check.py:16-21 | for 1 <= t <= height, width the edges are the top, bottom, left and right t rows or columns |
| ImageCheck.EdgesHavePixels | image_check.py:16-21 | with t >= 1 every edge of a non-empty image has pixels |
| ImageCheck.BorderRule | image_check.py:31-48 | with t >= 1 the result is True iff each edge is at least half black |
| ImageCheck.DefaultBorder | image_check.py:6-20 | at the defaults (thickness 1, threshold 10) the edges are the outer rows and columns, and the result is True iff each is at least half black |
| ImageCheck.CropWhole | image_check.py:18-20 | cropping the whole range gives the image itself |
| ImageCheck.EmptyEdgeKeepsFlag | image_check.py:36-46 | an edge without pixels (NaN) never clears the flag |
| ImageCheck.HasBorderEdges | image_check.py:31-48 | the result is the conjunction of the four edges' tests |
| ImageCheck.ZeroThicknessFlag | image_check.py:17-46 | with t = 0 only the whole image (`gray[-0:]`) can clear the flag |
| ImageCheck.ZeroThickness | image_check.py:17-48 | with t = 0 the result is whether the whole image is at least half black |

## Left out

- OpenCV and NumPy image operations (blurs, thresholds, CLAHE, contour search, moments, warps, resizing, drawing) are foreign library calls; their outputs are model inputs.
- Floating point: reals stand for floats, so rounding is not modelled. A NumPy 0/0 (NaN) percentage is `None`, and it behaves as NaN does in comparisons.
- File and OS I/O (imread, imwrite, makedirs, listdir, the JSON and summary text files) is left out. Directory listings are taken in the order given, so the lexicographic `sorted()` of bubble_scanner.py:76 and evaluate_questions.py:147 is not modelled.
- main.py beyond `validate_results`: the FastAPI routes, CORS, file cleanup and server startup are HTTP plumbing.
- combine_images.py, `visualize`, `visualize_with_answers`, `preprocess` and every `print` are drawing, logging or pure OpenCV.
- `enhance_image` and `main` of image_processing.py are left out. The first is pure OpenCV; the second calls `crop_into_thirds` with arguments it does not accept.
- `process_all_parts` of divide_questions.py is left out: it is folder enumeration.
- `new_height` in `crop_into_thirds` is computed but unused, so it is not modelled.
- The `diameter` and `mean_val` bubble fields are left out: they are diagnostics that no decision reads.
- `result_image` of `process_question` and the annotated images are left out.
- `BubbleDetector.process` reads the question image a second time. The model uses a single read: an image is either readable, with its contours, or not.
- Folder enumeration, the per-folder dictionary and the JSON dump of `process_all_questions` are left out. `EvaluateQuestions.ProcessFolder` models one folder's 45-slot list.
- Validator: a `Json` object may list a key twice, which a dictionary built by `json.load` cannot. For such a value `Get` returns the first binding where Python keeps the last. Every lemma about the validator holds for all item lists, so in particular for real dictionaries.
- The section summary text of bubble_scanner.py and evaluate_questions_bubble_detection.py is left out. Only its counts (`SectionCountsAddUp`) and the total (`CombinedSpec`) are modelled.
- The timestamped JSON report of image_check.py is left out; the edge reports are returned instead. A failure to save it does not change the result.
- `int()` is modelled for strings of ASCII digits only. Python also accepts surrounding whitespace, a sign and underscores; such names never occur among the crops the scanner writes.
- The pixels of the perspective warp and of the affine rotation are left out. Only their output sizes (including the warp's fallback to the source size when a requested side is 0), the ordered corners and the crop window are modelled.
- ImageCropping.ProcessImages: states the enhancement and resize only as the final 800x600 size, because they are OpenCV calls.
- DivideQuestions.DivideIntoQuestions: returns the crops with their names instead of writing them, and does not model the preview image write.

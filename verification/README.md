# Vietnamese ID-card extraction: a verified model of the pipeline's core

This project is a Dafny model of the logic at the centre of an ID-card
reading pipeline. The pipeline finds the card in a photo, rectifies it to a
bird's-eye view, crops the text regions a text detector reports, reads them
with an OCR model, orders the recognised words into lines, and decides
whether the text belongs to a Vietnamese ID card. The model covers the parts
of that pipeline that are plain computation:

- **corner search** (`corners_algorithm.py`):
  - classifying and extending detected segments;
  - the end points of the longest contours;
  - canvas intersections;
  - `filter_corners`;
  - `sort_points`;
  - the search over four-corner subsets and contour polygons;
  - the choice between the two searches, with the whole-image fallback.
- **rectification geometry** (`image_processing.py`):
  - the constants of `get_constants`;
  - the output size and destination rectangle of `to_bird_eye_view`.
- **text-box parsing and file naming** (`crop_text_regions.py`): how
  `generate_words` cuts the detector's dictionary text into boxes, applies
  the `np.all` guard and names each cropped file.
- **OCR ordering** (`ocr_processing.py`):
  - reading the corners back from a file name;
  - attaching them to the OCR rows;
  - grouping the rows into lines by a 4-pixel gap on `pt1_y`;
  - joining each line's words in x order.
- **ID-card validation** (`ocr_from_text_regions.py`):
  - `remove_accents` with its two 134-letter tables;
  - ASCII lower-casing;
  - the twelve key phrases of `check_valid_predicted`.

Modelling conventions:

- Points are integer pairs. Euclidean comparisons are made on squared
  distances. `cv2.contourArea` is twice the shoelace area, an integer.
- Python floats that travel through text are exact decimals: a sign, a whole
  part and fractional digits without trailing zeros. `'{}'.format(x)` is
  their shortest repr, `float(text)` parses them and `int(x)` truncates.
- The sorts on integer keys (`sorted` by `cv2.contourArea`, `np.argsort`,
  `DataFrame.sort_values`) are one stable insertion sort, `Seqs.SortBy`.
  Properties that depend on tie order are stated for distinct keys. The two
  sorts by `cv2.arcLength` are not modelled; the contour lists are taken
  already in that order.
- A Python exception is the `Err` of a `Result` (`ValueError`,
  `IndexError`).
- OpenCV, pylsd and the neural models are not modelled. What they return is
  an input of the model:
  - contours;
  - redrawn canvases;
  - `approxPolyDP`, passed as a function from contour to polygon;
  - `angle_range`, passed as a function.

## Model

| member | source | states |
|---|---|---|
| CornerFilter.FilterCorners | modules/process_input/corners_algorithm.py:11-25 | The kept corners are a subsequence of the input, start with its first corner, and are pairwise more than `min_dist` apart. |
| CornerFilter.FilterCornersLoop | modules/process_input/corners_algorithm.py:19-25 | The loop that appends each corner far from all kept ones computes exactly `FilterCorners`. |
| CornerFilter.KeptDistinct | modules/process_input/corners_algorithm.py:21-23 | With a non-negative `min_dist`, no corner is kept twice. |
| CornerFilter.FilterPrefix | modules/process_input/corners_algorithm.py:19-25 | Filtering a prefix of the corners gives a prefix of the filtered list; a decision is never revised. |
| CornerFilter.DroppedNearKept | modules/process_input/corners_algorithm.py:21-23 | The corner at position i is dropped (the kept list does not grow) exactly when it lies within `min_dist` of some corner kept before it. |
| CornerFilter.FilterSeparated | modules/process_input/corners_algorithm.py:21-23 | Corners that are already pairwise separated are all kept, in order. |
| CornerFilter.FilterIdempotent | modules/process_input/corners_algorithm.py:11-25 | Filtering twice is filtering once. |
| CornerFilter.FilterExamples | modules/process_input/corners_algorithm.py:11 | With the default 20: a corner at distance 5 is dropped, and one at distance 25 is kept. |
| CornerFilter.FilterPair | modules/process_input/corners_algorithm.py:21-23 | A second corner is kept exactly when it is farther than `min_dist` from the first. |
| PointOrder.SortPoints | modules/process_input/corners_algorithm.py:28-48 | The result is a permutation of the four points. The two left points have the smallest x, and the top-left is above the bottom-left. Top-right is no farther from top-left than bottom-right. |
| PointOrder.OrderXSorted | modules/process_input/corners_algorithm.py:35-46 | The same ordering promises, for points already sorted by x. |
| PointOrder.WithRight | modules/process_input/corners_algorithm.py:43-44 | Of the two right points, the one farther from top-left becomes bottom-right. |
| PointOrder.SortPointsPermutationInvariant | modules/process_input/corners_algorithm.py:34-46 | With distinct x values, the order in which the four points arrive does not change the result. |
| PointOrder.SortPointsIdempotent | modules/process_input/corners_algorithm.py:34-46 | Sorting an already sorted quad changes nothing. |
| PointOrder.SortPointsRectangle | modules/process_input/corners_algorithm.py:28-48 | A shuffled axis-aligned rectangle comes back as tl, tr, br, bl. |
| LineCanvas.TruncReal | modules/process_input/corners_algorithm.py:108 | `astype(np.int32)` truncates toward zero. |
| LineCanvas.ToSegment | modules/process_input/corners_algorithm.py:106-117 | Each segment endpoint is the truncation of the detector's coordinates. |
| LineCanvas.StrokeOf | modules/process_input/corners_algorithm.py:116-131 | A segment goes to the horizontal canvas exactly when it is wider than tall. Its stroke is sorted along that axis, extended by 5 pixels and clamped to the image. |
| LineCanvas.HorizontalStroke | modules/process_input/corners_algorithm.py:121-125 | The left end is moved 5 px left but not below 0, and the right end 5 px right but not past width-1; the y values travel with their x. A segment inside the image gets a stroke that covers its columns and stays inside the image. |
| LineCanvas.VerticalStroke | modules/process_input/corners_algorithm.py:127-131 | The top end is moved 5 px up but not below 0, and the bottom end 5 px down but not past height-1; the x values travel with their y. A segment inside the image gets a stroke that covers its rows and stays inside the image. |
| LineCanvas.Strokes | modules/process_input/corners_algorithm.py:116-131 | One stroke per detected segment, in order. |
| LineCanvas.TruncMean | modules/process_input/corners_algorithm.py:145-146 | `int(np.average(...))` of a non-empty column is its mean truncated toward zero: with n values summing to S, n·r ≤ S < n·(r+1) when S ≥ 0 and n·(r-1) < S ≤ n·r when S < 0. It lies between the minimum and the maximum. An empty column has no value. |
| LineCanvas.ContourEnds | modules/process_input/corners_algorithm.py:140-170 | The ends sit 2 px inside the contour's extent along the line. Each cross coordinate is the truncated mean of the contour points at that position. There is no result when no point sits there. |
| LineCanvas.EndsOnFlatColumn | modules/process_input/corners_algorithm.py:145-146 | When every contour point at the end column shares one row, that row is the end's cross coordinate. |
| LineCanvas.EndPoints | modules/process_input/corners_algorithm.py:140-170 | A horizontal contour gives the points at min x + 2 and max x - 2, each y being the truncated mean of the contour's y values in that column. A vertical one gives the points at min y + 2 and max y - 2, with x found the same way per row. |
| LineCanvas.AllEndPoints | modules/process_input/corners_algorithm.py:140-170 | Two corners per contour, in contour order, provided every contour yields its ends. |
| LineCanvas.Longest | modules/process_input/corners_algorithm.py:137 | At most the first two contours of the perimeter-sorted list are kept. |
| LineCanvas.Intersections | modules/process_input/corners_algorithm.py:175-176 | Exactly the cells where the two canvases sum to 2, in row-major order as `np.where` lists them. |
| LineCanvas.HitOnBinaryCanvases | modules/process_input/corners_algorithm.py:149-175 | On canvases of 0 and 1, a hit is a cell set on both. |
| LineCanvas.HitWrapsAround | modules/process_input/corners_algorithm.py:175 | With uint8 addition, 255 + 3 also sums to 2: the sum is taken modulo 256. |
| LineCanvas.CandidateCorners | modules/process_input/corners_algorithm.py:133-180 | The candidates exist exactly when every longest contour yields its ends. They are `filter_corners` of the horizontal ends, then the vertical ends, then the intersections. |
| QuadSearch.Combos | modules/process_input/corners_algorithm.py:194 | `itertools.combinations`: C(n, k) strictly increasing index tuples within range. |
| QuadSearch.CombosComplete | modules/process_input/corners_algorithm.py:194 | Every increasing k-tuple of indices is generated. |
| QuadSearch.CombosLexOrdered | modules/process_input/corners_algorithm.py:194 | The tuples come in strictly increasing lexicographic order. |
| QuadSearch.CombosDistinct | modules/process_input/corners_algorithm.py:194 | No tuple is generated twice. |
| QuadSearch.SubsetQuads | modules/process_input/corners_algorithm.py:192-205 | One sorted quad per 4-subset of the corners. |
| QuadSearch.QuadOf | modules/process_input/corners_algorithm.py:198-204 | A subset's quad is a permutation of the chosen corners. |
| QuadSearch.SubsetQuadsComplete | modules/process_input/corners_algorithm.py:194-205 | Every 4-subset of the corners appears as a quad. |
| QuadSearch.TopByArea | modules/process_input/corners_algorithm.py:208 | min(5, len(quads)) quads, drawn from the input, in non-increasing area. |
| QuadSearch.TopByAreaLargest | modules/process_input/corners_algorithm.py:208 | No quad left out has a larger area than one kept. |
| QuadSearch.TopByAreaStable | modules/process_input/corners_algorithm.py:208 | Ties keep enumeration order, as Python's stable `sorted` does: for every area, the kept quads of that area are the first quads of that area in the input, in input order. |
| QuadSearch.DefaultAreaTest | modules/process_input/corners_algorithm.py:92-189 | With the defaults 0.25 and 40, `valid_contour` means 4 points, area above a quarter of the image, and angle range below 40. |
| QuadSearch.SubsetSearch | modules/process_input/corners_algorithm.py:191-217 | With fewer than 4 corners nothing is found. Otherwise the top five quads by area have a first least-angle-range quad, the one the stable `sorted(quads, key=angle_range)[0]` picks. It is returned exactly when it is valid, and nothing is returned when it is not. |
| QuadSearch.LeastAngleValid | modules/process_input/corners_algorithm.py:210-217 | Of a non-empty list, the first quad with the least angle range is returned when it passes the validity test, and nothing otherwise. |
| QuadSearch.ArgMinFirstLeast | modules/process_input/corners_algorithm.py:210-214 | The index of the first minimum is the one position whose angle range is strictly below every earlier one and at most every later one. |
| QuadSearch.FirstLeastAngleUnique | modules/process_input/corners_algorithm.py:210-214 | At most one position is the first with the least angle range, so `sorted(...)[0]` is well defined. |
| QuadSearch.ContourSearch | modules/process_input/corners_algorithm.py:220-227 | Present exactly when the simplified polygon of one of the five largest contours by area (`TopByArea`, ties in listed order) is valid. It is then the first such one in that order, and it is the simplification of one of the given contours. |
| QuadSearch.FirstValid | modules/process_input/corners_algorithm.py:223-227 | The loop with `break` returns the simplified polygon of the first contour whose simplification is valid, and exists exactly when one does. |
| QuadSearch.SelectQuad | modules/process_input/corners_algorithm.py:229-237 | Without a candidate, the result is the whole-image fallback, flagged not found. Otherwise it is the larger-area candidate, the subset one winning ties. |
| QuadSearch.GetCorners | modules/process_input/corners_algorithm.py:91-237 | The result exists exactly when the candidate corners do. It is then `SelectQuad` of the subset search over those candidates and the contour search: a found quad is valid, otherwise the fallback corners come back. |
| ImageProcessing.GetConstants | modules/process_input/image_processing.py:5-19 | Each constant is the override passed in, MORPH 9, CANNY 84 and HOUGH 25 by default; the image size plays no part. |
| ImageProcessing.EdgeLength | modules/process_input/image_processing.py:65-66 | `int(np.sqrt(...))` of a squared edge is its integer square root. |
| ImageProcessing.OutputSize | modules/process_input/image_processing.py:62-72 | The width is the integer root of the longer of the bottom and top edges; the height is the same for the left and right edges. |
| ImageProcessing.MaxOfRoots | modules/process_input/image_processing.py:67 | The larger of two truncated roots is the root of the larger square. |
| ImageProcessing.Destination | modules/process_input/image_processing.py:75-80 | The destination is the axis rectangle (0,0) to (w-1,h-1) in tl, tr, br, bl order, of twice-area 2(w-1)(h-1). |
| ImageProcessing.RectangleSize | modules/process_input/image_processing.py:62-72 | An axis-aligned card is rectified at its own width and height. |
| ImageProcessing.RectangleSizeExample | modules/process_input/image_processing.py:62-72 | The card (50,50)-(450,350) gives a 400 by 300 image. |
| ImageProcessing.DegenerateSize | modules/process_input/image_processing.py:62-72 | Four coinciding corners give a 0 by 0 image. |
| FloatText.ParseFloat | exe/crop_text_regions.py:48-55 | `float(text)` succeeds exactly when the text, stripped of whitespace, is an optional sign then digits with at most one '.' and at least one digit. The whole part is the digits before the '.', the fraction has the value of the digits after it, and a '-' makes the number negative. Any failure is a ValueError. |
| FloatText.ParseSignedValue | exe/crop_text_regions.py:48-55 | Once the whitespace is stripped, the number read is the whole digits plus the fractional digits as a fraction, negated under a leading '-'. |
| FloatText.DecimalBodyParts | exe/crop_text_regions.py:48-55 | An unsigned number's text is digits on both sides of at most one '.', with at least one digit in all. |
| FloatText.DropZerosValue | exe/crop_text_regions.py:64-66 | Dropping trailing zeros from the fractional digits does not change their value, so the canonical form is the same float. |
| FloatText.Trunc | modules/process_output/ocr_processing.py:23-24 | `int(x)` truncates toward zero. |
| FloatText.ReprRoundTrip | exe/crop_text_regions.py:64-66 | Parsing the repr `'{}'.format` writes gives the same number back. |
| FloatText.PaddedReprRoundTrip | exe/crop_text_regions.py:48-55 | A repr preceded by a space, as numpy prints it, parses to the same number. |
| FloatText.ReprHasNoUnderscore | exe/crop_text_regions.py:65 | A repr contains no '_', so the eight numbers in a file name stay separate fields. |
| FloatText.DigitsRoundTrip | exe/crop_text_regions.py:65 | Reading back the decimal digits written for a whole number gives that number. |
| Text.JoinSplit | exe/crop_text_regions.py:42-46 | Joining the pieces of `str.split` with the separator gives the string back. |
| Text.SplitJoin | modules/process_output/ocr_processing.py:11 | Splitting a join of separator-free pieces gives the pieces back. |
| Text.Strip | exe/crop_text_regions.py:48-55 | `str.strip(chars)` keeps a slice of the string with only stripped characters outside it and none at its ends. |
| Text.ContainsIff | exe/ocr_from_text_regions.py:80-91 | Python's `in` on strings holds exactly when the phrase occurs at some position. |
| Text.Lower | exe/ocr_from_text_regions.py:78 | `lower()` maps A-Z to a-z and keeps length and every other character. |
| Seqs.SortBy | modules/process_output/ocr_processing.py:72 | The result is sorted by the key and is a permutation of the input. |
| Seqs.SortByStable | modules/process_output/ocr_processing.py:72 | Rows with equal keys keep their input order. |
| Seqs.SortByDeterminedByMultiset | modules/process_output/ocr_processing.py:72 | With distinct keys, the sorted order depends only on which rows there are. |
| OcrProcessing.SplitImgName | modules/process_output/ocr_processing.py:4-12 | The fields rejoined by '_' are the name without its last four characters. |
| OcrProcessing.IntOfFloat | modules/process_output/ocr_processing.py:23-24 | `int(float(field))` succeeds exactly when the field parses, and then truncates it; otherwise it is a ValueError. |
| OcrProcessing.BoxWith | modules/process_output/ocr_processing.py:15-28 | The box exists exactly when there are at least nine fields and fields 1-8 convert. Its corners are (f1,f2), (f3,f4), (f5,f6), (f7,f8). A missing field is an IndexError. |
| OcrProcessing.BoxSucceeds | modules/process_output/ocr_processing.py:21-26 | The same with `int(float(...))` as the conversion. |
| OcrProcessing.Boxes | modules/process_output/ocr_processing.py:15-28 | All names give boxes exactly when each does, and then one box per name, in order; otherwise the error is that of the first name that fails. |
| OcrProcessing.FileBoxes | modules/process_output/ocr_processing.py:110 | The boxes of all rows' file names, one of four corners per row in order, or the error of the first name that has none. |
| OcrProcessing.AddToData | modules/process_output/ocr_processing.py:31-64 | Each row keeps its file and text and gets its box's four corners as pt1 to pt4. |
| OcrProcessing.Breaks | modules/process_output/ocr_processing.py:75-80 | The loop appends i+1 after a gap of more than 4 px, and the row count on the last row, in increasing order. |
| OcrProcessing.Bounds | modules/process_output/ocr_processing.py:73-80 | `range_pt1_y` starts at 0, ends at the row count, increases strictly, and has an inner bound exactly where a gap is. |
| OcrProcessing.Lines | modules/process_output/ocr_processing.py:72-87 | No rows give no lines, and every line has at least one row. |
| OcrProcessing.SortingDetail | modules/process_output/ocr_processing.py:67-102 | One output row per line, whose text is that line's words in ascending x. Its image name is the file of the i-th y-sorted row, not necessarily one in that line. |
| OcrProcessing.SortOcrResult | modules/process_output/ocr_processing.py:105-113 | The result exists exactly when every file name yields a box. It is then `sorting_detail` of the rows with their boxes attached; otherwise it is the error of the first name that fails. |
| OcrProcessing.LinesPartition | modules/process_output/ocr_processing.py:72-95 | The lines, concatenated, are exactly the y-sorted rows. |
| OcrProcessing.LinesCoverRows | modules/process_output/ocr_processing.py:81-95 | Every row appears in exactly one line's x-sorted words. |
| OcrProcessing.WithinLineSmallGaps | modules/process_output/ocr_processing.py:73-80 | Inside a line, each row's `pt1_y` is at most 4 px below the previous one's. |
| OcrProcessing.BetweenLinesGap | modules/process_output/ocr_processing.py:73-80 | Between consecutive lines, the jump in `pt1_y` exceeds 4 px. |
| OcrProcessing.SortingDetailEmpty | modules/process_output/ocr_processing.py:67-102 | An empty frame gives an empty result. |
| OcrProcessing.SortingDetailOrderFree | modules/process_output/ocr_processing.py:67-102 | With distinct `pt1_y`, the result does not depend on the order the OCR rows arrive in. |
| CropTextRegions.CoordTexts | exe/crop_text_regions.py:46 | The text after the last ':' of an entry, split at ",\n". |
| CropTextRegions.Items | exe/crop_text_regions.py:48-55 | Each coordinate row is stripped of the array and bracket characters and split at ','. |
| CropTextRegions.CornerWith | exe/crop_text_regions.py:48-55 | Row k gives a corner exactly when it exists, has at least two items and both parse, the last row's y after one more ']' strip; the corner is that pair. A missing row or item is an IndexError, and x is read (and its error reported) before y is looked up. |
| CropTextRegions.RowCorners | exe/crop_text_regions.py:48-55 | The four corners are read from rows 0 to 3. |
| CropTextRegions.RowsFrom | exe/crop_text_regions.py:48-56 | Eight numbers come back exactly when every corner parses; otherwise the error of a corner that failed. |
| CropTextRegions.RowsWith | exe/crop_text_regions.py:47-55 | An entry is skipped exactly when its rows are `['{}']`; otherwise it yields eight numbers. |
| CropTextRegions.EntryValues | exe/crop_text_regions.py:45-56 | The same for a whole dictionary entry. |
| CropTextRegions.Corners | exe/crop_text_regions.py:56 | The four points are the truncated (x, y) pairs, in order. |
| CropTextRegions.EntryFiles | exe/crop_text_regions.py:45-67 | An entry writes at most one file, exactly the one `Written` names. It fails exactly when its numbers cannot be read. |
| CropTextRegions.FilesOf | exe/crop_text_regions.py:42-67 | Reading all entries fails when one fails; otherwise the files written are the union over entries. |
| CropTextRegions.FilesWritten | exe/crop_text_regions.py:42-67 | The loop fails exactly when some entry cannot be read, and otherwise writes exactly the files its entries name. |
| CropTextRegions.CropGuardNonzero | exe/crop_text_regions.py:58 | `np.all(pts) > 0` holds exactly when no coordinate is 0: negative ones pass and a 0 rejects. |
| CropTextRegions.EmptyDictionary | exe/crop_text_regions.py:42-47 | The text "{}" writes no file. |
| CropTextRegions.EntryRoundTrip | exe/crop_text_regions.py:46-55 | An entry printed in the detector's format with eight numbers is read back as those numbers. |
| CropTextRegions.DictionaryFiles | exe/crop_text_regions.py:42-67 | For a printed dictionary, the files written are exactly those named after the boxes that pass the guard. |
| CropTextRegions.WrittenOf | exe/crop_text_regions.py:56-66 | An entry read as eight numbers writes the file named after them when the guard passes. |
| CropTextRegions.FileNameFields | modules/process_output/ocr_processing.py:11 | The OCR stage splits a written name into the stem and the eight reprs. |
| CropTextRegions.FileNameSplitStem | modules/process_output/ocr_processing.py:11-24 | A stem containing one '_' becomes two fields, so every coordinate is read one field late and the last is lost. |
| CropTextRegions.BoxFirstNine | modules/process_output/ocr_processing.py:21-26 | `boxes` reads only fields 1 to 8; extra fields are ignored. |
| CropTextRegions.BoxOfReprs | modules/process_output/ocr_processing.py:21-26 | The eight reprs read back with `int(float(...))` give the truncated corners. |
| CropTextRegions.FileNameRoundTrip | exe/crop_text_regions.py:64-66 | For a stem without '_', the OCR stage reads exactly the cropped box's corners from its file name. |
| CropTextRegions.WrittenFilesReadBack | exe/crop_text_regions.py:58-66 | Every file written is read back as four corners with no zero coordinate. |
| OcrValidation.TableSizes | exe/ocr_from_text_regions.py:64-65 | Both tables have 134 letters. |
| OcrValidation.TablesApart | exe/ocr_from_text_regions.py:64-65 | The plain letters are A-z and the accented ones lie from À to ỹ, so no plain letter is accented. |
| OcrValidation.AccentedAscending | exe/ocr_from_text_regions.py:64 | The accented table is in strictly increasing code-point order, so each letter occurs once. |
| OcrValidation.Lookup | exe/ocr_from_text_regions.py:69-72 | Looking a character up never fails. |
| OcrValidation.LookupMeaning | exe/ocr_from_text_regions.py:69-72 | A letter of the accented table maps to the plain letter at its index, and any other character to itself. The result is never accented. |
| OcrValidation.Translate | exe/ocr_from_text_regions.py:66-73 | The loop builds a string of the same length, character by character. |
| OcrValidation.RemoveAccents | exe/ocr_from_text_regions.py:58-76 | Same length; accented letters replaced by their plain letters; everything else kept; nothing accented remains. |
| OcrValidation.RemoveAccentsLoop | exe/ocr_from_text_regions.py:66-73 | The character loop computes `RemoveAccents`. |
| OcrValidation.RemoveAccentsIdempotent | exe/ocr_from_text_regions.py:64-76 | Removing accents twice is removing them once. |
| OcrValidation.LookupAscii | exe/ocr_from_text_regions.py:69-72 | A character below 'À' is kept. |
| OcrValidation.AsciiUnchanged | exe/ocr_from_text_regions.py:66-73 | Text below 'À' is returned unchanged. |
| OcrValidation.RemoveAccentsExampleStroke | exe/ocr_from_text_regions.py:64-65 | 'Đ' becomes 'D'. |
| OcrValidation.RemoveAccentsExampleHorn | exe/ocr_from_text_regions.py:64-65 | 'ư' becomes 'u'. |
| OcrValidation.RemoveAccentsExampleStacked | exe/ocr_from_text_regions.py:64-65 | 'Ố' becomes 'O'. |
| OcrValidation.HeadingWithoutAccents | exe/ocr_from_text_regions.py:64-73 | "CĂN CƯỚC CÔNG DÂN" becomes "CAN CUOC CONG DAN". |
| OcrValidation.CheckValidPredicted | exe/ocr_from_text_regions.py:51-93 | Valid exactly when the lower-cased, accent-free text contains one of the twelve phrases. |
| OcrValidation.PhrasesReduce | exe/ocr_from_text_regions.py:80-91 | Each phrase contains one of eight core phrases, and each core phrase is itself a phrase. |
| OcrValidation.CheckValidCore | exe/ocr_from_text_regions.py:80-91 | The twelve-phrase test is equivalent to a test on eight: "can cuoc", "cong dan", "chung minh", "identity card", "citizen" and the three run-together OCR misreadings. |
| OcrValidation.CheckValidHeading | exe/ocr_from_text_regions.py:78-93 | The accented heading "CĂN CƯỚC CÔNG DÂN" is accepted. |
| OcrValidation.CheckValidCaption | exe/ocr_from_text_regions.py:78-93 | The English caption "Identity Card" is accepted. |
| OcrValidation.CheckValidEmpty | exe/ocr_from_text_regions.py:78-93 | Empty text is rejected. |

## Left out

- The OpenCV, pylsd and numpy image operations are not modelled. They are:
  - grey conversion, blur, morphology and Canny (`to_gray`, `to_dilated`, `to_edged`);
  - `lsd`, `cv2.line` drawing, `findContours`, `arcLength`, `approxPolyDP`;
  - `getPerspectiveTransform` and `warpPerspective`;
  - `crop`'s bounding rectangle and mask.

  Their results (segments, contours, redrawn canvases) are inputs of the
  model, and `approxPolyDP` is a function parameter.
- `get_angle` and `angle_range` use floating-point `arccos`, so the angle
  range is a function parameter of the quad search.
- `detect_and_crop_card.py`, `craft_text_regions_coordinates.py`, `vietocr_all`, `run_this_main.py`, the VietOCR model code and `accuracy_measure` are not part of this model. They are file, model and CSV plumbing around the modelled core.
- File system effects (`os.makedirs`, `isdir`, `imwrite`) and `print` are left out. So is the returned folder of `generate_words`: on success the model returns the list of file names written.
- LineCanvas.Longest: the contours of each canvas are taken already ordered by decreasing `cv2.arcLength`, ties in `findContours` order, as the stable `sorted(..., reverse=True)` at lines 137 and 156 of corners_algorithm.py leaves them. The perimeter is a floating-point OpenCV primitive, so that sort is not modelled; only the `[:2]` cut is.
- CropTextRegions.FilesWritten: on failure the model returns only the error. In the program the files of the entries before the failing one are already on disk; the model does not say which.
- The inner `try/except: continue` around `crop` in `generate_words` is left out: a failing crop is an OpenCV failure the model cannot see.
- The outer `try/except` of `generate_words` becomes an `Err` result. The caller's `(None, None)` is not modelled separately.
- FloatText: floats printed with an exponent, `inf`/`nan`, `_` digit grouping and more than 15 significant digits are outside the decimal model. `float()` accepting exponents is not modelled either.
- FloatText.ParseFloat: only the six ASCII whitespace characters are stripped and only '0'-'9' are digits. Python's `float()` also strips other Unicode whitespace and accepts non-ASCII decimal digits; such text is a ValueError in the model.
- `angle_range` can be NaN when `arccos` gets a value just outside [-1, 1] for nearly collinear corners. `sorted` and `< 40` then behave unlike any real-valued function, and the model, which takes the angle range as a real-valued parameter, does not cover that case.
- CropTextRegions.EntryRoundTrip: the detector's dictionary is modelled as numpy prints it with single spaces and Python reprs. Other numpy print layouts (aligned padding, more digits) are not covered.
- CropTextRegions.DictionaryFiles: this also assumes numpy's single-space print layout with Python reprs; other layouts are not covered.
- CropTextRegions.FileNameRoundTrip: requires a stem without '_'. `split_img_name` splits the whole name on '_', and `FileNameSplitStem` states what happens otherwise.
- CropTextRegions.WrittenFilesReadBack: requires a stem without '_', for the same reason as `FileNameRoundTrip`.
- Text.Lower: only A-Z are lowered. Python's Unicode `lower()` also lowers accented capitals, but every accented letter is gone before `lower()` runs, except letters outside the table.
- Seqs.SortBy: the sort is stable. `np.argsort` and `sort_values` default to quicksort, which promises no tie order, so tie-dependent claims are stated under distinct keys.
- `add_to_data` inserts the pt4 x column under the name `pt4_y`, so the frame has two `pt4_y` columns. `sorting_detail` reads columns by position and `pt1_x` by name, so this does not change the result and is not modelled.
- `np.sqrt` is modelled by the exact integer square root. A float rounding error at an exact square is not modelled.
- `int(np.average(...))` of an empty selection raises in numpy (`int(nan)`), and `ContourEnds` returns nothing there. Which exception is raised is not modelled.
- CropTextRegions.GenerateWords carries no contract of its own; `FilesWritten` and `DictionaryFiles` state it.
- OcrProcessing.Box carries no contract of its own; `BoxSucceeds` states it.

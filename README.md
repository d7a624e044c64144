# LastStand asset pipeline and game rules, in Dafny

LastStand is a browser roguelike. This project models two parts of its repository and proves properties of them.

**The sprite-sheet tools** are Python scripts that cut sprites, trees, bushes and bosses out of sheets. They all run one integer pipeline over a grid of RGBA bytes:

1. Estimate the background colour from the four corners.
2. Call a pixel background when its summed channel distance from that colour is below a threshold.
3. Find regions in one of four ways:
   - runs of rows and columns with content;
   - an 8-connected breadth-first search;
   - summaries of a label map;
   - gap runs over column counts.
4. Filter the regions, merge them, de-duplicate them, pad them and crop them.
5. Make the background of every crop transparent.

Shared modules hold the common parts:

| module | holds |
|---|---|
| `Pixels` | pixels, the distance and the background estimate |
| `Masks` | masks, counts and the tight-box scan |
| `Boxes` | both padding conventions |
| `Sorting` | the stable descending sort, with its stability proved |
| `Runs` | run detection |
| `Sprites` | cropping and the transparency pass |
| `Regions` | label summaries |

Every script has its own module on top (`ExtractBosses`, `ExtractBossesV2`, `ManualRegions`, `ExtractSprites`, `Connected`, `Sam2Auto`, `ObjectsSam2`, `SpriteClassifier`, `SplitBoss`, `BossCompleteness`).

Where a script works by loops over mutable arrays, lists and counters, the model is a `method` with its loop and its invariants. Each such method is proved against a specification predicate or function. Pure helpers are functions with lemmas.

**The game rules** are the state the JavaScript game mutates:
- the wave state machine of `js/wave.js` (`Wave.WaveState`);
- the player's experience, gold and weapon inventory with evolution, and dropped items, from `js/entities.js` (`Entities.Player`, `Entities.DroppedItem`);
- the six save slots of `js/save.js` with the save-to-restore field mapping (`Save.SaveSlots`, `Save.ApplyLoadedSaveData`).

These are classes whose methods change their fields. The current time (`Date.now()`), the random draws and the spawn positions are parameters. Constants come from `js/config.js` (`wave`) and from the `WEAPONS` table of `js/data.js`.

Library code the scripts call reaches the model as a function parameter or as input data:
- `ndimage.label`;
- `cv2.connectedComponentsWithStats`;
- `findContours`, `contourArea` and `boundingRect`;
- `morphologyEx`, `adaptiveThreshold`;
- the SAM mask generators.

Each of these comes with the assumption stated in its `requires`, for example that a reported rectangle lies inside the image.

## Model

Predicates and functions that only name a notion the rows below use (`Sam2Auto.Overlaps` and `Sam2Auto.Fits`, `Entities.Gain`, `Entities.Added`, `Entities.Evolve` and `Entities.Grown`, `Wave.NextKind`, `ExtractSprites.SavedBelow` and the like) have no row of their own. What they mean is stated by the rows of the members whose contracts use them.

| member | source | states |
|---|---|---|
| Pixels.Mean4 | scripts/extract_bosses.py:15 | the truncated mean of four bytes: four times it is within 3 below the sum, and it lies between the smallest and the largest input |
| Pixels.BackgroundColor | scripts/extract_bosses.py:7-16 | each channel of the estimate is the truncated mean of that channel at the four corners `[0,0]`, `[0,-1]`, `[-1,0]`, `[-1,-1]` |
| Pixels.UniformCornersGiveCornerColour | scripts/extract_bosses.py:7-21 | when the four corners agree, the estimate is that colour and each corner is background for any positive threshold |
| Pixels.IsBackground | scripts/extract_bosses.py:18-21 | the test says background only for a positive threshold, and a pixel equal to the background is background exactly when the threshold is positive |
| Pixels.DistanceZeroIff | scripts/extract_bosses.py:18-21 | the channel distance is 0 exactly when the compared channels are equal (alpha only when it is compared) |
| Pixels.BackgroundMonotone | scripts/extract_bosses.py:18-21 | a pixel that is background under one threshold is background under every larger threshold |
| Pixels.RgbIgnoresAlpha | scripts/extract_bosses_v2.py:17-21 | the RGB-only test does not depend on alpha, and the four-channel test never says background where the RGB test does not |
| Masks.CountRowBound | scripts/extract_bosses.py:100 | a row's true count is at most its length, and it is 0 exactly when no cell is true |
| Masks.CountMaskZero | scripts/extract_bosses.py:100 | a mask's true count is 0 exactly when no cell is true |
| Masks.CountMaskInBox | scripts/extract_bosses.py:29-38 | a mask whose true cells all lie in a box has at most width·height true cells |
| Masks.BoundingBox | scripts/extract_bosses.py:25-38 | the scan returns the true count; `None` exactly when the count is 0 (the mask is empty); otherwise the tight box, which lies in the grid, covers every true cell, has a true cell on each edge and an area no smaller than the count |
| Masks.ScanRow | scripts/extract_bosses.py:25-38 | scanning one row keeps the scan invariant (the box so far covers every true cell already passed and has a true cell on each edge) and counts the row's true cells |
| Masks.ScanCell | scripts/extract_bosses.py:29-32 | a true cell opens the box or widens it so that it also covers that cell; a false cell changes nothing |
| Masks.CountMaskPositive | scripts/extract_bosses.py:26-27 | a mask with a true cell has a positive count |
| Masks.OpaqueMask | assets/extract_sprites.py:23 | a cell is set exactly when that pixel's alpha is above 10 |
| Masks.ForegroundMask | scripts/extract_bosses.py:94-98 | after the double loop, a cell is set exactly when its pixel is not background |
| Masks.ForegroundOf | scripts/extract_bosses.py:94-98 | the foreground mask of an image and a test, as a value |
| Masks.ForegroundMaskUnique | scripts/extract_bosses.py:94-98 | every mask that meets the foreground condition is that value |
| Boxes.PadClamp | scripts/extract_bosses.py:130-133 | the padded box lies in the image and encloses the original; each bound moves by exactly the padding unless it is pinned at the image border |
| Boxes.PadRect | tools/extract_objects_sam2.py:224-227 | the padded origin is never negative and moves by exactly the padding unless pinned at 0; the far edges never pass the image; a rectangle inside the image stays inside it and is enclosed |
| Sorting.InsertDesc | scripts/extract_bosses.py:65 | inserting adds exactly one element: same multiset plus `x`, length plus one |
| Sorting.InsertDescSorted | scripts/extract_bosses.py:65 | inserting into a sequence that is sorted largest-first keeps it sorted |
| Sorting.SortDesc | scripts/extract_bosses.py:65 | `sorted(..., reverse=True)` by a key: a permutation of the input whose keys do not increase |
| Sorting.SortDescSameElements | scripts/extract_bosses.py:65 | an element is in the sorted sequence exactly when it is in the input |
| Sorting.InsertDescStable | scripts/extract_bosses.py:65 | inserting an element ranked before everything in a stably sorted sequence keeps it stably sorted: keys do not increase and equal keys keep rank order |
| Sorting.SortDescStable | scripts/extract_bosses_v2.py:84 | Python's sort is stable: for inputs of strictly rising rank, elements with equal keys stay in input order, larger keys first |
| Regions.LabelMask | scripts/extract_bosses.py:25 | a cell is set exactly when it carries the given label |
| Regions.RegionInfo | scripts/extract_bosses.py:23-50 | `None` exactly when no pixel carries the label; otherwise that label's region: the tight box and the pixel count, with 1 ≤ area ≤ width·height |
| Regions.RegionBounds | scripts/extract_bosses.py:29-38 | a region's box lies in the image and 1 ≤ area ≤ width·height |
| Regions.RegionUnique | scripts/extract_bosses.py:23-50 | two regions of one labelling with the same label are equal |
| Sprites.Crop | scripts/extract_bosses.py:139 | the crop has the box's size and pixel (i, j) is the sheet's pixel at the box origin plus (i, j) |
| Sprites.ClearedSpec | scripts/extract_bosses.py:142-145 | the pass never changes colour; it zeroes alpha on background pixels, leaves foreground pixels whole, and alpha changes only on background pixels |
| Sprites.ForegroundKeepsAlpha | scripts/extract_bosses_v2.py:109-112 | when the transparency threshold is no larger than the mask threshold, a foreground pixel keeps all four channels |
| Sprites.ClearBackground | scripts/extract_bosses.py:142-145 | after the double loop every pixel is that pixel after the pass |
| ExtractBosses.CollectRegions | scripts/extract_bosses.py:107-111 | every collected region is the region of a label in `1..n`; labels strictly increase; every label some pixel carries is collected |
| ExtractBosses.CollectedAppend | scripts/extract_bosses.py:107-111 | appending the region of the next present label keeps the regions in label order and collects that label |
| ExtractBosses.FilterKept | scripts/extract_bosses.py:55 | a region is kept exactly when it is in the input and is at least 10 by 10 or has at least 100 pixels |
| ExtractBosses.GroupRegions | scripts/extract_bosses.py:52-77 | each group is one kept input region; group labels are distinct; every kept region's label has a group; groups come in order of non-increasing area and, for input in label order, `sorted` being stable, in label order among equal areas |
| ExtractBosses.FilterKeptInLabelOrder | scripts/extract_bosses.py:55 | the speck filter keeps the regions' order, so rising labels stay rising |
| ExtractBosses.StableGroups | scripts/extract_bosses.py:55-77 | groups opened in order from the stable sort of the kept regions are in label order among equal areas whenever the input regions have rising labels |
| ExtractBosses.OpenGroups | scripts/extract_bosses.py:67-75 | groups are singletons taken in sorted order at increasing positions, with distinct labels, and every sorted region's label has a group |
| ExtractBosses.OpenedAppend | scripts/extract_bosses.py:67-75 | opening a group for a region with an unused label keeps the groups in order with distinct labels and marks that label used |
| ExtractBosses.SortedElements | scripts/extract_bosses.py:65 | the sorted list holds the same regions as the filtered list |
| ExtractBosses.EveryKeptRegionIsAGroup | scripts/extract_bosses.py:67-75 | a region whose label has a group is exactly that group's region |
| ExtractBosses.GroupBox | scripts/extract_bosses.py:124-127 | the group box encloses each member's box, and each of its bounds is some member's bound |
| ExtractBosses.SingletonGroupBox | scripts/extract_bosses.py:124-127 | the group box of a single region is its own box |
| ExtractBosses.GroupBoxInGrid | scripts/extract_bosses.py:124-127 | the union of boxes in the image lies in the image |
| ExtractBosses.CutBoss | scripts/extract_bosses.py:124-145 | the saved boss is the group box padded by 2 and clamped, cropped, with the background pass (four channels, threshold 30) applied |
| ExtractBosses.ExtractBossesSmart | scripts/extract_bosses.py:79-165 | the mask is the foreground of the corner-estimated background; the groups are kept regions of its labelling with distinct labels, largest first and in label order among equal areas; every kept region is a group; boss `i` is group `i` padded, cropped and cleared |
| ExtractBosses.CutBosses | scripts/extract_bosses.py:122-145 | one boss per group, in order; boss `i` is group `i`'s padded box cropped and cleared and has one region |
| ExtractBosses.KeptLabelCollected | scripts/extract_bosses.py:107-111 | a region of the labelling whose label is in `1..n` is among the collected regions |
| ExtractBossesV2.AddLarge | scripts/extract_bosses_v2.py:51-79 | appending a large region of label `idx` keeps the collection invariant for the labels up to `idx` |
| ExtractBossesV2.SkipLabel | scripts/extract_bosses_v2.py:66-68 | skipping a label whose region is too small keeps the collection invariant |
| ExtractBossesV2.AbsentHasNoRegion | scripts/extract_bosses_v2.py:53-55 | a label no pixel carries has no region |
| ExtractBossesV2.CollectStep | scripts/extract_bosses_v2.py:52-79 | one pass of the label loop takes the invariant from label `idx` to `idx + 1` |
| ExtractBossesV2.CollectLargeRegions | scripts/extract_bosses_v2.py:51-79 | the collected regions are exactly the regions of labels `1..n` that are at least 10 by 10, in increasing label order |
| ExtractBossesV2.CutBosses | scripts/extract_bosses_v2.py:89-128 | one boss per region, in order; boss `i` is region `i` padded by 2, cropped, with pixels within 10 (RGB) of the background made transparent |
| ExtractBossesV2.ExtractBossesByGrid | scripts/extract_bosses_v2.py:23-130 | the mask is the RGB foreground at threshold 15; the regions are exactly the labelling's regions at least 10 by 10, each once, sorted by non-increasing area and, `sorted` being stable, in label order among equal areas; boss `i` is region `i` padded, cropped and cleared |
| ExtractBossesV2.MaskPixelsStayOpaque | scripts/extract_bosses_v2.py:109-112 | a pixel in the mask keeps all four channels in the saved boss, because 10 is below 15 |
| Masks.SliceBound | scripts/extract_bosses_manual_regions.py:26 | a slice bound lands in `0..n`: unchanged inside, `n` past the end, `n + i` (at least 0) when negative |
| ManualRegions.RegionWindow | scripts/extract_bosses_manual_regions.py:26 | the window `[min_row:max_row+1, min_col:max_col+1]` always lies in the image |
| ManualRegions.WindowOfInnerBounds | scripts/extract_bosses_manual_regions.py:23-26 | for bounds inside the image the window is exactly the inclusive bounds |
| ManualRegions.WindowClipsOvershoot | scripts/extract_bosses_manual_regions.py:26 | bounds past the bottom-right corner are clipped to the image edge |
| ManualRegions.Sub | scripts/extract_bosses_manual_regions.py:26 | the window's pixels: its size, and pixel (i, j) is the image pixel at the window origin plus (i, j) |
| ManualRegions.CutContent | scripts/extract_bosses_manual_regions.py:28-63 | `None` exactly when every pixel of the region is background (RGB, 15); otherwise the tight box of the foreground, padded by 2 within the region, cropped, with alpha zeroed below RGB distance 10 |
| ManualRegions.ExtractBossFromRegion | scripts/extract_bosses_manual_regions.py:21-63 | `None` exactly when the entry's window holds no content; otherwise the cut of that window |
| ManualRegions.ContentKeepsAlpha | scripts/extract_bosses_manual_regions.py:57-61 | a content pixel of the window keeps all four channels in the cut |
| ManualRegions.AppendIndex | scripts/extract_bosses_manual_regions.py:94-121 | appending a file numbered above every earlier one keeps the numbers increasing and adds exactly that number |
| ManualRegions.DriverStep | scripts/extract_bosses_manual_regions.py:94-121 | one table entry moves the driver invariant on: a file is added exactly when the window has content |
| ManualRegions.ExtractBossesManual | scripts/extract_bosses_manual_regions.py:65-123 | each saved file is the cut of its own entry's window under that entry's name; numbers increase; entry `i` is saved exactly when its window has content, so empty entries leave gaps |
| Runs.PassStep | extract_sprites.py:42-48 | one index of the pass keeps the invariant: closed runs are maximal and all flagged, and an open run starts at a flagged index after an unflagged one |
| Runs.FindRuns | extract_sprites.py:37-53 | the result is exactly the maximal runs of flagged indices, in order: each in range and all flagged, not extendable on either side, separated by unflagged indices, and covering every flagged index |
| Runs.RunsOrdered | extract_sprites.py:42-51 | any two runs are in increasing order with at least one index between them |
| Runs.InRunIff | extract_sprites.py:42-51 | an index is flagged exactly when it lies in a run, and then it lies in only one |
| Runs.RunsUnique | extract_sprites.py:37-53 | the flags determine the runs: any two run lists of the same flags are equal |
| Runs.GapUnflagged | extract_sprites.py:42-51 | no index between two consecutive runs (or before the first, after the last) is flagged |
| Runs.SameRunEnd | extract_sprites.py:42-51 | two maximal runs with the same start have the same end |
| Runs.SameRunStart | extract_sprites.py:42-51 | when two run lists of the same flags agree before position `i`, their `i`-th runs exist in both and start at the same index |
| ExtractSprites.ContentRows | extract_sprites.py:28-35 | one flag per row |
| ExtractSprites.ContentCols | extract_sprites.py:60-67 | one flag per column |
| ExtractSprites.RowContent | extract_sprites.py:28-35 | row `r`'s flag is set exactly when the row has a pixel that is not background (threshold 30, four channels); the early `break` does not change it |
| ExtractSprites.ColumnContent | extract_sprites.py:60-67 | column `c`'s flag is set exactly when rows `row_start..row_end` hold a pixel in it that is not background |
| ExtractSprites.FindSpriteRows | extract_sprites.py:23-53 | the bands are exactly the maximal runs of content rows |
| ExtractSprites.FindSpriteColumns | extract_sprites.py:55-85 | the sprite columns are exactly the maximal runs of content columns within the band |
| ExtractSprites.CutSprite | extract_sprites.py:119-125 | the sprite is the box of the sheet with background alpha zeroed, with the box's size, band and place |
| ExtractSprites.ExtractBand | extract_sprites.py:112-135 | one sprite per maximal run of content columns in the band; sprite `i` spans the band's rows and run `i`'s columns and is numbered `i` |
| ExtractSprites.ExtractSpritesSmart | extract_sprites.py:87-139 | the bands are the maximal runs of content rows, and each band's column runs are the maximal runs of its content columns; every sprite is cut from its band's rows and one of those runs, with background alpha zeroed; every run of every band yields a sprite; sprites come band by band, left to right |
| ExtractSprites.SheetAppend | extract_sprites.py:107-135 | cutting one more band's runs keeps every sprite tied to its band and run, every run of the bands so far covered, and the sheet order |
| ExtractSprites.BoxesAppend | extract_sprites.py:107-135 | after one more band, every sprite so far is cut from its box, whose rows are its band's and whose columns are its column run |
| ExtractSprites.BandHeights | extract_sprites.py:108-132 | sprites of the same band have the same height, the band's height |
| ExtractSprites.CategoryOf | extract_sprites.py:161-183 | band 0 is players and only band 0 is; small monsters have average height at most 25; bosses above 50 |
| ExtractSprites.UniformBandCategory | extract_sprites.py:161-183 | when every sprite of a band has the same height, the category by average is the category by that height |
| ExtractSprites.ScaleCompare | extract_sprites.py:171-179 | comparing a band's height sum with a threshold times its count is comparing the height with the threshold |
| ExtractSprites.InRow | extract_sprites.py:148-153 | the group holds only sprites of the input that belong to that band |
| ExtractSprites.GroupByRow | extract_sprites.py:148-153 | the map has a key exactly for each band with a sprite, and its value is that band's sprites in input order |
| ExtractSprites.BandHeightSum | extract_sprites.py:162 | the total height of the band's group |
| ExtractSprites.SaveBand | extract_sprites.py:159-195 | one file per sprite of the band, numbered by place, under the band's category; every sprite of the band is saved |
| ExtractSprites.BandFilesRight | extract_sprites.py:159-195 | file `k` of a band that holds sprite `k` of the band's group under the band's category is right, with that band and place |
| ExtractSprites.ClassifyAndSave | extract_sprites.py:141-195 | no sprites give no files; every file holds sprite `index` of its band under that band's category; every sprite is saved; every place `i` of every band `r` has its file `row{r}_sprite{i}`; files go band by band, then by place |
| ExtractSprites.AppendBand | extract_sprites.py:159-195 | appending the next band's files after those of the earlier bands keeps every file right, every sprite and every place of the bands so far saved, and the file order |
| ExtractSprites.AppendBandFiles | extract_sprites.py:159-195 | appending the next band's files keeps every file right, every earlier sprite saved and the file order |
| ExtractSprites.AppendBandPlaces | extract_sprites.py:190-195 | when the next band's files are numbered 0 to the size of its group, every place of every band so far has its file |
| ExtractSprites.SkipBand | extract_sprites.py:158-160 | a band with no sprites adds no files and leaves every sprite and place of the bands so far saved |
| ExtractSprites.AllBandsSaved | extract_sprites.py:158-195 | once the bands up to the last sprite's band are done, every file is right, every sprite and every place of every band is saved, and the files are in order |
| ExtractSprites.InRowBeyond | extract_sprites.py:148-158 | a band past every sprite's band has an empty group, so the loop over bands up to the largest misses none |
| ExtractSprites.InRowHas | extract_sprites.py:148-153 | every sprite is in the group of its own band |
| Connected.NeighboursAreAdjacent | assets/extract_sprites.py:46-50 | a cell is among the eight queued neighbours exactly when it is a different cell at most one step away on each axis |
| Connected.ClosedHoldsLinked | assets/extract_sprites.py:32-52 | a closed set of cells that meets an opaque linked search order holds all of it |
| Connected.ComponentsMeetOnlyWhenEqual | assets/extract_sprites.py:54-59 | two components that share a pixel have the same pixels |
| Connected.SearchStep | assets/extract_sprites.py:36-50 | one pop either skips a cell that is off the grid, visited or transparent, or marks, records and queues its eight neighbours; the search invariant holds and the unseen part of the grid or the queue shrinks |
| Connected.Bfs | assets/extract_sprites.py:32-52 | the search marks exactly the cells it returns; they form a whole 8-connected opaque component, listed once, starting at the start cell, none visited before |
| Connected.Large | assets/extract_sprites.py:58-59 | the kept list holds exactly the components with more than 100 pixels |
| Connected.ScanAdd | assets/extract_sprites.py:56-59 | adding a newly found component keeps the scan invariant: the components partition the seen cells |
| Connected.FindComponents | assets/extract_sprites.py:33-59 | the discovered components are whole components, pairwise disjoint, cover every opaque pixel, come in the raster order of their first cells with each listed from its first cell, and the kept list is the large ones |
| Connected.StartAppend | assets/extract_sprites.py:54-59 | a component found from the current scan cell, with every earlier opaque cell already visited, starts after every earlier component and at its own raster-first cell |
| Connected.ScanCell | assets/extract_sprites.py:55-59 | one cell of the raster scan keeps the scan invariant and leaves that cell seen if it is opaque |
| Connected.FirstLongest | assets/extract_sprites.py:64 | `max(..., key=len)`: no component is longer, and every earlier one is strictly shorter |
| Connected.LargeAreKept | assets/extract_sprites.py:54-59 | every component of more than 100 pixels has the pixels of one kept entry |
| Connected.LargeComponents | assets/extract_sprites.py:54-59 | the kept entries are whole components of more than 100 pixels, every such component is one of them, and they keep the raster order of discovery |
| Connected.LargeInRasterOrder | assets/extract_sprites.py:54-59 | keeping only the components above 100 pixels keeps the raster order |
| Connected.KeepOnly | assets/extract_sprites.py:66-68 | each listed pixel is copied and every other pixel is all-zero |
| Connected.LargestComponent | assets/extract_sprites.py:14-70 | with no opaque pixel, or no component above 100 pixels, the image is returned unchanged; otherwise only the first longest component's pixels are kept and the rest become all-zero; every other kept component is shorter, or as long and discovered later in the raster scan |
| Connected.NoDupCardinality | assets/extract_sprites.py:58 | a list of distinct cells has as many cells as its set |
| Connected.CleanWindow | assets/extract_sprites.py:72-80 | the window lies in the image, the origin is clamped at 0, the size never grows, and a window already inside the image is kept as requested |
| Connected.SimpleWindow | assets/extract_sprites.py:91-97 | the origin is kept as given, the far edges are clamped to the image and never pass the request |
| Connected.CleanWindowIsIntersection | assets/extract_sprites.py:74-80 | for a non-negative origin, the window holds a pixel exactly when it is both requested and in the image |
| Connected.WindowsAgree | assets/extract_sprites.py:72-97 | the two window computations agree exactly when the origin is non-negative |
| Sam2Auto.AddCandidate | tools/sam2_auto_extract.py:129-151 | appending label `i`'s candidate keeps the collection invariant |
| Sam2Auto.CollectCandidates | tools/sam2_auto_extract.py:128-151 | every candidate is its label's statistics row with `bbox = [x, y, x + w, y + h]` and mask `labels == id`; ids increase; label `i` is a candidate exactly when its area is at least `min_area // 4` |
| Sam2Auto.FindCrown | tools/sam2_auto_extract.py:166-199 | no crown exactly when no unmerged other region fits (gap 0..15, area ≥ 0.8 of the trunk, centres within half the wider width, trunk at most 1.5 times as wide); otherwise the fitting crown with the smallest gap, the first on ties |
| Sam2Auto.NoMerges | tools/sam2_auto_extract.py:149-150 | the record with no merges |
| Sam2Auto.Before | tools/sam2_auto_extract.py:157-203 | the merge record as trunk `i` sees it: entries after `i` are still unset |
| Sam2Auto.MergeTrunks | tools/sam2_auto_extract.py:156-203 | each trunk, in list order, gets the choice the crown search makes against the merges recorded before it |
| Sam2Auto.MergeTargets | tools/sam2_auto_extract.py:169-203 | a trunk never merges into itself; its crown fits it, and a crown earlier in the list was unmerged when chosen |
| Sam2Auto.CombinedMask | tools/sam2_auto_extract.py:212-218 | the combined mask is grid-shaped |
| Sam2Auto.Union | tools/sam2_auto_extract.py:218 | `np.maximum` of two masks: a cell is set exactly when it is set in either |
| Sam2Auto.Combine | tools/sam2_auto_extract.py:212-218 | the loop's mask is the region's own mask OR, with merging on, the mask of every region merged into it |
| Sam2Auto.EmitStep | tools/sam2_auto_extract.py:207-234 | one region of the emission loop keeps the emission invariant |
| Sam2Auto.EmitAdd | tools/sam2_auto_extract.py:207-234 | an emitted region's object is appended tagged with its index, keeping the emitted indices increasing |
| Sam2Auto.EmitSkip | tools/sam2_auto_extract.py:207-234 | a region that emits nothing keeps the emission invariant |
| Sam2Auto.EmitObjects | tools/sam2_auto_extract.py:206-237 | exactly the regions not merged away whose combined mask has at least `min_area` pixels are emitted, in order, each with its combined mask, pixel count, centre and tight box `(x_min, y_min, x_max - x_min + 1, y_max - y_min + 1)` |
| Sam2Auto.ChainedTrunkIsLost | tools/sam2_auto_extract.py:207-218 | with disjoint label masks, a trunk merged into a crown that was itself merged is in no emitted mask |
| Sam2Auto.Intersection | tools/sam2_auto_extract.py:261 | `np.logical_and` of two masks: a cell is set exactly when it is set in both |
| Sam2Auto.MarkOverlaps | tools/sam2_auto_extract.py:256-267 | the inner loop for a kept mask marks exactly the later unmarked masks it overlaps |
| Sam2Auto.Greedy | tools/sam2_auto_extract.py:247-269 | the kept indices are in range, rise, start at 0; no kept mask overlaps a later kept one; every dropped index overlaps an earlier kept one |
| Sam2Auto.RemoveDuplicates | tools/sam2_auto_extract.py:239-269 | at most one mask comes back unchanged; otherwise the result is the greedy sub-list of the masks sorted by area, largest first, with no kept pair overlapping above the IoU threshold and every dropped mask overlapping an earlier kept one |
| Sam2Auto.DedupSorted | tools/sam2_auto_extract.py:247-269 | on a sorted non-empty list: the kept masks are the list's masks at the rising picked indices, starting at 0, pairwise not overlapping, and every dropped one overlaps an earlier kept one |
| Sam2Auto.ObjectPixel | tools/sam2_auto_extract.py:344-353 | colour is kept; alpha is 0 outside the mask, and inside it is the original alpha, or 255 without an alpha channel |
| Sam2Auto.CutObject | tools/sam2_auto_extract.py:330-368 | the object is cut from its box padded and clamped, each pixel the mask-driven pixel, numbered by its index |
| Sam2Auto.TightRectInImage | tools/sam2_auto_extract.py:224-231 | the tight box of a mask, as `(x, y, w, h)`, lies in the image |
| Sam2Auto.AlphaTest | tools/sam2_auto_extract.py:295-304 | an image has an alpha channel exactly when it has four channels; wherever the test at :112 answers, it agrees |
| Sam2Auto.AlphaTestAsWritten | tools/sam2_auto_extract.py:112 | `image.shape[2] == 4` fails exactly on a 2-D grayscale image |
| Sam2Auto.Binary | tools/sam2_auto_extract.py:112-122 | with an alpha channel a cell is set exactly when alpha exceeds 10; without one the mask is the adaptive threshold passed in |
| Sam2Auto.AutoSegment | tools/sam2_auto_extract.py:99-237 | the candidates are the labels of the binary mask whose area is at least a quarter of `min_area`; with merging every trunk takes its best crown and without it nothing merges; the objects are exactly the emitted regions, with rising ids, and their boxes lie in the image |
| Sam2Auto.CutObjects | tools/sam2_auto_extract.py:329-370 | one output per object, in order; output `k` is object `k` cut and numbered `k` |
| Sam2Auto.ExtractObjects | tools/sam2_auto_extract.py:271-372 | for every layout, grayscale included, the alpha channel is the one `AlphaTest` finds; it segments without merging, removes duplicates, keeps the first `min(len, max_objects)` with rising ids and cuts each with its padded box, numbered by position |
| Sam2Auto.ExtractObjectsAsWritten | tools/sam2_auto_extract.py:271-372 | as written, a grayscale file gives nothing, because the test at :112 fails; any other file gives at most `max_objects` objects |
| Sam2Auto.CutFirst | tools/sam2_auto_extract.py:322-370 | `masks[:max_objects]`: `min(len, max_objects)` outputs, output `k` being kept mask `k` cut and numbered `k` |
| Sam2Auto.DedupMembers | tools/sam2_auto_extract.py:239-269 | every kept mask is one of the input masks |
| ObjectsSam2.FilterArea | tools/extract_objects_sam2.py:200 | keeps exactly the masks of area at least `min_area` and never more than it was given |
| ObjectsSam2.FilterAreaSorted | tools/extract_objects_sam2.py:199-200 | filtering a list sorted largest first leaves it sorted largest first |
| ObjectsSam2.SelectMasks | tools/extract_objects_sam2.py:199-201 | the selection holds at most `max_objects` masks, is sorted largest first, and every mask in it is one of the input masks of area at least `min_area` |
| ObjectsSam2.SelectedAreLargest | tools/extract_objects_sam2.py:199-201 | a large enough mask is left out only when the selection is full and every selected mask is at least as large |
| ObjectsSam2.FallbackRectAsWritten | tools/extract_objects_sam2.py:216-221 | the fallback box as written has width and height one less than the mask's tight box |
| ObjectsSam2.FallbackAsWrittenLosesLastColumn | tools/extract_objects_sam2.py:216-231 | with no padding, the crop from the as-written box misses a mask pixel in the last column |
| ObjectsSam2.FallbackRect | tools/extract_objects_sam2.py:216-221 | the corrected fallback box covers exactly the pixels of the mask's tight box |
| ObjectsSam2.FallbackCoversMask | tools/extract_objects_sam2.py:216-231 | with the corrected box, every mask pixel lies in the padded crop, whatever the padding |
| ObjectsSam2.MaskedPixel | tools/extract_objects_sam2.py:234-236 | an output pixel keeps its colour, and its alpha is 255 inside the mask and 0 outside |
| ObjectsSam2.CutRect | tools/extract_objects_sam2.py:230-236 | the cut is the rectangle's size; each pixel is the image pixel at the same offset, with alpha from the mask when there is one |
| ObjectsSam2.MaskRect | tools/extract_objects_sam2.py:213-221 | the box is the mask's own `bbox`, or else the corrected tight box of its pixels (see Findings), or none when the mask is empty; any box found lies in the image |
| ObjectsSam2.AppendObject | tools/extract_objects_sam2.py:239-253 | saving an object adds its index to the saved ones and leaves the rest unchanged |
| ObjectsSam2.SkipObject | tools/extract_objects_sam2.py:216-218 | skipping an empty mask without a box keeps the loop invariant |
| ObjectsSam2.SaveObject | tools/extract_objects_sam2.py:224-253 | saving the cut of a cuttable mask keeps the loop invariant |
| ObjectsSam2.ObjectStep | tools/extract_objects_sam2.py:209-253 | each pass of the loop, skip or save, keeps the loop invariant |
| ObjectsSam2.ExtractObjects | tools/extract_objects_sam2.py:157-255 | every saved object is selected mask `idx`, cut with its padded box and mask alpha, with its area; indices rise; a selected mask is saved exactly when it has a box or is not empty |
| ObjectsSam2.ColorMask | tools/extract_objects_sam2.py:349-350 | a pixel is in the mask exactly when red, green or blue differs from the background by more than the tolerance |
| ObjectsSam2.ColorMaskEmptyIff | tools/extract_objects_sam2.py:349-350 | the colour mask is empty exactly when every pixel is within the tolerance of the background on every channel, so an image in the background colour gives an empty mask |
| ObjectsSam2.CutContours | tools/extract_objects_sam2.py:291-320 | a contour is saved exactly when its area is at least `min_area`; each saved sprite is that contour's padded box cut from the image; contour order is kept |
| ObjectsSam2.CutAppend | tools/extract_objects_sam2.py:291-320 | saving the cut of a large enough contour keeps the sprites in contour order and marks that contour saved |
| ObjectsSam2.ExtractByTransparency | tools/extract_objects_sam2.py:265-322 | the contours of the `alpha > 10` mask are cut as they are, and a contour is saved exactly when its area is at least `min_area` |
| ObjectsSam2.ExtractByColor | tools/extract_objects_sam2.py:325-402 | the background is the given colour or the corner mean; the cleaned colour mask gives each cut its alpha; a contour is saved exactly when its area is at least `min_area` |
| ObjectsSam2.RowFits | tools/extract_objects_sam2.py:420-433 | a grid row below `height // grid_height` ends inside the image |
| ObjectsSam2.CellRect | tools/extract_objects_sam2.py:432-436 | cell `(row, col)` starts at `(col * grid_width, row * grid_height)` and is one grid cell in size |
| ObjectsSam2.CellInImage | tools/extract_objects_sam2.py:420-436 | every cell of the `rows` by `cols` grid lies whole in the image |
| ObjectsSam2.GridPosition | tools/extract_objects_sam2.py:428-462 | two cells with the same row-major position are the same cell |
| ObjectsSam2.SkipCell | tools/extract_objects_sam2.py:439-446 | skipping a cell with too few opaque pixels keeps the grid invariant |
| ObjectsSam2.SaveCell | tools/extract_objects_sam2.py:448-462 | saving a kept cell keeps the grid invariant |
| ObjectsSam2.GridStep | tools/extract_objects_sam2.py:432-462 | each inner pass of the double loop keeps the grid invariant |
| ObjectsSam2.GridRow | tools/extract_objects_sam2.py:431-462 | one pass of the inner loop over the columns of a row keeps the grid invariant for all cells up to the end of that row |
| ObjectsSam2.ExtractGridSprites | tools/extract_objects_sam2.py:405-465 | the saved cells are exactly the kept cells, in row-major order, each cut whole from its position, and there are at most `rows * cols` of them |
| ObjectsSam2.GridCount | tools/extract_objects_sam2.py:428-462 | cells with distinct, rising positions below `n` are at most `n` in number |
| SpriteClassifier.AnalyzeSprite | tools/sprite_classifier.py:45-89 | none exactly when no pixel has alpha above 10; otherwise the tight box of those pixels, its width and height, their count and `width / height`; the count is at least one and fills at most the box |
| SpriteClassifier.Classify | tools/sprite_classifier.py:91-121 | no analysis is unknown, and a sprite is a stump exactly when the first rule (short, narrow, area below 2000) matches |
| SpriteClassifier.LargeRoundFallsThrough | tools/sprite_classifier.py:105-107 | a short, round sprite of area 3000 or more is not taken by the bush rule and goes on to the later rules |
| SpriteClassifier.TreesAreTall | tools/sprite_classifier.py:110-115 | every tree is at least 50 tall with area at least 1500, and every sprite of area at least 3000 and height at least 60 is a tree |
| SpriteClassifier.BushesAreRound | tools/sprite_classifier.py:104-119 | every bush has area at least 500 and aspect above 0.6 |
| SpriteClassifier.SmallSpritesAreStumpsOrUnknown | tools/sprite_classifier.py:100-121 | a sprite of area below 500 is a stump or unknown, a stump exactly when it is under 50 tall and narrower than 0.8 |
| SpriteClassifier.OfCategory | tools/sprite_classifier.py:139-142 | the infos of one category are exactly those the classifier puts there, no more than the input |
| SpriteClassifier.CategoriesPartition | tools/sprite_classifier.py:139-142 | each analysed sprite lands in exactly one list: the four lists together are as long as the input |
| SpriteClassifier.Present | tools/sprite_classifier.py:137-139 | the present analyses are exactly the ones that are not none |
| SpriteClassifier.Lists.Append | tools/sprite_classifier.py:140-142 | appending an info adds it to the end of its own category's list and changes no other list |
| SpriteClassifier.ExtendGet | tools/sprite_classifier.py:137-142 | after the loop, each list is its old contents followed by the infos of its category, in file order |
| SpriteClassifier.Classifier.constructor | tools/sprite_classifier.py:37-43 | all four category lists start empty |
| SpriteClassifier.Classifier.ProcessDirectory | tools/sprite_classifier.py:123-150 | every file is analysed; the ones with no opaque pixel are left out; each list gains exactly the infos of its category, in file order |
| SpriteClassifier.Classifier.Record | tools/sprite_classifier.py:138-142 | one file: a present analysis is appended to its category's list, a missing one changes nothing |
| SpriteClassifier.Classifier.CopyToGameAssets | tools/sprite_classifier.py:152-185 | trees, bushes and stumps are copied in that order, item `i` of a list under index `i`; unknown sprites are not copied; the counts are the three list lengths |
| SpriteClassifier.Stem | tools/sprite_classifier.py:174 | `category[:-1]` is the category name without its last letter |
| SpriteClassifier.Pad2RoundTrip | tools/sprite_classifier.py:174 | the `{i:02d}` index reads back as `i` |
| SpriteClassifier.CopiesOf | tools/sprite_classifier.py:172-177 | item `i` of a category's list is copied from its file into that category's folder under the name with index `i` |
| SpriteClassifier.CopyCategory | tools/sprite_classifier.py:172-178 | the loop over one category gives its copies in list order |
| SpriteClassifier.CopyNamesDistinct | tools/sprite_classifier.py:174-177 | two copies into the same folder with the same name have the same index, so no copy overwrites another |
| SpriteClassifier.UnknownNotCopied | tools/sprite_classifier.py:168-170 | no copy goes to an unknown folder |
| SplitBoss.VisibleMask | manual_split_boss0.py:15 | a pixel is in the mask exactly when its alpha is above 0 |
| SplitBoss.CountColumn | manual_split_boss0.py:15 | the count is the number of pixels of column `c` with alpha above 0 |
| SplitBoss.ColumnCounts | manual_split_boss0.py:13-16 | one count per column, each the number of that column's visible pixels |
| SplitBoss.ColumnCountBounds | manual_split_boss0.py:13-16 | a column count is at most the height, and 0 exactly when the column is fully transparent |
| SplitBoss.GapFlags | manual_split_boss0.py:25 | a column is a gap exactly when its count is below 5 |
| SplitBoss.FindGaps | manual_split_boss0.py:23-26 | the gap list is ascending and holds exactly the columns whose count is below 5 |
| SplitBoss.OnlyRun | manual_split_boss0.py:31-44 | a maximal run of gaps that ends inside a closed range, starting where the range starts, is that range |
| SplitBoss.RunsUpTo | manual_split_boss0.py:35-42 | the only maximal run ending between the open range's start and the next listed gap is the open range |
| SplitBoss.CloseRange | manual_split_boss0.py:38-42 | closing the open range keeps it exactly when it spans three columns or more and keeps the kept ranges complete |
| SplitBoss.AppendClosed | manual_split_boss0.py:39-40 | appending a wide maximal run after the kept ones keeps them ascending and apart |
| SplitBoss.CloseComplete | manual_split_boss0.py:38-44 | after a close, every wide maximal run ending before the next gap has been kept |
| SplitBoss.FirstOpen | manual_split_boss0.py:32-34 | the first gap column opens a run and no run ends before it |
| SplitBoss.OpenNext | manual_split_boss0.py:41-42 | a gap that does not follow the open range starts a new run |
| SplitBoss.ExtendRange | manual_split_boss0.py:36-37 | a gap right after the open range extends it |
| SplitBoss.AllClosed | manual_split_boss0.py:43-44 | once no column is left, the kept ranges are all the wide maximal runs |
| SplitBoss.NoGapsNoRanges | manual_split_boss0.py:32 | with no gap column there is no gap range |
| SplitBoss.MergeGaps | manual_split_boss0.py:31-44 | the gap ranges are exactly the maximal runs of gap columns that span at least three columns, in ascending order with columns between them |
| SplitBoss.SplitPoints | manual_split_boss0.py:70 | the split points are 0, the floor midpoint of every range, and the width |
| SplitBoss.SplitPointsIncrease | manual_split_boss0.py:70-74 | the split points rise strictly, so the slices tile the width and none is empty |
| SplitBoss.Midpoint | manual_split_boss0.py:70 | the midpoint of a range of three or more columns lies strictly inside it |
| SplitBoss.SliceMask | manual_split_boss0.py:77-80 | the mask of a slice marks exactly its pixels with alpha above 0 |
| SplitBoss.SliceBounds | manual_split_boss0.py:72-77 | every slice lies within the image's columns and is not empty |
| SplitBoss.AppendPart | manual_split_boss0.py:92 | saving a part adds its slice index to the saved ones and changes no other |
| SplitBoss.AppendPartFrom | manual_split_boss0.py:72-94 | saving a part cut from the current slice keeps every part tied to its slice, in slice order |
| SplitBoss.SkipSlice | manual_split_boss0.py:81-82 | skipping a slice with no visible pixel keeps the loop invariant |
| SplitBoss.SaveSlice | manual_split_boss0.py:84-94 | saving the cropped part of a slice with content keeps the loop invariant |
| SplitBoss.SliceStep | manual_split_boss0.py:72-94 | one slice is skipped when nothing in it is visible, otherwise cropped to its first and last rows with content |
| SplitBoss.SliceBox | manual_split_boss0.py:77-85 | `None` exactly when the slice has no visible pixel; otherwise the tight box of the slice's visible pixels |
| SplitBoss.SlicePart | manual_split_boss0.py:84-92 | cropping a slice to its first and last visible row gives a part tied to that slice |
| SplitBoss.SplitBoss0 | manual_split_boss0.py:13-96 | the counts, gaps and gap ranges are as above; with fewer than two ranges no part is saved; otherwise there is exactly one part per slice with content, cropped to its content rows, in slice order |
| BossCompleteness.ContentIsNotBackground | scripts/check_boss_completeness.py:45-47 | a pixel is content exactly when the 15-threshold background test rejects it |
| BossCompleteness.ClippedLength | scripts/check_boss_completeness.py:41 | numpy's slice `lo:hi+1`: it fits the axis from its normalised start, has the declared length when the bounds are inside, is never longer than declared for a stop of at least 0, and for a more negative stop runs from `lo` to `n + hi + 1` |
| BossCompleteness.ContentMask | scripts/check_boss_completeness.py:41-48 | the mask has the clipped region's size and marks exactly the content pixels of the region, counted from its normalised top-left corner |
| BossCompleteness.ColumnOf | scripts/check_boss_completeness.py:74-85 | column `j` of the mask, top to bottom |
| BossCompleteness.Warnings | scripts/check_boss_completeness.py:87-95 | an edge is warned about exactly when it holds more than five content pixels; no warning exactly when every edge holds five or fewer |
| BossCompleteness.CountLine | scripts/check_boss_completeness.py:60-85 | the loop counts the content pixels of one line |
| BossCompleteness.CountContent | scripts/check_boss_completeness.py:43-48 | the double loop counts every content pixel of the region |
| BossCompleteness.CheckRegion | scripts/check_boss_completeness.py:34-104 | an error exactly when the clipped region has rows but no columns or columns but no rows; otherwise the content count, declared size, four edge counts and the warnings about them |
| BossCompleteness.EdgeCounts | scripts/check_boss_completeness.py:58-85 | the counts of content pixels on the first and last row and the first and last column; all zero for an empty region |
| BossCompleteness.CountsBounded | scripts/check_boss_completeness.py:43-85 | the content count is at most the region's area and each edge count at most that edge's length |
| BossCompleteness.CompleteIff | scripts/check_boss_completeness.py:87-102 | `[OK]` exactly when no edge holds more than five content pixels |
| Entities.WeaponsClosed | js/data.js:498-702 | the table is keyed by id, and every weapon that evolves names a partner and an evolution that are in the table, the partner being another weapon |
| Entities.Equip | js/entities.js:1369-1374 | a weapon with a table entry carries that entry's id, maximum level and evolution fields at the given level; spreading a missing entry leaves only the level |
| Entities.FindFirst | js/entities.js:1363 | `find` returns the first index whose weapon matches, or none when no weapon matches |
| Entities.WithoutMembers | js/entities.js:1394 | the filter keeps exactly the weapons whose id is neither of the two |
| Entities.WithoutAppend | js/entities.js:1394 | the filter keeps the survivors in their order |
| Entities.WithoutShrinks | js/entities.js:1394 | removing an id that is present makes the list strictly shorter |
| Entities.WithoutBound | js/entities.js:1394 | the filter never lengthens the list |
| Entities.PartnerOf | js/entities.js:1381 | the partner found is a weapon with the `evolvesWith` id at its own maximum, and none is found only when there is no such weapon |
| Entities.FindId | js/entities.js:1363 | the index found is the first weapon with the id, and none is found only when no weapon has it |
| Entities.EvolutionShrinks | js/entities.js:1379-1400 | the list never grows; it changes only when the weapon is at its maximum, evolves and has a partner at its maximum, and then it is the other weapons in order followed by the evolution at level 1 |
| Entities.AddedEffect | js/entities.js:1362-1376 | the first held weapon with the id gains a level and may evolve when below its maximum, and is left alone at its maximum; a new id is appended at level 1 only while there is room; the list grows only by that append, so it stays within `maxWeapons` |
| Entities.AddedSize | js/entities.js:1362-1376 | the weapon list grows only by one append into free room, so it stays within `maxWeapons` |
| Entities.GrownIncreases | js/entities.js:1338 | from a threshold of 5 upward, `floor(1.2 * maxExp)` is strictly larger than `maxExp` and at most a fifth of it plus one larger |
| Entities.LevelledUp | js/entities.js:1335-1338 | one more level, the old threshold paid out of the experience, and the threshold raised to `floor(1.2 * maxExp)` |
| Entities.GainOnce | js/entities.js:1312-1333 | a gain levels up at most once, exactly when the threshold is reached, and the experience paid out is the old threshold |
| Entities.GainCanOvershoot | js/entities.js:1312-1333 | one call levels up at most once, so the player is left at or above the new threshold exactly when the gain also covers it (300 at level 1 leaves 200 against 120) |
| Entities.GainStaysBelow | js/entities.js:1312-1333 | below the threshold before, a gain below the next threshold leaves the player below the threshold again |
| Entities.Player.constructor | js/entities.js:865-915 | a new player starts at level 1 with 0 of 100 experience, multipliers 1, crit damage 2, no gold, passives or weapons, room for six weapons, and the class's health, attack, speed and summon limit |
| Entities.Player.LevelUp | js/entities.js:1335-1343 | the player's progress becomes its level-up, and the game shows the level-up screen |
| Entities.Player.GainExp | js/entities.js:1312-1333 | this player gains `floor(amount * expMultiplier)` and levels up at most once; a living partner in a two-player game gains its own floored share the same way; the level-up screen shows when either levels up; only the two players' progress fields and the game state may change |
| Entities.Player.GainGold | js/entities.js:1346-1359 | the gain is `floor(amount * goldMultiplier)`; it is added to this player and, in a two-player game, to a living partner; no other gold changes |
| Entities.Player.AddWeapon | js/entities.js:1362-1376 | the weapon list becomes the list `addWeapon` gives, and never exceeds `maxWeapons` when it did not before |
| Entities.Player.CheckWeaponEvolution | js/entities.js:1379-1386 | the list becomes its evolution at the given weapon |
| Entities.Player.EvolveWeapon | js/entities.js:1389-1400 | both ids leave the list, the others keep their order, and the evolved weapon joins at level 1 |
| Entities.DroppedItem.constructor | js/entities.js:38-46 | a new item has its kind, its value and the spawn time, and is not collected |
| Entities.DroppedItem.IsDead | js/entities.js:210-215 | a collected item is dead; until the despawn time has passed, an item is dead exactly when it is collected |
| Entities.DroppedItem.StaysDead | js/entities.js:210-215 | an item dead at one time is dead at every later time |
| Entities.DroppedItem.Pickup | js/entities.js:147-153 | after a pickup the item is collected and dead at every time; only the first pickup of a gold drop pays out, through `gainGold`, to the player and to a sharing partner; a later call or another kind adds no gold |
| Entities.Game.constructor | js/main.js:446-455 | the game `startGame` sets up: a player, no enemies, no kills, no time played, and play under way (one player, as the model starts it) |
| Wave.WaveSize | js/wave.js:53-60 | a wave has `5 + 2 * (current - 1)` enemies, 5 more on every tenth wave, and from wave 1 on at least 5 |
| Wave.DrawKind | js/wave.js:110-114 | the random draw only ever gives an ordinary kind: tank above 0.85, fast above 0.7, normal otherwise |
| Wave.FullWave | js/wave.js:93-115 | a fully spawned wave holds exactly one elite; on a boss wave the elite is second to last and the boss last, and on any other wave the elite is last and there is no boss |
| Wave.WaveState.constructor | js/main.js:458-469 | the initial `game.wave`: wave `first`, nothing spawned or to spawn, no flags set, no break, and the invariant holds from wave 1 |
| Wave.WaveState.StartNewWave | js/wave.js:43-64 | the wave keeps its number and starts at `now`: spawning, not in a break, no elite or boss yet, nothing spawned, its full size to spawn, and the invariant holds |
| Wave.WaveState.NextKindInOrder | js/wave.js:93-115 | the next spawn keeps the order: it is the elite exactly at the elite's place and the boss exactly at the last place of a boss wave |
| Wave.WaveState.UpdateWaveSpawning | js/wave.js:67-120 | in a break the next wave starts once the break has lasted 3000 ms, and nothing changes before; a fully spawned wave stops spawning; otherwise one enemy of the next kind joins the game once 800 ms have passed since the last spawn, and nothing changes before; the invariant holds throughout |
| Wave.WaveState.Spawn | js/wave.js:92-119 | one enemy of the next kind joins the game at the given position, the spawn count grows by one, the spawn time becomes `now`, and the invariant holds |
| Wave.WaveState.CheckWaveComplete | js/wave.js:123-139 | the break starts at `now` with the wave-complete screen exactly when the wave is neither spawning nor in a break, every enemy is spawned and none is left; otherwise nothing changes |
| Save.Or | js/save.js:279-287 | `v || d`: the default exactly when the stored value is missing, zero or the default itself; any other result is the stored value |
| Save.OrInt | js/save.js:286 | `gold || 0` on an integer: 0 exactly when the stored gold is missing or zero; otherwise the stored gold |
| Save.SavedWeapons | js/save.js:207 | weapons are stored as `(id, level)` pairs, one per weapon, in order |
| Save.LoadWeaponsMembers | js/save.js:292-299 | loading keeps exactly the saved weapons with a table entry, each rebuilt from its entry at its saved level, and never more weapons than were saved |
| Save.WeaponsRoundTrip | js/save.js:293-299 | weapons built from the table come back from a save and a load unchanged: the same ids, levels and order |
| Save.RoundTrip | js/save.js:194-299 | saving and loading a player gives it back, except that crit damage, the multipliers, multi-shot and the summon limit saved as zero come back as their non-zero defaults |
| Save.SaveSlots.constructor | js/main.js:22-25 | the stored slots as given, with no current or pending slot, no pending record and no slot mode |
| Save.SaveSlots.HasAnySaveData | js/save.js:4-11 | true exactly when some slot from 1 to 6 holds a record |
| Save.SaveSlots.GetSaveData | js/save.js:24-27 | nothing exactly for an empty slot, otherwise the stored record |
| Save.SaveSlots.SaveGameToSlot | js/save.js:194-226 | only the given slot is written, with the record built from the game, its player and the wave number, and that slot becomes current |
| Save.SaveSlots.HandleSlotClick | js/save.js:122-151 | loading an occupied slot makes it current and holds its record, and loading an empty one does nothing; saving or starting a new game on an occupied slot only asks for confirmation; saving into an empty slot writes it and makes it current; a new game in an empty slot makes it current |
| Save.SaveSlots.ClearSaveData | js/save.js:328-332 | a present, non-zero slot number loses its record and nothing else changes; the call without a slot removes nothing |
| Save.ApplyLoadedSaveData | js/save.js:260-326 | a new player, built from the class configuration passed in (the saved class's `CLASSES` entry), carries the saved values through the `||` defaults; no enemies; the saved kill count and time; play under way; a new wave started at the saved wave number |
| Save.LoadPlayer | js/save.js:268-299 | the new player's values are the ones the record restores, with room for the constructor's six weapons |
| Save.LoadStats | js/save.js:270-278 | position, health, maximum health, attack, speed, level, experience and threshold are the saved ones |
| Save.LoadBonuses | js/save.js:279-299 | the bonuses through their `||` defaults, the passives or none, and the weapons the table knows |
| Save.RestoreWeapons | js/save.js:293-299 | the `forEach` builds the loaded weapon list |

## Left out

- File and OS plumbing is not modelled: PNG decoding and encoding, directory listing and sorting by name, `os.makedirs`, `shutil.copy2`, the report writer and argument parsing. An image reaches the model as a pixel grid and a saved file as the value returned for it.
- Logging is not modelled: every `print` and every notification or screen call in the JavaScript (`showWaveNotification`, `showLevelUpScreen`, `showOverwriteModal` and the like).
- The script-level calls are not modelled: the region tables, the sheet paths and the `__main__` blocks. Each driver takes its table of regions as a parameter. The top-level extraction calls of `assets/extract_sprites.py` are left out with them.
- Library code is a parameter, not a model: `ndimage.label`, `cv2.connectedComponentsWithStats`, `findContours`, `contourArea`, `boundingRect`, `morphologyEx`, `adaptiveThreshold` and PIL's `getbbox`. What the model assumes of each is its `requires`.
- SAM model loading and inference are left out (`load_model`, `generate_masks_ultralytics`, `segment_with_points`). They are foreign machine-learning calls; the masks they return are inputs.
- Sam2Auto.Binary: its `hasAlpha` is `AlphaTest` of the layout, so a grayscale image takes the adaptive-threshold branch. The `IndexError` the test at tools/sam2_auto_extract.py:112 raises on a 2-D image is modelled by `AlphaTestAsWritten` and `ExtractObjectsAsWritten` (see Findings).
- Sam2Auto.AutoSegment: it takes `hasAlpha` as `AlphaTest` decides it, and so does not fail on a grayscale image as tools/sam2_auto_extract.py:112 does; `ExtractObjectsAsWritten` models that failure.
- ObjectsSam2.MaskRect: a mask without `bbox` gets the corrected fallback box (`FallbackRect`, width and height `max - min + 1`, see Findings), not the box one short in each dimension of tools/extract_objects_sam2.py:221, which `FallbackRectAsWritten` models.
- ObjectsSam2.ExtractObjects: it cuts with `MaskRect`, so it too uses the corrected fallback box rather than the one written at tools/extract_objects_sam2.py:221.
- `Sam2Auto`: `generate_grid_points` is not modelled, because it depends on float `linspace`.
- Floating point is exact in the model. Aspect ratios, contour areas and multipliers are Dafny `real`s, and `Math.floor(amount * multiplier)` is the floor of an exact product. Float rounding is not modelled.
- `Connected`: the `getbbox` crop at the end of `extract_and_clean` and of `extract_simple` is not modelled, because `getbbox` is PIL code. Only the window clamping before it is.
- `ObjectsSam2.ExtractByTransparency`: the branch for an image without an alpha channel is not modelled. The image is converted to RGBA just before, so the branch cannot be taken.
- `Entities.DroppedItem.Pickup`: only a gold drop's payout is modelled. The `effect` a buff or item drop applies belongs to `DROP_CONFIG`, which is not part of this model; the pickup particles are left out too.
- `Entities.DroppedItem.IsDead`: the despawn time from `DROP_CONFIG` and the current time are parameters.
- Sam2Auto.ExtractObjects, ObjectsSam2.ExtractObjects and ObjectsSam2.SelectMasks: `max_objects` and `padding` are taken as non-negative (`nat`); the command lines read them as any integer (tools/sam2_auto_extract.py:434-435, tools/extract_objects_sam2.py:554-555), and a negative `masks[:max_objects]` would drop masks from the end instead.
- `Entities.Player.constructor`: the `CLASSES` entry is a `ClassConfig` parameter, and the start position is a parameter rather than the world-size formula. Drawing and combat fields are left out.
- `Entities.Enemy`: only the position and the kind are modelled. Enemy stats scale with float wave multipliers and are not part of this model.
- `Entities.Weapon`: a held weapon keeps only the table fields the rules read (id, maximum level, evolution fields and level). Names, icons and damage are left out.
- `Wave.WaveState.UpdateWaveSpawning`: the spawn position (`getSpawnPosition`) and the `Math.random()` draw are parameters.
- `Save.SaveSlots`: `localStorage` is a map keyed by slot number rather than by the string `roguelikeSave_<slot>`, and the JSON encoding is taken as exact.
- `Save.SaveSlots.HandleSlotClick`: in load mode the model stops where `loadGameFromSlot` starts its countdown; the load itself is `Save.ApplyLoadedSaveData`. The screen changes after a click are left out, including `showClassSelection` resetting the class choice.
- `Save.ApplyLoadedSaveData`: the obstacle generation, the UI cache reset and the emptied particle, projectile and summon lists are left out.
- `deleteSaveSlot` is not modelled, because it removes a slot only after a browser `confirm` dialog. `getClassName` and `formatSaveTime` are left out too, since they only produce display text.

## Findings

| source | as written | input that shows it | evidently intended | confidence | as-written member | corrected member |
|---|---|---|---|---|---|---|
| tools/extract_objects_sam2.py:216-221 | The fallback box for a mask without `bbox` is `(x_min, y_min, x_max - x_min, y_max - y_min)`. Read as OpenCV's `(x, y, w, h)`, it is one short in each dimension. | Any non-empty mask without a `bbox` key at `padding=0`: its pixels in column `x_max` fall outside the crop. | Width `x_max - x_min + 1` and height `y_max - y_min + 1`, so the crop covers the whole mask. | low, not executed | ObjectsSam2.FallbackRectAsWritten, ObjectsSam2.FallbackAsWrittenLosesLastColumn | ObjectsSam2.FallbackRect, ObjectsSam2.FallbackCoversMask |
| tools/sam2_auto_extract.py:112 | `extract_objects` accepts a 2-D grayscale image (:295-297) and then calls `auto_segment_by_contours` (:314). That function reads the file again and tests `image.shape[2] == 4`. | Any single-channel PNG: `shape` has two entries, so `shape[2]` raises `IndexError`, which nothing catches, and no object is extracted. | Treat a 2-D image as having no alpha channel and threshold it adaptively, as a three-channel image is. | medium, not executed | Sam2Auto.AlphaTestAsWritten, Sam2Auto.ExtractObjectsAsWritten | Sam2Auto.AlphaTest, Sam2Auto.ExtractObjects |

# dtclassifier: a verified Dafny model

This project models the parts of the dtclassifier QGIS plugin and its command-line front end that contain real logic, and proves properties of that model.

- **GeoTransform** (`geotransform.dfy`): the six-coefficient affine geotransform.
  - Covers `applyGeoTransform`, `pixelToMap`, `invertGeoTransform` (which writes nothing when |det| is below 1e-15) and `mapToPixel`.
  - The formulas are the functions `ApplyGeoTransform` and `PixelToMap` (classifierdialog.cpp:471-480) and `Inverse` (classifierdialog.cpp:482-501). Their partners are the round-trip lemmas in the table below.
  - `mapToPixel` is modelled twice: as written, and as evidently intended (see Findings).
- **Layers** (`layers.dfy`): the two layer lookups of the classifier dialog. Each is a linear search over the map-layer registry in key order.
- **Training** (`training.dfy`): the data loops of `doClassification`.
  - The two sampling loops fill one row of the training matrix per presence point (response 1) and per absence point (response 0).
  - They locate each point with `mapToPixel` as written, so the two defects under Findings reach the training data.
  - The nested prediction loops read the raster row by row into a band-sequential buffer and predict every pixel.
- **CommandLine** (`cli.dfy`): `main` up to the start of the worker.
  - The loop over argv keeps a "current list" mode. Value options take the next argument; flags set booleans.
  - Errors end the loop with an exit code. The validation rules follow the loop.
  - `QString::toInt` is modelled for the `--generalize` value.
- **Progress** (`progress.dfy`): the `ClassifierApplication` console progress reporter, as a class.
  - It holds the five counters and the console output, kept as a sequence of lines.
  - It prints a line only when the sub-step progress, in tenths, has grown.
- **Options** (`options.dfy`): the `Option` type.
- **Arithmetic** (`arith.dfy`): one integer lemma shared by Progress and Training.

World and pixel coordinates are exact reals. The only IEEE effect modelled is that dividing by zero gives a non-finite value.

The raster is an `array3<real>` indexed [band, row, column]:
- a RasterIO read is an assignment from that array;
- a RasterIO write is a `RowWrite` record;
- the trained classifier is a function parameter `predict`.

A file-existence check is a function parameter `fileExists`. The defaults of `ClassifierWorkerConfig` are a parameter `defaults`.

`mapToPixel` does not round: the shortcut truncates the world offset before dividing, and the callers take `floor` of the result.

## Model

| member | source | states |
|---|---|---|
| GeoTransform.InvertGeoTransform | classifierdialog.cpp:482-501 | When abs(det) < 1e-15 the output array is left exactly as it was. Otherwise the determinant is non-zero and the output holds the inverse coefficients. |
| GeoTransform.InverseAfterForward | classifierdialog.cpp:476-501 | For a non-zero determinant, applying the computed inverse after the forward transform gives back every (x, y). |
| GeoTransform.ForwardAfterInverse | classifierdialog.cpp:471-501 | For a non-zero determinant, pixelToMap after the computed inverse gives back every world point. |
| GeoTransform.ForwardInjective | classifierdialog.cpp:471-480 | With a non-zero determinant, two pixels with the same world position are the same pixel. |
| GeoTransform.Trunc | classifierdialog.cpp:460-461 | The C++ `(int)` cast truncates toward zero: the result lies within one of the value, on the side of zero. |
| GeoTransform.Divide | classifierdialog.cpp:460-461 | IEEE division is finite exactly when the divisor is non-zero, and then quotient × divisor = dividend. |
| GeoTransform.TruncatedShortcut | classifierdialog.cpp:458-462 | The shortcut coordinates are finite exactly when the pixel size is non-zero. Each coordinate × pixel size equals the truncated world offset. |
| GeoTransform.MapToPixelAsWritten | classifierdialog.cpp:456-469 | As written: if g2 + g4 == 0, the truncated shortcut. Otherwise, for a singular transform, (0, 0) from the zero-initialised inverse, and for a non-singular one, a finite pixel whose world position is the input. |
| GeoTransform.MapToPixel | classifierdialog.cpp:456-469 | mapToPixel on a coefficient array fills its out-parameters with `MapToPixelAsWritten`. |
| GeoTransform.RotatedTransformTakesShortcut | classifierdialog.cpp:458 | A rotated transform with g2 = -g4 takes the shortcut: the world image of pixel (1, 0) is mapped to pixel (1, 1). |
| GeoTransform.TruncationBeforeDivisionLosesCell | classifierdialog.cpp:460-461 | With half-unit pixels, the world image of pixel (1.5, 1.5) is mapped to (0, 0); the intended conversion gives (1.5, 1.5). |
| GeoTransform.AxisAlignedRoundTrip | classifierdialog.cpp:458-462 | Without rotation terms and with a non-singular transform, dividing the untruncated offsets by the pixel sizes inverts the transform. |
| GeoTransform.IntendedPixel | classifierdialog.cpp:456-469 | Corrected mapToPixel. For every non-singular transform it is finite and maps back to the input world point. A rotated singular transform gives (0, 0). |
| GeoTransform.IntendedPixelRoundTrip | classifierdialog.cpp:456-474 | For a non-singular transform, the corrected mapToPixel of pixelToMap(col, row) is exactly (col, row). |
| GeoTransform.MapToPixelIntended | classifierdialog.cpp:456-469 | The corrected mapToPixel on a coefficient array fills its out-parameters with `IntendedPixel`. |
| Layers.VectorLayerByName | classifierdialog.cpp:343-357 | Returns the first layer that is a vector layer with the given name, or none exactly when no layer is one. |
| Layers.RasterLayerByName | classifierdialog.cpp:359-377 | As written: returns the first raster layer not served by a non-"gdal" provider, or none exactly when there is none, whatever the name. |
| Layers.RasterLookupIgnoresName | classifierdialog.cpp:359-377 | Returns the layers [GDAL raster "a", GDAL raster "b"] and the query "b". The as-written lookup returns index 0, whose name "a" differs from the query. The corrected lookup returns index 1, named "b". |
| Layers.RasterLayerByNameIntended | classifierdialog.cpp:359-377 | Corrected lookup: returns the first GDAL raster with the given name, or none exactly when there is none. |
| Training.PixelCell | classifierdialog.cpp:160-164 | The cell a sampling loop reads, as written. On the shortcut (g2 + g4 == 0) there is a cell exactly when both pixel sizes are non-zero; its column and row are the floors of the truncated world offsets divided by the pixel sizes. Off the shortcut it is the corrected cell. |
| Training.PixelCellIntended | classifierdialog.cpp:160-164 | Corrected cell: for a non-singular transform, a point is sampled at the cell whose unit square contains its corrected pixel coordinates, and those coordinates map back to the point. |
| Training.IntendedCellOfCellPoint | classifierdialog.cpp:160-164 | Corrected: with the intended mapToPixel, every world point inside a cell of a non-singular transform, its centre included, is sampled at exactly that cell. |
| Training.NorthUpUnitCellPoint | classifierdialog.cpp:160-164 | As written, for a north-up raster with unit pixels, every world point of a cell at a non-negative column and row is sampled at that cell. |
| Training.TruncatedShortcutMissesCell | classifierdialog.cpp:160-164 | As written, with half-unit pixels, the point (0.75, -0.75) of cell (1, 1) is sampled at cell (0, 0); the corrected cell is (1, 1). |
| Training.TruncatedShortcutReadsEdge | classifierdialog.cpp:160-164 | As written, for a north-up unit raster, the point (-0.5, -0.5) left of column 0 is sampled at cell (0, 0) inside the raster; the corrected cell is (-1, 0), outside it. |
| Training.ReadCell | classifierdialog.cpp:165 | A one-pixel read inside the raster puts all bands of that pixel at the front of the buffer and leaves the rest. A read outside leaves the buffer unchanged. |
| Training.ReadPixel | classifierdialog.cpp:165 | The RasterIO read of one pixel changes the buffer exactly as `ReadCell` says. |
| Training.PointCell | classifierdialog.cpp:160-164 | Calling mapToPixel on the geotransform array and taking floors gives `PixelCell`, the as-written cell. |
| Training.TrainingRowAt | classifierdialog.cpp:157-196 | For every point k, the buffer after points 0..k holds point k's band values when its as-written cell lies inside the raster. Otherwise it is the buffer after points 0..k-1. |
| Training.BufferAfterLast | classifierdialog.cpp:157-196 | After a sequence of points, every band of the buffer holds the last point's pixel when its as-written cell lies inside the raster. Otherwise the buffer is the one left by the points before. |
| Training.SamplePoint | classifierdialog.cpp:165-173 | One loop iteration: the buffer is read at the point's cell; columns 0..5 of row i get buffer values 0..5; the response of row i is set. No other matrix entry changes. |
| Training.SampleLoop | classifierdialog.cpp:157-174 | One sampling loop over a layer's points from row `start`. It returns the counter start + number of points. The rows it fills get the given response, and their six columns hold the buffer after reading the as-written cells of every point up to and including their own. All other rows, columns and responses are unchanged. |
| Training.CollectTrainData | classifierdialog.cpp:150-196 | Both sampling loops. Afterwards i = featCount, responses are 1 for presence rows and 0 for absence rows, and row k, columns 0..5 hold the buffer after reading the as-written cells of points 0..k. Columns from 6 on are unchanged, and the buffer is the one after the last point. |
| Training.PixelSample | classifierdialog.cpp:244-249 | A sample is the six band values of its pixel, in band order. |
| Training.BandSequentialIndex | classifierdialog.cpp:244-249 | Index xSize·b + c lies inside the row buffer, and it uniquely recovers band b and column c. |
| Training.RowBufferAt | classifierdialog.cpp:241 | After a row read, band b of column c is at xSize·b + c of the buffer. |
| Training.ReadRow | classifierdialog.cpp:241 | The RasterIO row read fills the whole buffer band after band. |
| Training.SampleEntries | classifierdialog.cpp:244-249 | The six entries read for column `col` are bands 0..5 of that pixel. |
| Training.LoadSample | classifierdialog.cpp:244-249 | After the six copies, the sample is the pixel's six bands followed by its unchanged remaining entries. |
| Training.PredictRow | classifierdialog.cpp:242-259 | Each column's output is the prediction for that pixel's sample; the entries of the sample beyond band 5 are unchanged. |
| Training.ClassifyRaster | classifierdialog.cpp:233-262 | Rows 0..ySize-1 are written once each, in order, with xSize values. The value at (row, col) is the prediction for that pixel's six bands followed by the sample's initial remaining entries. |
| CommandLine.LeadingSpaces | main.cpp:144 | The length of the white space at the front: every character before it is white space, and the character at it, if any, is not. |
| CommandLine.TrailingSpaces | main.cpp:144 | The length of the white space at the end: every character after the rest is white space, and the last character of the rest, if any, is not. |
| CommandLine.Trim | main.cpp:144 | The result is a slice of the input with only white space before and after it. A non-empty result neither starts nor ends with white space. |
| CommandLine.ToInt | main.cpp:144 | `QString::toInt` always gives a 32-bit value, and 0 for text that is not a decimal number. |
| CommandLine.ToIntOfOverflow | main.cpp:144 | A decimal number outside the 32-bit range converts to 0. |
| CommandLine.ToIntOfMinusDigits | main.cpp:144 | '-' followed by the digits of a magnitude up to 2^31 converts to the negative value. |
| CommandLine.ToIntOfDigits | main.cpp:144 | Digits whose value is at most 2^31 - 1 convert to that value. |
| CommandLine.ToIntOfDecimalString | main.cpp:144 | Every 32-bit integer, written in decimal, converts back to itself. |
| CommandLine.SetValue | main.cpp:108-159 | A value option changes its own field only. `--generalize` also sets generalisation on, with kernel size toInt(value). |
| CommandLine.SetValueTwice | main.cpp:108-159 | Setting the same option twice keeps only the second value. |
| CommandLine.AppendTo | main.cpp:170-187 | A plain argument is appended to the list of the current mode, and nothing else changes. |
| CommandLine.KindOf | main.cpp:88-168 | "--help" is recognised exactly as itself, and the value options exactly as the six names. A plain argument is exactly one without a leading '-'; an unknown option is exactly a dash argument that is not one of the options. |
| CommandLine.StepOn | main.cpp:87-191 | The loop advances by 2 exactly for value options, otherwise by 1. A stop returns 0 exactly for "--help", otherwise 1. |
| CommandLine.Loop | main.cpp:85-192 | The loop, stated on the remaining arguments, ends with a configuration or with exit code 0 or 1. |
| CommandLine.Validate | main.cpp:194-214 | Each of the four validation rules, when violated, gives exit 1. A pass returns the configuration unchanged, and exit 1 happens only when a rule is violated. |
| CommandLine.Parse | main.cpp:77-214 | `main` up to the worker returns exit code 0 or 1, or a configuration to run. |
| CommandLine.LoopBody | main.cpp:87-191 | The loop body method computes exactly the step `StepOn` specifies. |
| CommandLine.ArgumentLoop | main.cpp:85-192 | The while loop over argv from index 1 ends exactly as `Loop` does on the arguments after the program name. |
| CommandLine.LoopStopsAt | main.cpp:87-191 | When the pass at index `count` stops, the loop on argv[count..] ends with that pass's exit code. |
| CommandLine.LoopContinuesAt | main.cpp:87-191 | When the pass at index `count` goes on, the loop from argv[count + advance..] with the pass's new mode and configuration ends exactly as the loop from argv[count..] did. |
| CommandLine.ParseArguments | main.cpp:77-214 | The argument loop followed by the four validation rules returns exactly `Parse(argv)`. |
| CommandLine.HelpExitsZero | main.cpp:88-92 | Reaching "--help" stops the loop with exit code 0. |
| CommandLine.LoopState | main.cpp:85-192 | The state the loop reaches after stepping through a prefix without stopping; a prefix it ends on finishes with that state's configuration. |
| CommandLine.LoopThroughPrefix | main.cpp:85-192 | When the loop steps through a prefix without stopping, running it on prefix + rest is running it on rest from the state reached. |
| CommandLine.StepIgnoresNext | main.cpp:87-191 | Only a value option looks at the argument after it. |
| CommandLine.HelpIgnoresFollowing | main.cpp:88-92 | After any prefix the loop steps through without stopping, an argument "--help" stops it with 0, whatever follows. |
| CommandLine.HelpReachedExitsZero | main.cpp:77-92 | `main` exits with 0 once the loop reaches "--help", whatever comes after it. |
| CommandLine.UnknownOptionExitsOne | main.cpp:160-167 | A dash argument that is not an option stops the loop with exit code 1. |
| CommandLine.ValueOptionConsumesNext | main.cpp:108-159 | A value option takes the next argument as its value, keeps the list mode and skips that argument. |
| CommandLine.StepCommutesWithValue | main.cpp:108-159 | Any argument kind other than the option itself steps alike whether or not the option's value was set first, and keeps that value. |
| CommandLine.ValueOverwrittenAtRepeat | main.cpp:108-159 | When the next argument is the same value option, the value it had before makes no difference. |
| CommandLine.LoopStepKeepsValue | main.cpp:87-191 | One step on an argument that is not the option carries a previously set value of that option through. |
| CommandLine.ValueIrrelevantUntilRepeat | main.cpp:108-159 | Through whole steps that do not give the option again, up to a repeat of it, the option's earlier value makes no difference. |
| CommandLine.RepeatedOptionKeepsLast | main.cpp:108-159 | When a value option is given twice, with whole steps between that do not give it, the first value makes no difference to the outcome. |
| CommandLine.FlagStep | main.cpp:131-140 | `--decision_tree` and `--discrete_classes` only set their boolean to true, and setting it twice equals setting it once. |
| CommandLine.StepCommutesWithFlag | main.cpp:87-191 | Every argument kind steps alike whether or not a flag was set first, and keeps the flag set. |
| CommandLine.FlagSetBeforeRepeat | main.cpp:131-140 | Through whole steps up to a repeat of the flag, whether it was set before makes no difference. |
| CommandLine.SwitchAndFlagKinds | main.cpp:93-140 | Each argument is the "--input_rasters", "--presence" or "--absence" switch of its list exactly when it is that name. It is the decision-tree or discrete-classes flag exactly when it is that flag's name. |
| CommandLine.ListSwitchSelectsMode | main.cpp:93-107 | A list switch at the head changes nothing but the list mode, which becomes the list it names, and moves on one argument. |
| CommandLine.LastSwitch | main.cpp:93-107 | With no switch among the arguments the loop body was entered on, the mode is the one it started in. Otherwise the mode is the list of a switch with no switch after it. |
| CommandLine.StepMode | main.cpp:86-191 | A step that goes on advances by two for a value option and by one otherwise. Its list mode is the named list after a switch and is unchanged after anything else. |
| CommandLine.ModeIsMostRecentSwitch | main.cpp:93-187 | Wherever the loop has got to without stopping, its mode is the list of the most recent switch it passed, so the next plain argument goes to that list. It is the starting mode when no switch was passed. |
| CommandLine.RepeatedFlagIdempotent | main.cpp:131-140 | Giving a flag, any whole steps, and the flag again gives the same outcome as dropping its first occurrence. |
| CommandLine.PlainArgument | main.cpp:170-191 | A plain argument before any list mode, or one naming a missing file, gives exit 1. Otherwise it is appended to the current list. |
| CommandLine.ListsOnlyGrowWithExisting | main.cpp:170-187 | The loop only appends to the three lists, in order, and only names that passed the existence check. |
| CommandLine.RunIsValid | main.cpp:194-214 | A configuration handed to the worker satisfies every validation rule. Its lists extend the defaults with existing files only. |
| Progress.CDiv | main_application.cpp:44 | C++ integer division: the remainder is smaller than the divisor in magnitude and has the dividend's sign. |
| Progress.SubProgress | main_application.cpp:41-44 | The progress bucket is 0 when the sub-step count is 0, and in 0..10 when 0 <= subStep <= count. |
| Progress.SubProgressMonotone | main_application.cpp:41-44 | With a fixed positive count, the bucket never decreases as the sub-step grows. |
| Progress.LinesPrintedBound | main_application.cpp:38-52 | From bucket `current` >= -1, at most 10 - current further lines are printed for in-range sub-step reports. |
| Progress.AtMostElevenLinesPerStep | main_application.cpp:30-52 | Between two showNextStep calls, at most 11 progress lines are printed for in-range sub-steps. |
| Progress.ClassifierApplication.constructor | main_application.cpp:6-11 | Starts from the given counter values with an empty console. |
| Progress.ClassifierApplication.ProgressLineNow | main_application.cpp:54-61 | The progress line reports the current step, step count, sub-step and sub-step count. It ends with a carriage return exactly while sub-steps remain. |
| Progress.ClassifierApplication.SetStepCount | main_application.cpp:16-21 | Sets the step count and nothing else. |
| Progress.ClassifierApplication.SetSubStepCount | main_application.cpp:23-28 | Sets the sub-step count and nothing else. |
| Progress.ClassifierApplication.ShowNextStep | main_application.cpp:30-36 | Sets the step and resets the bucket to -1, and nothing else. |
| Progress.ClassifierApplication.PrintProgress | main_application.cpp:54-61 | Appends exactly the current progress line to the console. |
| Progress.ClassifierApplication.ShowNextSubStep | main_application.cpp:38-52 | Records the sub-step. It prints exactly when the new bucket exceeds the last one printed, and then stores it. The bucket never decreases. |
| Progress.ClassifierApplication.RunStep | main_application.cpp:16-52 | One step: showNextStep, then setSubStepCount and showNextSubStep per report. The console keeps its earlier lines and grows by exactly `LinesPrinted` from the reset bucket, so by at most 11 lines for in-range reports. The step and the last report's counters are left in the fields. |
| Progress.ClassifierApplication.ShowFinish | main_application.cpp:63-68 | Appends the finish line. |
| Progress.ClassifierApplication.ShowError | main_application.cpp:70-75 | Appends an error line carrying the message. |

## Left out

- GDAL I/O (opening and creating datasets, projections, closing) is not modelled.
  - The input raster is a given array; an output row write is a `RowWrite` record.
  - A one-pixel read outside the raster is assumed to fail and leave the buffer untouched, so that row repeats the previous buffer.
- OpenCV training, prediction and model saving are foreign library calls. Prediction is the function parameter `predict`.
- IEEE double arithmetic is replaced by exact reals. So is the float32 storage of `rasterData`, `data`, `sample` and `outData`. Rounding and overflow of the conversions are not modelled.
- The range of the C++ integer conversions is not modelled:
  - `(int)` of a world offset;
  - `floor` assigned to `int`;
  - the 32-bit product `10 * subStep`.
- Training.PixelCell: a non-finite pixel coordinate gives no cell and is read as a point outside the raster. In C++, converting such a value to int is undefined.
- Training.CollectTrainData:
  - The point lists, the geotransform and the buffers are parameters; the feature iteration and the allocations are not modelled.
  - It requires only that the buffer holds all bands, which the source's xSize·bandCount buffer does for xSize >= 1. That relaxes the source's exact buffer length.
- Training.CollectTrainData and Training.ClassifyRaster require at least six bands whenever a row is filled. The source's hard-coded band indices 0..5 need this.
- Training.SampleLoop: the source writes the same loop twice, once for presence and once for absence points. The model has one loop method, called twice.
- The choice between the decision tree and the random trees is a UI check box; here it is part of `predict`.
- The Qt and QGIS user interface is not modelled:
  - settings, combo boxes, the progress bar and adding the result to the map canvas;
  - layer type casts;
  - dialog code other than the listed functions.
- The map-layer registry is the sequence of its layers in key order. A lookup returns a position instead of a pointer.
- `fileExistValidate`'s file-system probe is the parameter `fileExists`. The usage text and every printed message are left out; the console keeps each line's fields, not its printed text.
- The defaults of `ClassifierWorkerConfig` are the parameter `defaults`. classifierworker.h is not part of this model.
- The printing of the parsed arguments and the worker run after validation (main.cpp:216-250) are not part of this model.
- CommandLine.ToInt covers decimal digits with an optional sign and ASCII white space only. Unicode white space and digits, and locale group separators, are not modelled.
- The argument past the last one (argv[argc], a null pointer) is read as the empty string, as `QString` does with a null `char*`.
- The `QMutex` in `ClassifierApplication` is left out: the model is sequential. The C++ constructor leaves the counters uninitialised, so the model's constructor takes their initial values.
- The `QgsApplication` base class and the text stream of `ClassifierApplication` are not modelled.

## Findings

| source | as written | input that shows it | evidently intended | confidence | as-written member | corrected member |
|---|---|---|---|---|---|---|
| classifierdialog.cpp:458 | The axis-aligned shortcut is taken when g2 + g4 == 0. | g = (0, 1, -1, 0, 1, 1) and world point (1, 1), which is the image of pixel (1, 0): the result is pixel (1, 1). | Take the shortcut only when g2 == 0 and g4 == 0. | not executed | GeoTransform.RotatedTransformTakesShortcut | GeoTransform.IntendedPixel |
| classifierdialog.cpp:460-461 | The world offset is cast to int before it is divided by the pixel size. | g = (0, 0.5, 0, 0, 0, -0.5) and world point (0.75, -0.75), the image of pixel (1.5, 1.5) in cell (1, 1): the result is pixel (0, 0). | Divide the offset itself: (mX - g0) / g1. | not executed | GeoTransform.TruncationBeforeDivisionLosesCell | GeoTransform.MapToPixelIntended |
| classifierdialog.cpp:359-377 | rasterLayerByName never compares the layer name with its argument. | Two GDAL rasters "a" then "b", asking for "b": layer "a" is returned. | Return the first GDAL raster whose name equals the argument. | not executed | Layers.RasterLookupIgnoresName | Layers.RasterLayerByNameIntended |

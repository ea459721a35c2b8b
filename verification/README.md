# savile, modelled in Dafny

savile is a command-line tool that finds the images under a directory,
measures them, and resizes, re-encodes, reformats or makes progressive the
ones the user picks, overwriting each file in place. This project models
its two core pieces and proves what they promise:

- **The image record** (`src/image.ts`). An `Image` keeps a path, a
  temporary path beside it, a format, its last measurement and a pending
  sharp pipeline. The staging calls (`resize`, `optimise`, `reformat`,
  `makeProgressive`) change these fields under their guards.
  `overwriteImg` commits through the temporary file: write the temporary
  file, delete the original, possibly rename to the new format, copy the
  temporary file back, delete it, measure again. The path helpers
  `uniqifyBasename` and `replaceExtension` and the classifier `getType`
  are pure functions.
- **The `Savile` orchestrator** (`src/index.ts`). It covers:
  - image discovery and measurement;
  - the file-size and width buckets;
  - the query and width filters;
  - the text-prompt validators;
  - the resize, optimise, reformat and progressive workflows. Each one
    settles its prompts, selects records, asks for confirmation, then
    stages and commits every selected record.

Files and modules:

| file | module | what it holds |
|---|---|---|
| `wrappers.dfy` | `Wrappers` | `Option` |
| `paths.dfy` | `Paths` | the POSIX path operations the record uses (`dirname`, `basename`, `extname`, `join` on normalised paths), `uniqifyBasename`, `replaceExtension`, ASCII case mapping |
| `codec.dfy` | `Codec` | formats, staged sharp calls, and a `Codec` value that stands for sharp's encoder and image-size's reader |
| `disk.dfy` | `Disk` | class `FileSystem`: a map from path to bytes with Node's `readFileSync`, `writeFileSync`, `unlinkSync` and `copyFileSync` |
| `image.dfy` | `ImageRecord` | `getType`, the measuring rule, and class `Image` |
| `parse_int.dfy` | `JsParseInt` | JavaScript's `parseInt` with no radix, as the validators call it |
| `selection.dfy` | `Selection` | order-keeping filters over the records, the JPEG base-name filter, and the buckets |
| `prompts.dfy` | `Prompts` | the validators, and a `text` prompt settled on a run of replies |
| `workflows.dfy` | `Workflows` | class `Savile` and its workflows |

External effects are parameters:

- The file system is a `FileSystem` object.
- sharp and image-size are the two functions of a `Codec`. What the model
  needs of them is stated as the hypothesis `Sound(codec)`: an encoded image
  can be measured, and its width is that of the last staged resize (or the
  source width when nothing resized it). The width guarantees hold under
  that hypothesis.
- micromatch's `isMatch` is an uninterpreted function.
- The random id from `nanoid` is an argument of the constructor.
- The user's replies to each prompt are a sequence. `None` stands for a
  cancel; running out of replies means the prompt is still open.

## Model

| member | source | states |
|---|---|---|
| Paths.LastIndex | src/image.ts:12 | the position where `extname` splits: -1 when the character does not occur, otherwise a position holding that character |
| Paths.LastIndexIsLast | src/image.ts:12 | no occurrence of the character lies after the index `extname` splits at |
| Paths.DirPrefix | src/image.ts:14-15 | `path.dirname` followed by the separator `path.join` puts after it: the path up to and including its last `/`. It has no contract of its own; Paths.DirThenBase and Paths.PartsOf state what it gives |
| Paths.Ext | src/image.ts:12 | `path.extname`: the base name from its last `.`, and empty when there is no dot, when the dot starts the name, and for `..`. It has no contract of its own; Paths.ExtShape states its shape |
| Paths.Stem | src/image.ts:13 | `path.basename(p, ext)`: the base name without its extension. It has no contract of its own; Paths.StemThenExt states how it joins the extension |
| Paths.DirThenBase | src/image.ts:13-14 | a path is its directory part followed by its base name; the directory part is empty or ends in `/`, and the base name holds no `/` |
| Paths.StemThenExt | src/image.ts:12-13 | the base name is the stem followed by the extension, and is the stem alone when there is no extension |
| Paths.ExtShape | src/image.ts:12 | an extension is empty, or a dot followed by text without dots, and it is shorter than the base name, so the stem is never empty |
| Paths.Uniqify | src/image.ts:11-16 | `uniqifyBasename`: the path grows by `.temp.` and the id. Paths.UniqifyParts states where they go |
| Paths.IdIsWord | src/image.ts:9 | a 6-character id drawn from `abcdefghijkABCDEFGHIJK` contains no dot and no slash, so it can stand as an extension |
| Paths.UniqifyParts | src/image.ts:11-16 | `uniqifyBasename` keeps the directory and the extension and makes the stem `<stem>.temp.<id>`; a path without an extension gets `.<id>` as its extension; the path grows by exactly 12 characters |
| Paths.ReplaceExtensionParts | src/image.ts:18-23 | `replaceExtension(p, e)` keeps the directory and the stem, and `extname` of the result is `.` + `e` |
| Paths.ReplaceExtensionTwice | src/image.ts:18-23 | replacing the extension twice is the same as replacing it once with the second extension |
| Paths.ReplaceExtension | src/image.ts:18-23 | `replaceExtension`: the result is the path without its extension, then `.`, then the new extension, counted in characters. Paths.ReplaceExtensionParts states the parts |
| Paths.PartsOf | src/image.ts:18-23 | a path built as directory + stem + `.` + extension gives back each of those parts under `dirname`, `basename` and `extname` |
| Paths.NotTempPath | src/image.ts:11-16 | an image path never equals a temporary path built on the same stem, so the commit's delete of the temporary file cannot delete the image |
| Paths.LowerOfUpper | src/image.ts:63 | lower-casing ignores any earlier upper-casing, which is what makes the extension test case-insensitive |
| Paths.LowerOfLower | src/image.ts:63 | a string without upper-case letters is its own lower-case form |
| ImageRecord.KiB | src/image.ts:89 | `Math.ceil(bytes / 1024)`: the least number of whole KB that holds the bytes |
| ImageRecord.TypeOfExtension | src/image.ts:64-76 | the `switch` on a lower-cased extension: only a dot followed by three or four characters names a format. ImageRecord.TypeOfExtensionSpec states which ones |
| ImageRecord.GetType | src/image.ts:62-77 | `getType`: a path without an extension has no format |
| ImageRecord.TypeOfExtensionSpec | src/image.ts:62-77 | exactly `.png`, `.jpg`, `.jpeg`, `.webp` and `.avif` (in any case) have a format; each names its own format, and `.jpg` stands for JPEG |
| ImageRecord.TypeIgnoresCase | src/image.ts:62-77 | upper-casing an extension does not change the format `getType` gives |
| ImageRecord.TypeOfFormatName | src/image.ts:62-77 | a format's own name, used as an extension, classifies back to that format |
| ImageRecord.FormatNameIsWord | src/image.ts:31 | every format name can stand as an extension |
| ImageRecord.KnownExtensionLength | src/image.ts:64-73 | a recognised extension has at least four characters |
| ImageRecord.TypedPathShape | src/image.ts:54-60 | a path `getType` recognises splits into directory, non-empty stem, dot and a one-word extension |
| ImageRecord.TypeOfRenamed | src/image.ts:163-165 | after `replaceExtension(p, f)`, `getType` gives `f`: the round trip the commit's rename relies on |
| ImageRecord.MeasureFileSpec | src/image.ts:82-96 | measuring succeeds exactly for an existing file that image-size reads with a non-zero width and height; it then reports those, and a size in KB that is the byte count rounded up |
| ImageRecord.MeasureFile | src/image.ts:82-96 | what `getStats` stores: present exactly when the file exists and image-size reads a non-zero width and height; then both are positive and the size is the byte count in KB, rounded up |
| ImageRecord.EncoderFor | src/image.ts:119-129 | the encoder `optimise` stages: the record's own format at the given quality, lossless exactly for webp, optimised scans exactly for JPEG |
| ImageRecord.CommitPathParts | src/image.ts:163-165 | the commit keeps the directory and stem and keeps the extension when it already names the format, otherwise uses the format's name; either way `getType` of the final path is the format |
| ImageRecord.CommitPath | src/image.ts:163-165 | the path after the commit: unchanged when its extension already names the format; otherwise, for a non-empty base name, one whose extension `getType` reads as the format |
| ImageRecord.ThroughTemporary | src/image.ts:157-168 | write temp, delete original, copy temp to the final path, delete temp: the files end as if the original and temp were deleted and the bytes written to the final path |
| ImageRecord.RenameExtension | src/image.ts:141 | renaming a path known by its parts swaps only its extension |
| ImageRecord.Image.Apart | src/image.ts:58 | the record's path and temporary path are never the same file |
| ImageRecord.Image.constructor | src/image.ts:54-60 | the record starts well formed: the given path, the temporary path from `uniqifyBasename`, the format `getType` gives, no measurement and no pipeline |
| ImageRecord.Image.GetStats | src/image.ts:82-96 | returns the measurement of the file at `path` and stores it on success; on failure the old measurement is kept |
| ImageRecord.Image.GetSharpImg | src/image.ts:98-102 | a kept pipeline is reused; otherwise one is created from the file's bytes; it fails only when no pipeline is kept and the file is missing |
| ImageRecord.Image.Resize | src/image.ts:108-113 | stages a resize only when the measured width exceeds `width`, so it never enlarges; fails when the file cannot be read, when there is no measurement, and when sharp would refuse a width below 1; a staged resize is the one sharp applies |
| ImageRecord.Image.Optimise | src/image.ts:115-130 | stages the encoder for the record's format (quality everywhere, lossless for webp, optimised scans for JPEG). Fails exactly when no pipeline can be had or the quality is outside the range sharp takes for that format: 0..100 for PNG, 1..100 for JPEG, webp and AVIF |
| ImageRecord.Image.Reformat | src/image.ts:136-142 | the same format changes nothing at all; any other format retypes the record and gives the temporary path the new extension before any commit, and leaves `path` untouched |
| ImageRecord.Image.Convert | src/image.ts:138-141 | the conversion is staged, the format set and the temporary path renamed, and the record stays well formed |
| ImageRecord.Image.MakeProgressive | src/image.ts:147-152 | stages progressive output for JPEG records only; other records keep their pipeline |
| ImageRecord.Image.Commit | src/image.ts:154-170 | success exactly when there is a pipeline, sharp encodes it, the original exists and the output can be measured. On success the temporary file and the old path are gone, the final path (renamed when its extension named another format) holds the encoded bytes, and `getType` of it is the record's format. The pipeline is kept and the measurement refreshed. Under `Sound`, the new width is the staged resize width, or the source width when nothing resized it. On failure the measurement is kept; with no pipeline or no encoding nothing is touched; when the original is already gone only the temporary file has been written and the path is kept; when only the re-measurement fails the files and path are already as on success |
| ImageRecord.Image.Store | src/image.ts:156-169 | the file steps and re-measurement once the bytes exist: success exactly when the original exists and the bytes measure, and the stored width is then their measured width. When the original exists the files and path end as on success even if the re-measurement fails; when it is gone only the temporary file has been written and the path is kept; a failure keeps the old measurement |
| ImageRecord.Image.Install | src/image.ts:157-168 | the write, delete, rename, copy and delete steps; they fail exactly when the original is missing, which leaves the temporary file written and nothing else changed |
| ImageRecord.Image.Rename | src/image.ts:163-165 | the path takes the record's format as its extension when its own extension names another one |
| ImageRecord.Image.MeasureResizeCommit | src/image.test.ts:49-73 | a fresh record measured, resized to `width` and committed: under `Sound` its width is `width` when it was wider and unchanged when it was not, so a resize never enlarges an image |
| Disk.FileSystem.Read | src/image.ts:100 | returns a file's bytes, or fails when it does not exist |
| Disk.FileSystem.Write | src/image.ts:157 | creates or replaces exactly one file |
| Disk.FileSystem.Unlink | src/image.ts:158 | removes the file, failing when it did not exist |
| Disk.FileSystem.Copy | src/image.ts:167 | copies when the source exists, overwriting the destination; otherwise fails and changes nothing |
| Codec.StageOne | src/image.ts:108-152 | the last staged resize and the last staged output format are those of the newest call that sets them |
| Codec.Sound | src/image.ts:154-170 | the hypothesis the width guarantees rest on, with no contract of its own: what sharp encodes can be measured, at the width of the last staged resize, or at the source's width when nothing resized it |
| Codec.SoundIsSatisfiable | src/image.ts:108-113 | the hypothesis is met by a codec that really resizes: there, a 2400-pixel-wide image resized to 1200 encodes to one measured 1200 wide |
| JsParseInt.TrimStart | src/index.ts:178 | what is left after skipping white space does not start with white space |
| JsParseInt.TrimStartSpec | src/index.ts:178 | what `parseInt` skips is a run of white space at the front, and the rest is kept unchanged |
| JsParseInt.ParseUnsigned | src/index.ts:178 | a number read without a sign is never negative, and is read only from text that starts with a digit |
| JsParseInt.ParseInt | src/index.ts:178 | blank text is not a number, and a negative number is read only after a minus sign |
| JsParseInt.DigitRun | src/index.ts:178 | the longest run of digits at the start: all digits, followed by a non-digit or the end |
| JsParseInt.ParseDecimalRoundTrip | src/index.ts:191 | `parseInt` reads back every integer written in decimal, negative ones included |
| JsParseInt.ParseDecimal | src/index.ts:191 | `parseInt` reads a decimal integer followed by text that does not continue it, and ignores that text |
| JsParseInt.ParseIgnoresSpace | src/index.ts:178 | leading white space never changes what `parseInt` reads |
| JsParseInt.NoDigitsIsNaN | src/index.ts:178-179 | text with no digit after the white space and sign is not a number, which the validators reject |
| Selection.SelectSpec | src/index.ts:123-135 | a filter keeps exactly the records that pass its test, and never more records than it was given |
| Selection.Select | src/index.ts:126-134 | `filter` never returns more records than it was given. Selection.SelectSpec states which ones it returns |
| Selection.SelectWithin | src/index.ts:126-134 | each record a filter returns is one of the records it was drawn from |
| Selection.SelectNone | src/index.ts:131-135 | a test no record passes gives an empty selection |
| Selection.SelectDistinct | src/index.ts:126-134 | a filter over distinct records repeats none of them |
| Selection.SelectAppend | src/index.ts:126-134 | filtering two runs of records is filtering each in turn, so the original order is kept |
| Selection.SelectTwice | src/index.ts:126-134 | filtering again with the same test changes nothing |
| Selection.JpegNameSpec | src/index.ts:463-467 | the base-name filter `*.{jpg,jpeg}` keeps exactly the files `getType` calls JPEG, except those whose name starts with a dot |
| Selection.IsJpegName | src/index.ts:464-466 | micromatch's `*.{jpg,jpeg}` with `nocase` on a base name, with no contract of its own. Selection.JpegNameSpec states what it keeps |
| Selection.BucketCounts | src/index.ts:74-81 | for thresholds in order, the counts of the four buckets add up to the number of records |
| Selection.BucketPlacement | src/index.ts:74-81 | for thresholds in order, every record lands in exactly one of the four buckets |
| Selection.SizeReportPartition | src/index.ts:74-81 | the buckets `> 500`, `(350, 500]`, `(250, 350]` and `<= 250` KB partition the records |
| Selection.WidthReportPartition | src/index.ts:102-109 | the buckets `> 2400`, `(1800, 2400]`, `(1200, 1800]` and `<= 1200` px partition the records |
| Selection.SizeReport | src/index.ts:74-81 | the four file-size buckets together count every record |
| Selection.WidthReport | src/index.ts:102-109 | the four width buckets together count every record |
| Prompts.ValidateQuery | src/index.ts:156-161 | accepts exactly a non-empty query that matches some record |
| Prompts.Validate | src/index.ts:156-183 | every validator accepts only a non-empty value, and each numeric one only a value `parseInt` reads as a number |
| Prompts.Settle | src/index.ts:153-162 | the prompt settles at one of the replies given, or after all of them when none settles and it is still open |
| Prompts.ValidateMaxWidthAsWritten | src/index.ts:176-183 | as written: accepts exactly a non-empty number such that some record is wider, with no lower bound |
| Prompts.ValidateMaxWidth | src/index.ts:176-183 | accepts exactly a non-empty number above 0 such that some record is wider |
| Prompts.ValidateWidth | src/index.ts:231-236 | accepts exactly a non-empty number above 0 |
| Prompts.ValidateQuality | src/index.ts:333-339 | accepts exactly a non-empty number from 1 to 100 |
| Prompts.SettleSpec | src/index.ts:153-162 | the prompt settles on the first reply that cancels or passes its validator; every earlier reply was shown the validator's message |
| Prompts.Ask | src/index.ts:153-167 | a value the prompt resolves with always passes its validator |
| Prompts.AskSpec | src/index.ts:153-167 | the prompt stays open exactly while every reply is rejected; it is cancelled only by a cancel; a resolved value is a reply the user gave after rejected ones only |
| Prompts.QualityOfDecimal | src/index.ts:333-347 | a quality typed in decimal is accepted exactly when it lies in 1..100 |
| Prompts.WidthOfDecimal | src/index.ts:231-244 | a width typed in decimal is accepted exactly when it is positive |
| Prompts.MaxWidthOfDecimal | src/index.ts:176-191 | with the corrected validator, a max width typed in decimal is accepted exactly when it is positive and some record is wider |
| Prompts.MaxWidthAcceptsZero | src/index.ts:176-183 | the validator as written accepts "0" as soon as one record has a positive width, and that record is then selected for a resize to width 0 |
| Workflows.PickJpegs | src/index.ts:462-472 | a pick is never empty, its query passes the query validator, and it holds exactly the matching records whose base name is a JPEG name |
| Workflows.PickJpegsSpec | src/index.ts:462-472 | a pick comes from the accepted query of some round, and every earlier round's accepted query matched no JPEG |
| Workflows.FruitlessRoundsOpen | src/index.ts:469-472 | while every round's query matches no JPEG, the workflow keeps asking |
| Workflows.Savile.constructor | src/index.ts:26-35 | no images have been found yet |
| Workflows.Savile.FindImages | src/index.ts:43-55 | one fresh, well-formed record per discovered path, in order, none twice. Each record then holds its file's measurement; it succeeds exactly when every file measures |
| Workflows.Savile.NewRecords | src/index.ts:51 | one fresh record per path, in order, distinct and unmeasured |
| Workflows.Savile.NewRecord | src/index.ts:51 | one fresh, well-formed, unmeasured record for the path |
| Workflows.Savile.MeasureImages | src/index.ts:57-65 | measures every record, keeping old measurements where measuring fails; fails exactly when some record does not measure |
| Workflows.Savile.MeasureAll | src/index.ts:61-62 | the same over any run of distinct records; paths do not change |
| Workflows.Savile.ShrinkOne | src/image.ts:108-113 | the resize batch body, `resize(width)` then `overwriteImg`. Under `Sound` a record that was wider ends exactly `width` wide. A record no wider keeps its pipeline, and with a fresh pipeline and a current measurement it keeps its width: a shrink never enlarges |
| Workflows.Savile.RecompressOne | src/index.ts:359-361 | the optimise batch body, `optimise(quality)` then `overwriteImg`. Success means the quality was in the format's range and there was a pending pipeline. The committed pipeline is that pipeline with the format's encoder at that quality staged last |
| Workflows.Savile.ProgressiveOne | src/index.ts:454-457 | the progressive batch body, `makeProgressive()` then `overwriteImg`. Success means there was a pending pipeline. A JPEG record's committed pipeline is that pipeline with progressive output staged last; any other record's is that pipeline unchanged |
| Workflows.Savile.Process | src/index.ts:211-214 | one record: the staging call, then the commit. Success leaves the record committed. A shrink under `Sound` leaves a record that was wider exactly at the width. A record no wider keeps its pipeline, and with a fresh pipeline and a current measurement it keeps its width. A recompress used a quality in the format's range and committed the pending pipeline with the format's encoder at that quality staged last. A progressive call committed the pending pipeline, with progressive output staged last for a JPEG record. Neither changes the format, and a reformat leaves the target format |
| Workflows.Savile.RunBatch | src/utils.ts:6-20 | every selected record is processed, and the batch succeeds only when all do; on success every record is committed, with the shrink and reformat guarantees of `Process`. After a recompress every record has its format's encoder at the quality staged last; after a progressive batch every JPEG record has progressive output staged last |
| Workflows.Savile.Proceed | src/index.ts:200-214 | nothing changes unless the user confirms; otherwise the batch runs on the selection, and measured records stay measured. When done, the batch's guarantees hold for every selected record: committed, the shrink widths, the target format, the encoder at the quality, and progressive output for JPEGs |
| Workflows.Savile.MatchImagesByQuery | src/index.ts:123-129 | the records whose path matches the query, in order, none twice, and no others |
| Workflows.Savile.QueryImages | src/index.ts:137-170 | the answer is what the query prompt settles on; an accepted query gives a non-empty selection of exactly the matching records |
| Workflows.Savile.MatchImagesByWidth | src/index.ts:131-135 | the records strictly wider than the width, in order, none twice, and no others |
| Workflows.Savile.ResizeByMaxWidth | src/index.ts:172-217 | the workflow fails before discovery or measurement, waits exactly while no reply is accepted, and without confirmation leaves the disk and every record unchanged. When it is done, the width accepted by the corrected max-width validator (see Findings) is positive, and the selection is exactly the records that were wider. Under `Sound`, every selected record is now exactly that wide and no record is wider |
| Workflows.Savile.ResizeByQuery | src/index.ts:219-262 | when done: the selection is exactly the records the accepted query matched, all measured and all committed, and the width is the positive number accepted; under `Sound`, every selected record that was wider is now exactly that wide; without confirmation the disk and every record are left unchanged |
| Workflows.Savile.Optimise | src/index.ts:320-365 | when done: the selection is exactly the records the accepted query matched, all committed, at the quality accepted from 1..100, each with its format's encoder at that quality staged last; without confirmation the disk and every record are left unchanged |
| Workflows.Savile.Reformat | src/index.ts:382-427 | when done: a target was chosen, and every record the accepted query matched is committed with that format; without confirmation the disk and every record are left unchanged |
| Workflows.Savile.ProgresiviseAll | src/index.ts:429-460 | stops with no JPEGs exactly when no record matches `*.{jpg,jpeg}`; when done, every matching record is committed, and every JPEG among them has progressive output staged last; without confirmation the disk and every record are left unchanged |
| Workflows.Savile.ProgresiviseByQuery | src/index.ts:462-497 | waits exactly while no round has picked JPEGs; when done, the selection is the round's pick, all committed, and every JPEG among them has progressive output staged last; without confirmation the disk and every record are left unchanged |

## Left out

- Path handling assumes normalised POSIX paths. `path.join`'s normalisation and `relPath`, `rootDir` and `cwd` (src/image.ts:38-39, src/index.ts:20-35) are not modelled.
- Case mapping covers ASCII letters only, which is all the compared extensions contain.
- `glob.sync` discovery (src/index.ts:46-50) is not modelled. The discovered paths are an argument. The constructor requires a recognised extension, which the glob pattern guarantees.
- micromatch's glob, brace, `contains` and `nocase` semantics are an uninterpreted function, except for the base-name JPEG test, which is written out.
- `nanoid` randomness: the id is an argument drawn from the right alphabet and length.
- sharp's decoding, resizing and encoding and image-size's reading are the functions of a `Codec`. Only the widths they produce are constrained, through the `Sound` hypothesis. Byte sizes and pixels are not.
- The concurrency of `spinLoop` (p-limit with five workers, src/utils.ts:6-20) and `sleep` are not modelled. The batch runs the records one after another. Every record is attempted, and the batch fails when any record fails, as `Promise.all` does.
- The menus `resize`, `progressivise` and `row` (src/index.ts:279-303, 502-524, 541-575) are not modelled. Neither are notes, logs, spinners and colours.
- `process.exit(0)` on a cancel is modelled as the `Cancelled` outcome.
- A thrown error is modelled as the `Failed` outcome:
  - `images` not set yet;
  - a missing measurement read through `stats!`;
  - a staging call or commit that throws.
- A workflow's reformat target is an `Option<Format>` argument, with `None` for a cancelled choice. PNG is not offered by the select at src/index.ts:388-404, so it is excluded.
- The source's `undefined` type, for which `optimise` stages nothing, cannot occur in the model: a record is only made for a recognised extension.
- `parseInt` is exact on unbounded integers. The rounding of IEEE doubles above 2^53 is not modelled.
- Two records whose commits would rename onto the same path are not ruled out or modelled.
- Paths.Uniqify: its own contract states only the length of the result. The parts are stated by Paths.UniqifyParts, because a contract on the function itself would weigh on every proof that mentions a temporary path.
- Paths.ReplaceExtension: its own contract states only the length of the result, for the same reason. Paths.ReplaceExtensionParts states the parts.
- ImageRecord.GetType: its own contract states only that a path without an extension has no format. ImageRecord.TypeOfExtensionSpec states exactly which extensions name which format.
- Selection.Select: its own contract bounds only the length. Selection.SelectSpec, Selection.SelectAppend and Selection.SelectDistinct state the contents, the order and the absence of repeats.
- Workflows.Savile.ResizeByMaxWidth: uses the corrected max-width validator, which rejects widths of 0 and below. The validator as written accepts them, and the batch then fails (see Findings).
- Workflows.Savile.RunBatch: for a shrink, states the width only of the records that were wider. The unchanged width of a record no wider (Workflows.Savile.Process) is not carried across a batch. An earlier record's commit could write the file a later record was measured from, because two records renaming onto one path are not ruled out.
- Workflows.Savile.ResizeByQuery: says nothing about selected records that were not wider than the width. Their pipeline is left as it was, but a pipeline kept from an earlier resize, or a stale measurement, can still change the committed width.
- Workflows.Savile.Proceed: does not restate the 1..100 quality bound of `Recompress`. It follows from the quality validator, and `Optimise` states it.
- Workflows.Savile.RunBatch: does not restate the 1..100 quality bound of `Recompress`, for the same reason.

## Findings

| source | as written | input that shows it | evidently intended | confidence | as-written member | corrected member |
|---|---|---|---|---|---|---|
| src/index.ts:176-183 | The max-width validator checks for an empty value, a non-number and no wider image. It has no lower bound on the width. | Reply "0" (or "-5") while any image is measured: every measured image has a width above 0, so it is selected. `resize({ width: 0 })` then throws for every selected image, so the batch fails after the user confirmed. | Reject widths of 0 and below before searching for wider images, as the validator of `resizeByQuery` does at src/index.ts:235 | not executed | Prompts.MaxWidthAcceptsZero (about Prompts.ValidateMaxWidthAsWritten) | Prompts.ValidateMaxWidth, with Prompts.MaxWidthOfDecimal; Workflows.Savile.ResizeByMaxWidth uses it |

# zstd handler and common-format catalog — Dafny model

This project models two pieces of the file converter:

- **The zstd handler** (`src/handlers/zstd.ts`). It has four parts:
  - its declared capabilities: the `zst` format, a zip target derived from the common ZIP definition, and `supportAnyInput`;
  - its readiness probe `init`, which sets `ready` only when the Compression Streams API exists and both stream constructors accept `"zstd"`;
  - its output-name rule, which appends `.zst` unless the name already ends in `.zst`/`.zstd`, ignoring ASCII case;
  - `doConvert`, which dispatches three ways. When the target's internal id is `zstd`, it compresses every file (N → N). For the pair `zstd → zip`, it unpacks every file into one `output.zip` (N → 1). Any other pair throws `"Invalid conversion path."`.
- **The common-format catalog** (`src/CommonFormats.ts`). This is a constant table of seven definitions, each made of a display name, an id, an extension and a mime type. It can be looked up by property name, id, extension or mime type.

The byte transforms and the zip serialiser are parameters of the model (`ZstdHandler.Codec`), and nothing is assumed about them. In particular, the model does not assume that decompressing a compressed payload gives the payload back. The archive being built is the ordered list of `zip.file(name, bytes)` calls.

Files:
- `outcomes.dfy`: the `Option`, `Result` and `Outcome` types.
- `ascii.dfy`: ASCII case folding and case-insensitive suffix matching.
- `formats.dfy`: the `FormatDefinition` and `FileFormat` records, plus the assumed builder chain.
- `common_formats.dfy`: the catalog and its lookups.
- `zstd_names.dfy`: the two file-name rules.
- `zstd_handler.dfy`: capabilities, `init` and `doConvert`.

Points where the model reads the code closely:
- The pattern `/\.(zst|zstd)$/i` has no `u` flag. Under that flag set, JavaScript's case-insensitive matching never maps a non-ASCII character onto an ASCII one. For this pattern the test is therefore exactly an ASCII case-insensitive suffix test.
- A name cannot end in both `.zst` and `.zstd`. `replace` therefore removes one trailing suffix of 4 or 5 characters, and never two.
- `… || name + ".bin"` fires whenever the stripped name is empty. That covers a name that is only a suffix (`.ZST` → `.ZST.bin`) and also the empty name (`""` → `.bin`).
- Unpacking keeps the inner extension (`a.png` → `a.png.zst` → entry `a.png`), and the entry's bytes are `decompress(compress(bytes))` (`ZstdHandler.CompressThenUnpack`).
- `doConvert` does not consult `ready`, and neither does the model.

## Model

| member | source | states |
|---|---|---|
| Ascii.EndsWithIgnoringCase | src/handlers/zstd.ts:54 | the back-to-front character comparison holds exactly when the suffix fits and the case-folded tail of the name equals the case-folded suffix |
| ZstdNames.HasZstSuffixIffFoldedSuffix | src/handlers/zstd.ts:54 | the `/\.(zst|zstd)$/i` test holds exactly when the case-folded name ends in the literal `.zst` or `.zstd` |
| ZstdNames.CompressedName | src/handlers/zstd.ts:54 | the output name always carries a zstd suffix; it extends the input by at most `.zst`; it equals the input exactly when the input already had the suffix, and otherwise it is the input followed by `.zst` |
| ZstdNames.CompressedNameIdempotent | src/handlers/zstd.ts:54 | applying the output-name rule twice gives the same name as applying it once |
| ZstdNames.StripZstSuffix | src/handlers/zstd.ts:65 | the stripped name is a prefix of the name; it is shorter by 5 after `.zstd` and by 4 after `.zst`; it is unchanged exactly when no suffix is present |
| ZstdNames.EntryName | src/handlers/zstd.ts:65 | the entry name is never empty; it is the name minus 0, 4 or 5 trailing characters, or `name + ".bin"` when stripping leaves nothing; a non-empty name without a suffix is kept as is |
| ZstdNames.EntryNameStripsOneSuffix | src/handlers/zstd.ts:65 | for any non-empty stem and any casing of `.zst`/`.zstd`, the entry name of stem+suffix is the stem |
| ZstdNames.EntryNameStripsOnlyOnce | src/handlers/zstd.ts:65 | `a.zst.zst` becomes `a.zst`: only one suffix is removed |
| ZstdNames.EntryNameIgnoresCase | src/handlers/zstd.ts:65 | `photo.PNG.ZsTd` becomes `photo.PNG` |
| ZstdNames.EntryNameFallback | src/handlers/zstd.ts:65 | a name that is only a suffix, in any case, or that is empty, becomes `name + ".bin"` |
| ZstdNames.NameRoundTrip | src/handlers/zstd.ts:54-65 | for a non-empty name without a suffix, the entry name of its compressed name is the name itself |
| ZstdNames.EmptyNameRoundTrip | src/handlers/zstd.ts:54-65 | the empty name comes back as `.zst.bin`, so the round trip needs a non-empty name |
| ZstdNames.SuffixedNameRoundTrip | src/handlers/zstd.ts:54-65 | a name that already had a suffix keeps it when compressed and loses it when unpacked, so it does not come back |
| Formats.DerivedTargetCapability | src/handlers/zstd.ts:31 | under the assumed builder semantics, the derived zip capability copies name, id, extension and mime, takes the given internal id, and is a lossless, target-only format |
| ZstdHandler.SupportedFormats | src/handlers/zstd.ts:19-32 | the handler declares two formats: `zst` (internal `zstd`, source and target, lossless) and a lossless, target-only zip capability with internal id `zip` and the ZIP definition's extension and mime |
| ZstdHandler.SupportedFormatsFromCatalog | src/handlers/zstd.ts:31 | the initialiser succeeds exactly when some catalog key is named `ZIP`; for such a key it yields the declared formats derived from that key's definition; otherwise it fails on the undefined `ZIP` property |
| ZstdHandler.CatalogLacksZip | src/handlers/zstd.ts:31 | against the seven-entry catalog the initialiser fails on the undefined `ZIP` property |
| ZstdHandler.New | src/handlers/zstd.ts:34 | a new handler is not ready and declares two formats |
| ZstdHandler.Init | src/handlers/zstd.ts:36-47 | `init` succeeds exactly when both constructors exist and accept `"zstd"`; afterwards `ready` holds exactly when it held before or the probe passed; the "API unavailable" error is reported exactly when a constructor is missing; the declared formats are untouched |
| ZstdHandler.InitFromFresh | src/handlers/zstd.ts:34-47 | from a fresh handler, `ready` after `init` is the probe's success, and a failed probe leaves the handler exactly as it was |
| ZstdHandler.MapFiles | src/handlers/zstd.ts:51-57 | the per-file loop succeeds exactly when every payload transforms; it then returns one renamed, transformed file per input, in input order; otherwise it reports the first rejection in input order |
| ZstdHandler.Convert | src/handlers/zstd.ts:49-76 | a `zstd` target compresses all N inputs into N outputs with the compressed names; the `zstd → zip` pair yields exactly one `output.zip` that serialises one entry per input, in order, with entry names and decompressed bytes; in either branch a codec rejection is reported with the reason of that branch's first failing input; `"Invalid conversion path."` is thrown exactly for the pairs outside both branches |
| ZstdHandler.CompressIgnoresInputFormat | src/handlers/zstd.ts:50-57 | with a `zstd` target the result does not depend on the input format |
| ZstdHandler.ZipFromForeignSourceRejected | src/handlers/zstd.ts:17-75 | the handler declares `supportAnyInput` and the zip capability as a target, yet converting any non-`zstd` source to that capability throws the invalid-path error |
| ZstdHandler.CompressedNamesStable | src/handlers/zstd.ts:50-57 | every compressed output's name carries a suffix, and compressing the outputs again leaves their names unchanged |
| ZstdHandler.ArchiveEntryNamesNonEmpty | src/handlers/zstd.ts:63-67 | no archive entry has an empty name |
| ZstdHandler.CompressHop | src/handlers/zstd.ts:50-57 | when every payload compresses, the compress hop succeeds from any source with one compressed, renamed file per input |
| ZstdHandler.UnpackHop | src/handlers/zstd.ts:60-72 | for inputs whose names are all non-empty and free of a `.zst`/`.zstd` suffix, unpacking their compressed batch succeeds exactly when every compressed payload decompresses, and the archive's entries carry the original names |
| ZstdHandler.CompressThenUnpack | src/handlers/zstd.ts:49-73 | for inputs whose names are all non-empty and free of a `.zst`/`.zstd` suffix, chaining any format → zst → zip gives one `output.zip` whose entries are the original files, in order and under their original names, with bytes decompress(compress(original)); it succeeds exactly when every decompression does |
| CommonFormats.Find | src/CommonFormats.ts:6-51 | a search over the catalog's keys returns a key carrying the value when there is one, and returns nothing exactly when no listed key carries it |
| CommonFormats.KeysDistinct | src/CommonFormats.ts:6-51 | the declaration-order key list has no duplicates |
| CommonFormats.CatalogShape | src/CommonFormats.ts:6-51 | there are seven entries, and all four string fields of each are non-empty |
| CommonFormats.FieldsUnique | src/CommonFormats.ts:8-50 | property names, ids, extensions and mime types are each pairwise distinct |
| CommonFormats.ImageMimes | src/CommonFormats.ts:7-37 | exactly the five image entries have a mime type starting with `image/` |
| CommonFormats.IdDiffersFromExtension | src/CommonFormats.ts:14-50 | id and extension differ exactly for JPEG and TEXT |
| CommonFormats.LookupCorrect | src/CommonFormats.ts:8-50 | lookup by a unique field returns an entry exactly when that entry carries the value, and returns nothing exactly when no entry does |
| CommonFormats.LookupMissing | src/CommonFormats.ts:8-50 | a value carried by no entry is not found |
| CommonFormats.JpegLookups | src/CommonFormats.ts:14-19 | JPEG is found by id `jpeg` and by extension `jpg` |
| CommonFormats.JpegNotSwapped | src/CommonFormats.ts:14-19 | `jpg` is not an id, and `jpeg` is not an extension |
| CommonFormats.TextLookups | src/CommonFormats.ts:45-50 | TEXT is found by id `text`, but `text` is not an extension |
| CommonFormats.NoZipEntry | src/CommonFormats.ts:6-51 | the catalog has no `ZIP` property and no entry with id `zip` |

## Findings

| source | as written | input that shows it | evidently intended | confidence | as-written member | corrected member |
|---|---|---|---|---|---|---|
| src/handlers/zstd.ts:31 | the field initialiser reads `CommonFormats.ZIP.builder(...)`, but the catalog defines only PNG, JPEG, WEBP, GIF, SVG, JSON and TEXT | constructing the handler against the seven-entry catalog: `CommonFormats.ZIP` is undefined, so reading `.builder` throws | the catalog provides a ZIP definition, and a lossless, target-only capability with internal id `zip` is derived from it | medium, not executed; the catalog may come from a different revision than the handler | ZstdHandler.CatalogLacksZip | ZstdHandler.SupportedFormats |

## Left out

- The Zstandard byte transforms (`applyCompressionStream`, src/handlers/zstd.ts:5-12) are browser stream calls. They are the uninterpreted `compress` and `decompress` parameters of `ZstdHandler.Codec`, with no round-trip law.
- JSZip is a foreign library. The archive is the ordered list of `zip.file` calls, and `generateAsync` is an uninterpreted total function of that list. `zip.file` is called without a `date` option, so JSZip stamps each entry with the current time; the real archive bytes also depend on the clock, which the model leaves out (no lemma compares two runs). Duplicate entry names are not specified, and a failing serialisation is not modelled.
- ZstdHandler.MapFiles: reports the first rejection in input order. In the compress branch, `Promise.all` rejects with whichever rejection settles first, which depends on timing.
- Async scheduling is out. `Promise.all` is a sequential, order-preserving map, and `init`/`doConvert` are pure functions returning the new state.
- Formats.DerivedTargetCapability: the meaning of `builder(...)`, `allowTo()` and `markLossless()` is assumed: copy the definition, set the internal id, set `to`, and set `lossless`, with no source direction and no category. src/FormatHandler.ts is not part of this model.
- Thrown errors are constructors, not message strings: `InvalidConversionPath`, `StreamsApiUnavailable` and `ZstdUnsupported` stand for the three messages in the code. A rejected codec promise keeps its reason as a string.
- Names are Dafny strings of Unicode scalar values, not UTF-16 code units, so lone surrogates are not representable. The suffix rule looks only at ASCII characters.
- The registry, capability graph, router and pipeline executor are not part of this model.
- The handler's `name` field (`"zstd"`, src/handlers/zstd.ts:15) is not modelled: nothing in the handler reads it.

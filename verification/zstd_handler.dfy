/** The zstd handler (src/handlers/zstd.ts): its declared capabilities, its
    readiness probe, and `doConvert`, which either compresses every input
    file or unpacks compressed files into one zip archive.

    The byte transforms (the platform's compression streams) and the zip
    serialiser are parameters: nothing is assumed about them, in particular
    not that decompressing a compressed payload gives it back. */
module ZstdHandler {
  import opened Outcomes
  import opened Formats
  import opened ZstdNames
  import CommonFormats

  /** A `Uint8Array`. */
  type Bytes = seq<bv8>

  /** A named payload; also one `zip.file(name, bytes)` call of the archive
      being built, kept in call order. */
  datatype FileData = FileData(name: string, bytes: Bytes)

  /** The foreign pieces `doConvert` awaits.  A `Failure` is a rejected
      promise, carrying its reason. */
  datatype Codec = Codec(
    compress: Bytes -> Result<Bytes, string>,    // applyCompressionStream(b, "zstd", true)
    decompress: Bytes -> Result<Bytes, string>,  // applyCompressionStream(b, "zstd", false)
    generateZip: seq<FileData> -> Bytes)         // zip.generateAsync({ type: "uint8array" })

  datatype ConvertError =
    | InvalidConversionPath      // the thrown string "Invalid conversion path."
    | CodecFailure(cause: string)

  /** Any registered format may be handed to this handler as input. */
  const SupportAnyInput := true

  /** The handler's own archive format. */
  const ZstFormat := FileFormat(
    "Zstandard Compressed Data", "zst", "zst", "application/zstd",
    true, true, "zstd", Some("archive"), true)

  /** `CommonFormats.ZIP.builder("zip").allowTo().markLossless()`. */
  function ZipCapability(zip: FormatDefinition): FileFormat {
    MarkLossless(AllowTo(Builder(zip, "zip")))
  }

  /** The declared capabilities, given the ZIP definition the catalog is
      expected to provide. */
  function SupportedFormats(zip: FormatDefinition): (r: seq<FileFormat>)
    ensures |r| == 2
    ensures r[0].internal == "zstd" && r[0].from && r[0].to && r[0].lossless
    ensures r[1].internal == "zip" && r[1].to && !r[1].from && r[1].lossless
    ensures r[1].extension == zip.extension && r[1].mime == zip.mime
  {
    DerivedTargetCapability(zip, "zip");
    [ZstFormat, ZipCapability(zip)]
  }

  datatype ConstructError = UndefinedProperty(property: string)

  /** The field initialiser as written: it reads `CommonFormats.ZIP`, and
      reading `.builder` of a missing property throws. */
  function SupportedFormatsFromCatalog(): (r: Result<seq<FileFormat>, ConstructError>)
    ensures r.Success? <==> exists k :: CommonFormats.PropertyName(k) == "ZIP"
    ensures forall k :: CommonFormats.PropertyName(k) == "ZIP" ==>
      r == Success(SupportedFormats(CommonFormats.Def(k)))
    ensures r.Failure? ==> r.error == UndefinedProperty("ZIP")
  {
    CommonFormats.FieldsUnique();
    CommonFormats.LookupCorrect(CommonFormats.Property, "ZIP", CommonFormats.PNG);
    assert forall k :: CommonFormats.PropertyName(k) == "ZIP" ==>
      CommonFormats.Lookup(CommonFormats.Property, "ZIP") == Some(CommonFormats.Def(k)) by {
      forall k | CommonFormats.PropertyName(k) == "ZIP"
        ensures CommonFormats.Lookup(CommonFormats.Property, "ZIP") == Some(CommonFormats.Def(k))
      {
        CommonFormats.LookupCorrect(CommonFormats.Property, "ZIP", k);
      }
    }
    match CommonFormats.Lookup(CommonFormats.Property, "ZIP")
    case Some(zip) => Success(SupportedFormats(zip))
    case None => Failure(UndefinedProperty("ZIP"))
  }

  /** Against the seven-entry catalog the initialiser throws: there is no
      `ZIP` property to derive the zip capability from. */
  lemma CatalogLacksZip()
    ensures SupportedFormatsFromCatalog() == Failure(UndefinedProperty("ZIP"))
  {
    CommonFormats.NoZipEntry();
  }

  // ---------------------------------------------------------------------
  // Readiness

  datatype Handler = Handler(supportedFormats: seq<FileFormat>, ready: bool)

  /** A freshly constructed handler: `ready = false`. */
  function New(zip: FormatDefinition): (h: Handler)
    ensures !h.ready
    ensures |h.supportedFormats| == 2
  {
    Handler(SupportedFormats(zip), false)
  }

  /** What the host offers: `None` when `typeof X !== "function"`, otherwise
      the format names the stream constructor accepts (it throws on others). */
  datatype Host = Host(
    compressionStream: Option<set<string>>,
    decompressionStream: Option<set<string>>)

  datatype InitError =
    | StreamsApiUnavailable  // "Compression Streams API is unavailable."
    | ZstdUnsupported        // "Zstandard is not supported by this browser."

  /** Both stream constructors exist and both accept "zstd". */
  predicate ZstdStreamsAvailable(host: Host) {
    && host.compressionStream.Some? && "zstd" in host.compressionStream.value
    && host.decompressionStream.Some? && "zstd" in host.decompressionStream.value
  }

  datatype InitResult = InitResult(handler: Handler, outcome: Outcome<InitError>)

  /** `init()`: the capability checks in source order; `ready` is set only
      after all of them pass. */
  function Init(h: Handler, host: Host): (r: InitResult)
    ensures r.handler.supportedFormats == h.supportedFormats
    ensures r.outcome.Pass? <==> ZstdStreamsAvailable(host)
    ensures r.handler.ready <==> h.ready || ZstdStreamsAvailable(host)
    ensures r.outcome == Fail(StreamsApiUnavailable)
      <==> host.compressionStream.None? || host.decompressionStream.None?
  {
    if host.compressionStream.None? || host.decompressionStream.None? then
      InitResult(h, Fail(StreamsApiUnavailable))
    else if "zstd" !in host.compressionStream.value then
      InitResult(h, Fail(ZstdUnsupported))
    else if "zstd" !in host.decompressionStream.value then
      InitResult(h, Fail(ZstdUnsupported))
    else
      InitResult(h.(ready := true), Pass)
  }

  /** From a fresh handler, one `init` leaves it ready exactly when the probe
      passes, and a failed probe leaves it not ready. */
  lemma {:induction false} InitFromFresh(zip: FormatDefinition, host: Host)
    ensures var r := Init(New(zip), host);
      && (r.handler.ready <==> r.outcome.Pass?)
      && (r.outcome.Fail? ==> r.handler == New(zip))
  {
  }

  // ---------------------------------------------------------------------
  // Conversion

  /** Every payload transforms without rejection. */
  predicate AllSucceed(files: seq<FileData>, f: Bytes -> Result<Bytes, string>) {
    forall i :: 0 <= i < |files| ==> f(files[i].bytes).Success?
  }

  /** Input `i` is the first, in input order, whose transform rejects. */
  predicate FirstFailureAt(files: seq<FileData>, f: Bytes -> Result<Bytes, string>, i: int) {
    && 0 <= i < |files|
    && f(files[i].bytes).Failure?
    && forall j :: 0 <= j < i ==> f(files[j].bytes).Success?
  }

  /** Transforms each file's bytes with `f` and renames it with `rename`,
      in input order; the first rejection is the result. */
  function MapFiles(files: seq<FileData>, f: Bytes -> Result<Bytes, string>, rename: string -> string)
    : (r: Result<seq<FileData>, ConvertError>)
    ensures r.Success? <==> AllSucceed(files, f)
    ensures r.Success? ==>
      && |r.value| == |files|
      && forall i :: 0 <= i < |files| ==>
           r.value[i] == FileData(rename(files[i].name), f(files[i].bytes).value)
    ensures r.Failure? ==> exists i ::
      FirstFailureAt(files, f, i) && r.error == CodecFailure(f(files[i].bytes).error)
  {
    if files == [] then
      Success([])
    else
      match f(files[0].bytes)
      case Failure(e) =>
        assert FirstFailureAt(files, f, 0);
        Failure(CodecFailure(e))
      case Success(b) =>
        match MapFiles(files[1..], f, rename)
        case Failure(e) =>
          var i :| FirstFailureAt(files[1..], f, i) && e == CodecFailure(f(files[1..][i].bytes).error);
          assert FirstFailureAt(files, f, i + 1);
          Failure(e)
        case Success(rest) =>
          assert forall i :: 1 <= i < |files| ==> files[i] == files[1..][i - 1];
          Success([FileData(rename(files[0].name), b)] + rest)
  }

  /** The archive entries for a batch whose payloads all decompress: one per
      input, in input order, under its entry name. */
  function ArchiveEntries(files: seq<FileData>, decompress: Bytes -> Result<Bytes, string>): seq<FileData>
    requires AllSucceed(files, decompress)
  {
    seq(|files|, i requires 0 <= i < |files| =>
      FileData(EntryName(files[i].name), decompress(files[i].bytes).value))
  }

  /** The pair `doConvert` unpacks into a zip archive. */
  predicate IsUnpackPair(inputFormat: FileFormat, outputFormat: FileFormat) {
    inputFormat.internal == "zstd" && outputFormat.internal == "zip"
  }

  /** `doConvert(inputFiles, inputFormat, outputFormat)`. */
  function Convert(inputs: seq<FileData>, inputFormat: FileFormat, outputFormat: FileFormat, codec: Codec)
    : (r: Result<seq<FileData>, ConvertError>)
    // N -> N: every file compressed, whatever the input format
    ensures outputFormat.internal == "zstd" ==>
      && (r.Success? <==> AllSucceed(inputs, codec.compress))
      && (r.Success? ==>
           && |r.value| == |inputs|
           && forall i :: 0 <= i < |inputs| ==>
                && r.value[i].name == CompressedName(inputs[i].name)
                && r.value[i].bytes == codec.compress(inputs[i].bytes).value)
      && (r.Failure? ==> exists i ::
           FirstFailureAt(inputs, codec.compress, i) && r.error == CodecFailure(codec.compress(inputs[i].bytes).error))
    // N -> 1: every file unpacked into one archive
    ensures outputFormat.internal != "zstd" && IsUnpackPair(inputFormat, outputFormat) ==>
      && (r.Success? <==> AllSucceed(inputs, codec.decompress))
      && (r.Success? ==>
           r.value == [FileData("output.zip", codec.generateZip(ArchiveEntries(inputs, codec.decompress)))])
      && (r.Failure? ==> exists i ::
           FirstFailureAt(inputs, codec.decompress, i) && r.error == CodecFailure(codec.decompress(inputs[i].bytes).error))
    // everything else throws
    ensures r == Failure(InvalidConversionPath)
      <==> outputFormat.internal != "zstd" && !IsUnpackPair(inputFormat, outputFormat)
  {
    if outputFormat.internal == "zstd" then
      MapFiles(inputs, codec.compress, CompressedName)
    else if IsUnpackPair(inputFormat, outputFormat) then
      match MapFiles(inputs, codec.decompress, EntryName)
      case Failure(e) => Failure(e)
      case Success(entries) =>
        assert entries == ArchiveEntries(inputs, codec.decompress);
        Success([FileData("output.zip", codec.generateZip(entries))])
    else
      Failure(InvalidConversionPath)
  }

  /** The compress branch does not look at the input format. */
  lemma CompressIgnoresInputFormat(inputs: seq<FileData>, a: FileFormat, b: FileFormat, outputFormat: FileFormat, codec: Codec)
    requires outputFormat.internal == "zstd"
    ensures Convert(inputs, a, outputFormat, codec) == Convert(inputs, b, outputFormat, codec)
  {
  }

  /** The handler accepts any input and declares the zip capability as a
      target, yet only a zstd input unpacks: any other source with the zip
      capability as target throws. */
  lemma ZipFromForeignSourceRejected(inputs: seq<FileData>, source: FileFormat, zip: FormatDefinition, codec: Codec)
    requires source.internal != "zstd"
    ensures SupportAnyInput && SupportedFormats(zip)[1].to
    ensures Convert(inputs, source, SupportedFormats(zip)[1], codec) == Failure(InvalidConversionPath)
  {
  }

  /** Every compressed output carries a `.zst`/`.zstd` name, and compressing
      the outputs again leaves all names as they are. */
  lemma {:induction false} CompressedNamesStable(inputs: seq<FileData>, inputFormat: FileFormat, codec: Codec)
    requires Convert(inputs, inputFormat, ZstFormat, codec).Success?
    ensures var out := Convert(inputs, inputFormat, ZstFormat, codec).value;
      forall i :: 0 <= i < |out| ==>
        HasZstSuffix(out[i].name) && CompressedName(out[i].name) == out[i].name
  {
    var out := Convert(inputs, inputFormat, ZstFormat, codec).value;
    forall i | 0 <= i < |out|
      ensures HasZstSuffix(out[i].name) && CompressedName(out[i].name) == out[i].name
    {
      CompressedNameIdempotent(inputs[i].name);
    }
  }

  /** Archive entry names are never empty. */
  lemma ArchiveEntryNamesNonEmpty(files: seq<FileData>, decompress: Bytes -> Result<Bytes, string>)
    requires AllSucceed(files, decompress)
    ensures forall i :: 0 <= i < |files| ==> ArchiveEntries(files, decompress)[i].name != []
  {
  }

  /** The payloads after a compress-then-decompress round trip, under the
      original names. */
  function RoundTripped(inputs: seq<FileData>, codec: Codec): seq<FileData>
    requires AllSucceed(inputs, codec.compress)
    requires forall i :: 0 <= i < |inputs| ==>
      codec.decompress(codec.compress(inputs[i].bytes).value).Success?
  {
    seq(|inputs|, i requires 0 <= i < |inputs| =>
      FileData(inputs[i].name, codec.decompress(codec.compress(inputs[i].bytes).value).value))
  }

  /** A batch of compressed outputs, as the compress hop leaves it. */
  ghost predicate CompressedBatch(inputs: seq<FileData>, mid: seq<FileData>, codec: Codec)
    requires AllSucceed(inputs, codec.compress)
  {
    && |mid| == |inputs|
    && forall i :: 0 <= i < |inputs| ==>
         mid[i] == FileData(CompressedName(inputs[i].name), codec.compress(inputs[i].bytes).value)
  }

  lemma CompressHop(inputs: seq<FileData>, source: FileFormat, codec: Codec)
    requires AllSucceed(inputs, codec.compress)
    ensures Convert(inputs, source, ZstFormat, codec).Success?
    ensures CompressedBatch(inputs, Convert(inputs, source, ZstFormat, codec).value, codec)
  {
  }

  /** Unpacking a compressed batch restores the original names. */
  lemma {:induction false} UnpackHop(inputs: seq<FileData>, mid: seq<FileData>, zipFormat: FileFormat, codec: Codec)
    requires forall i :: 0 <= i < |inputs| ==> inputs[i].name != [] && !HasZstSuffix(inputs[i].name)
    requires AllSucceed(inputs, codec.compress)
    requires CompressedBatch(inputs, mid, codec)
    requires zipFormat.internal == "zip"
    ensures var out := Convert(mid, ZstFormat, zipFormat, codec);
      && (out.Success? <==> forall i :: 0 <= i < |inputs| ==>
            codec.decompress(codec.compress(inputs[i].bytes).value).Success?)
      && (out.Success? ==>
            out.value == [FileData("output.zip", codec.generateZip(RoundTripped(inputs, codec)))])
  {
    var out := Convert(mid, ZstFormat, zipFormat, codec);
    assert AllSucceed(mid, codec.decompress) <==> forall i :: 0 <= i < |inputs| ==>
      codec.decompress(codec.compress(inputs[i].bytes).value).Success? by {
      assert forall i :: 0 <= i < |inputs| ==> mid[i].bytes == codec.compress(inputs[i].bytes).value;
    }
    if out.Success? {
      var entries := ArchiveEntries(mid, codec.decompress);
      var expected := RoundTripped(inputs, codec);
      forall i | 0 <= i < |inputs|
        ensures entries[i] == expected[i]
      {
        NameRoundTrip(inputs[i].name);
      }
      assert entries == expected;
    }
  }

  /** The two hops of the handler chained, any format -> zst -> zip: the
      second hop succeeds exactly when every compressed payload decompresses,
      and then the archive holds one entry per original file, in order,
      under its original name, with the bytes decompress(compress(original)). */
  lemma {:induction false} CompressThenUnpack(inputs: seq<FileData>, source: FileFormat, zip: FormatDefinition, codec: Codec)
    requires forall i :: 0 <= i < |inputs| ==> inputs[i].name != [] && !HasZstSuffix(inputs[i].name)
    requires AllSucceed(inputs, codec.compress)
    ensures Convert(inputs, source, ZstFormat, codec).Success?
    ensures var mid := Convert(inputs, source, ZstFormat, codec).value;
      var out := Convert(mid, ZstFormat, ZipCapability(zip), codec);
      && (out.Success? <==> forall i :: 0 <= i < |inputs| ==>
            codec.decompress(codec.compress(inputs[i].bytes).value).Success?)
      && (out.Success? ==>
            out.value == [FileData("output.zip", codec.generateZip(RoundTripped(inputs, codec)))])
  {
    CompressHop(inputs, source, codec);
    DerivedTargetCapability(zip, "zip");
    UnpackHop(inputs, Convert(inputs, source, ZstFormat, codec).value, ZipCapability(zip), codec);
  }
}

/** Format records.

    `FormatDefinition` is the four-string descriptor the common catalog is
    built from; `FileFormat` is one capability a handler declares, with its
    direction flags, the `internal` id handlers dispatch on, and the lossless
    flag. */
module Formats {
  import opened Outcomes

  datatype FormatDefinition = FormatDefinition(
    name: string,       // display name
    format: string,     // id
    extension: string,
    mime: string)

  datatype FileFormat = FileFormat(
    name: string,
    format: string,
    extension: string,
    mime: string,
    from: bool,
    to: bool,
    internal: string,
    category: Option<string>,
    lossless: bool)

  /** `def.builder(internal)`: a capability copied from a definition, with
      the given internal id, no direction and not lossless.  The builder lives
      in src/FormatHandler.ts, which is not part of this model: this shape is
      an assumption, read off how zstd.ts line 31 uses it. */
  function Builder(def: FormatDefinition, internal: string): FileFormat {
    FileFormat(def.name, def.format, def.extension, def.mime,
               false, false, internal, None, false)
  }

  /** `.allowTo()` (assumed): the format may be produced. */
  function AllowTo(f: FileFormat): FileFormat {
    f.(to := true)
  }

  /** `.markLossless()` (assumed): the format keeps every bit. */
  function MarkLossless(f: FileFormat): FileFormat {
    f.(lossless := true)
  }

  /** The builder chain copies the definition and touches nothing else than
      the internal id and the two flags it names. */
  lemma DerivedTargetCapability(def: FormatDefinition, internal: string)
    ensures var f := MarkLossless(AllowTo(Builder(def, internal)));
      && f.name == def.name && f.format == def.format
      && f.extension == def.extension && f.mime == def.mime
      && f.internal == internal && f.to && !f.from && f.lossless
  {
  }
}

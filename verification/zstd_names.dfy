/** File-name rules of the zstd handler (src/handlers/zstd.ts).

    Compressing a file keeps a name that already ends in `.zst` or `.zstd`
    (ASCII case-insensitively) and appends `.zst` to any other name.
    Unpacking a compressed file into a zip archive strips one such suffix and
    falls back to `<name>.bin` when nothing would be left. */
module ZstdNames {
  import opened Ascii

  /** The `/\.(zst|zstd)$/i` test. */
  predicate HasZstSuffix(name: string) {
    EndsWithIgnoringCase(name, ".zst") || EndsWithIgnoringCase(name, ".zstd")
  }

  /** Reference reading of the same test: the case-folded name ends in the
      literal `.zst` or `.zstd`. */
  lemma HasZstSuffixIffFoldedSuffix(name: string)
    ensures HasZstSuffix(name) <==>
      (|name| >= 4 && Fold(name)[|name| - 4..] == ".zst")
      || (|name| >= 5 && Fold(name)[|name| - 5..] == ".zstd")
  {
    assert Fold(".zst") == ".zst";
    assert Fold(".zstd") == ".zstd";
    if |name| >= 4 {
      FoldSlice(name, |name| - 4, |name|);
    }
    if |name| >= 5 {
      FoldSlice(name, |name| - 5, |name|);
    }
  }

  /** A string whose folded form is `ext` ends, ignoring case, in `ext`
      when appended to anything. */
  lemma AppendedSuffixMatches(p: string, ext: string, lit: string)
    requires Fold(ext) == Fold(lit)
    requires |ext| == |lit|
    ensures EndsWithIgnoringCase(p + ext, lit)
  {
    assert (p + ext)[|p + ext| - |lit|..] == ext;
  }

  /** `.zst` and `.zstd` cannot both end the same name: the last characters
      fold to `t` and `d`. */
  lemma SuffixesExclusive(name: string)
    ensures !(EndsWithIgnoringCase(name, ".zst") && EndsWithIgnoringCase(name, ".zstd"))
  {
  }

  /** Output name of the compress branch (zstd.ts line 54). */
  function CompressedName(name: string): (r: string)
    ensures HasZstSuffix(r)
    ensures name <= r && |r| <= |name| + 4
    ensures r == name <==> HasZstSuffix(name)
    ensures !HasZstSuffix(name) ==> r[|name|..] == ".zst"
  {
    if HasZstSuffix(name) then
      name
    else
      AppendedSuffixMatches(name, ".zst", ".zst");
      name + ".zst"
  }

  /** Compressing an already compressed name changes nothing. */
  lemma CompressedNameIdempotent(name: string)
    ensures CompressedName(CompressedName(name)) == CompressedName(name)
  {
  }

  /** `name.replace(/\.(zst|zstd)$/i, "")`: the pattern is anchored at the
      end, so at most one suffix is removed. */
  function StripZstSuffix(name: string): (r: string)
    ensures r <= name
    ensures r == name <==> !HasZstSuffix(name)
    ensures EndsWithIgnoringCase(name, ".zstd") ==> |r| == |name| - 5
    ensures EndsWithIgnoringCase(name, ".zst") ==> |r| == |name| - 4
  {
    SuffixesExclusive(name);
    if EndsWithIgnoringCase(name, ".zstd") then
      name[..|name| - 5]
    else if EndsWithIgnoringCase(name, ".zst") then
      name[..|name| - 4]
    else
      name
  }

  /** Name of the archive entry made from one compressed input (zstd.ts
      line 65); an empty string is falsy, so `|| name + ".bin"` applies. */
  function EntryName(name: string): (r: string)
    ensures r != []
    ensures StripZstSuffix(name) != [] ==> r <= name && |name| - |r| in {0, 4, 5}
    ensures StripZstSuffix(name) == [] ==> r == name + ".bin"
    ensures name != [] && !HasZstSuffix(name) ==> r == name
  {
    var stripped := StripZstSuffix(name);
    if stripped == [] then name + ".bin" else stripped
  }

  /** Exactly one trailing `.zst`/`.zstd`, in any letter case, is removed
      from a name that has something in front of it. */
  lemma {:induction false} EntryNameStripsOneSuffix(stem: string, ext: string)
    requires stem != []
    requires Fold(ext) == ".zst" || Fold(ext) == ".zstd"
    ensures EntryName(stem + ext) == stem
  {
    var name := stem + ext;
    assert Fold(".zst") == ".zst" && Fold(".zstd") == ".zstd";
    SuffixesExclusive(name);
    if Fold(ext) == ".zstd" {
      AppendedSuffixMatches(stem, ext, ".zstd");
      assert name[..|name| - 5] == stem;
    } else {
      AppendedSuffixMatches(stem, ext, ".zst");
      assert name[..|name| - 4] == stem;
    }
  }

  /** Only the last of two suffixes is removed: `a.zst.zst` -> `a.zst`. */
  lemma EntryNameStripsOnlyOnce()
    ensures EntryName("a.zst.zst") == "a.zst"
  {
    assert Fold(".zst") == ".zst";
    EntryNameStripsOneSuffix("a.zst", ".zst");
    assert "a.zst.zst" == "a.zst" + ".zst";
  }

  /** The suffix is recognised in any letter case. */
  lemma EntryNameIgnoresCase()
    ensures EntryName("photo.PNG.ZsTd") == "photo.PNG"
  {
    assert Fold(".ZsTd") == ".zstd";
    EntryNameStripsOneSuffix("photo.PNG", ".ZsTd");
    assert "photo.PNG.ZsTd" == "photo.PNG" + ".ZsTd";
  }

  /** A name that is nothing but a suffix, or is empty, falls back to
      `<name>.bin`. */
  lemma EntryNameFallback(ext: string)
    requires Fold(ext) == ".zst" || Fold(ext) == ".zstd" || ext == []
    ensures EntryName(ext) == ext + ".bin"
  {
    if Fold(ext) == ".zst" {
      AppendedSuffixMatches([], ext, ".zst");
      assert [] + ext == ext;
    } else if Fold(ext) == ".zstd" {
      AppendedSuffixMatches([], ext, ".zstd");
      assert [] + ext == ext;
    }
  }

  /** Compressing and then unpacking gives back any non-empty name that did
      not already carry a zstd suffix (`a.png` -> `a.png.zst` -> `a.png`). */
  lemma {:induction false} NameRoundTrip(name: string)
    requires name != []
    requires !HasZstSuffix(name)
    ensures EntryName(CompressedName(name)) == name
  {
    assert Fold(".zst") == ".zst";
    EntryNameStripsOneSuffix(name, ".zst");
  }

  /** The round trip needs a non-empty name: the empty name comes back as
      `.zst.bin`. */
  lemma EmptyNameRoundTrip()
    ensures EntryName(CompressedName("")) == ".zst.bin"
  {
    assert Fold(".zst") == ".zst";
    EntryNameFallback(".zst");
  }

  /** A name that already carried the suffix is not restored: unpacking
      strips the suffix the input came with. */
  lemma SuffixedNameRoundTrip(name: string)
    requires HasZstSuffix(name)
    ensures EntryName(CompressedName(name)) == EntryName(name)
    ensures StripZstSuffix(name) != [] ==> EntryName(CompressedName(name)) != name
  {
  }
}

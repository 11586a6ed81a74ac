/** The common-format catalog (src/CommonFormats.ts): an immutable object
    with seven properties, each a four-string format definition, and lookups
    over it by property name, id, extension or mime type. */
module CommonFormats {
  import opened Outcomes
  import opened Formats

  /** The catalog's properties, one constructor each. */
  datatype Key = PNG | JPEG | WEBP | GIF | SVG | JSON | TEXT

  /** Every key, in declaration order. */
  const Keys: seq<Key> := [PNG, JPEG, WEBP, GIF, SVG, JSON, TEXT]

  /** The entries under the "images" heading. */
  const ImageKeys: set<Key> := {PNG, JPEG, WEBP, GIF, SVG}

  /** The property name under which a key is reachable, as in `CommonFormats.PNG`. */
  function PropertyName(k: Key): string {
    match k
    case PNG => "PNG"
    case JPEG => "JPEG"
    case WEBP => "WEBP"
    case GIF => "GIF"
    case SVG => "SVG"
    case JSON => "JSON"
    case TEXT => "TEXT"
  }

  /** The definition stored under a key: display name, id, extension, mime. */
  function Def(k: Key): FormatDefinition {
    match k
    case PNG => FormatDefinition("Portable Network Graphics", "png", "png", "image/png")
    case JPEG => FormatDefinition("Joint Photographic Experts Group JFIF", "jpeg", "jpg", "image/jpeg")
    case WEBP => FormatDefinition("WebP", "webp", "webp", "image/webp")
    case GIF => FormatDefinition("CompuServe Graphics Interchange Format (GIF)", "gif", "gif", "image/gif")
    case SVG => FormatDefinition("Scalable Vector Graphics", "svg", "svg", "image/svg+xml")
    case JSON => FormatDefinition("JavaScript Object Notation", "json", "json", "application/json")
    case TEXT => FormatDefinition("Plain Text", "text", "txt", "text/plain")
  }

  /** A string one can look an entry up by. */
  datatype Field = Property | Id | Extension | Mime

  function Get(k: Key, field: Field): string {
    match field
    case Property => PropertyName(k)
    case Id => Def(k).format
    case Extension => Def(k).extension
    case Mime => Def(k).mime
  }

  /** The first key in `keys` whose `field` is `value`. */
  function Find(keys: seq<Key>, field: Field, value: string): (r: Option<Key>)
    ensures r.Some? ==> r.value in keys && Get(r.value, field) == value
    ensures r.None? <==> forall i :: 0 <= i < |keys| ==> Get(keys[i], field) != value
  {
    if keys == [] then
      None
    else if Get(keys[0], field) == value then
      Some(keys[0])
    else
      Find(keys[1..], field, value)
  }

  /** Catalog lookup: `Lookup(Property, "PNG")` reads the own property
      `CommonFormats.PNG` (inherited members such as `toString` are not
      modelled),
      `Lookup(Id, "jpeg")` and `Lookup(Extension, "jpg")` search the values. */
  function Lookup(field: Field, value: string): Option<FormatDefinition> {
    match Find(Keys, field, value)
    case Some(k) => Some(Def(k))
    case None => None
  }

  /** No two entries agree on `field`. */
  ghost predicate Unique(field: Field) {
    forall a, b :: a != b ==> Get(a, field) != Get(b, field)
  }

  /** Position of a key in `Keys`. */
  function Index(k: Key): (i: nat)
    ensures i < |Keys| && Keys[i] == k
  {
    match k
    case PNG => 0
    case JPEG => 1
    case WEBP => 2
    case GIF => 3
    case SVG => 4
    case JSON => 5
    case TEXT => 6
  }

  /** `Keys` lists no key twice. */
  lemma KeysDistinct()
    ensures forall i, j :: 0 <= i < j < |Keys| ==> Keys[i] != Keys[j]
  {
  }

  /** Seven entries, each carrying four non-empty strings. */
  lemma CatalogShape()
    ensures |Keys| == 7
    ensures forall k ::
      && Def(k).name != [] && Def(k).format != []
      && Def(k).extension != [] && Def(k).mime != []
  {
  }

  /** Property names, ids, extensions and mime types are each pairwise
      distinct, so lookup by any of them is a function. */
  lemma FieldsUnique()
    ensures Unique(Property) && Unique(Id) && Unique(Extension) && Unique(Mime)
  {
  }

  /** Exactly the five image entries have a mime type under `image/`. */
  lemma ImageMimes()
    ensures forall k :: "image/" <= Def(k).mime <==> k in ImageKeys
  {
    forall k ensures "image/" <= Def(k).mime <==> k in ImageKeys {
      match k
      case JSON => assert Def(k).mime[0] != 'i';
      case TEXT => assert Def(k).mime[0] != 'i';
      case _ =>
    }
  }

  /** Id and extension differ for JPEG and TEXT and agree everywhere else. */
  lemma IdDiffersFromExtension()
    ensures forall k :: Def(k).format != Def(k).extension <==> k == JPEG || k == TEXT
  {
  }

  /** Looking a value up by a unique field finds exactly the entry that
      carries it, and nothing when no entry does. */
  lemma {:induction false} LookupCorrect(field: Field, value: string, k: Key)
    requires Unique(field)
    ensures Lookup(field, value) == Some(Def(k)) <==> Get(k, field) == value
    ensures Lookup(field, value) == None <==> forall k' :: Get(k', field) != value
  {
    if Get(k, field) == value {
      assert Get(Keys[Index(k)], field) == value;
    }
    if Lookup(field, value) == Some(Def(k)) {
      var found := Find(Keys, field, value).value;
      assert Def(found) == Def(k);
      assert Get(found, field) == Get(k, field) by {
        match field
        case Property =>
        case Id =>
        case Extension =>
        case Mime =>
      }
    }
    if forall k' :: Get(k', field) != value {
      assert forall j :: 0 <= j < |Keys| ==> Get(Keys[j], field) != value;
    } else {
      var k' :| Get(k', field) == value;
      assert Get(Keys[Index(k')], field) == value;
    }
  }

  /** A value no entry carries is not found. */
  lemma {:induction false} LookupMissing(field: Field, value: string)
    requires forall k :: Get(k, field) != value
    ensures Lookup(field, value) == None
  {
    assert forall j :: 0 <= j < |Keys| ==> Get(Keys[j], field) != value;
  }

  /** JPEG is found by its id `jpeg` and by its extension `jpg`, and by
      neither the other way round: each search needs its own kind of key. */
  lemma JpegLookups()
    ensures Lookup(Id, "jpeg") == Some(Def(JPEG)) && Lookup(Id, "jpg") == None
    ensures Lookup(Extension, "jpg") == Some(Def(JPEG)) && Lookup(Extension, "jpeg") == None
  {
    FieldsUnique();
    LookupCorrect(Id, Def(JPEG).format, JPEG);
    LookupCorrect(Extension, Def(JPEG).extension, JPEG);
    JpegNotSwapped();
  }

  lemma JpegNotSwapped()
    ensures Lookup(Id, "jpg") == None && Lookup(Extension, "jpeg") == None
  {
    LookupMissing(Id, "jpg");
    LookupMissing(Extension, "jpeg");
  }

  /** Plain text has id `text` but extension `txt`. */
  lemma TextLookups()
    ensures Lookup(Id, "text") == Some(Def(TEXT)) && Lookup(Extension, "text") == None
  {
    FieldsUnique();
    LookupCorrect(Id, Def(TEXT).format, TEXT);
    LookupMissing(Extension, "text");
  }

  /** The catalog has no `ZIP` property and no entry with id `zip`. */
  lemma NoZipEntry()
    ensures Lookup(Property, "ZIP") == None
    ensures Lookup(Id, "zip") == None
  {
    LookupMissing(Property, "ZIP");
    LookupMissing(Id, "zip");
  }
}

/** Blobs, manifests and image names, the progress label and the chunked
    reading of an archive entry (docker_charon/utils.py; charon/utils.py holds
    the same definitions). */
module Utils {
  import opened Wrappers

  type Digest = string

  /** A blob as the pipeline handles it: a digest scoped to a repository. The
      registry connection the Python object also carries plays no part in
      equality, so it is left out and `==` on this datatype is `Blob.__eq__`. */
  datatype Blob = Blob(digest: Digest, repository: string)

  /** `Blob.__eq__`: two blobs are equal when their digests and repositories are. */
  function BlobEq(a: Blob, b: Blob): (r: bool)
    ensures r <==> a == b
  {
    a.digest == b.digest && a.repository == b.repository
  }

  function DigestOf(b: Blob): Digest
  {
    b.digest
  }

  // ---------------------------------------------------------------------------
  // `str.split` and the image-name properties built on it

  /** Index of the first occurrence of `c` in `s`. */
  function IndexOf(s: string, c: char): (i: nat)
    requires c in s
    ensures i < |s| && s[i] == c && c !in s[..i]
  {
    if s[0] == c then 0 else 1 + IndexOf(s[1..], c)
  }

  /** Python's `s.split(sep)` for a one-character separator. */
  function Split(s: string, sep: char): (parts: seq<string>)
    ensures |parts| >= 1
    ensures forall k :: 0 <= k < |parts| ==> sep !in parts[k]
    decreases |s|
  {
    if sep !in s then [s]
    else
      var i := IndexOf(s, sep);
      [s[..i]] + Split(s[i + 1..], sep)
  }

  /** Python's `sep.join(parts)`. */
  function Join(parts: seq<string>, sep: char): string
  {
    if parts == [] then ""
    else if |parts| == 1 then parts[0]
    else parts[0] + [sep] + Join(parts[1..], sep)
  }

  /** Joining the pieces of a split gives back the string. */
  lemma {:induction false} JoinSplit(s: string, sep: char)
    ensures Join(Split(s, sep), sep) == s
    decreases |s|
  {
    if sep in s {
      var i := IndexOf(s, sep);
      var rest := s[i + 1..];
      var parts := Split(rest, sep);
      assert Split(s, sep) == [s[..i]] + parts;
      JoinSplit(rest, sep);
      JoinCons(s[..i], parts, sep);
      assert s == s[..i] + [sep] + rest;
    }
  }

  lemma JoinCons(first: string, parts: seq<string>, sep: char)
    requires parts != []
    ensures Join([first] + parts, sep) == first + [sep] + Join(parts, sep)
  {
    assert ([first] + parts)[1..] == parts;
  }

  /** Splitting a join of separator-free pieces gives back the pieces. */
  lemma {:induction false} SplitJoin(parts: seq<string>, sep: char)
    requires parts != []
    requires forall k :: 0 <= k < |parts| ==> sep !in parts[k]
    ensures Split(Join(parts, sep), sep) == parts
  {
    if |parts| > 1 {
      var s := Join(parts, sep);
      var rest := Join(parts[1..], sep);
      assert s == parts[0] + [sep] + rest;
      assert s[|parts[0]|] == sep;
      assert s[..|parts[0]|] == parts[0];
      assert IndexOf(s, sep) == |parts[0]|;
      assert s[|parts[0]| + 1..] == rest;
      SplitJoin(parts[1..], sep);
    }
  }

  /** The `repository` property: the image name up to its first colon. */
  function RepositoryOf(image: string): string
  {
    Split(image, ':')[0]
  }

  /** The `tag` property: the text between the first and the second colon; an
      image name without a colon has none (IndexError). */
  function TagOf(image: string): Result<string>
  {
    var parts := Split(image, ':');
    if |parts| < 2 then Err(MissingTag(image)) else Ok(parts[1])
  }

  /** For `r:t` with no other colon, the repository is `r` and the tag `t`. */
  lemma ImageRefParts(r: string, t: string)
    requires ':' !in r && ':' !in t
    ensures RepositoryOf(r + ":" + t) == r
    ensures TagOf(r + ":" + t) == Ok(t)
  {
    assert r + ":" + t == Join([r, t], ':');
    SplitJoin([r, t], ':');
  }

  /** A name has a tag exactly when it has a colon; without one, the whole name
      is the repository. */
  lemma TagExistsIffColon(image: string)
    ensures TagOf(image).Ok? <==> ':' in image
    ensures ':' !in image ==> RepositoryOf(image) == image
    ensures ':' in image ==> RepositoryOf(image) == image[..IndexOf(image, ':')]
  {
    if ':' in image {
      var i := IndexOf(image, ':');
      assert |Split(image[i + 1..], ':')| >= 1;
    }
  }

  // ---------------------------------------------------------------------------
  // Manifests

  /** A manifest document, seen through its JSON parse: the digest under
      `config`, and the `layers` list with each layer's digest; `None` wherever
      the document lacks the field. */
  datatype ManifestDoc = ManifestDoc(config: Option<Digest>, layers: Option<seq<Option<Digest>>>)

  /** Every field `get_list_of_blobs` reads is present. */
  predicate WellFormed(doc: ManifestDoc)
  {
    doc.config.Some? && doc.layers.Some? &&
    forall k :: 0 <= k < |doc.layers.value| ==> doc.layers.value[k].Some?
  }

  /** The layer blobs in layer order, failing at a layer without a digest. */
  function LayerBlobs(layers: seq<Option<Digest>>, repository: string): Result<seq<Blob>>
  {
    if layers == [] then Ok([])
    else match LayerBlobs(DropLast(layers), repository)
      case Err(e) => Err(e)
      case Ok(bs) =>
        match Last(layers)
        case None => Err(MalformedManifest(repository))
        case Some(d) => Ok(bs + [Blob(d, repository)])
  }

  /** `get_list_of_blobs` on parsed content: the config blob, then the layers. */
  function BlobsOf(doc: ManifestDoc, repository: string): Result<seq<Blob>>
  {
    match doc.config
    case None => Err(MalformedManifest(repository))
    case Some(c) =>
      match doc.layers
      case None => Err(MalformedManifest(repository))
      case Some(ls) =>
        match LayerBlobs(ls, repository)
        case Err(e) => Err(e)
        case Ok(bs) => Ok([Blob(c, repository)] + bs)
  }

  lemma {:induction false} LayerBlobsSpec(layers: seq<Option<Digest>>, repository: string)
    ensures LayerBlobs(layers, repository).Ok? <==> forall k :: 0 <= k < |layers| ==> layers[k].Some?
    ensures LayerBlobs(layers, repository).Err? ==>
      LayerBlobs(layers, repository).error == MalformedManifest(repository)
    ensures LayerBlobs(layers, repository).Ok? ==>
      var bs := LayerBlobs(layers, repository).value;
      |bs| == |layers| &&
      forall k :: 0 <= k < |layers| ==> bs[k] == Blob(layers[k].value, repository)
  {
    if layers != [] {
      var init := DropLast(layers);
      LayerBlobsSpec(init, repository);
      assert forall k :: 0 <= k < |init| ==> init[k] == layers[k];
    }
  }

  /** The blob list of a manifest: it exists exactly when the manifest is well
      formed; it then has one blob more than there are layers, the config blob
      comes first and the layers follow in manifest order, duplicates kept, and
      every blob carries the manifest's repository. A malformed manifest fails
      with MalformedManifest. */
  lemma BlobsOfShape(doc: ManifestDoc, repository: string)
    ensures BlobsOf(doc, repository).Ok? <==> WellFormed(doc)
    ensures BlobsOf(doc, repository).Err? ==>
      BlobsOf(doc, repository).error == MalformedManifest(repository)
    ensures BlobsOf(doc, repository).Ok? ==>
      var bs := BlobsOf(doc, repository).value;
      |bs| == 1 + |doc.layers.value| &&
      bs[0] == Blob(doc.config.value, repository) &&
      (forall k :: 0 <= k < |doc.layers.value| ==> bs[k + 1] == Blob(doc.layers.value[k].value, repository)) &&
      (forall k :: 0 <= k < |bs| ==> bs[k].repository == repository)
  {
    if doc.layers.Some? {
      LayerBlobsSpec(doc.layers.value, repository);
    }
  }

  /** Which end of the pipeline a manifest object belongs to. */
  datatype PayloadSide = Encoder | Decoder

  /** The registry the encoder reads from: manifests by (repository, tag) and
      blob contents by (repository, digest). */
  datatype SourceRegistry = SourceRegistry(
    manifests: map<(string, string), ManifestDoc>,
    blobs: map<(string, Digest), Bytes>)

  /** `get_manifest(tag)` on the image's repository. */
  function FetchManifest(src: SourceRegistry, image: string): Result<ManifestDoc>
  {
    match TagOf(image)
    case Err(e) => Err(e)
    case Ok(tag) =>
      if (RepositoryOf(image), tag) in src.manifests then Ok(src.manifests[(RepositoryOf(image), tag)])
      else Err(ManifestNotFound(RepositoryOf(image), tag))
  }

  /** What the `content` property answers, given the memoized value. */
  function ContentOf(cached: Option<ManifestDoc>, side: PayloadSide, src: SourceRegistry, image: string): Result<ManifestDoc>
  {
    match cached
    case Some(doc) => Ok(doc)
    case None => if side == Decoder then Err(ContentNotFetchable(image)) else FetchManifest(src, image)
  }

  /** `get_list_of_blobs` given what `content` answers. */
  function ListOfBlobs(content: Result<ManifestDoc>, repository: string): Result<seq<Blob>>
  {
    match content
    case Err(e) => Err(e)
    case Ok(doc) => BlobsOf(doc, repository)
  }

  /** A manifest object: the image it names, its side, and the memoized content. */
  class Manifest {
    const name: string
    const side: PayloadSide
    var content: Option<ManifestDoc>

    constructor (name: string, side: PayloadSide, content: Option<ManifestDoc>)
      ensures this.name == name && this.side == side && this.content == content
    {
      this.name := name;
      this.side := side;
      this.content := content;
    }

    /** The `content` property. A memoized value is returned unchanged and never
        refetched; without one, the decoder side fails and the encoder side
        fetches the manifest from the source registry and memoizes it. */
    method Content(src: SourceRegistry) returns (r: Result<ManifestDoc>)
      modifies this
      ensures r == ContentOf(old(content), side, src, name)
      ensures ContentOf(content, side, src, name) == ContentOf(old(content), side, src, name)
      ensures old(content).Some? ==> r == Ok(old(content).value) && content == old(content)
      ensures old(content).None? && side == Decoder ==> r == Err(ContentNotFetchable(name)) && content == None
      ensures old(content).None? && side == Encoder ==>
        r == FetchManifest(src, name) && content == (if r.Ok? then Some(r.value) else None)
    {
      if content.None? {
        if side == Decoder {
          return Err(ContentNotFetchable(name));
        }
        var fetched := FetchManifest(src, name);
        if fetched.Err? {
          return fetched;
        }
        content := Some(fetched.value);
      }
      r := Ok(content.value);
    }

    /** `get_list_of_blobs`: the config blob, then every layer blob appended in
        order, all in this manifest's repository. */
    method GetListOfBlobs(src: SourceRegistry) returns (r: Result<seq<Blob>>)
      modifies this
      ensures r == ListOfBlobs(ContentOf(old(content), side, src, name), RepositoryOf(name))
      ensures content == (if old(content).None? && side == Encoder && FetchManifest(src, name).Ok?
                          then Some(FetchManifest(src, name).value) else old(content))
    {
      var c := Content(src);
      if c.Err? {
        return Err(c.error);
      }
      var doc := c.value;
      var repository := RepositoryOf(name);
      BlobsOfShape(doc, repository);
      if doc.config.None? || doc.layers.None? {
        return Err(MalformedManifest(repository));
      }
      var result := [Blob(doc.config.value, repository)];
      var layers := doc.layers.value;
      var i := 0;
      while i < |layers|
        invariant 0 <= i <= |layers|
        invariant forall k :: 0 <= k < i ==> layers[k].Some?
        invariant |result| == 1 + i && result[0] == Blob(doc.config.value, repository)
        invariant forall k :: 0 <= k < i ==> result[k + 1] == Blob(layers[k].value, repository)
      {
        if layers[i].None? {
          return Err(MalformedManifest(repository));
        }
        result := result + [Blob(layers[i].value, repository)];
        i := i + 1;
      }
      assert WellFormed(doc);
      ghost var expected := BlobsOf(doc, repository).value;
      assert forall k :: 0 < k < |result| ==> result[k] == expected[k] by {
        forall k | 0 < k < |result| ensures result[k] == expected[k] {
          var j := k - 1;
          assert 0 <= j < |layers|;
          assert result[j + 1] == Blob(layers[j].value, repository);
          assert expected[j + 1] == Blob(doc.layers.value[j].value, repository);
        }
      }
      assert result == expected;
      r := Ok(result);
    }
  }

  // ---------------------------------------------------------------------------
  // `progress_as_string`

  function DigitChar(d: nat): char
    requires d < 10
  {
    "0123456789"[d]
  }

  predicate IsDigits(s: string)
  {
    forall i :: 0 <= i < |s| ==> '0' <= s[i] <= '9'
  }

  /** Python's `str(n)` for a natural number. */
  function Decimal(n: nat): (s: string)
    ensures |s| >= 1 && IsDigits(s)
  {
    if n < 10 then [DigitChar(n)] else Decimal(n / 10) + [DigitChar(n % 10)]
  }

  /** Reading a string of digits as a number. */
  function DecimalValue(s: string): nat
    requires IsDigits(s)
  {
    if s == [] then 0 else DecimalValue(DropLast(s)) * 10 + (Last(s) as int - '0' as int)
  }

  lemma {:induction false} DecimalRoundTrip(n: nat)
    ensures DecimalValue(Decimal(n)) == n
  {
    if n >= 10 {
      DecimalRoundTrip(n / 10);
      assert DropLast(Decimal(n)) == Decimal(n / 10);
    }
  }

  /** `progress_as_string(index, container)`, given the container's length. */
  function ProgressAsString(index: nat, length: nat): string
  {
    "[" + Decimal(index + 1) + "/" + Decimal(length) + "]"
  }

  /** Reading a progress label back: `[<count>/<total>]` with two digit runs. */
  function ParseProgress(s: string): Option<(nat, nat)>
  {
    if |s| < 2 || s[0] != '[' || Last(s) != ']' then None
    else
      var parts := Split(s[1..|s| - 1], '/');
      if |parts| != 2 || !IsDigits(parts[0]) || !IsDigits(parts[1]) then None
      else Some((DecimalValue(parts[0]), DecimalValue(parts[1])))
  }

  /** The label of item `index` of a container of `length` items reads back as
      the one-based position `index + 1` out of `length`. */
  lemma ProgressRoundTrip(index: nat, length: nat)
    ensures ParseProgress(ProgressAsString(index, length)) == Some((index + 1, length))
  {
    var a, b := Decimal(index + 1), Decimal(length);
    ProgressShape(a, b);
    DigitsHaveNoSlash(a);
    DigitsHaveNoSlash(b);
    SplitJoin([a, b], '/');
    DecimalRoundTrip(index + 1);
    DecimalRoundTrip(length);
  }

  lemma ProgressShape(a: string, b: string)
    ensures var s := "[" + a + "/" + b + "]";
      |s| >= 2 && s[0] == '[' && Last(s) == ']' && s[1..|s| - 1] == Join([a, b], '/')
  {
    var s := "[" + a + "/" + b + "]";
    assert s[1..|s| - 1] == a + "/" + b;
    JoinCons(a, [b], '/');
  }

  lemma DigitsHaveNoSlash(s: string)
    requires IsDigits(s)
    ensures '/' !in s
  {
    assert forall i :: 0 <= i < |s| ==> s[i] != '/';
  }

  // ---------------------------------------------------------------------------
  // `file_to_generator`

  /** The read size of `file_to_generator`, 2 ** 15 bytes. */
  const ChunkSize: nat := 32768

  /** An open archive entry being read: its bytes and the read position. */
  class File {
    var data: Bytes
    var pos: nat

    constructor (data: Bytes)
      ensures this.data == data && pos == 0
    {
      this.data := data;
      pos := 0;
    }

    ghost predicate Valid()
      reads this
    {
      pos <= |data|
    }

    function Remaining(): Bytes
      reads this
      requires Valid()
    {
      data[pos..]
    }

    /** `read(n)`: at most `n` bytes from the position on, fewer only at the end. */
    method Read(n: nat) returns (chunk: Bytes)
      requires Valid()
      modifies this`pos
      ensures Valid()
      ensures |chunk| == (if n < |old(Remaining())| then n else |old(Remaining())|)
      ensures chunk + Remaining() == old(Remaining())
    {
      var m := if n < |data| - pos then n else |data| - pos;
      chunk := data[pos..pos + m];
      pos := pos + m;
    }
  }

  /** The chunks `file_to_generator` yields for the bytes `s`. */
  function Chunks(s: Bytes): seq<Bytes>
    decreases |s|
  {
    if s == [] then []
    else
      var n := if |s| < ChunkSize then |s| else ChunkSize;
      [s[..n]] + Chunks(s[n..])
  }

  function Concat(chunks: seq<Bytes>): Bytes
  {
    if chunks == [] then [] else chunks[0] + Concat(chunks[1..])
  }

  /** The chunks are non-empty, none is larger than 2 ** 15 bytes, all but the
      last are exactly that large, and together they are the whole input. */
  lemma {:induction false} ChunksSpec(s: Bytes)
    ensures Concat(Chunks(s)) == s
    ensures forall k :: 0 <= k < |Chunks(s)| ==> 0 < |Chunks(s)[k]| <= ChunkSize
    ensures forall k :: 0 <= k < |Chunks(s)| - 1 ==> |Chunks(s)[k]| == ChunkSize
    decreases |s|
  {
    if s != [] {
      var n := if |s| < ChunkSize then |s| else ChunkSize;
      ChunksSpec(s[n..]);
      assert Chunks(s)[1..] == Chunks(s[n..]);
      assert s == s[..n] + s[n..];
    }
  }

  /** `file_to_generator`: read 2 ** 15 bytes at a time until a read comes back
      empty, handing on every chunk; the file ends up read to its end. */
  method FileToGenerator(f: File) returns (chunks: seq<Bytes>)
    requires f.Valid()
    modifies f`pos
    ensures f.Valid() && f.pos == |f.data|
    ensures chunks == Chunks(old(f.Remaining()))
  {
    chunks := [];
    while true
      invariant f.Valid()
      invariant chunks + Chunks(f.Remaining()) == Chunks(old(f.Remaining()))
      decreases |f.data| - f.pos
    {
      ghost var before := f.Remaining();
      var chunk := f.Read(ChunkSize);
      if chunk == [] {
        break;
      }
      assert Chunks(before) == [chunk] + Chunks(f.Remaining()) by {
        assert before[..|chunk|] == chunk && before[|chunk|..] == f.Remaining();
      }
      chunks := chunks + [chunk];
    }
  }
}

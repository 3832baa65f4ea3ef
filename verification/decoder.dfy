/** Replaying a payload archive into the destination registry
    (docker_charon/decoder.py): the descriptor is walked in order, each
    image's blobs are pushed from the archive, then its manifest is set, and
    the image name is handed on. */
module Decoder {
  import opened Wrappers
  import opened Utils
  import opened Sequences
  import opened Stores
  import opened Encoder

  /** `json.loads` of the descriptor entry: a missing entry is the KeyError
      of `read`; anything but a descriptor is malformed. Loading a JSON
      object assigns its members one after the other, so a repeated name
      keeps its first place and its last value. */
  function ReadDescriptor(entries: map<string, Payload>): Result<Descriptor>
  {
    if DescriptorPath !in entries then Err(EntryNotFound(DescriptorPath))
    else
      match entries[DescriptorPath]
      case DescriptorText(items) => Ok(PutAll([], items))
      case _ => Err(MalformedDescriptor)
  }

  /** The manifest a descriptor item points at: `read(None)` finds no entry
      named None; a missing entry is the KeyError of `read`; an entry that is
      not a manifest document fails `get_list_of_blobs`. */
  function ReadManifest(entries: map<string, Payload>, image: string, path: Option<string>): Result<ManifestDoc>
  {
    match path
    case None => Err(NullManifestPath(image))
    case Some(p) =>
      if p !in entries then Err(EntryNotFound(p))
      else
        match entries[p]
        case ManifestText(doc) => Ok(doc)
        case _ => Err(MalformedManifest(RepositoryOf(image)))
  }

  /** The pushes of `push_all_blobs_from_manifest`: in blob order, each blob
      whose entry exists is pushed with the entry's content into the blob's
      repository; a blob without an entry is skipped. */
  function BlobPushes(entries: map<string, Payload>, blobs: seq<Blob>): seq<Op>
  {
    if blobs == [] then []
    else
      var ops := BlobPushes(entries, DropLast(blobs));
      var b := Last(blobs);
      if BlobPath(b.digest) in entries then ops + [PushBlob(b.repository, b.digest, entries[BlobPath(b.digest)])]
      else ops
  }

  /** The registry calls of `load_single_image_from_zip_in_registry` and how
      it ends. */
  function ImageOps(entries: map<string, Payload>, image: string, path: Option<string>): (seq<Op>, Result<()>)
  {
    match ReadManifest(entries, image, path)
    case Err(e) => ([], Err(e))
    case Ok(doc) =>
      match BlobsOf(doc, RepositoryOf(image))
      case Err(e) => ([], Err(e))
      case Ok(bs) =>
        var pushes := BlobPushes(entries, bs);
        match TagOf(image)
        case Err(e) => (pushes, Err(e))
        case Ok(tag) => (pushes + [SetManifest(RepositoryOf(image), tag, doc)], Ok(()))
  }

  /** The registry calls of a replay, the image names handed on, and how it ends. */
  datatype Replayed = Replayed(ops: seq<Op>, loaded: seq<string>, result: Result<()>)

  /** Walking the descriptor items in order; the first image that fails ends
      the replay. With `skipNull`, an item whose path is null is handed on
      without loading anything: the replay the encoder's null entries call
      for, which the code as written does not do. */
  function Replay(entries: map<string, Payload>, items: Descriptor, skipNull: bool): Replayed
  {
    if items == [] then Replayed([], [], Ok(()))
    else
      var prev := Replay(entries, DropLast(items), skipNull);
      var (image, path) := Last(items);
      if prev.result.Err? then prev
      else if skipNull && path.None? then prev.(loaded := prev.loaded + [image])
      else
        var (ops, r) := ImageOps(entries, image, path);
        if r.Err? then Replayed(prev.ops + ops, prev.loaded, r)
        else Replayed(prev.ops + ops, prev.loaded + [image], Ok(()))
  }

  /** `load_zip_images_in_registry` on the archive's entries (the code as
      written has `skipNull` false). */
  function LoadRun(entries: map<string, Payload>, skipNull: bool): Replayed
  {
    match ReadDescriptor(entries)
    case Err(e) => Replayed([], [], Err(e))
    case Ok(items) => Replay(entries, items, skipNull)
  }

  // ---------------------------------------------------------------------------
  // Properties of the replay

  /** A push of the blob's archive entry, as `push_all_blobs_from_manifest` makes it. */
  predicate PushFromArchive(entries: map<string, Payload>, op: Op)
  {
    op.PushBlob? && BlobPath(op.digest) in entries && op.data == entries[BlobPath(op.digest)]
  }

  /** Every push carries the archive entry of its digest. */
  lemma {:induction false} BlobPushesData(entries: map<string, Payload>, blobs: seq<Blob>)
    ensures forall k :: 0 <= k < |BlobPushes(entries, blobs)| ==> PushFromArchive(entries, BlobPushes(entries, blobs)[k])
  {
    if blobs != [] {
      BlobPushesData(entries, DropLast(blobs));
    }
  }

  /** The blob each push stands for. */
  function PushedBlobs(ops: seq<Op>): seq<Blob>
    requires forall k :: 0 <= k < |ops| ==> ops[k].PushBlob?
  {
    seq(|ops|, k requires 0 <= k < |ops| => Blob(ops[k].digest, ops[k].repository))
  }

  lemma PushedBlobsAppend(ops: seq<Op>, op: Op)
    requires forall k :: 0 <= k < |ops| ==> ops[k].PushBlob?
    requires op.PushBlob?
    ensures PushedBlobs(ops + [op]) == PushedBlobs(ops) + [Blob(op.digest, op.repository)]
  {
  }

  /** Exactly the blobs of the list whose entry is in the archive are pushed. */
  lemma {:induction false} BlobPushesMembers(entries: map<string, Payload>, blobs: seq<Blob>)
    ensures forall k :: 0 <= k < |BlobPushes(entries, blobs)| ==> BlobPushes(entries, blobs)[k].PushBlob?
    ensures forall b :: b in PushedBlobs(BlobPushes(entries, blobs)) <==> b in blobs && BlobPath(b.digest) in entries
  {
    BlobPushesData(entries, blobs);
    if blobs != [] {
      var init := DropLast(blobs);
      var b := Last(blobs);
      BlobPushesMembers(entries, init);
      BlobPushesData(entries, init);
      assert blobs == init + [b];
      if BlobPath(b.digest) in entries {
        PushedBlobsAppend(BlobPushes(entries, init), PushBlob(b.repository, b.digest, entries[BlobPath(b.digest)]));
      }
    }
  }

  /** The pushes follow the order of the blob list. */
  lemma {:induction false} BlobPushesOrder(entries: map<string, Payload>, blobs: seq<Blob>)
    ensures forall k :: 0 <= k < |BlobPushes(entries, blobs)| ==> BlobPushes(entries, blobs)[k].PushBlob?
    ensures Subseq(PushedBlobs(BlobPushes(entries, blobs)), blobs)
  {
    BlobPushesData(entries, blobs);
    if blobs != [] {
      var init := DropLast(blobs);
      var b := Last(blobs);
      BlobPushesOrder(entries, init);
      BlobPushesData(entries, init);
      if BlobPath(b.digest) in entries {
        var ops0 := BlobPushes(entries, init);
        var op := PushBlob(b.repository, b.digest, entries[BlobPath(b.digest)]);
        PushedBlobsAppend(ops0, op);
        assert DropLast(PushedBlobs(ops0 + [op])) == PushedBlobs(ops0);
      }
    }
  }

  /** Loading one image succeeds exactly when its manifest can be read, is
      well formed and the name has a tag. Then the last call sets that very
      document, as read from the archive, under the image's tag in the image's
      repository, and every call before it is a push into that repository. A
      manifest that cannot be read or parsed leaves the registry untouched. */
  lemma ImageOpsSpec(entries: map<string, Payload>, image: string, path: Option<string>)
    ensures var (ops, r) := ImageOps(entries, image, path);
      r.Ok? <==>
        (ReadManifest(entries, image, path).Ok? && WellFormed(ReadManifest(entries, image, path).value) && ':' in image)
    ensures var (ops, r) := ImageOps(entries, image, path);
      r.Ok? ==>
        path.Some? && path.value in entries && entries[path.value].ManifestText? &&
        ops != [] && Last(ops) == SetManifest(RepositoryOf(image), TagOf(image).value, entries[path.value].doc) &&
        forall k :: 0 <= k < |ops| - 1 ==> ops[k].PushBlob? && ops[k].repository == RepositoryOf(image)
    ensures var (ops, r) := ImageOps(entries, image, path);
      ReadManifest(entries, image, path).Err? || !WellFormed(ReadManifest(entries, image, path).value) ==> ops == []
  {
    TagExistsIffColon(image);
    match ReadManifest(entries, image, path) {
      case Err(_) =>
      case Ok(doc) =>
        BlobsOfShape(doc, RepositoryOf(image));
        if WellFormed(doc) {
          var bs := BlobsOf(doc, RepositoryOf(image)).value;
          BlobPushesMembers(entries, bs);
          var pushes := BlobPushes(entries, bs);
          forall k | 0 <= k < |pushes| ensures pushes[k].repository == RepositoryOf(image) {
            assert PushedBlobs(pushes)[k] in bs;
          }
        }
    }
  }

  /** The names handed on are the descriptor's names in order, up to the
      image that failed: all of them when the replay succeeds; on failure, the
      first image not handed on is the one whose load failed (or, in the
      skipping replay, that one), and the replay ends with its error. */
  lemma {:induction false} ReplayLoaded(entries: map<string, Payload>, items: Descriptor, skipNull: bool)
    ensures var rp := Replay(entries, items, skipNull);
      |rp.loaded| <= |items| && rp.loaded == KeysOf(items)[..|rp.loaded|]
    ensures var rp := Replay(entries, items, skipNull);
      rp.result.Ok? ==> rp.loaded == KeysOf(items)
    ensures var rp := Replay(entries, items, skipNull);
      rp.result.Err? ==>
        |rp.loaded| < |items| &&
        rp.result == ImageOps(entries, items[|rp.loaded|].0, items[|rp.loaded|].1).1
  {
    if items != [] {
      var init := DropLast(items);
      ReplayLoaded(entries, init, skipNull);
      assert KeysOf(items) == KeysOf(init) + [Last(items).0];
      assert KeysOf(items)[..|KeysOf(init)|] == KeysOf(init);
      var rp0 := Replay(entries, init, skipNull);
      assert KeysOf(items)[..|rp0.loaded|] == KeysOf(init)[..|rp0.loaded|];
      if rp0.result.Err? {
        assert items[|rp0.loaded|] == init[|rp0.loaded|];
      }
    }
  }

  /** In a successful replay without skipping, the registry calls are those of
      each image in descriptor order, one image's calls after the other's: an
      image is handed on only once its own calls are done. */
  lemma {:induction false} ReplayOps(entries: map<string, Payload>, items: Descriptor)
    requires Replay(entries, items, false).result.Ok?
    ensures Replay(entries, items, false).ops == Flatten(ItemOps(entries, items))
  {
    if items != [] {
      var init := DropLast(items);
      ReplayOps(entries, init);
      assert DropLast(ItemOps(entries, items)) == ItemOps(entries, init);
    }
  }

  /** The calls of each descriptor item, loaded on its own. */
  function ItemOps(entries: map<string, Payload>, items: Descriptor): seq<seq<Op>>
  {
    seq(|items|, k requires 0 <= k < |items| => ImageOps(entries, items[k].0, items[k].1).0)
  }

  /** Once the replay of a prefix has failed, the items after it change nothing. */
  lemma {:induction false} ReplayFailureSticks(entries: map<string, Payload>, items: Descriptor, n: nat, skipNull: bool)
    requires n <= |items| && Replay(entries, items[..n], skipNull).result.Err?
    ensures Replay(entries, items, skipNull) == Replay(entries, items[..n], skipNull)
    decreases |items| - n
  {
    if n < |items| {
      assert DropLast(items[..n + 1]) == items[..n];
      ReplayFailureSticks(entries, items, n + 1, skipNull);
    } else {
      assert items[..n] == items;
    }
  }

  /** A null path cannot be replayed: when some item's path is null, the
      replay that does not skip fails, at the latest at the first such item,
      and no image from there on is handed on. */
  lemma NullPathBreaksReplay(entries: map<string, Payload>, items: Descriptor, k: nat)
    requires k < |items| && items[k].1.None?
    ensures Replay(entries, items, false).result.Err?
    ensures |Replay(entries, items, false).loaded| <= k
  {
    assert DropLast(items[..k + 1]) == items[..k] && Last(items[..k + 1]) == items[k];
    ReplayLoaded(entries, items[..k], false);
    ReplayFailureSticks(entries, items, k + 1, false);
  }

  /** Without null paths, skipping nulls changes nothing. */
  lemma {:induction false} ReplayWithoutNulls(entries: map<string, Payload>, items: Descriptor)
    requires forall k :: 0 <= k < |items| ==> items[k].1.Some?
    ensures Replay(entries, items, true) == Replay(entries, items, false)
  {
    if items != [] {
      var init := DropLast(items);
      assert forall k :: 0 <= k < |init| ==> init[k] == items[k];
      ReplayWithoutNulls(entries, init);
    }
  }

  // ---------------------------------------------------------------------------
  // The decoder functions

  /** The source registry a decoder-side manifest never reads from. */
  const NoSource := SourceRegistry(map[], map[])

  /** `push_all_blobs_from_manifest`: the manifest's blob list (whose
      computation may memoize its content), then each blob's archive entry, if
      there is one, read in chunks and pushed into the blob's repository. */
  method PushAllBlobsFromManifest(src: SourceRegistry, zip: ZipFile, registry: Registry, manifest: Manifest)
    returns (r: Result<()>)
    modifies registry, manifest
    ensures var blobs := ListOfBlobs(ContentOf(old(manifest.content), manifest.side, src, manifest.name),
                                     RepositoryOf(manifest.name));
      r == (if blobs.Err? then Err(blobs.error) else Ok(())) &&
      registry.log == old(registry.log) + (if blobs.Ok? then BlobPushes(zip.entries, blobs.value) else [])
    ensures manifest.content ==
      (if old(manifest.content).None? && manifest.side == Encoder && FetchManifest(src, manifest.name).Ok?
       then Some(FetchManifest(src, manifest.name).value) else old(manifest.content))
  {
    var blobs := manifest.GetListOfBlobs(src);
    if blobs.Err? {
      return Err(blobs.error);
    }
    var list := blobs.value;
    ghost var content := manifest.content;
    ghost var ops: seq<Op> := [];
    for i := 0 to |list|
      invariant ops == BlobPushes(zip.entries, list[..i])
      invariant registry.log == old(registry.log) + ops
      invariant manifest.content == content
    {
      assert DropLast(list[..i + 1]) == list[..i] && Last(list[..i + 1]) == list[i];
      var blob := list[i];
      var entry := zip.Read(BlobPath(blob.digest));
      if entry.Ok? {
        var data := entry.value;
        if data.BlobData? {
          var f := new File(data.bytes);
          var chunks := FileToGenerator(f);
          ChunksSpec(data.bytes);
          data := BlobData(Concat(chunks));
        }
        registry.PushBlob(blob.repository, blob.digest, data);
        ops := ops + [PushBlob(blob.repository, blob.digest, data)];
      }
    }
    assert list[..|list|] == list;
    r := Ok(());
  }

  /** `load_single_image_from_zip_in_registry`: the manifest is read from the
      archive, never from a registry; the blobs are pushed; then the manifest
      is set under the image's tag in the image's repository. */
  method LoadSingleImageFromZipInRegistry(zip: ZipFile, registry: Registry, image: string, path: Option<string>)
    returns (r: Result<()>)
    modifies registry
    ensures registry.log == old(registry.log) + ImageOps(zip.entries, image, path).0
    ensures r == ImageOps(zip.entries, image, path).1
  {
    if path.None? {
      return Err(NullManifestPath(image));
    }
    var entry := zip.Read(path.value);
    if entry.Err? {
      return Err(entry.error);
    }
    if !entry.value.ManifestText? {
      return Err(MalformedManifest(RepositoryOf(image)));
    }
    var doc := entry.value.doc;
    var manifest := new Manifest(image, Decoder, Some(doc));
    var pushed := PushAllBlobsFromManifest(NoSource, zip, registry, manifest);
    if pushed.Err? {
      return pushed;
    }
    var tag := TagOf(image);
    if tag.Err? {
      return Err(tag.error);
    }
    var content := manifest.Content(NoSource);
    ghost var pushes := BlobPushes(zip.entries, BlobsOf(doc, RepositoryOf(image)).value);
    registry.SetManifest(RepositoryOf(image), tag.value, content.value);
    assert registry.log == old(registry.log) + (pushes + [SetManifest(RepositoryOf(image), tag.value, doc)]);
    r := Ok(());
  }

  /** `load_zip_images_in_registry`: the descriptor is read, then each item
      is loaded in order and its name handed on once loaded; a failure ends
      the walk, with the names handed on so far. The code as written has
      `skipNull` false; with it true, an image listed with a null path is
      handed on without being loaded. */
  method LoadZipImagesInRegistry(zip: ZipFile, registry: Registry, skipNull: bool) returns (yielded: seq<string>, r: Result<()>)
    modifies registry
    ensures registry.log == old(registry.log) + LoadRun(zip.entries, skipNull).ops
    ensures yielded == LoadRun(zip.entries, skipNull).loaded
    ensures r == LoadRun(zip.entries, skipNull).result
  {
    var descriptor := zip.Read(DescriptorPath);
    if descriptor.Err? {
      return [], Err(descriptor.error);
    }
    if !descriptor.value.DescriptorText? {
      return [], Err(MalformedDescriptor);
    }
    yielded, r := LoadItems(zip, registry, PutAll([], descriptor.value.items), skipNull);
  }

  /** The walk of `load_zip_images_in_registry` over the descriptor's items. */
  method LoadItems(zip: ZipFile, registry: Registry, items: Descriptor, skipNull: bool) returns (yielded: seq<string>, r: Result<()>)
    modifies registry
    ensures registry.log == old(registry.log) + Replay(zip.entries, items, skipNull).ops
    ensures yielded == Replay(zip.entries, items, skipNull).loaded
    ensures r == Replay(zip.entries, items, skipNull).result
  {
    yielded, r := [], Ok(());
    ghost var ops: seq<Op> := [];
    for i := 0 to |items|
      invariant Replay(zip.entries, items[..i], skipNull) == Replayed(ops, yielded, Ok(()))
      invariant registry.log == old(registry.log) + ops
    {
      var loaded, more := LoadItem(zip, registry, items, i, skipNull, ops, yielded);
      ops := ops + more;
      if loaded.Err? {
        return yielded, loaded;
      }
      yielded := yielded + [items[i].0];
    }
    assert items[..|items|] == items;
  }

  /** One step of the walk: the item is handed on without a call when the
      replay skips it, and loaded otherwise. */
  method LoadItem(zip: ZipFile, registry: Registry, items: Descriptor, i: nat, skipNull: bool,
                  ghost ops: seq<Op>, ghost loaded: seq<string>)
    returns (r: Result<()>, ghost more: seq<Op>)
    requires i < |items| && Replay(zip.entries, items[..i], skipNull) == Replayed(ops, loaded, Ok(()))
    modifies registry
    ensures registry.log == old(registry.log) + more
    ensures r.Ok? ==> Replay(zip.entries, items[..i + 1], skipNull) == Replayed(ops + more, loaded + [items[i].0], Ok(()))
    ensures r.Err? ==> Replay(zip.entries, items, skipNull) == Replayed(ops + more, loaded, r)
  {
    if skipNull && items[i].1.None? {
      ReplaySkip(zip.entries, items, i, ops, loaded);
      return Ok(()), [];
    }
    r := LoadSingleImageFromZipInRegistry(zip, registry, items[i].0, items[i].1);
    more := registry.log[|old(registry.log)|..];
    ReplayExtend(zip.entries, items, i, skipNull, ops, loaded, more, r);
  }

  /** One more item of the skipping replay, with a null path: handed on
      without a call. */
  lemma ReplaySkip(entries: map<string, Payload>, items: Descriptor, i: nat, ops: seq<Op>, loaded: seq<string>)
    requires i < |items| && Replay(entries, items[..i], true) == Replayed(ops, loaded, Ok(()))
    requires items[i].1.None?
    ensures Replay(entries, items[..i + 1], true) == Replayed(ops, loaded + [items[i].0], Ok(()))
  {
    assert DropLast(items[..i + 1]) == items[..i] && Last(items[..i + 1]) == items[i];
  }

  /** One more item of the replay, loaded: a failure ends it, a success extends it. */
  lemma ReplayExtend(entries: map<string, Payload>, items: Descriptor, i: nat, skipNull: bool,
                     ops: seq<Op>, loaded: seq<string>, more: seq<Op>, r: Result<()>)
    requires i < |items| && Replay(entries, items[..i], skipNull) == Replayed(ops, loaded, Ok(()))
    requires !(skipNull && items[i].1.None?)
    requires ImageOps(entries, items[i].0, items[i].1) == (more, r)
    ensures r.Ok? ==> Replay(entries, items[..i + 1], skipNull) == Replayed(ops + more, loaded + [items[i].0], Ok(()))
    ensures r.Err? ==> Replay(entries, items, skipNull) == Replayed(ops + more, loaded, r)
  {
    assert DropLast(items[..i + 1]) == items[..i] && Last(items[..i + 1]) == items[i];
    if r.Err? {
      ReplayFailureSticks(entries, items, i + 1, skipNull);
    }
  }

  /** `push_payload_to_registry`: `list()` of the walk, so either every name
      of the descriptor, in order, or the walk's error. */
  method PushPayloadToRegistry(zip: ZipFile, registry: Registry, skipNull: bool) returns (r: Result<seq<string>>)
    modifies registry
    ensures registry.log == old(registry.log) + LoadRun(zip.entries, skipNull).ops
    ensures registry.State() == PerformAll(old(registry.State()), LoadRun(zip.entries, skipNull).ops)
    ensures LoadRun(zip.entries, skipNull).result.Ok? ==> r == Ok(LoadRun(zip.entries, skipNull).loaded)
    ensures LoadRun(zip.entries, skipNull).result.Err? ==> r == Err(LoadRun(zip.entries, skipNull).result.error)
  {
    var yielded, result := LoadZipImagesInRegistry(zip, registry, skipNull);
    CallsEffect(registry, old(registry.log), LoadRun(zip.entries, skipNull).ops);
    if result.Err? {
      return Err(result.error);
    }
    r := Ok(yielded);
  }
}

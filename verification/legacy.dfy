/** The earlier single-file pipeline (charon/utils.py). It fetches, plans,
    writes and replays exactly as the Encoder and Decoder modules do, with
    these differences: the images already transferred are dropped instead of
    being listed, so the descriptor names the transferred images only;
    loading the archive hands no names on; and pushing the payload returns
    nothing. */
module Legacy {
  import opened Wrappers
  import opened Utils
  import opened Sequences
  import opened Stores
  import opened Encoder
  import opened Decoder
  import opened RoundTrip

  // ---------------------------------------------------------------------------
  // The encoder

  /** `remove_images_already_transferred`: the requested images that are not
      listed as already transferred, in request order, repeats kept (the
      transfer list of `SeparateSpec`). */
  method RemoveImagesAlreadyTransferred(images: seq<string>, already: seq<string>) returns (result: seq<string>)
    ensures result == Select(images, already, false)
  {
    result := [];
    for i := 0 to |images|
      invariant result == Select(images[..i], already, false)
    {
      assert DropLast(images[..i + 1]) == images[..i];
      if images[i] !in already {
        result := result + [images[i]];
      }
    }
    assert images[..|images|] == images;
  }

  /** `write_payload_descriptor_to_zip`: each manifest's name assigned its
      path, up to the shorter list, and nothing for the skipped images. */
  method WritePayloadDescriptorToZip(zip: ZipFile, manifests: seq<Manifest>, paths: seq<string>)
    modifies zip
    ensures zip.Wrote(old(zip.entries), old(zip.log),
      [Write(DescriptorPath, DescriptorText(DescriptorOf(NamesOf(manifests), paths, [])))])
  {
    Encoder.WritePayloadDescriptorToZip(zip, manifests, paths, []);
  }

  /** The legacy descriptor names each transferred image once, in order of
      first request, with the path of its manifest entry, and names nothing
      else. */
  lemma LegacyDescriptor(transfer: seq<string>)
    ensures var d := DescriptorOf(transfer, ManifestPaths(transfer), []);
      KeysOf(d) == UniqBy(transfer, Id) &&
      forall k :: 0 <= k < |d| ==> d[k].0 in transfer && d[k].1 == Some(ManifestPath(d[k].0))
  {
    assert UniqBy([], Id) == [];
    DescriptorNames(transfer, []);
    DescriptorItems(transfer, []);
  }

  /** `create_zip_from_docker_images` of charon/utils.py. The code as written
      plans with `UniquifyThenExclude`. */
  method CreateZipFromDockerImages(src: SourceRegistry, toTransfer: seq<string>, already: seq<string>, zip: ZipFile,
                                   planning: Planning)
    returns (r: Result<()>)
    modifies zip
    ensures zip.Wrote(old(zip.entries), old(zip.log), PayloadWrites(src, toTransfer, already, planning, false).0)
    ensures r == PayloadWrites(src, toTransfer, already, planning, false).1
  {
    var transfer := RemoveImagesAlreadyTransferred(toTransfer, already);
    var fetched := GetManifestsAndListOfAllBlobs(src, transfer);
    if fetched.Err? {
      PayloadWritesFetchFails(src, toTransfer, already, planning, false, fetched.error);
      assert PathsOf([]) == [];
      return Err(fetched.error);
    }
    var previous := GetManifestsAndListOfAllBlobs(src, already);
    if previous.Err? {
      PayloadWritesFetchFails(src, toTransfer, already, planning, false, previous.error);
      assert PathsOf([]) == [];
      return Err(previous.error);
    }
    var manifests := fetched.value.0;
    ghost var docs := AllBlobs(src, transfer).value.0;
    PayloadWritesFetched(src, toTransfer, already, planning, false,
      AllBlobs(src, transfer).value, AllBlobs(src, already).value);
    FetchedManifests(manifests, src, transfer, docs);
    var toPull := fetched.value.1;
    if planning == ExcludeThenUniquify {
      toPull := Select(toPull, previous.value.1, false);
    }
    var unique := UniquifyBlobs(toPull);
    r := WritePayload(src, zip, manifests, transfer, [], docs, unique, previous.value.1);
  }

  // ---------------------------------------------------------------------------
  // The decoder

  /** `load_zip_images_in_registry` of charon/utils.py: the same walk over the
      descriptor as the current decoder, handing no names on. */
  method LoadZipImagesInRegistry(zip: ZipFile, registry: Registry) returns (r: Result<()>)
    modifies registry
    ensures registry.log == old(registry.log) + LoadRun(zip.entries, false).ops
    ensures r == LoadRun(zip.entries, false).result
  {
    var _, result := Decoder.LoadZipImagesInRegistry(zip, registry, false);
    r := result;
  }

  /** `push_payload_to_registry` of charon/utils.py: the walk, returning
      nothing but its failure. */
  method PushPayloadToRegistry(zip: ZipFile, registry: Registry) returns (r: Result<()>)
    modifies registry
    ensures registry.log == old(registry.log) + LoadRun(zip.entries, false).ops
    ensures registry.State() == PerformAll(old(registry.State()), LoadRun(zip.entries, false).ops)
    ensures r == LoadRun(zip.entries, false).result
  {
    r := LoadZipImagesInRegistry(zip, registry);
    CallsEffect(registry, old(registry.log), LoadRun(zip.entries, false).ops);
  }

  // ---------------------------------------------------------------------------
  // The legacy round trip

  /** A legacy archive has no null path, so the decoder as written replays it
      exactly as the skipping replay does. */
  lemma LegacyReplayNeedsNoSkip(src: SourceRegistry, toTransfer: seq<string>, already: seq<string>, planning: Planning)
    requires PayloadWrites(src, toTransfer, already, planning, false).1.Ok?
    ensures LoadRun(Archive(src, toTransfer, already, planning, false), false) ==
      LoadRun(Archive(src, toTransfer, already, planning, false), true)
  {
    var transfer := Select(toTransfer, already, false);
    var entries := Archive(src, toTransfer, already, planning, false);
    RunDescriptor(src, toTransfer, already, planning, false);
    var d := DescriptorOf(transfer, ManifestPaths(transfer), []);
    assert forall k :: 0 <= k < |d| ==> d[k].1.Some? by {
      DescriptorItems(transfer, []);
    }
    ReplayWithoutNulls(entries, d);
  }

  /** The legacy decoder, as written, replays a successful legacy run's
      archive without error and loads exactly the transferred images, each
      once, in order of first request. */
  lemma LegacyRoundTripLoads(src: SourceRegistry, toTransfer: seq<string>, already: seq<string>, planning: Planning)
    requires PayloadWrites(src, toTransfer, already, planning, false).1.Ok?
    ensures LoadRun(Archive(src, toTransfer, already, planning, false), false).result.Ok?
    ensures LoadRun(Archive(src, toTransfer, already, planning, false), false).loaded ==
      UniqBy(Select(toTransfer, already, false), Id)
  {
    LegacyReplayNeedsNoSkip(src, toTransfer, already, planning);
    RoundTripLoads(src, toTransfer, already, planning, false);
    assert UniqBy([], Id) == [];
  }

  /** After the legacy decoder's replay of that archive, the destination
      serves each transferred image's manifest exactly as the source registry
      does. */
  lemma LegacyRoundTripManifest(src: SourceRegistry, toTransfer: seq<string>, already: seq<string>, planning: Planning,
                                before: RegistryState, image: string)
    requires PayloadWrites(src, toTransfer, already, planning, false).1.Ok?
    requires ManifestPathsDistinct(Select(toTransfer, already, false))
    requires image in toTransfer && image !in already
    ensures TagOf(image).Ok?
    ensures var key := (RepositoryOf(image), TagOf(image).value);
      var after := PerformAll(before, LoadRun(Archive(src, toTransfer, already, planning, false), false).ops);
      key in src.manifests && key in after.manifests && after.manifests[key] == src.manifests[key]
  {
    LegacyReplayNeedsNoSkip(src, toTransfer, already, planning);
    RoundTripManifest(src, toTransfer, already, planning, false, before, image);
  }
}

/** What the decoder makes of an archive the encoder wrote. The archive holds
    the descriptor, one manifest entry per transferred image and one entry per
    planned blob. Replayed with null items skipped, it loads every image the
    descriptor names. Afterwards the destination serves each transferred
    image's manifest exactly as the source registry serves it, and every
    manifest it was given is one the source registry serves. When the
    already-transferred blobs are excluded before deduplication, it also holds
    the source's bytes for every blob of a transferred image that was not
    transferred before. */
module RoundTrip {
  import opened Wrappers
  import opened Utils
  import opened Sequences
  import opened Stores
  import opened Encoder
  import opened Decoder

  // ---------------------------------------------------------------------------
  // The descriptor survives `json.dumps` and `json.loads`

  /** No name occurs twice among the descriptor's items. */
  predicate DistinctNames(d: Descriptor)
  {
    forall i, j :: 0 <= i < j < |d| ==> d[i].0 != d[j].0
  }

  /** Assigning a key the dict does not have appends it. */
  lemma {:induction false} PutNew(d: Descriptor, key: string, value: Option<string>)
    requires key !in KeysOf(d)
    ensures Put(d, key, value) == d + [(key, value)]
  {
    if d != [] {
      assert KeysOf(d)[0] == d[0].0 && KeysOf(d[1..]) == KeysOf(d)[1..];
      PutNew(d[1..], key, value);
      assert [d[0]] + (d[1..] + [(key, value)]) == d + [(key, value)];
    }
  }

  /** Loading the items of a dict with distinct names rebuilds that dict. */
  lemma {:induction false} PutAllDistinct(d: Descriptor)
    requires DistinctNames(d)
    ensures PutAll([], d) == d
  {
    if d != [] {
      var init := DropLast(d);
      PutAllDistinct(init);
      PutNew(init, Last(d).0, Last(d).1);
      assert init + [Last(d)] == d;
    }
  }

  /** With distinct names, looking up an item's name finds that item's value. */
  lemma {:induction false} LookupAt(d: Descriptor, k: nat)
    requires DistinctNames(d) && k < |d|
    ensures Lookup(d, d[k].0) == Some(d[k].1)
  {
    if k > 0 {
      assert d[0].0 != d[k].0;
      LookupAt(d[1..], k - 1);
    }
  }

  /** Deduplicating two disjoint lists, one after the other, leaves no name
      twice and nothing that is in neither. */
  lemma UniqNamesDisjoint(a: seq<string>, b: seq<string>)
    requires forall x :: x in a ==> x !in b
    ensures var u := UniqBy(a, Id) + UniqBy(b, Id);
      (forall i, j :: 0 <= i < j < |u| ==> u[i] != u[j]) && (forall x :: x in u ==> x in a || x in b)
  {
    var ua, ub := UniqBy(a, Id), UniqBy(b, Id);
    UniqByKeys(a, Id);
    UniqByKeys(b, Id);
    UniqBySubseq(a, Id);
    UniqBySubseq(b, Id);
    SubseqMembers(ua, a);
    SubseqMembers(ub, b);
    var u := ua + ub;
    forall i, j | 0 <= i < j < |u| ensures u[i] != u[j] {
      if j < |ua| {
        assert Id(ua[i]) != Id(ua[j]);
      } else if |ua| <= i {
        assert Id(ub[i - |ua|]) != Id(ub[j - |ua|]);
      } else {
        assert u[i] in a && u[j] in b;
      }
    }
  }

  /** The names of the descriptor of transferred images and disjoint skipped
      ones: the transferred images, then the skipped ones, each once in order
      of first appearance. */
  lemma DescriptorNames(transfer: seq<string>, skip: seq<string>)
    requires forall x :: x in transfer ==> x !in skip
    ensures var d := DescriptorOf(transfer, ManifestPaths(transfer), skip);
      KeysOf(d) == UniqBy(transfer, Id) + UniqBy(skip, Id) && DistinctNames(d) &&
      forall k :: 0 <= k < |d| ==> d[k].0 in transfer || d[k].0 in skip
  {
    var d := DescriptorOf(transfer, ManifestPaths(transfer), skip);
    DescriptorKeys(transfer, skip);
    UniqNamesDisjoint(transfer, skip);
    assert forall k :: 0 <= k < |d| ==> d[k].0 == KeysOf(d)[k];
  }

  /** Each item of that descriptor is a transferred image paired with its
      manifest path or a skipped image paired with null. */
  lemma DescriptorItems(transfer: seq<string>, skip: seq<string>)
    requires forall x :: x in transfer ==> x !in skip
    ensures var d := DescriptorOf(transfer, ManifestPaths(transfer), skip);
      DistinctNames(d) &&
      forall k :: 0 <= k < |d| ==>
        (d[k].0 in transfer && d[k].1 == Some(ManifestPath(d[k].0))) || (d[k].0 in skip && d[k].1.None?)
  {
    var d := DescriptorOf(transfer, ManifestPaths(transfer), skip);
    DescriptorNames(transfer, skip);
    DescriptorLookups(transfer, skip);
    forall k | 0 <= k < |d|
      ensures (d[k].0 in transfer && d[k].1 == Some(ManifestPath(d[k].0))) || (d[k].0 in skip && d[k].1.None?)
    {
      LookupAt(d, k);
    }
  }

  /** Every transferred image has an item pointing at its manifest path. */
  lemma DescriptorHasTransferred(transfer: seq<string>, skip: seq<string>, n: string) returns (k: nat)
    requires forall x :: x in transfer ==> x !in skip
    requires n in transfer
    ensures var d := DescriptorOf(transfer, ManifestPaths(transfer), skip);
      k < |d| && d[k] == (n, Some(ManifestPath(n)))
  {
    var d := DescriptorOf(transfer, ManifestPaths(transfer), skip);
    var ut := UniqBy(transfer, Id);
    DescriptorNames(transfer, skip);
    KeySetMembers(transfer, Id);
    UniqByKeys(transfer, Id);
    KeySetMembers(ut, Id);
    assert Id(n) in KeySet(ut, Id);
    var i :| 0 <= i < |ut| && Id(ut[i]) == n;
    k := i;
    assert d[k].0 == KeysOf(d)[k];
    DescriptorItems(transfer, skip);
  }

  // ---------------------------------------------------------------------------
  // What the archive holds

  /** No two transferred images share a manifest path (two names that differ
      only by "/" against "_" would). */
  predicate ManifestPathsDistinct(names: seq<string>)
  {
    forall i, j :: 0 <= i < |names| && 0 <= j < |names| && ManifestPath(names[i]) == ManifestPath(names[j]) ==>
      names[i] == names[j]
  }

  /** The entry of digest `d` holds the source registry's bytes for `d`, as
      stored in some repository. */
  ghost predicate HoldsSourceBlob(src: SourceRegistry, entries: map<string, Payload>, d: Digest)
  {
    BlobPath(d) in entries && exists r :: (r, d) in src.blobs && entries[BlobPath(d)] == BlobData(src.blobs[(r, d)])
  }

  /** Blob paths, manifest paths and the descriptor path never meet. */
  lemma PathsDiffer(d: Digest, n: string)
    ensures BlobPath(d) != ManifestPath(n) && BlobPath(d) != DescriptorPath && ManifestPath(n) != DescriptorPath
  {
    assert BlobPath(d)[0] == 'b' && ManifestPath(n)[0] == 'm' && DescriptorPath[0] == 'p';
  }

  /** The manifest writes of fetched documents: one per image, in order, each
      at the image's path; the paths handed on are those paths. */
  lemma FetchedWrites(transfer: seq<string>, docs: seq<ManifestDoc>)
    requires |docs| == |transfer|
    ensures var (mw, mr) := ManifestWrites(Fetched(transfer, docs));
      mr == Ok(ManifestPaths(transfer)) && |mw| == |transfer| &&
      forall k :: 0 <= k < |transfer| ==> mw[k] == Write(ManifestPath(transfer[k]), ManifestText(docs[k]))
  {
    var items := Fetched(transfer, docs);
    ManifestWritesSpec(items);
    assert forall k :: 0 <= k < |items| ==> items[k].1.Ok?;
    var paths := ManifestWrites(items).1.value;
    assert forall k :: 0 <= k < |transfer| ==> paths[k] == ManifestPaths(transfer)[k];
    assert paths == ManifestPaths(transfer);
  }

  /** What a run writes once its blobs are written: the manifests, then the
      descriptor. */
  function AfterBlobs(transfer: seq<string>, skip: seq<string>, docs: seq<ManifestDoc>): seq<Write>
    requires |docs| == |transfer|
  {
    ManifestWrites(Fetched(transfer, docs)).0 + [DescriptorWrite(transfer, ManifestPaths(transfer), skip)]
  }

  /** A successful run writes its blobs, then the manifests and the descriptor. */
  lemma ZipWritesOk(src: SourceRegistry, transfer: seq<string>, skip: seq<string>, docs: seq<ManifestDoc>,
                    planned: seq<Blob>, previousBlobs: seq<Blob>)
    requires |docs| == |transfer|
    requires ZipWrites(src, transfer, skip, docs, planned, previousBlobs).1.Ok?
    ensures BlobWrites(src, planned, previousBlobs).1.Ok?
    ensures ZipWrites(src, transfer, skip, docs, planned, previousBlobs).0 ==
      BlobWrites(src, planned, previousBlobs).0 + AfterBlobs(transfer, skip, docs)
  {
    var bw := BlobWrites(src, planned, previousBlobs).0;
    var mw := ManifestWrites(Fetched(transfer, docs)).0;
    var dw := DescriptorWrite(transfer, ManifestPaths(transfer), skip);
    FetchedWrites(transfer, docs);
    assert bw + mw + [dw] == bw + (mw + [dw]);
  }

  /** Nothing written after the blobs lands on a blob path. */
  lemma AfterBlobsAvoid(transfer: seq<string>, skip: seq<string>, docs: seq<ManifestDoc>, d: Digest)
    requires |docs| == |transfer|
    ensures BlobPath(d) !in PathsOf(AfterBlobs(transfer, skip, docs))
  {
    var rest := AfterBlobs(transfer, skip, docs);
    var mw := ManifestWrites(Fetched(transfer, docs)).0;
    FetchedWrites(transfer, docs);
    forall m | 0 <= m < |rest| ensures PathsOf(rest)[m] != BlobPath(d) {
      if m < |mw| {
        PathsDiffer(d, transfer[m]);
      } else {
        PathsDiffer(d, []);
      }
    }
  }

  /** After the manifests and the descriptor, each transferred image's path
      holds its document, provided images sharing a path share a document. */
  lemma AfterBlobsManifest(entries: map<string, Payload>, transfer: seq<string>, skip: seq<string>,
                           docs: seq<ManifestDoc>, k: nat)
    requires |docs| == |transfer| && k < |transfer|
    requires forall i :: 0 <= i < |transfer| && ManifestPath(transfer[i]) == ManifestPath(transfer[k]) ==> docs[i] == docs[k]
    ensures var e := Apply(entries, AfterBlobs(transfer, skip, docs));
      ManifestPath(transfer[k]) in e && e[ManifestPath(transfer[k])] == ManifestText(docs[k])
  {
    var mw := ManifestWrites(Fetched(transfer, docs)).0;
    var p := ManifestPath(transfer[k]);
    FetchedWrites(transfer, docs);
    assert PathsOf(mw)[k] == p;
    ApplyWritten(entries, mw, p, ManifestText(docs[k]));
    PathsDiffer([], transfer[k]);
    WroteOne(entries, mw, DescriptorWrite(transfer, ManifestPaths(transfer), skip));
  }

  /** After the manifests and the descriptor, the descriptor entry holds the
      descriptor. */
  lemma AfterBlobsDescriptor(entries: map<string, Payload>, transfer: seq<string>, skip: seq<string>,
                             docs: seq<ManifestDoc>)
    requires |docs| == |transfer|
    ensures var e := Apply(entries, AfterBlobs(transfer, skip, docs));
      DescriptorPath in e && e[DescriptorPath] == DescriptorText(DescriptorOf(transfer, ManifestPaths(transfer), skip))
  {
    WroteOne(entries, ManifestWrites(Fetched(transfer, docs)).0, DescriptorWrite(transfer, ManifestPaths(transfer), skip));
  }

  /** With disjoint transferred and skipped images, the descriptor entry
      written after the manifests loads back as the very descriptor written:
      `json.loads` of `json.dumps` of a dict with distinct names. */
  lemma DescriptorReadsBack(entries: map<string, Payload>, transfer: seq<string>, skip: seq<string>,
                            docs: seq<ManifestDoc>)
    requires |docs| == |transfer|
    requires forall x :: x in transfer ==> x !in skip
    ensures ReadDescriptor(Apply(entries, AfterBlobs(transfer, skip, docs))) ==
      Ok(DescriptorOf(transfer, ManifestPaths(transfer), skip))
  {
    AfterBlobsDescriptor(entries, transfer, skip, docs);
    DescriptorNames(transfer, skip);
    PutAllDistinct(DescriptorOf(transfer, ManifestPaths(transfer), skip));
  }

  /** The blob writes leave, under the digest of each planned blob that was
      not transferred before, the source's bytes for that digest. */
  lemma BlobsHold(src: SourceRegistry, entries: map<string, Payload>, planned: seq<Blob>, previousBlobs: seq<Blob>, b: Blob)
    requires BlobWrites(src, planned, previousBlobs).1.Ok?
    requires b in planned && b !in previousBlobs
    ensures HoldsSourceBlob(src, Apply(entries, BlobWrites(src, planned, previousBlobs).0), b.digest)
  {
    var bw := BlobWrites(src, planned, previousBlobs).0;
    var p := BlobPath(b.digest);
    var sel := Select(planned, previousBlobs, false);
    BlobWritesSpec(src, planned, previousBlobs);
    SelectMembers(planned, previousBlobs, false);
    var i :| 0 <= i < |sel| && sel[i] == b;
    assert PathsOf(bw)[i] == p;
    ApplyLastWrite(entries, bw, p);
    var j :| 0 <= j < |bw| && bw[j].path == p && Apply(entries, bw)[p] == bw[j].payload;
    BlobPathInjective(sel[j].digest, b.digest);
  }

  /** A blob's entry outlives writes to other paths. */
  lemma HoldsUntouched(src: SourceRegistry, entries: map<string, Payload>, writes: seq<Write>, d: Digest)
    requires HoldsSourceBlob(src, entries, d) && BlobPath(d) !in PathsOf(writes)
    ensures HoldsSourceBlob(src, Apply(entries, writes), d)
  {
    ApplyUntouched(entries, writes, BlobPath(d));
  }

  // ---------------------------------------------------------------------------
  // A run of the encoder

  /** The archive a run of `create_zip_from_docker_images` writes, read back;
      `nulls` as in `PayloadWrites`. */
  function Archive(src: SourceRegistry, toTransfer: seq<string>, already: seq<string>, planning: Planning, nulls: bool)
    : map<string, Payload>
  {
    Apply(map[], PayloadWrites(src, toTransfer, already, planning, nulls).0)
  }

  /** The images a run's descriptor lists with null. */
  function Skipped(toTransfer: seq<string>, already: seq<string>, nulls: bool): seq<string>
  {
    if nulls then Select(toTransfer, already, true) else []
  }

  /** No transferred image is listed with null. */
  lemma SkippedDisjoint(toTransfer: seq<string>, already: seq<string>, nulls: bool)
    ensures forall x :: x in Select(toTransfer, already, false) ==> x !in Skipped(toTransfer, already, nulls)
  {
    SeparateSpec(toTransfer, already);
  }

  /** A successful run fetched both lists and wrote its blobs, then the
      manifests and the descriptor. */
  lemma RunWrites(src: SourceRegistry, toTransfer: seq<string>, already: seq<string>, planning: Planning, nulls: bool)
    requires PayloadWrites(src, toTransfer, already, planning, nulls).1.Ok?
    ensures var transfer := Select(toTransfer, already, false);
      AllBlobs(src, transfer).Ok? && AllBlobs(src, already).Ok? &&
      var docs := AllBlobs(src, transfer).value.0;
      var previousBlobs := AllBlobs(src, already).value.1;
      var planned := PlannedBlobs(planning, AllBlobs(src, transfer).value.1, previousBlobs);
      BlobWrites(src, planned, previousBlobs).1.Ok? &&
      Archive(src, toTransfer, already, planning, nulls) ==
        Apply(Apply(map[], BlobWrites(src, planned, previousBlobs).0),
              AfterBlobs(transfer, Skipped(toTransfer, already, nulls), docs))
  {
    var transfer, skip := Select(toTransfer, already, false), Skipped(toTransfer, already, nulls);
    var fetched, previous := AllBlobs(src, transfer).value, AllBlobs(src, already).value;
    var planned := PlannedBlobs(planning, fetched.1, previous.1);
    PayloadWritesFetched(src, toTransfer, already, planning, nulls, fetched, previous);
    ZipWritesOk(src, transfer, skip, fetched.0, planned, previous.1);
    ApplyAppend(map[], BlobWrites(src, planned, previous.1).0, AfterBlobs(transfer, skip, fetched.0));
  }

  /** What the decoder relies on in an archive: the transferred and skipped
      images are disjoint, the descriptor entry reads back as their
      descriptor, and each transferred image's path holds the document the
      source registry serves for it. */
  ghost predicate ArchiveOf(src: SourceRegistry, transfer: seq<string>, skip: seq<string>, entries: map<string, Payload>)
  {
    (forall x :: x in transfer ==> x !in skip) &&
    ReadDescriptor(entries) == Ok(DescriptorOf(transfer, ManifestPaths(transfer), skip)) &&
    forall n :: n in transfer ==>
      ImageBlobs(src, n).Ok? && ManifestPath(n) in entries &&
      entries[ManifestPath(n)] == ManifestText(ImageBlobs(src, n).value.0)
  }

  /** The entry at an image's manifest path is a well-formed manifest
      document and the image's name has a tag: what loading the image needs,
      whichever image's document the path ended up holding. */
  ghost predicate LoadableAt(entries: map<string, Payload>, n: string)
  {
    TagOf(n).Ok? && ManifestPath(n) in entries &&
    entries[ManifestPath(n)].ManifestText? && WellFormed(entries[ManifestPath(n)].doc)
  }

  /** What the skipping replay needs to load every image of an archive: the
      transferred and skipped images are disjoint, the descriptor entry reads
      back as their descriptor, and each transferred image is loadable. */
  ghost predicate LoadableArchiveOf(transfer: seq<string>, skip: seq<string>, entries: map<string, Payload>)
  {
    (forall x :: x in transfer ==> x !in skip) &&
    ReadDescriptor(entries) == Ok(DescriptorOf(transfer, ManifestPaths(transfer), skip)) &&
    forall n :: n in transfer ==> LoadableAt(entries, n)
  }

  /** An archive that holds each image's own document is loadable. */
  lemma ArchiveLoadable(src: SourceRegistry, transfer: seq<string>, skip: seq<string>, entries: map<string, Payload>)
    requires ArchiveOf(src, transfer, skip, entries)
    ensures LoadableArchiveOf(transfer, skip, entries)
  {
    forall n | n in transfer ensures LoadableAt(entries, n) {
      BlobsOfShape(ImageBlobs(src, n).value.0, RepositoryOf(n));
    }
  }

  /** A loadable image loads: its document is read and its blobs listed, and
      its manifest is set under its tag. */
  lemma LoadableImageOps(entries: map<string, Payload>, n: string)
    requires LoadableAt(entries, n)
    ensures ImageOps(entries, n, Some(ManifestPath(n))).1.Ok?
  {
    BlobsOfShape(entries[ManifestPath(n)].doc, RepositoryOf(n));
  }

  /** After the manifests and the descriptor, each transferred image's path
      holds a well-formed document, even when several images share the path. */
  lemma AfterBlobsWellFormed(entries: map<string, Payload>, transfer: seq<string>, skip: seq<string>,
                             docs: seq<ManifestDoc>, k: nat)
    requires |docs| == |transfer| && k < |transfer|
    requires forall i :: 0 <= i < |docs| ==> WellFormed(docs[i])
    ensures var e := Apply(entries, AfterBlobs(transfer, skip, docs));
      ManifestPath(transfer[k]) in e && e[ManifestPath(transfer[k])].ManifestText? &&
      WellFormed(e[ManifestPath(transfer[k])].doc)
  {
    var mw := ManifestWrites(Fetched(transfer, docs)).0;
    var p := ManifestPath(transfer[k]);
    FetchedWrites(transfer, docs);
    assert PathsOf(mw)[k] == p;
    ApplyLastWrite(entries, mw, p);
    var j :| 0 <= j < |mw| && mw[j].path == p && Apply(entries, mw)[p] == mw[j].payload;
    assert mw[j].payload == ManifestText(docs[j]);
    PathsDiffer([], transfer[k]);
    WroteOne(entries, mw, DescriptorWrite(transfer, ManifestPaths(transfer), skip));
  }

  /** Every successful run writes a loadable archive, whether or not two of
      its images share a manifest path. */
  lemma LoadableArchiveOfRun(src: SourceRegistry, toTransfer: seq<string>, already: seq<string>, planning: Planning,
                             nulls: bool)
    requires PayloadWrites(src, toTransfer, already, planning, nulls).1.Ok?
    ensures LoadableArchiveOf(Select(toTransfer, already, false), Skipped(toTransfer, already, nulls),
                              Archive(src, toTransfer, already, planning, nulls))
  {
    var transfer, skip := Select(toTransfer, already, false), Skipped(toTransfer, already, nulls);
    SkippedDisjoint(toTransfer, already, nulls);
    RunDescriptor(src, toTransfer, already, planning, nulls);
    RunWrites(src, toTransfer, already, planning, nulls);
    var docs := AllBlobs(src, transfer).value.0;
    var previousBlobs := AllBlobs(src, already).value.1;
    var planned := PlannedBlobs(planning, AllBlobs(src, transfer).value.1, previousBlobs);
    var e1 := Apply(map[], BlobWrites(src, planned, previousBlobs).0);
    var entries := Archive(src, toTransfer, already, planning, nulls);
    FetchedLoadable(src, transfer);
    forall n | n in transfer ensures LoadableAt(entries, n) {
      var k :| 0 <= k < |transfer| && transfer[k] == n;
      AfterBlobsWellFormed(e1, transfer, skip, docs, k);
    }
  }

  /** Every fetched document is well formed and every fetched name has a tag. */
  lemma FetchedLoadable(src: SourceRegistry, transfer: seq<string>)
    requires AllBlobs(src, transfer).Ok?
    ensures |AllBlobs(src, transfer).value.0| == |transfer|
    ensures forall i :: 0 <= i < |transfer| ==>
      WellFormed(AllBlobs(src, transfer).value.0[i]) && TagOf(transfer[i]).Ok?
  {
    AllBlobsDocs(src, transfer);
    forall i | 0 <= i < |transfer|
      ensures WellFormed(AllBlobs(src, transfer).value.0[i]) && TagOf(transfer[i]).Ok?
    {
      BlobsOfShape(AllBlobs(src, transfer).value.0[i], RepositoryOf(transfer[i]));
    }
  }

  /** A successful run whose transferred images have distinct manifest paths
      writes such an archive. */
  lemma ArchiveOfRun(src: SourceRegistry, toTransfer: seq<string>, already: seq<string>, planning: Planning, nulls: bool)
    requires PayloadWrites(src, toTransfer, already, planning, nulls).1.Ok?
    requires ManifestPathsDistinct(Select(toTransfer, already, false))
    ensures ArchiveOf(src, Select(toTransfer, already, false), Skipped(toTransfer, already, nulls),
                      Archive(src, toTransfer, already, planning, nulls))
  {
    SkippedDisjoint(toTransfer, already, nulls);
    RunDescriptor(src, toTransfer, already, planning, nulls);
    RunManifests(src, toTransfer, already, planning, nulls);
  }

  /** The descriptor entry of a successful run's archive reads back as the
      descriptor the run built. */
  lemma RunDescriptor(src: SourceRegistry, toTransfer: seq<string>, already: seq<string>, planning: Planning, nulls: bool)
    requires PayloadWrites(src, toTransfer, already, planning, nulls).1.Ok?
    ensures var transfer := Select(toTransfer, already, false);
      ReadDescriptor(Archive(src, toTransfer, already, planning, nulls)) ==
        Ok(DescriptorOf(transfer, ManifestPaths(transfer), Skipped(toTransfer, already, nulls)))
  {
    var transfer, skip := Select(toTransfer, already, false), Skipped(toTransfer, already, nulls);
    RunWrites(src, toTransfer, already, planning, nulls);
    var docs := AllBlobs(src, transfer).value.0;
    var previousBlobs := AllBlobs(src, already).value.1;
    var planned := PlannedBlobs(planning, AllBlobs(src, transfer).value.1, previousBlobs);
    SkippedDisjoint(toTransfer, already, nulls);
    DescriptorReadsBack(Apply(map[], BlobWrites(src, planned, previousBlobs).0), transfer, skip, docs);
  }

  /** In a successful run's archive, each transferred image's path holds the
      document the source registry serves for it. */
  lemma RunManifests(src: SourceRegistry, toTransfer: seq<string>, already: seq<string>, planning: Planning, nulls: bool)
    requires PayloadWrites(src, toTransfer, already, planning, nulls).1.Ok?
    requires ManifestPathsDistinct(Select(toTransfer, already, false))
    ensures var entries := Archive(src, toTransfer, already, planning, nulls);
      forall n :: n in Select(toTransfer, already, false) ==>
        ImageBlobs(src, n).Ok? && ManifestPath(n) in entries &&
        entries[ManifestPath(n)] == ManifestText(ImageBlobs(src, n).value.0)
  {
    var transfer, skip := Select(toTransfer, already, false), Skipped(toTransfer, already, nulls);
    RunWrites(src, toTransfer, already, planning, nulls);
    var docs := AllBlobs(src, transfer).value.0;
    var previousBlobs := AllBlobs(src, already).value.1;
    var planned := PlannedBlobs(planning, AllBlobs(src, transfer).value.1, previousBlobs);
    var e1 := Apply(map[], BlobWrites(src, planned, previousBlobs).0);
    var entries := Archive(src, toTransfer, already, planning, nulls);
    AllBlobsDocs(src, transfer);
    forall n | n in transfer
      ensures ImageBlobs(src, n).Ok? && ManifestPath(n) in entries &&
        entries[ManifestPath(n)] == ManifestText(ImageBlobs(src, n).value.0)
    {
      var k :| 0 <= k < |transfer| && transfer[k] == n;
      AfterBlobsManifest(e1, transfer, skip, docs, k);
    }
  }

  /** With already-transferred blobs excluded before deduplication, the
      archive holds the source's bytes under the digest of each blob of a
      transferred image that no already-transferred image has. */
  lemma BlobArchived(src: SourceRegistry, toTransfer: seq<string>, already: seq<string>, nulls: bool, image: string, b: Blob)
    requires PayloadWrites(src, toTransfer, already, ExcludeThenUniquify, nulls).1.Ok?
    requires image in toTransfer && image !in already
    requires ImageBlobs(src, image).Ok? && b in ImageBlobs(src, image).value.1
    requires AllBlobs(src, already).Ok? && b !in AllBlobs(src, already).value.1
    ensures HoldsSourceBlob(src, Archive(src, toTransfer, already, ExcludeThenUniquify, nulls), b.digest)
  {
    var transfer, skip := Select(toTransfer, already, false), Skipped(toTransfer, already, nulls);
    RunWrites(src, toTransfer, already, ExcludeThenUniquify, nulls);
    var docs := AllBlobs(src, transfer).value.0;
    var previousBlobs := AllBlobs(src, already).value.1;
    var planned := PlannedBlobs(ExcludeThenUniquify, AllBlobs(src, transfer).value.1, previousBlobs);
    SeparateSpec(toTransfer, already);
    var k :| 0 <= k < |transfer| && transfer[k] == image;
    AllBlobsMembers(src, transfer, k, b);
    var p := PlannedEntry(AllBlobs(src, transfer).value.1, previousBlobs, b);
    BlobsHold(src, map[], planned, previousBlobs, p);
    AfterBlobsAvoid(transfer, skip, docs, b.digest);
    HoldsUntouched(src, Apply(map[], BlobWrites(src, planned, previousBlobs).0), AfterBlobs(transfer, skip, docs), b.digest);
  }

  /** A blob not transferred before has a planned blob with its digest that
      was not transferred before either. */
  lemma PlannedEntry(fetched: seq<Blob>, previous: seq<Blob>, b: Blob) returns (p: Blob)
    requires b in fetched && b !in previous
    ensures p in PlannedBlobs(ExcludeThenUniquify, fetched, previous) && p !in previous && p.digest == b.digest
  {
    var sel := Select(fetched, previous, false);
    var planned := UniqBy(sel, DigestOf);
    SelectMembers(fetched, previous, false);
    KeySetMembers(sel, DigestOf);
    UniqByKeys(sel, DigestOf);
    KeySetMembers(planned, DigestOf);
    var i :| 0 <= i < |sel| && sel[i] == b;
    assert DigestOf(b) in KeySet(planned, DigestOf);
    var j :| 0 <= j < |planned| && DigestOf(planned[j]) == b.digest;
    UniqBySubseq(sel, DigestOf);
    SubseqMembers(planned, sel);
    p := planned[j];
  }

  // ---------------------------------------------------------------------------
  // What the replay does

  /** The skipping replay succeeds when every item with a path loads. */
  lemma {:induction false} ReplaySkippingOk(entries: map<string, Payload>, items: Descriptor)
    requires forall k :: 0 <= k < |items| && items[k].1.Some? ==> ImageOps(entries, items[k].0, items[k].1).1.Ok?
    ensures Replay(entries, items, true).result.Ok?
  {
    if items != [] {
      var init := DropLast(items);
      assert forall k :: 0 <= k < |init| ==> init[k] == items[k];
      ReplaySkippingOk(entries, init);
      assert Last(items) == items[|items| - 1];
    }
  }

  /** Every registry call of a replay is a call of loading one of its items. */
  lemma {:induction false} ReplayOpsFrom(entries: map<string, Payload>, items: Descriptor, skipNull: bool)
    ensures forall op :: op in Replay(entries, items, skipNull).ops ==>
      exists k :: 0 <= k < |items| && op in ImageOps(entries, items[k].0, items[k].1).0
  {
    if items != [] {
      var init := DropLast(items);
      ReplayOpsFrom(entries, init, skipNull);
      assert forall k :: 0 <= k < |init| ==> init[k] == items[k];
      assert Last(items) == items[|items| - 1];
    }
  }

  /** A successful replay makes every call of loading each item it loads. */
  lemma {:induction false} ReplayOpsInclude(entries: map<string, Payload>, items: Descriptor, skipNull: bool, k: nat)
    requires Replay(entries, items, skipNull).result.Ok?
    requires k < |items| && !(skipNull && items[k].1.None?)
    ensures forall op :: op in ImageOps(entries, items[k].0, items[k].1).0 ==> op in Replay(entries, items, skipNull).ops
  {
    var init := DropLast(items);
    if k < |init| {
      assert init[k] == items[k];
      ReplayOpsInclude(entries, init, skipNull, k);
    } else {
      assert Last(items) == items[k];
    }
  }

  /** Every call of loading one image is a push of the archive entry of the
      pushed digest, or the setting, under the image's repository and tag, of
      the document the image's path holds. */
  lemma ImageOpsCalls(entries: map<string, Payload>, image: string, path: Option<string>)
    ensures forall op :: op in ImageOps(entries, image, path).0 ==>
      (op.PushBlob? && PushFromArchive(entries, op)) ||
      (op.SetManifest? && path.Some? && path.value in entries && entries[path.value] == ManifestText(op.doc) &&
       op.repository == RepositoryOf(image) && TagOf(image) == Ok(op.tag))
  {
    match ReadManifest(entries, image, path) {
      case Err(_) =>
      case Ok(doc) =>
        match BlobsOf(doc, RepositoryOf(image)) {
          case Err(_) =>
          case Ok(bs) =>
            BlobPushesData(entries, bs);
        }
    }
  }

  /** A transferred image whose path holds its fetched document loads: its
      blobs' entries are pushed, then the document is set under its tag. */
  lemma TransferredImageOps(src: SourceRegistry, entries: map<string, Payload>, image: string)
    requires ImageBlobs(src, image).Ok?
    requires ManifestPath(image) in entries && entries[ManifestPath(image)] == ManifestText(ImageBlobs(src, image).value.0)
    ensures TagOf(image).Ok?
    ensures ImageOps(entries, image, Some(ManifestPath(image))) ==
      (BlobPushes(entries, ImageBlobs(src, image).value.1) +
         [SetManifest(RepositoryOf(image), TagOf(image).value, ImageBlobs(src, image).value.0)], Ok(()))
  {
  }

  /** The skipping replay of such an archive succeeds and hands on every name
      of the descriptor. */
  lemma ReplayOfArchive(transfer: seq<string>, skip: seq<string>, entries: map<string, Payload>)
    requires LoadableArchiveOf(transfer, skip, entries)
    ensures LoadRun(entries, true).result.Ok?
    ensures LoadRun(entries, true).loaded == UniqBy(transfer, Id) + UniqBy(skip, Id)
  {
    var d := DescriptorOf(transfer, ManifestPaths(transfer), skip);
    DescriptorItems(transfer, skip);
    forall k | 0 <= k < |d| && d[k].1.Some? ensures ImageOps(entries, d[k].0, d[k].1).1.Ok? {
      LoadableImageOps(entries, d[k].0);
    }
    ReplaySkippingOk(entries, d);
    ReplayLoaded(entries, d, true);
    DescriptorNames(transfer, skip);
  }

  /** Whatever the archive, every push of a replay carries the archive entry
      of the pushed digest. */
  lemma ReplayPushes(entries: map<string, Payload>, skipNull: bool)
    ensures forall op :: op in LoadRun(entries, skipNull).ops && op.PushBlob? ==> PushFromArchive(entries, op)
  {
    match ReadDescriptor(entries) {
      case Err(_) =>
      case Ok(items) =>
        ReplayOpsFrom(entries, items, skipNull);
        forall op | op in Replay(entries, items, skipNull).ops && op.PushBlob? ensures PushFromArchive(entries, op) {
          var k :| 0 <= k < |items| && op in ImageOps(entries, items[k].0, items[k].1).0;
          ImageOpsCalls(entries, items[k].0, items[k].1);
        }
    }
  }

  /** Every manifest the skipping replay sets is the source registry's
      document for that repository and tag. */
  lemma ReplaySets(src: SourceRegistry, transfer: seq<string>, skip: seq<string>, entries: map<string, Payload>)
    requires ArchiveOf(src, transfer, skip, entries)
    ensures forall op :: op in LoadRun(entries, true).ops && op.SetManifest? ==>
      (op.repository, op.tag) in src.manifests && op.doc == src.manifests[(op.repository, op.tag)]
  {
    var d := DescriptorOf(transfer, ManifestPaths(transfer), skip);
    DescriptorItems(transfer, skip);
    ReplayOpsFrom(entries, d, true);
    forall op | op in Replay(entries, d, true).ops && op.SetManifest?
      ensures (op.repository, op.tag) in src.manifests && op.doc == src.manifests[(op.repository, op.tag)]
    {
      var k :| 0 <= k < |d| && op in ImageOps(entries, d[k].0, d[k].1).0;
      ImageOpsCalls(entries, d[k].0, d[k].1);
      TransferredImageOps(src, entries, d[k].0);
    }
  }

  /** The skipping replay makes every call of loading each transferred image. */
  lemma ReplayLoadsImage(src: SourceRegistry, transfer: seq<string>, skip: seq<string>, entries: map<string, Payload>,
                         image: string)
    requires ArchiveOf(src, transfer, skip, entries) && image in transfer
    ensures forall op :: op in ImageOps(entries, image, Some(ManifestPath(image))).0 ==> op in LoadRun(entries, true).ops
  {
    var d := DescriptorOf(transfer, ManifestPaths(transfer), skip);
    ArchiveLoadable(src, transfer, skip, entries);
    ReplayOfArchive(transfer, skip, entries);
    var k := DescriptorHasTransferred(transfer, skip, image);
    ReplayOpsInclude(entries, d, true, k);
  }

  /** Loading a transferred image pushes each of its blobs whose digest has
      an entry. */
  lemma BlobPushed(src: SourceRegistry, transfer: seq<string>, skip: seq<string>, entries: map<string, Payload>,
                   image: string, b: Blob)
    requires ArchiveOf(src, transfer, skip, entries) && image in transfer
    requires ImageBlobs(src, image).Ok? && b in ImageBlobs(src, image).value.1 && BlobPath(b.digest) in entries
    ensures var ops := LoadRun(entries, true).ops;
      exists i :: 0 <= i < |ops| && Pushes(ops[i], b.repository, b.digest)
  {
    var ops := LoadRun(entries, true).ops;
    var bs := ImageBlobs(src, image).value.1;
    TransferredImageOps(src, entries, image);
    ReplayLoadsImage(src, transfer, skip, entries, image);
    BlobPushesMembers(entries, bs);
    var pushes := BlobPushes(entries, bs);
    var j :| 0 <= j < |pushes| && PushedBlobs(pushes)[j] == b;
    assert pushes[j] in ImageOps(entries, image, Some(ManifestPath(image))).0;
    var i :| 0 <= i < |ops| && ops[i] == pushes[j];
  }

  // ---------------------------------------------------------------------------
  // The round trip

  /** The skipping replay of a successful run's archive succeeds and hands on
      every name of the descriptor: the transferred images, then the skipped
      ones, each once, in order of first request. */
  lemma RoundTripLoads(src: SourceRegistry, toTransfer: seq<string>, already: seq<string>, planning: Planning, nulls: bool)
    requires PayloadWrites(src, toTransfer, already, planning, nulls).1.Ok?
    ensures LoadRun(Archive(src, toTransfer, already, planning, nulls), true).result.Ok?
    ensures LoadRun(Archive(src, toTransfer, already, planning, nulls), true).loaded ==
      UniqBy(Select(toTransfer, already, false), Id) + UniqBy(Skipped(toTransfer, already, nulls), Id)
  {
    LoadableArchiveOfRun(src, toTransfer, already, planning, nulls);
    ReplayOfArchive(Select(toTransfer, already, false), Skipped(toTransfer, already, nulls),
                    Archive(src, toTransfer, already, planning, nulls));
  }

  /** After the replay of such an archive, the destination serves each
      transferred image's manifest as the source registry does. */
  lemma ReplayedManifest(src: SourceRegistry, transfer: seq<string>, skip: seq<string>, entries: map<string, Payload>,
                         before: RegistryState, image: string)
    requires ArchiveOf(src, transfer, skip, entries) && image in transfer
    ensures TagOf(image).Ok?
    ensures var key := (RepositoryOf(image), TagOf(image).value);
      var after := PerformAll(before, LoadRun(entries, true).ops);
      key in src.manifests && key in after.manifests && after.manifests[key] == src.manifests[key]
  {
    var ops := LoadRun(entries, true).ops;
    TransferredImageOps(src, entries, image);
    var key := (RepositoryOf(image), TagOf(image).value);
    var call := SetManifest(key.0, key.1, ImageBlobs(src, image).value.0);
    assert call in ops by {
      ReplayLoadsImage(src, transfer, skip, entries, image);
      assert call in ImageOps(entries, image, Some(ManifestPath(image))).0;
    }
    var i :| 0 <= i < |ops| && ops[i] == call;
    ReplaySets(src, transfer, skip, entries);
    PerformAllManifest(before, ops, key.0, key.1, src.manifests[key]);
  }

  /** After the replay of such an archive, the destination holds the archived
      bytes under each blob of a transferred image whose digest has an entry. */
  lemma ReplayedBlob(src: SourceRegistry, transfer: seq<string>, skip: seq<string>, entries: map<string, Payload>,
                     before: RegistryState, image: string, b: Blob)
    requires ArchiveOf(src, transfer, skip, entries) && image in transfer
    requires ImageBlobs(src, image).Ok? && b in ImageBlobs(src, image).value.1 && BlobPath(b.digest) in entries
    ensures var after := PerformAll(before, LoadRun(entries, true).ops);
      (b.repository, b.digest) in after.blobs && after.blobs[(b.repository, b.digest)] == entries[BlobPath(b.digest)]
  {
    BlobPushed(src, transfer, skip, entries, image, b);
    ReplayPushes(entries, true);
    PerformAllBlob(before, LoadRun(entries, true).ops, b.repository, b.digest, entries[BlobPath(b.digest)]);
  }

  /** After the replay, the destination serves each transferred image's
      manifest under the image's repository and tag exactly as the source
      registry does, whatever it held before; and every manifest the replay
      sets is one the source registry serves under the same repository and
      tag. */
  lemma RoundTripManifest(src: SourceRegistry, toTransfer: seq<string>, already: seq<string>, planning: Planning, nulls: bool,
                          before: RegistryState, image: string)
    requires PayloadWrites(src, toTransfer, already, planning, nulls).1.Ok?
    requires ManifestPathsDistinct(Select(toTransfer, already, false))
    requires image in toTransfer && image !in already
    ensures TagOf(image).Ok?
    ensures var key := (RepositoryOf(image), TagOf(image).value);
      var after := PerformAll(before, LoadRun(Archive(src, toTransfer, already, planning, nulls), true).ops);
      key in src.manifests && key in after.manifests && after.manifests[key] == src.manifests[key]
    ensures forall op :: op in LoadRun(Archive(src, toTransfer, already, planning, nulls), true).ops && op.SetManifest? ==>
      (op.repository, op.tag) in src.manifests && op.doc == src.manifests[(op.repository, op.tag)]
  {
    var transfer, skip := Select(toTransfer, already, false), Skipped(toTransfer, already, nulls);
    var entries := Archive(src, toTransfer, already, planning, nulls);
    assert image in transfer by {
      SeparateSpec(toTransfer, already);
    }
    assert ArchiveOf(src, transfer, skip, entries) by {
      ArchiveOfRun(src, toTransfer, already, planning, nulls);
    }
    ReplayedManifest(src, transfer, skip, entries, before, image);
    ReplaySets(src, transfer, skip, entries);
  }

  /** With already-transferred blobs excluded before deduplication, after the
      replay the destination holds, under each blob of a transferred image
      that no already-transferred image has, the source's bytes for its
      digest. */
  lemma RoundTripBlob(src: SourceRegistry, toTransfer: seq<string>, already: seq<string>, nulls: bool,
                      before: RegistryState, image: string, b: Blob)
    requires PayloadWrites(src, toTransfer, already, ExcludeThenUniquify, nulls).1.Ok?
    requires ManifestPathsDistinct(Select(toTransfer, already, false))
    requires image in toTransfer && image !in already
    requires ImageBlobs(src, image).Ok? && b in ImageBlobs(src, image).value.1
    requires AllBlobs(src, already).Ok? && b !in AllBlobs(src, already).value.1
    ensures var after := PerformAll(before, LoadRun(Archive(src, toTransfer, already, ExcludeThenUniquify, nulls), true).ops);
      (b.repository, b.digest) in after.blobs &&
      exists r :: (r, b.digest) in src.blobs && after.blobs[(b.repository, b.digest)] == BlobData(src.blobs[(r, b.digest)])
  {
    var transfer, skip := Select(toTransfer, already, false), Skipped(toTransfer, already, nulls);
    var entries := Archive(src, toTransfer, already, ExcludeThenUniquify, nulls);
    assert image in transfer by {
      SeparateSpec(toTransfer, already);
    }
    assert ArchiveOf(src, transfer, skip, entries) by {
      ArchiveOfRun(src, toTransfer, already, ExcludeThenUniquify, nulls);
    }
    assert HoldsSourceBlob(src, entries, b.digest) by {
      BlobArchived(src, toTransfer, already, nulls, image, b);
    }
    ReplayedBlob(src, transfer, skip, entries, before, image, b);
  }

  /** A source registry is content addressed when a digest names the same
      bytes in every repository that holds it, as a registry that computes
      digests from the bytes guarantees. */
  predicate ContentAddressed(src: SourceRegistry)
  {
    forall k1, k2 :: k1 in src.blobs && k2 in src.blobs && k1.1 == k2.1 ==> src.blobs[k1] == src.blobs[k2]
  }

  /** In a content-addressed source registry that holds the blob itself, the
      bytes the destination holds after the replay are that blob's own bytes. */
  lemma RoundTripBlobBytes(src: SourceRegistry, toTransfer: seq<string>, already: seq<string>, nulls: bool,
                           before: RegistryState, image: string, b: Blob)
    requires PayloadWrites(src, toTransfer, already, ExcludeThenUniquify, nulls).1.Ok?
    requires ManifestPathsDistinct(Select(toTransfer, already, false))
    requires image in toTransfer && image !in already
    requires ImageBlobs(src, image).Ok? && b in ImageBlobs(src, image).value.1
    requires AllBlobs(src, already).Ok? && b !in AllBlobs(src, already).value.1
    requires ContentAddressed(src) && (b.repository, b.digest) in src.blobs
    ensures var after := PerformAll(before, LoadRun(Archive(src, toTransfer, already, ExcludeThenUniquify, nulls), true).ops);
      (b.repository, b.digest) in after.blobs &&
      after.blobs[(b.repository, b.digest)] == BlobData(src.blobs[(b.repository, b.digest)])
  {
    RoundTripBlob(src, toTransfer, already, nulls, before, image, b);
  }

  // ---------------------------------------------------------------------------
  // The decoder as written, on a run that skipped nothing

  /** When no requested image was transferred before, the descriptor has no
      null item, so the decoder as written replays the archive exactly as the
      skipping replay does. */
  lemma AsWrittenReplayNeedsNoSkip(src: SourceRegistry, toTransfer: seq<string>, already: seq<string>,
                                   planning: Planning)
    requires PayloadWrites(src, toTransfer, already, planning, true).1.Ok?
    requires Select(toTransfer, already, true) == []
    ensures LoadRun(Archive(src, toTransfer, already, planning, true), false) ==
      LoadRun(Archive(src, toTransfer, already, planning, true), true)
  {
    var transfer := Select(toTransfer, already, false);
    var entries := Archive(src, toTransfer, already, planning, true);
    RunDescriptor(src, toTransfer, already, planning, true);
    var d := DescriptorOf(transfer, ManifestPaths(transfer), []);
    assert forall k :: 0 <= k < |d| ==> d[k].1.Some? by {
      DescriptorItems(transfer, []);
    }
    ReplayWithoutNulls(entries, d);
  }

  /** The decoder as written replays the archive of a run that skipped no
      image without error and loads every requested image once, in order of
      first request. */
  lemma AsWrittenRoundTripLoads(src: SourceRegistry, toTransfer: seq<string>, already: seq<string>, planning: Planning)
    requires PayloadWrites(src, toTransfer, already, planning, true).1.Ok?
    requires Select(toTransfer, already, true) == []
    ensures LoadRun(Archive(src, toTransfer, already, planning, true), false).result.Ok?
    ensures LoadRun(Archive(src, toTransfer, already, planning, true), false).loaded == UniqBy(toTransfer, Id)
  {
    AsWrittenReplayNeedsNoSkip(src, toTransfer, already, planning);
    RoundTripLoads(src, toTransfer, already, planning, true);
    assert UniqBy([], Id) == [];
    SelectOneSide(toTransfer, already);
  }

  /** After the decoder as written replays such an archive, the destination
      serves every requested image's manifest exactly as the source registry
      does. */
  lemma AsWrittenRoundTripManifest(src: SourceRegistry, toTransfer: seq<string>, already: seq<string>,
                                   planning: Planning, before: RegistryState, image: string)
    requires PayloadWrites(src, toTransfer, already, planning, true).1.Ok?
    requires Select(toTransfer, already, true) == []
    requires ManifestPathsDistinct(Select(toTransfer, already, false))
    requires image in toTransfer
    ensures TagOf(image).Ok?
    ensures var key := (RepositoryOf(image), TagOf(image).value);
      var after := PerformAll(before, LoadRun(Archive(src, toTransfer, already, planning, true), false).ops);
      key in src.manifests && key in after.manifests && after.manifests[key] == src.manifests[key]
  {
    AsWrittenReplayNeedsNoSkip(src, toTransfer, already, planning);
    assert image !in already by {
      SelectMembers(toTransfer, already, true);
    }
    RoundTripManifest(src, toTransfer, already, planning, true, before, image);
  }
}

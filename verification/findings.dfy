/** Two places where the pipeline as written misses what it evidently
    intends, each shown on the inputs that exhibit it. The corrected
    behaviour is modelled beside the code as written: the skipping replay
    (`skipNull`) and planning with `ExcludeThenUniquify`, whose round trip
    the RoundTrip module proves. */
module Findings {
  import opened Wrappers
  import opened Utils
  import opened Sequences
  import opened Stores
  import opened Encoder
  import opened Decoder
  import opened RoundTrip

  // ---------------------------------------------------------------------------
  // Skipped images are written with a null path the decoder cannot read

  /** Every skipped image has an item with a null path. */
  lemma DescriptorHasSkipped(transfer: seq<string>, skip: seq<string>, n: string) returns (k: nat)
    requires forall x :: x in transfer ==> x !in skip
    requires n in skip
    ensures var d := DescriptorOf(transfer, ManifestPaths(transfer), skip);
      k < |d| && d[k] == (n, None)
  {
    var d := DescriptorOf(transfer, ManifestPaths(transfer), skip);
    var ut, us := UniqBy(transfer, Id), UniqBy(skip, Id);
    assert n in us by {
      KeySetMembers(skip, Id);
      UniqByKeys(skip, Id);
      KeySetMembers(us, Id);
      assert Id(n) in KeySet(us, Id);
    }
    var i :| 0 <= i < |us| && us[i] == n;
    assert KeysOf(d) == ut + us by {
      DescriptorNames(transfer, skip);
    }
    k := |ut| + i;
    assert d[k].0 == n by {
      assert KeysOf(d)[k] == d[k].0;
    }
    assert n !in transfer;
    assert d[k].1.None? by {
      DescriptorItems(transfer, skip);
    }
  }

  /** An item with a null path, in a descriptor whose names are distinct,
      makes the replay as written fail before that item's name is handed on. */
  lemma NullItemNotLoaded(entries: map<string, Payload>, d: Descriptor, k: nat)
    requires DistinctNames(d) && k < |d| && d[k].1.None?
    ensures Replay(entries, d, false).result.Err?
    ensures d[k].0 !in Replay(entries, d, false).loaded
  {
    NullPathBreaksReplay(entries, d, k);
    var loaded := Replay(entries, d, false).loaded;
    assert loaded == KeysOf(d)[..|loaded|] by {
      ReplayLoaded(entries, d, false);
    }
    forall i | 0 <= i < |loaded| ensures loaded[i] != d[k].0 {
      assert loaded[i] == KeysOf(d)[i] == d[i].0;
    }
  }

  /** As written, the decoder cannot replay the archive of any run that
      skipped an image: the skipped image's path is null, reading it fails,
      so the whole replay ends in an error and the skipped image is never
      handed on, although `push_payload_to_registry` promises to return every
      requested image, skipped ones included. */
  lemma AsWrittenReplayFailsOnSkipped(src: SourceRegistry, toTransfer: seq<string>, already: seq<string>,
                                      planning: Planning, image: string)
    requires PayloadWrites(src, toTransfer, already, planning, true).1.Ok?
    requires image in toTransfer && image in already
    ensures LoadRun(Archive(src, toTransfer, already, planning, true), false).result.Err?
    ensures image !in LoadRun(Archive(src, toTransfer, already, planning, true), false).loaded
  {
    var transfer, skip := Select(toTransfer, already, false), Select(toTransfer, already, true);
    var entries := Archive(src, toTransfer, already, planning, true);
    var d := DescriptorOf(transfer, ManifestPaths(transfer), skip);
    assert (forall x :: x in transfer ==> x !in skip) && image in skip by {
      SeparateSpec(toTransfer, already);
    }
    assert LoadRun(entries, false) == Replay(entries, d, false) by {
      RunDescriptor(src, toTransfer, already, planning, true);
    }
    var k := DescriptorHasSkipped(transfer, skip, image);
    assert DistinctNames(d) by {
      DescriptorNames(transfer, skip);
    }
    NullItemNotLoaded(entries, d, k);
  }

  // ---------------------------------------------------------------------------
  // Deduplicating before excluding drops a blob that still has to travel

  /** As written, the blobs are deduplicated by digest before the
      already-transferred ones are excluded. When the first blob with digest
      `d` is an already-transferred one, say in repository `r1`, a later blob
      with the same digest in repository `r2`, never transferred, is lost
      with it: the plan writes nothing, where excluding first plans exactly
      that blob. */
  lemma AsWrittenPlanDropsBlob(src: SourceRegistry, previous: seq<Blob>, d: Digest, r1: string, r2: string)
    requires Blob(d, r1) in previous && Blob(d, r2) !in previous
    ensures PlannedBlobs(UniquifyThenExclude, [Blob(d, r1), Blob(d, r2)], previous) == [Blob(d, r1)]
    ensures BlobWrites(src, PlannedBlobs(UniquifyThenExclude, [Blob(d, r1), Blob(d, r2)], previous), previous) == ([], Ok(()))
    ensures PlannedBlobs(ExcludeThenUniquify, [Blob(d, r1), Blob(d, r2)], previous) == [Blob(d, r2)]
  {
    var toPull := [Blob(d, r1), Blob(d, r2)];
    assert DropLast(toPull) == [Blob(d, r1)] && Last(toPull) == Blob(d, r2);
    assert UniqBy([Blob(d, r1)], DigestOf) == [Blob(d, r1)];
    assert KeySet([Blob(d, r1)], DigestOf) == {d};
    assert Select([Blob(d, r1)], previous, false) == [];
    assert Select(toPull, previous, false) == [Blob(d, r2)];
    assert UniqBy([Blob(d, r2)], DigestOf) == [Blob(d, r2)];
  }

  /** The same loss in a whole run: when the transferred images' blobs are
      (d, r1) then (d, r2) and only (d, r1) was transferred before, the
      archive has no entry for `d`, so the replay never pushes `d` anywhere,
      and repository `r2` does not receive a blob its image needs. */
  lemma AsWrittenArchiveLacksBlob(src: SourceRegistry, toTransfer: seq<string>, already: seq<string>,
                                  d: Digest, r1: string, r2: string)
    requires PayloadWrites(src, toTransfer, already, UniquifyThenExclude, true).1.Ok?
    requires AllBlobs(src, Select(toTransfer, already, false)).Ok?
    requires AllBlobs(src, Select(toTransfer, already, false)).value.1 == [Blob(d, r1), Blob(d, r2)]
    requires AllBlobs(src, already).Ok?
    requires Blob(d, r1) in AllBlobs(src, already).value.1 && Blob(d, r2) !in AllBlobs(src, already).value.1
    ensures BlobPath(d) !in Archive(src, toTransfer, already, UniquifyThenExclude, true)
    ensures forall op :: op in LoadRun(Archive(src, toTransfer, already, UniquifyThenExclude, true), true).ops && op.PushBlob? ==>
      op.digest != d
  {
    var transfer, skip := Select(toTransfer, already, false), Select(toTransfer, already, true);
    var docs := AllBlobs(src, transfer).value.0;
    var previousBlobs := AllBlobs(src, already).value.1;
    var entries := Archive(src, toTransfer, already, UniquifyThenExclude, true);
    RunWrites(src, toTransfer, already, UniquifyThenExclude, true);
    AsWrittenPlanDropsBlob(src, previousBlobs, d, r1, r2);
    assert Apply(map[], []) == map[];
    AfterBlobsAvoid(transfer, skip, docs, d);
    ApplyUntouched(map[], AfterBlobs(transfer, skip, docs), BlobPath(d));
    ReplayPushes(entries, true);
  }
}

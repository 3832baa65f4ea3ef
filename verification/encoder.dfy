/** Building the payload archive from a source registry
    (docker_charon/encoder.py): which images are transferred, which blobs are
    pulled, and what is written to the archive in which order. */
module Encoder {
  import opened Wrappers
  import opened Utils
  import opened Sequences
  import opened Stores

  // ---------------------------------------------------------------------------
  // `separate_images_to_transfer_and_images_to_skip`

  /** Each requested image goes to the transfer list unless it is listed as
      already transferred, in which case it goes to the skip list. */
  method SeparateImagesToTransferAndImagesToSkip(images: seq<string>, already: seq<string>)
    returns (transfer: seq<string>, skip: seq<string>)
    ensures transfer == Select(images, already, false)
    ensures skip == Select(images, already, true)
  {
    transfer, skip := [], [];
    for i := 0 to |images|
      invariant transfer == Select(images[..i], already, false)
      invariant skip == Select(images[..i], already, true)
    {
      assert DropLast(images[..i + 1]) == images[..i];
      if images[i] !in already {
        transfer := transfer + [images[i]];
      } else {
        skip := skip + [images[i]];
      }
    }
    assert images[..|images|] == images;
  }

  /** The two lists are order-preserving subsequences of the request that
      split it element for element: an image is skipped exactly when it is
      already transferred, and transferred exactly when it is not. */
  lemma SeparateSpec(images: seq<string>, already: seq<string>)
    ensures Subseq(Select(images, already, false), images)
    ensures Subseq(Select(images, already, true), images)
    ensures multiset(Select(images, already, false)) + multiset(Select(images, already, true)) == multiset(images)
    ensures forall x :: x in Select(images, already, true) <==> x in images && x in already
    ensures forall x :: x in Select(images, already, false) <==> x in images && x !in already
  {
    SelectSubseq(images, already, false);
    SelectSubseq(images, already, true);
    SelectPartition(images, already);
    SelectMembers(images, already, true);
    SelectMembers(images, already, false);
  }

  // ---------------------------------------------------------------------------
  // `get_manifest_and_list_of_blobs_to_pull`, `get_manifests_and_list_of_all_blobs`

  /** One image: its manifest fetched from the source registry, then its blobs. */
  function ImageBlobs(src: SourceRegistry, image: string): Result<(ManifestDoc, seq<Blob>)>
  {
    match FetchManifest(src, image)
    case Err(e) => Err(e)
    case Ok(doc) =>
      match BlobsOf(doc, RepositoryOf(image))
      case Err(e) => Err(e)
      case Ok(bs) => Ok((doc, bs))
  }

  /** All images in order: their manifests, and their blob lists concatenated;
      the first image that fails ends the run with its error. */
  function AllBlobs(src: SourceRegistry, images: seq<string>): (r: Result<(seq<ManifestDoc>, seq<Blob>)>)
    ensures r.Ok? ==> |r.value.0| == |images|
  {
    if images == [] then Ok(([], []))
    else
      match AllBlobs(src, DropLast(images))
      case Err(e) => Err(e)
      case Ok(acc) =>
        match ImageBlobs(src, Last(images))
        case Err(e) => Err(e)
        case Ok(one) => Ok((acc.0 + [one.0], acc.1 + one.1))
  }

  function Flatten<T>(ss: seq<seq<T>>): seq<T>
  {
    if ss == [] then [] else Flatten(DropLast(ss)) + Last(ss)
  }

  /** The blob list of each image on its own (empty for an image that fails). */
  function BlobLists(src: SourceRegistry, images: seq<string>): seq<seq<Blob>>
  {
    seq(|images|, k requires 0 <= k < |images| =>
      match ImageBlobs(src, images[k]) case Ok(one) => one.1 case Err(_) => [])
  }

  /** The run succeeds exactly when every image does, and otherwise fails with
      the error of the first image that fails. On success there is one
      manifest per image, in input order, and the blob list is the
      concatenation of the images' blob lists. */
  lemma AllBlobsSpec(src: SourceRegistry, images: seq<string>)
    ensures AllBlobs(src, images).Ok? <==> forall k :: 0 <= k < |images| ==> ImageBlobs(src, images[k]).Ok?
    ensures AllBlobs(src, images).Err? ==>
      exists k :: 0 <= k < |images| && ImageBlobs(src, images[k]) == Err(AllBlobs(src, images).error) &&
        forall j :: 0 <= j < k ==> ImageBlobs(src, images[j]).Ok?
    ensures AllBlobs(src, images).Ok? ==>
      var r := AllBlobs(src, images).value;
      |r.0| == |images| &&
      (forall k :: 0 <= k < |images| ==> r.0[k] == ImageBlobs(src, images[k]).value.0) &&
      r.1 == Flatten(BlobLists(src, images))
  {
    AllBlobsOk(src, images);
    AllBlobsFirstError(src, images);
    AllBlobsValue(src, images);
  }

  lemma {:induction false} AllBlobsOk(src: SourceRegistry, images: seq<string>)
    ensures AllBlobs(src, images).Ok? <==> forall k :: 0 <= k < |images| ==> ImageBlobs(src, images[k]).Ok?
  {
    if images != [] {
      var init := DropLast(images);
      AllBlobsOk(src, init);
      assert forall k :: 0 <= k < |init| ==> init[k] == images[k];
    }
  }

  lemma {:induction false} AllBlobsFirstError(src: SourceRegistry, images: seq<string>)
    ensures AllBlobs(src, images).Err? ==>
      exists k :: 0 <= k < |images| && ImageBlobs(src, images[k]) == Err(AllBlobs(src, images).error) &&
        forall j :: 0 <= j < k ==> ImageBlobs(src, images[j]).Ok?
  {
    if images != [] {
      var init := DropLast(images);
      AllBlobsFirstError(src, init);
      AllBlobsOk(src, init);
      assert forall k :: 0 <= k < |init| ==> init[k] == images[k];
      if AllBlobs(src, init).Err? {
        var k :| 0 <= k < |init| && ImageBlobs(src, init[k]) == Err(AllBlobs(src, init).error) &&
          forall j :: 0 <= j < k ==> ImageBlobs(src, init[j]).Ok?;
        assert ImageBlobs(src, images[k]) == Err(AllBlobs(src, images).error);
      } else if ImageBlobs(src, Last(images)).Err? {
        assert ImageBlobs(src, images[|images| - 1]) == Err(AllBlobs(src, images).error);
      }
    }
  }

  lemma AllBlobsValue(src: SourceRegistry, images: seq<string>)
    ensures AllBlobs(src, images).Ok? ==>
      var r := AllBlobs(src, images).value;
      (forall k :: 0 <= k < |images| ==> ImageBlobs(src, images[k]).Ok? && r.0[k] == ImageBlobs(src, images[k]).value.0) &&
      r.1 == Flatten(BlobLists(src, images))
  {
    AllBlobsDocs(src, images);
    AllBlobsFlatten(src, images);
  }

  lemma {:induction false} AllBlobsDocs(src: SourceRegistry, images: seq<string>)
    ensures AllBlobs(src, images).Ok? ==>
      forall k :: 0 <= k < |images| ==>
        ImageBlobs(src, images[k]).Ok? && AllBlobs(src, images).value.0[k] == ImageBlobs(src, images[k]).value.0
  {
    if images != [] && AllBlobs(src, images).Ok? {
      var init := DropLast(images);
      AllBlobsDocs(src, init);
      assert forall k :: 0 <= k < |init| ==> init[k] == images[k];
    }
  }

  lemma {:induction false} AllBlobsFlatten(src: SourceRegistry, images: seq<string>)
    ensures AllBlobs(src, images).Ok? ==> AllBlobs(src, images).value.1 == Flatten(BlobLists(src, images))
  {
    if images != [] && AllBlobs(src, images).Ok? {
      var init := DropLast(images);
      AllBlobsFlatten(src, init);
      assert DropLast(BlobLists(src, images)) == BlobLists(src, init);
    }
  }

  /** A blob of any image of a successful run is in the concatenated list. */
  lemma AllBlobsMembers(src: SourceRegistry, images: seq<string>, k: nat, b: Blob)
    requires AllBlobs(src, images).Ok? && k < |images|
    requires ImageBlobs(src, images[k]).Ok? && b in ImageBlobs(src, images[k]).value.1
    ensures b in AllBlobs(src, images).value.1
  {
    AllBlobsSpec(src, images);
    FlattenMembers(BlobLists(src, images), k);
  }

  lemma {:induction false} FlattenMembers<T>(ss: seq<seq<T>>, k: nat)
    requires k < |ss|
    ensures forall x :: x in ss[k] ==> x in Flatten(ss)
  {
    if k < |ss| - 1 {
      FlattenMembers(DropLast(ss), k);
    }
  }

  /** `get_manifest_and_list_of_blobs_to_pull`: a new encoder-side manifest
      for the image, and its blob list, whose computation memoizes the
      fetched manifest in the object. */
  method GetManifestAndListOfBlobsToPull(src: SourceRegistry, image: string)
    returns (m: Manifest, r: Result<seq<Blob>>)
    ensures fresh(m) && m.name == image && m.side == Encoder
    ensures ImageBlobs(src, image).Ok? <==> r.Ok?
    ensures r.Err? ==> r.error == ImageBlobs(src, image).error
    ensures r.Ok? ==> r.value == ImageBlobs(src, image).value.1 && m.content == Some(ImageBlobs(src, image).value.0)
  {
    m := new Manifest(image, Encoder, None);
    r := m.GetListOfBlobs(src);
  }

  /** `get_manifests_and_list_of_all_blobs`: one new manifest per image, in
      order, each holding the document fetched for it, and the concatenated
      blob list; the first failure aborts. */
  method GetManifestsAndListOfAllBlobs(src: SourceRegistry, images: seq<string>)
    returns (r: Result<(seq<Manifest>, seq<Blob>)>)
    ensures r.Ok? <==> AllBlobs(src, images).Ok?
    ensures r.Err? ==> r.error == AllBlobs(src, images).error
    ensures r.Ok? ==>
      var ms := r.value.0;
      |ms| == |images| && r.value.1 == AllBlobs(src, images).value.1 &&
      forall k :: 0 <= k < |ms| ==>
        fresh(ms[k]) && ms[k].name == images[k] && ms[k].side == Encoder &&
        ms[k].content == Some(AllBlobs(src, images).value.0[k])
  {
    var manifests: seq<Manifest> := [];
    var blobsToPull: seq<Blob> := [];
    ghost var docs: seq<ManifestDoc> := [];
    for i := 0 to |images|
      invariant AllBlobs(src, images[..i]) == Ok((docs, blobsToPull))
      invariant |manifests| == i == |docs|
      invariant forall k :: 0 <= k < i ==>
        fresh(manifests[k]) && manifests[k].name == images[k] && manifests[k].side == Encoder &&
        manifests[k].content == Some(docs[k])
    {
      var m, blobs := GetManifestAndListOfBlobsToPull(src, images[i]);
      AllBlobsExtend(src, images, i, (docs, blobsToPull));
      if blobs.Err? {
        return Err(blobs.error);
      }
      ghost var ms0, docs0 := manifests, docs;
      docs := docs + [ImageBlobs(src, images[i]).value.0];
      manifests := manifests + [m];
      blobsToPull := blobsToPull + blobs.value;
      forall k | 0 <= k < i + 1
        ensures fresh(manifests[k]) && manifests[k].name == images[k] && manifests[k].side == Encoder &&
          manifests[k].content == Some(docs[k])
      {
        if k < i {
          assert manifests[k] == ms0[k] && docs[k] == docs0[k];
        }
      }
    }
    assert images[..|images|] == images;
    r := Ok((manifests, blobsToPull));
  }

  /** One more image: a failure ends the run, a success extends it. */
  lemma AllBlobsExtend(src: SourceRegistry, images: seq<string>, i: nat, acc: (seq<ManifestDoc>, seq<Blob>))
    requires i < |images| && AllBlobs(src, images[..i]) == Ok(acc)
    ensures ImageBlobs(src, images[i]).Err? ==> AllBlobs(src, images) == Err(ImageBlobs(src, images[i]).error)
    ensures ImageBlobs(src, images[i]).Ok? ==>
      AllBlobs(src, images[..i + 1]) ==
        Ok((acc.0 + [ImageBlobs(src, images[i]).value.0], acc.1 + ImageBlobs(src, images[i]).value.1))
  {
    assert DropLast(images[..i + 1]) == images[..i] && Last(images[..i + 1]) == images[i];
    if ImageBlobs(src, images[i]).Err? {
      AllBlobsFailureSticks(src, images, i + 1);
    }
  }

  /** Once a prefix of the images fails, the whole list fails the same way. */
  lemma {:induction false} AllBlobsFailureSticks(src: SourceRegistry, images: seq<string>, n: nat)
    requires n <= |images| && AllBlobs(src, images[..n]).Err?
    ensures AllBlobs(src, images) == AllBlobs(src, images[..n])
    decreases |images| - n
  {
    if n < |images| {
      assert DropLast(images[..n + 1]) == images[..n];
      AllBlobsFailureSticks(src, images, n + 1);
    } else {
      assert images[..n] == images;
    }
  }

  // ---------------------------------------------------------------------------
  // `uniquify_blobs`

  /** `uniquify_blobs`: keeps a blob unless an earlier kept blob has its digest. */
  method UniquifyBlobs(blobs: seq<Blob>) returns (result: seq<Blob>)
    ensures result == UniqBy(blobs, DigestOf)
  {
    result := [];
    for i := 0 to |blobs|
      invariant result == UniqBy(blobs[..i], DigestOf)
    {
      UniqByStep(blobs, i, DigestOf);
      var digests := Digests(result);
      DigestsKeySet(result);
      if blobs[i].digest !in digests {
        result := result + [blobs[i]];
      }
    }
    assert blobs[..|blobs|] == blobs;
  }

  function Digests(blobs: seq<Blob>): seq<Digest>
  {
    seq(|blobs|, k requires 0 <= k < |blobs| => blobs[k].digest)
  }

  lemma DigestsKeySet(blobs: seq<Blob>)
    ensures forall d :: d in Digests(blobs) <==> d in KeySet(blobs, DigestOf)
  {
    KeySetMembers(blobs, DigestOf);
    forall d | d in KeySet(blobs, DigestOf) ensures d in Digests(blobs) {
      var k :| 0 <= k < |blobs| && DigestOf(blobs[k]) == d;
      assert Digests(blobs)[k] == d;
    }
  }

  /** The uniquified list has pairwise-distinct digests and every digest of
      the input; it is the subsequence of first occurrences, and uniquifying
      it again changes nothing. */
  lemma UniquifySpec(blobs: seq<Blob>)
    ensures DistinctKeys(UniqBy(blobs, DigestOf), DigestOf)
    ensures KeySet(UniqBy(blobs, DigestOf), DigestOf) == KeySet(blobs, DigestOf)
    ensures Subseq(UniqBy(blobs, DigestOf), blobs)
    ensures forall i :: 0 <= i < |UniqBy(blobs, DigestOf)| ==>
      DigestOf(UniqBy(blobs, DigestOf)[i]) in KeySet(blobs, DigestOf) &&
      UniqBy(blobs, DigestOf)[i] == blobs[FirstIndex(blobs, DigestOf, DigestOf(UniqBy(blobs, DigestOf)[i]))]
    ensures UniqBy(UniqBy(blobs, DigestOf), DigestOf) == UniqBy(blobs, DigestOf)
  {
    UniqByKeys(blobs, DigestOf);
    UniqBySubseq(blobs, DigestOf);
    UniqByFirst(blobs, DigestOf);
    UniqByIdempotent(blobs, DigestOf);
  }

  // ---------------------------------------------------------------------------
  // `add_blobs_to_zip`

  function BlobPath(d: Digest): string
  {
    "blobs/" + d
  }

  /** The archive writes of `add_blobs_to_zip` and how it ends: blobs equal to
      an already-transferred blob are skipped, every other blob is pulled from
      the source registry and stored under its digest; a blob the source
      registry does not have aborts the run. */
  function BlobWrites(src: SourceRegistry, toPull: seq<Blob>, already: seq<Blob>): (seq<Write>, Result<()>)
  {
    if toPull == [] then ([], Ok(()))
    else
      var (ws, r) := BlobWrites(src, DropLast(toPull), already);
      var b := Last(toPull);
      if r.Err? || b in already then (ws, r)
      else if (b.repository, b.digest) !in src.blobs then (ws, Err(BlobNotFound(b.repository, b.digest)))
      else (ws + [Write(BlobPath(b.digest), BlobData(src.blobs[(b.repository, b.digest)]))], Ok(()))
  }

  /** `add_blobs_to_zip`. */
  method AddBlobsToZip(src: SourceRegistry, zip: ZipFile, toPull: seq<Blob>, already: seq<Blob>)
    returns (r: Result<()>)
    modifies zip
    ensures zip.Wrote(old(zip.entries), old(zip.log), BlobWrites(src, toPull, already).0)
    ensures r == BlobWrites(src, toPull, already).1
  {
    ghost var writes: seq<Write> := [];
    for i := 0 to |toPull|
      invariant BlobWrites(src, toPull[..i], already) == (writes, Ok(()))
      invariant zip.Wrote(old(zip.entries), old(zip.log), writes)
    {
      assert DropLast(toPull[..i + 1]) == toPull[..i] && Last(toPull[..i + 1]) == toPull[i];
      var blob := toPull[i];
      if blob in already {
        continue;
      }
      if (blob.repository, blob.digest) !in src.blobs {
        BlobWritesFailureSticks(src, toPull, already, i + 1);
        return Err(BlobNotFound(blob.repository, blob.digest));
      }
      var w := Write(BlobPath(blob.digest), BlobData(src.blobs[(blob.repository, blob.digest)]));
      ghost var e := zip.entries;
      zip.WriteStr(w.path, w.payload);
      ApplyOne(e, w);
      ApplyAppend(old(zip.entries), writes, [w]);
      PathsOfAppend(writes, [w]);
      writes := writes + [w];
    }
    assert toPull[..|toPull|] == toPull;
    r := Ok(());
  }

  lemma {:induction false} BlobWritesFailureSticks(src: SourceRegistry, toPull: seq<Blob>, already: seq<Blob>, n: nat)
    requires n <= |toPull| && BlobWrites(src, toPull[..n], already).1.Err?
    ensures BlobWrites(src, toPull, already) == BlobWrites(src, toPull[..n], already)
    decreases |toPull| - n
  {
    if n < |toPull| {
      assert DropLast(toPull[..n + 1]) == toPull[..n];
      BlobWritesFailureSticks(src, toPull, already, n + 1);
    } else {
      assert toPull[..n] == toPull;
    }
  }

  function BlobWrite(src: SourceRegistry, b: Blob): Write
    requires (b.repository, b.digest) in src.blobs
  {
    Write(BlobPath(b.digest), BlobData(src.blobs[(b.repository, b.digest)]))
  }

  /** The blobs not equal, by digest and repository, to an already-transferred
      blob are the ones pulled: the run succeeds exactly when the source
      registry has every one of them, and then writes one entry per such blob,
      in order, holding its bytes; skipped blobs produce no entry. A failure
      names a blob that had to be pulled. */
  lemma BlobWritesSpec(src: SourceRegistry, toPull: seq<Blob>, already: seq<Blob>)
    ensures var sel := Select(toPull, already, false);
      BlobWrites(src, toPull, already).1.Ok? <==>
        forall k :: 0 <= k < |sel| ==> (sel[k].repository, sel[k].digest) in src.blobs
    ensures var sel := Select(toPull, already, false);
      BlobWrites(src, toPull, already).1.Err? ==>
        exists k :: 0 <= k < |sel| &&
          BlobWrites(src, toPull, already).1.error == BlobNotFound(sel[k].repository, sel[k].digest)
    ensures var sel := Select(toPull, already, false);
      var ws := BlobWrites(src, toPull, already).0;
      BlobWrites(src, toPull, already).1.Ok? ==>
        |ws| == |sel| &&
        forall k :: 0 <= k < |sel| ==>
          (sel[k].repository, sel[k].digest) in src.blobs && ws[k] == BlobWrite(src, sel[k])
  {
    BlobWritesOk(src, toPull, already);
    BlobWritesError(src, toPull, already);
    BlobWritesValue(src, toPull, already);
  }

  /** The source registry holds every blob of `sel`. */
  predicate InSource(src: SourceRegistry, sel: seq<Blob>)
  {
    forall k :: 0 <= k < |sel| ==> (sel[k].repository, sel[k].digest) in src.blobs
  }

  /** The blob writes succeed exactly when the source registry holds every
      blob that is to be pulled. */
  lemma {:induction false} BlobWritesOk(src: SourceRegistry, toPull: seq<Blob>, already: seq<Blob>)
    ensures BlobWrites(src, toPull, already).1.Ok? <==> InSource(src, Select(toPull, already, false))
  {
    if toPull != [] {
      var init := DropLast(toPull);
      BlobWritesOk(src, init, already);
      var sel0 := Select(init, already, false);
      var sel := Select(toPull, already, false);
      var b := Last(toPull);
      if b in already {
        assert sel == sel0;
        assert BlobWrites(src, toPull, already) == BlobWrites(src, init, already);
      } else {
        assert sel == sel0 + [b];
        assert InSource(src, sel) <==> InSource(src, sel0) && (b.repository, b.digest) in src.blobs by {
          assert forall k :: 0 <= k < |sel0| ==> sel[k] == sel0[k];
          assert sel[|sel| - 1] == b;
        }
      }
    }
  }

  /** `e` is the error of a blob of `sel` missing from the source registry. */
  predicate NamesBlobOf(e: Error, sel: seq<Blob>)
  {
    exists k :: 0 <= k < |sel| && e == BlobNotFound(sel[k].repository, sel[k].digest)
  }

  /** A failure of the blob writes names a blob that is to be pulled. */
  lemma {:induction false} BlobWritesError(src: SourceRegistry, toPull: seq<Blob>, already: seq<Blob>)
    ensures BlobWrites(src, toPull, already).1.Err? ==>
      NamesBlobOf(BlobWrites(src, toPull, already).1.error, Select(toPull, already, false))
  {
    if toPull != [] {
      var init := DropLast(toPull);
      BlobWritesError(src, init, already);
      var sel0 := Select(init, already, false);
      var sel := Select(toPull, already, false);
      var b := Last(toPull);
      if b in already {
        assert sel == sel0;
        assert BlobWrites(src, toPull, already) == BlobWrites(src, init, already);
        if BlobWrites(src, init, already).1.Err? {
          var k :| 0 <= k < |sel0| &&
            BlobWrites(src, init, already).1.error == BlobNotFound(sel0[k].repository, sel0[k].digest);
          assert sel[k] == sel0[k];
        }
      } else {
        assert sel == sel0 + [b];
        if BlobWrites(src, init, already).1.Err? {
          var k :| 0 <= k < |sel0| &&
            BlobWrites(src, init, already).1.error == BlobNotFound(sel0[k].repository, sel0[k].digest);
          assert sel[k] == sel0[k];
        } else if (b.repository, b.digest) !in src.blobs {
          var k := |sel| - 1;
          assert sel[k] == b;
          assert BlobWrites(src, toPull, already).1.error == BlobNotFound(sel[k].repository, sel[k].digest);
        } else {
          assert BlobWrites(src, toPull, already).1.Ok?;
        }
      }
    }
  }

  /** Successful blob writes are one write per blob to be pulled, in order,
      holding the source's bytes. */
  lemma {:induction false} BlobWritesValue(src: SourceRegistry, toPull: seq<Blob>, already: seq<Blob>)
    ensures var sel := Select(toPull, already, false);
      var ws := BlobWrites(src, toPull, already).0;
      BlobWrites(src, toPull, already).1.Ok? ==>
        |ws| == |sel| &&
        forall k :: 0 <= k < |sel| ==>
          (sel[k].repository, sel[k].digest) in src.blobs && ws[k] == BlobWrite(src, sel[k])
  {
    if toPull != [] {
      var init := DropLast(toPull);
      BlobWritesValue(src, init, already);
      var sel0 := Select(init, already, false);
      var sel := Select(toPull, already, false);
      var b := Last(toPull);
      if b in already {
        assert sel == sel0;
        assert BlobWrites(src, toPull, already) == BlobWrites(src, init, already);
      } else if BlobWrites(src, toPull, already).1.Ok? {
        assert sel == sel0 + [b];
        assert forall k :: 0 <= k < |sel0| ==> sel[k] == sel0[k];
        assert BlobWrites(src, toPull, already).0 == BlobWrites(src, init, already).0 + [BlobWrite(src, b)];
      }
    }
  }

  /** A list of pairwise-distinct digests never has its entry path written twice. */
  lemma BlobWritesDistinct(src: SourceRegistry, toPull: seq<Blob>, already: seq<Blob>)
    requires DistinctKeys(toPull, DigestOf)
    requires BlobWrites(src, toPull, already).1.Ok?
    ensures var ps := PathsOf(BlobWrites(src, toPull, already).0);
      forall i, j :: 0 <= i < j < |ps| ==> ps[i] != ps[j]
  {
    BlobWritesSpec(src, toPull, already);
    SelectKeepsDistinctKeys(toPull, already, false, DigestOf);
    var sel := Select(toPull, already, false);
    forall i, j | 0 <= i < j < |sel| ensures BlobPath(sel[i].digest) != BlobPath(sel[j].digest) {
      BlobPathInjective(sel[i].digest, sel[j].digest);
    }
  }

  lemma BlobPathInjective(d1: Digest, d2: Digest)
    ensures BlobPath(d1) == BlobPath(d2) <==> d1 == d2
  {
    if BlobPath(d1) == BlobPath(d2) {
      assert d1 == BlobPath(d1)[6..] && d2 == BlobPath(d2)[6..];
    }
  }

  // ---------------------------------------------------------------------------
  // `add_manifests_to_zip`

  /** `str.replace` of one character by another. */
  function Replace(s: string, from: char, to: char): string
  {
    seq(|s|, i requires 0 <= i < |s| => if s[i] == from then to else s[i])
  }

  /** Where the manifest of an image is stored: "manifests/" followed by the
      image name with every "/" replaced by "_". */
  function ManifestPath(name: string): string
  {
    "manifests/" + Replace(name, '/', '_')
  }

  /** The path is "manifests/" and then a string of the name's length with
      "_" for every "/", agreeing with the name at every other character. Two names
      that differ only by "/" against "_" share a path: "a/b:1" and "a_b:1"
      both go to "manifests/a_b:1". */
  lemma ManifestPathSpec(name: string)
    ensures var p := ManifestPath(name);
      |p| == 10 + |name| && p[..10] == "manifests/" && '/' !in p[10..] &&
      forall i :: 0 <= i < |name| && name[i] != '/' ==> p[10 + i] == name[i]
    ensures forall i :: 0 <= i < |name| && name[i] == '/' ==> ManifestPath(name)[10 + i] == '_'
    ensures ManifestPath("a/b:1") == ManifestPath("a_b:1")
  {
    var p := ManifestPath(name);
    assert forall i :: 0 <= i < |name| ==> p[10..][i] == Replace(name, '/', '_')[i];
    assert ManifestPath("a/b:1") == "manifests/a_b:1";
    assert ManifestPath("a_b:1") == "manifests/a_b:1";
  }

  /** What each manifest's `content` answers, with the image name. */
  ghost function Contents(ms: seq<Manifest>, src: SourceRegistry): seq<(string, Result<ManifestDoc>)>
    reads ms
  {
    seq(|ms|, k requires 0 <= k < |ms| reads ms => (ms[k].name, ContentOf(ms[k].content, ms[k].side, src, ms[k].name)))
  }

  /** The writes of `add_manifests_to_zip` and the paths it yields; a manifest
      whose content cannot be had aborts the run. */
  function ManifestWrites(items: seq<(string, Result<ManifestDoc>)>): (seq<Write>, Result<seq<string>>)
  {
    if items == [] then ([], Ok([]))
    else
      var (ws, r) := ManifestWrites(DropLast(items));
      var (name, content) := Last(items);
      if r.Err? then (ws, r)
      else if content.Err? then (ws, Err(content.error))
      else (ws + [Write(ManifestPath(name), ManifestText(content.value))], Ok(r.value + [ManifestPath(name)]))
  }

  /** When every content can be had, one entry is written per manifest, in
      order, at the manifest's path and holding its document, and the yielded
      paths are those paths in the same order. */
  lemma {:induction false} ManifestWritesSpec(items: seq<(string, Result<ManifestDoc>)>)
    ensures ManifestWrites(items).1.Ok? <==> forall k :: 0 <= k < |items| ==> items[k].1.Ok?
    ensures ManifestWrites(items).1.Ok? ==>
      var (ws, paths) := (ManifestWrites(items).0, ManifestWrites(items).1.value);
      |ws| == |items| && |paths| == |items| &&
      forall k :: 0 <= k < |items| ==>
        paths[k] == ManifestPath(items[k].0) && ws[k] == Write(paths[k], ManifestText(items[k].1.value))
  {
    if items != [] {
      var init := DropLast(items);
      ManifestWritesSpec(init);
      assert forall k :: 0 <= k < |init| ==> init[k] == items[k];
    }
  }

  /** `add_manifests_to_zip`: for each manifest in order, its content is
      stored under its path and the path is handed on. Asking for the content
      may memoize it, which never changes what `content` answers. */
  method AddManifestsToZip(src: SourceRegistry, zip: ZipFile, manifests: seq<Manifest>)
    returns (r: Result<seq<string>>)
    modifies zip, manifests
    ensures zip.Wrote(old(zip.entries), old(zip.log), ManifestWrites(old(Contents(manifests, src))).0)
    ensures r == ManifestWrites(old(Contents(manifests, src))).1
    ensures Contents(manifests, src) == old(Contents(manifests, src))
  {
    ghost var items := Contents(manifests, src);
    ContentsAre(manifests, src, items);
    ghost var writes: seq<Write> := [];
    var paths: seq<string> := [];
    for i := 0 to |manifests|
      invariant forall k :: 0 <= k < |manifests| ==> Answers(manifests[k], src) == items[k]
      invariant ManifestWrites(items[..i]) == (writes, Ok(paths))
      invariant zip.entries == Apply(old(zip.entries), writes) && zip.log == old(zip.log) + PathsOf(writes)
    {
      var path := AddManifestToZip(src, zip, manifests[i]);
      ManifestWritesExtend(items, i, writes, paths);
      if path.Err? {
        ContentsAre(manifests, src, items);
        return Err(path.error);
      }
      ghost var w := Write(path.value, ManifestText(items[i].1.value));
      WroteOne(old(zip.entries), writes, w);
      writes := writes + [w];
      paths := paths + [path.value];
    }
    assert items[..|items|] == items;
    ContentsAre(manifests, src, items);
    r := Ok(paths);
  }

  /** The body of the loop of `add_manifests_to_zip` for one manifest: its
      content, stored under its path, which is handed on. */
  method AddManifestToZip(src: SourceRegistry, zip: ZipFile, m: Manifest) returns (r: Result<string>)
    modifies zip, m
    ensures Answers(m, src) == old(Answers(m, src))
    ensures var (name, content) := old(Answers(m, src));
      if content.Err? then r == Err(content.error) && unchanged(zip)
      else
        r == Ok(ManifestPath(name)) &&
        zip.entries == old(zip.entries)[ManifestPath(name) := ManifestText(content.value)] &&
        zip.log == old(zip.log) + [ManifestPath(name)]
  {
    var content := m.Content(src);
    if content.Err? {
      return Err(content.error);
    }
    var path := ManifestPath(m.name);
    zip.WriteStr(path, ManifestText(content.value));
    r := Ok(path);
  }

  /** A manifest's name with what its `content` answers. */
  ghost function Answers(m: Manifest, src: SourceRegistry): (string, Result<ManifestDoc>)
    reads m
  {
    (m.name, ContentOf(m.content, m.side, src, m.name))
  }

  lemma ContentsAre(ms: seq<Manifest>, src: SourceRegistry, items: seq<(string, Result<ManifestDoc>)>)
    requires |items| == |ms|
    ensures Contents(ms, src) == items <==> forall k :: 0 <= k < |ms| ==> Answers(ms[k], src) == items[k]
  {
  }

  /** One more manifest: a content that cannot be had ends the run, one that
      can adds its write and its path. */
  lemma ManifestWritesExtend(items: seq<(string, Result<ManifestDoc>)>, i: nat, writes: seq<Write>, paths: seq<string>)
    requires i < |items| && ManifestWrites(items[..i]) == (writes, Ok(paths))
    ensures items[i].1.Err? ==> ManifestWrites(items) == (writes, Err(items[i].1.error))
    ensures items[i].1.Ok? ==>
      ManifestWrites(items[..i + 1]) ==
        (writes + [Write(ManifestPath(items[i].0), ManifestText(items[i].1.value))], Ok(paths + [ManifestPath(items[i].0)]))
  {
    assert DropLast(items[..i + 1]) == items[..i] && Last(items[..i + 1]) == items[i];
    if items[i].1.Err? {
      ManifestWritesFailureSticks(items, i + 1);
    }
  }

  lemma {:induction false} ManifestWritesFailureSticks(items: seq<(string, Result<ManifestDoc>)>, n: nat)
    requires n <= |items| && ManifestWrites(items[..n]).1.Err?
    ensures ManifestWrites(items) == ManifestWrites(items[..n])
    decreases |items| - n
  {
    if n < |items| {
      assert DropLast(items[..n + 1]) == items[..n];
      ManifestWritesFailureSticks(items, n + 1);
    } else {
      assert items[..n] == items;
    }
  }

  // ---------------------------------------------------------------------------
  // `write_payload_descriptor_to_zip`

  /** The payload descriptor: a JSON object from image name to manifest path
      (or null), as its items in insertion order. */
  type Descriptor = seq<(string, Option<string>)>

  const DescriptorPath: string := "payload_descriptor.json"

  /** `d[key] = value` on a Python dict: an existing key keeps its place and
      takes the new value; a new key goes last. */
  function Put(d: Descriptor, key: string, value: Option<string>): Descriptor
  {
    if d == [] then [(key, value)]
    else if d[0].0 == key then [(key, value)] + d[1..]
    else [d[0]] + Put(d[1..], key, value)
  }

  /** Successive `d[key] = value` for the given items, starting from `d`. */
  function PutAll(d: Descriptor, items: seq<(string, Option<string>)>): Descriptor
  {
    if items == [] then d else Put(PutAll(d, DropLast(items)), Last(items).0, Last(items).1)
  }

  function KeysOf(d: Descriptor): seq<string>
  {
    seq(|d|, k requires 0 <= k < |d| => d[k].0)
  }

  /** `d.get(key)`, where the outer `None` means the key is absent. */
  function Lookup(d: Descriptor, key: string): Option<Option<string>>
  {
    if d == [] then None else if d[0].0 == key then Some(d[0].1) else Lookup(d[1..], key)
  }

  function Id(s: string): string
  {
    s
  }

  /** Assignment keeps the key order of first insertion, makes the key map to
      the new value and leaves every other key's value alone. */
  lemma PutSpec(d: Descriptor, key: string, value: Option<string>)
    ensures KeysOf(Put(d, key, value)) == if key in KeysOf(d) then KeysOf(d) else KeysOf(d) + [key]
    ensures Lookup(Put(d, key, value), key) == Some(value)
    ensures forall other :: other != key ==> Lookup(Put(d, key, value), other) == Lookup(d, other)
  {
    PutKeys(d, key, value);
    PutLookups(d, key, value);
  }

  lemma KeysOfCons(p: (string, Option<string>), d: Descriptor)
    ensures KeysOf([p] + d) == [p.0] + KeysOf(d)
  {
  }

  lemma LookupCons(p: (string, Option<string>), d: Descriptor)
    ensures forall k :: Lookup([p] + d, k) == if p.0 == k then Some(p.1) else Lookup(d, k)
  {
    assert ([p] + d)[1..] == d;
  }

  lemma {:induction false} PutKeys(d: Descriptor, key: string, value: Option<string>)
    ensures KeysOf(Put(d, key, value)) == if key in KeysOf(d) then KeysOf(d) else KeysOf(d) + [key]
  {
    if d != [] {
      var rest := d[1..];
      PutKeys(rest, key, value);
      assert d == [d[0]] + rest;
      KeysOfCons(d[0], rest);
      if d[0].0 == key {
        KeysOfCons((key, value), rest);
      } else {
        KeysOfCons(d[0], Put(rest, key, value));
        assert KeysOf(d) + [key] == [d[0].0] + (KeysOf(rest) + [key]);
      }
    }
  }

  lemma {:induction false} PutLookups(d: Descriptor, key: string, value: Option<string>)
    ensures Lookup(Put(d, key, value), key) == Some(value)
    ensures forall other :: other != key ==> Lookup(Put(d, key, value), other) == Lookup(d, other)
  {
    if d != [] {
      var rest := d[1..];
      PutLookups(rest, key, value);
      assert d == [d[0]] + rest;
      LookupCons(d[0], rest);
      if d[0].0 == key {
        LookupCons((key, value), rest);
      } else {
        LookupCons(d[0], Put(rest, key, value));
      }
    }
  }

  /** The keys of a dict filled by assignments are the assigned keys in order
      of first assignment, each once. */
  lemma {:induction false} PutAllKeys(items: seq<(string, Option<string>)>)
    ensures KeysOf(PutAll([], items)) == UniqBy(KeysOf(items), Id)
  {
    if items != [] {
      var init := DropLast(items);
      PutAllKeys(init);
      assert DropLast(KeysOf(items)) == KeysOf(init);
      var d0 := PutAll([], init);
      PutSpec(d0, Last(items).0, Last(items).1);
      KeySetMembers(UniqBy(KeysOf(init), Id), Id);
      assert Last(items).0 in KeysOf(d0) <==> Id(Last(items).0) in KeySet(UniqBy(KeysOf(init), Id), Id);
    }
  }

  /** When every assignment to `key` stores `value` and one does, the dict
      maps `key` to `value`; a key never assigned is absent. */
  lemma {:induction false} PutAllLookup(items: seq<(string, Option<string>)>, key: string, value: Option<string>)
    requires forall k :: 0 <= k < |items| && items[k].0 == key ==> items[k].1 == value
    ensures Lookup(PutAll([], items), key) == if key in KeysOf(items) then Some(value) else None
  {
    if items != [] {
      var init := DropLast(items);
      assert forall k :: 0 <= k < |init| ==> init[k] == items[k];
      assert KeysOf(items) == KeysOf(init) + [Last(items).0];
      PutAllLookup(init, key, value);
      PutSpec(PutAll([], init), Last(items).0, Last(items).1);
    }
  }

  /** Python's `zip(names, paths)`: pairs up to the shorter of the two. */
  function Pairs(names: seq<string>, paths: seq<string>): seq<(string, Option<string>)>
  {
    var n := if |names| < |paths| then |names| else |paths|;
    seq(n, k requires 0 <= k < n => (names[k], Some(paths[k])))
  }

  function Nulls(skip: seq<string>): seq<(string, Option<string>)>
  {
    seq(|skip|, k requires 0 <= k < |skip| => (skip[k], None))
  }

  /** The descriptor `write_payload_descriptor_to_zip` builds: each manifest
      name with its path, then each skipped image with null. */
  function DescriptorOf(names: seq<string>, paths: seq<string>, skip: seq<string>): Descriptor
  {
    PutAll([], Pairs(names, paths) + Nulls(skip))
  }

  function NamesOf(ms: seq<Manifest>): seq<string>
  {
    seq(|ms|, k requires 0 <= k < |ms| => ms[k].name)
  }

  function ManifestPaths(names: seq<string>): seq<string>
  {
    seq(|names|, k requires 0 <= k < |names| => ManifestPath(names[k]))
  }

  lemma DescriptorItemKeys(names: seq<string>, skip: seq<string>)
    ensures KeysOf(Pairs(names, ManifestPaths(names)) + Nulls(skip)) == names + skip
  {
    var items := Pairs(names, ManifestPaths(names)) + Nulls(skip);
    assert forall k :: 0 <= k < |names| ==> items[k].0 == names[k];
    assert forall k :: 0 <= k < |skip| ==> items[|names| + k].0 == skip[k];
  }

  /** For transferred images stored at their manifest paths and skipped images
      that are not among them: the keys are the transferred images in order of
      first appearance followed by the skipped ones; a transferred image maps
      to its manifest path, a skipped image to null, and nothing else is a key. */
  lemma DescriptorSpec(names: seq<string>, skip: seq<string>)
    requires forall x :: x in names ==> x !in skip
    ensures var d := DescriptorOf(names, ManifestPaths(names), skip);
      KeysOf(d) == UniqBy(names, Id) + UniqBy(skip, Id) &&
      (forall n :: n in names ==> Lookup(d, n) == Some(Some(ManifestPath(n)))) &&
      (forall n :: n in skip ==> Lookup(d, n) == Some(None)) &&
      (forall n :: n !in names && n !in skip ==> Lookup(d, n) == None)
  {
    DescriptorKeys(names, skip);
    DescriptorLookups(names, skip);
  }

  lemma DescriptorKeys(names: seq<string>, skip: seq<string>)
    requires forall x :: x in names ==> x !in skip
    ensures KeysOf(DescriptorOf(names, ManifestPaths(names), skip)) == UniqBy(names, Id) + UniqBy(skip, Id)
  {
    DescriptorItemKeys(names, skip);
    PutAllKeys(Pairs(names, ManifestPaths(names)) + Nulls(skip));
    KeySetOfNames(names);
    KeySetOfNames(skip);
    UniqByAppend(names, skip, Id);
  }

  lemma {:induction false} KeySetOfNames(names: seq<string>)
    ensures KeySet(names, Id) == set x | x in names
  {
    if names != [] {
      KeySetOfNames(DropLast(names));
      assert names == DropLast(names) + [Last(names)];
    }
  }

  lemma DescriptorLookups(names: seq<string>, skip: seq<string>)
    requires forall x :: x in names ==> x !in skip
    ensures var d := DescriptorOf(names, ManifestPaths(names), skip);
      (forall n :: n in names ==> Lookup(d, n) == Some(Some(ManifestPath(n)))) &&
      (forall n :: n in skip ==> Lookup(d, n) == Some(None)) &&
      (forall n :: n !in names && n !in skip ==> Lookup(d, n) == None)
  {
    var items := Pairs(names, ManifestPaths(names)) + Nulls(skip);
    DescriptorItemKeys(names, skip);
    assert forall k :: 0 <= k < |items| ==> items[k].0 == (names + skip)[k];
    assert forall k :: 0 <= k < |names| ==> items[k].1 == Some(ManifestPath(names[k]));
    assert forall k :: |names| <= k < |items| ==> items[k].1 == None;
    forall n | n in names ensures Lookup(PutAll([], items), n) == Some(Some(ManifestPath(n))) {
      PutAllLookup(items, n, Some(ManifestPath(n)));
    }
    forall n | n in skip ensures Lookup(PutAll([], items), n) == Some(None) {
      PutAllLookup(items, n, None);
    }
    forall n | n !in names && n !in skip ensures Lookup(PutAll([], items), n) == None {
      PutAllLookup(items, n, None);
    }
  }

  lemma PutAllStep(d: Descriptor, items: seq<(string, Option<string>)>, i: nat)
    requires i < |items|
    ensures PutAll(d, items[..i + 1]) == Put(PutAll(d, items[..i]), items[i].0, items[i].1)
  {
    assert DropLast(items[..i + 1]) == items[..i];
  }

  /** Assigning two batches one after the other is assigning their concatenation. */
  lemma {:induction false} PutAllAppend(d: Descriptor, a: seq<(string, Option<string>)>, b: seq<(string, Option<string>)>)
    ensures PutAll(PutAll(d, a), b) == PutAll(d, a + b)
  {
    if b == [] {
      assert a + b == a;
    } else {
      PutAllAppend(d, a, DropLast(b));
      assert DropLast(a + b) == a + DropLast(b);
    }
  }

  /** The dict `write_payload_descriptor_to_zip` fills: each manifest's name
      assigned its path, up to the shorter of the two lists, then each skipped
      image assigned null. */
  method BuildPayloadDescriptor(manifests: seq<Manifest>, paths: seq<string>, skip: seq<string>)
    returns (descriptor: Descriptor)
    ensures descriptor == DescriptorOf(NamesOf(manifests), paths, skip)
  {
    ghost var pairs := Pairs(NamesOf(manifests), paths);
    var n := if |manifests| < |paths| then |manifests| else |paths|;
    descriptor := [];
    for i := 0 to n
      invariant descriptor == PutAll([], pairs[..i])
    {
      PutAllStep([], pairs, i);
      descriptor := Put(descriptor, manifests[i].name, Some(paths[i]));
    }
    assert pairs[..n] == pairs;
    ghost var filled := descriptor;
    ghost var nulls := Nulls(skip);
    for i := 0 to |skip|
      invariant descriptor == PutAll(filled, nulls[..i])
    {
      PutAllStep(filled, nulls, i);
      descriptor := Put(descriptor, skip[i], None);
    }
    assert nulls[..|skip|] == nulls;
    PutAllAppend([], pairs, nulls);
  }

  /** `write_payload_descriptor_to_zip`: the filled dict, written as the
      descriptor entry of the archive. */
  method WritePayloadDescriptorToZip(zip: ZipFile, manifests: seq<Manifest>, paths: seq<string>, skip: seq<string>)
    modifies zip
    ensures zip.Wrote(old(zip.entries), old(zip.log),
      [Write(DescriptorPath, DescriptorText(DescriptorOf(NamesOf(manifests), paths, skip)))])
  {
    var descriptor := BuildPayloadDescriptor(manifests, paths, skip);
    ApplyOne(zip.entries, Write(DescriptorPath, DescriptorText(descriptor)));
    zip.WriteStr(DescriptorPath, DescriptorText(descriptor));
  }

  // ---------------------------------------------------------------------------
  // `create_zip_from_docker_images`

  /** How the blobs to pull are planned from the transferred images' blobs.
      `UniquifyThenExclude` is what the code does; `ExcludeThenUniquify`
      removes the already-transferred blobs before deduplicating by digest. */
  datatype Planning = UniquifyThenExclude | ExcludeThenUniquify

  function PlannedBlobs(planning: Planning, toPull: seq<Blob>, already: seq<Blob>): seq<Blob>
  {
    match planning
    case UniquifyThenExclude => UniqBy(toPull, DigestOf)
    case ExcludeThenUniquify => UniqBy(Select(toPull, already, false), DigestOf)
  }

  /** The manifest documents paired with their image names. */
  function Fetched(names: seq<string>, docs: seq<ManifestDoc>): seq<(string, Result<ManifestDoc>)>
    requires |docs| == |names|
  {
    seq(|names|, k requires 0 <= k < |names| => (names[k], Ok(docs[k])))
  }

  function DescriptorWrite(names: seq<string>, paths: seq<string>, skip: seq<string>): Write
  {
    Write(DescriptorPath, DescriptorText(DescriptorOf(names, paths, skip)))
  }

  /** Every archive write of `create_zip_from_docker_images`, in order, and how
      it ends. `nullsForSkipped` says whether the descriptor lists the skipped
      images with null (this module) or leaves them out (charon/utils.py). */
  function PayloadWrites(src: SourceRegistry, toTransfer: seq<string>, already: seq<string>,
                         planning: Planning, nullsForSkipped: bool): (seq<Write>, Result<()>)
  {
    var transfer := Select(toTransfer, already, false);
    var skip := if nullsForSkipped then Select(toTransfer, already, true) else [];
    match AllBlobs(src, transfer)
    case Err(e) => ([], Err(e))
    case Ok(fetched) =>
      match AllBlobs(src, already)
      case Err(e) => ([], Err(e))
      case Ok(previous) =>
        ZipWrites(src, transfer, skip, fetched.0, PlannedBlobs(planning, fetched.1, previous.1), previous.1)
  }

  /** The writes once every manifest is fetched: the planned blobs, then the
      manifests, then the descriptor. */
  function ZipWrites(src: SourceRegistry, transfer: seq<string>, skip: seq<string>, docs: seq<ManifestDoc>,
                     planned: seq<Blob>, previousBlobs: seq<Blob>): (seq<Write>, Result<()>)
    requires |docs| == |transfer|
  {
    var (bw, br) := BlobWrites(src, planned, previousBlobs);
    if br.Err? then (bw, br)
    else
      var (mw, mr) := ManifestWrites(Fetched(transfer, docs));
      if mr.Err? then (bw + mw, Err(mr.error))
      else (bw + mw + [DescriptorWrite(transfer, mr.value, skip)], Ok(()))
  }

  /** A failed fetch of the images to transfer, or of the images already
      transferred, ends the run before anything is written. */
  lemma PayloadWritesFetchFails(src: SourceRegistry, toTransfer: seq<string>, already: seq<string>,
                                planning: Planning, nullsForSkipped: bool, e: Error)
    requires AllBlobs(src, Select(toTransfer, already, false)) == Err(e) ||
      (AllBlobs(src, Select(toTransfer, already, false)).Ok? && AllBlobs(src, already) == Err(e))
    ensures PayloadWrites(src, toTransfer, already, planning, nullsForSkipped) == ([], Err(e))
  {
  }

  /** Once both fetches succeed, the run is the writing half. */
  lemma PayloadWritesFetched(src: SourceRegistry, toTransfer: seq<string>, already: seq<string>,
                             planning: Planning, nullsForSkipped: bool,
                             fetched: (seq<ManifestDoc>, seq<Blob>), previous: (seq<ManifestDoc>, seq<Blob>))
    requires AllBlobs(src, Select(toTransfer, already, false)) == Ok(fetched)
    requires AllBlobs(src, already) == Ok(previous)
    ensures |fetched.0| == |Select(toTransfer, already, false)|
    ensures PayloadWrites(src, toTransfer, already, planning, nullsForSkipped) ==
      ZipWrites(src, Select(toTransfer, already, false),
        if nullsForSkipped then Select(toTransfer, already, true) else [],
        fetched.0, PlannedBlobs(planning, fetched.1, previous.1), previous.1)
  {
  }

  /** How ZipWrites unfolds at each of its three outcomes. */
  lemma ZipWritesSteps(src: SourceRegistry, transfer: seq<string>, skip: seq<string>, docs: seq<ManifestDoc>,
                       planned: seq<Blob>, previousBlobs: seq<Blob>)
    requires |docs| == |transfer|
    ensures var (bw, br) := BlobWrites(src, planned, previousBlobs);
      var (mw, mr) := ManifestWrites(Fetched(transfer, docs));
      ZipWrites(src, transfer, skip, docs, planned, previousBlobs) ==
        if br.Err? then (bw, br)
        else if mr.Err? then (bw + mw, Err(mr.error))
        else (bw + mw + [DescriptorWrite(transfer, mr.value, skip)], Ok(()))
  {
  }

  /** `create_zip_from_docker_images`. The code as written plans with
      `UniquifyThenExclude`; `ExcludeThenUniquify` drops the already
      transferred blobs before deduplicating. */
  method CreateZipFromDockerImages(src: SourceRegistry, toTransfer: seq<string>, already: seq<string>, zip: ZipFile,
                                   planning: Planning)
    returns (r: Result<()>)
    modifies zip
    ensures zip.Wrote(old(zip.entries), old(zip.log), PayloadWrites(src, toTransfer, already, planning, true).0)
    ensures r == PayloadWrites(src, toTransfer, already, planning, true).1
  {
    var transfer, skip := SeparateImagesToTransferAndImagesToSkip(toTransfer, already);
    var fetched := GetManifestsAndListOfAllBlobs(src, transfer);
    if fetched.Err? {
      PayloadWritesFetchFails(src, toTransfer, already, planning, true, fetched.error);
      assert PathsOf([]) == [];
      return Err(fetched.error);
    }
    var previous := GetManifestsAndListOfAllBlobs(src, already);
    if previous.Err? {
      PayloadWritesFetchFails(src, toTransfer, already, planning, true, previous.error);
      assert PathsOf([]) == [];
      return Err(previous.error);
    }
    var manifests := fetched.value.0;
    ghost var docs := AllBlobs(src, transfer).value.0;
    PayloadWritesFetched(src, toTransfer, already, planning, true,
      AllBlobs(src, transfer).value, AllBlobs(src, already).value);
    FetchedManifests(manifests, src, transfer, docs);
    var toPull := fetched.value.1;
    if planning == ExcludeThenUniquify {
      toPull := Select(toPull, previous.value.1, false);
    }
    var unique := UniquifyBlobs(toPull);
    r := WritePayload(src, zip, manifests, transfer, skip, docs, unique, previous.value.1);
  }

  /** Manifests holding the fetched documents answer them as their content. */
  lemma FetchedManifests(ms: seq<Manifest>, src: SourceRegistry, names: seq<string>, docs: seq<ManifestDoc>)
    requires |ms| == |names| == |docs|
    requires forall k :: 0 <= k < |ms| ==> ms[k].name == names[k] && ms[k].content == Some(docs[k])
    ensures Contents(ms, src) == Fetched(names, docs) && NamesOf(ms) == names
  {
  }

  /** The writing half of `create_zip_from_docker_images`: the planned blobs,
      then the manifests, then the descriptor, stopping at the first failure. */
  method WritePayload(src: SourceRegistry, zip: ZipFile, manifests: seq<Manifest>, transfer: seq<string>,
                      skip: seq<string>, ghost docs: seq<ManifestDoc>, planned: seq<Blob>, previousBlobs: seq<Blob>)
    returns (r: Result<()>)
    requires |docs| == |transfer|
    requires Contents(manifests, src) == Fetched(transfer, docs) && NamesOf(manifests) == transfer
    modifies zip, manifests
    ensures zip.Wrote(old(zip.entries), old(zip.log), ZipWrites(src, transfer, skip, docs, planned, previousBlobs).0)
    ensures r == ZipWrites(src, transfer, skip, docs, planned, previousBlobs).1
  {
    ZipWritesSteps(src, transfer, skip, docs, planned, previousBlobs);
    ghost var e0, l0 := zip.entries, zip.log;
    ghost var bw := BlobWrites(src, planned, previousBlobs).0;
    ghost var mw := ManifestWrites(Fetched(transfer, docs)).0;
    var br := AddBlobsToZip(src, zip, planned, previousBlobs);
    if br.Err? {
      return br;
    }
    ghost var e1, l1 := zip.entries, zip.log;
    var paths := AddManifestsToZip(src, zip, manifests);
    WroteThen(e0, l0, bw, e1, l1, mw, zip.entries, zip.log);
    if paths.Err? {
      return Err(paths.error);
    }
    ghost var e2, l2 := zip.entries, zip.log;
    WritePayloadDescriptorToZip(zip, manifests, paths.value, skip);
    WroteThen(e0, l0, bw + mw, e2, l2, [DescriptorWrite(transfer, paths.value, skip)], zip.entries, zip.log);
    r := Ok(());
  }
}

# docker-charon, modelled in Dafny

docker-charon moves Docker images into an air-gapped registry.

- **Encoder.** On the connected side, it reads the manifests of the requested images from a source registry and lists their blobs. It writes into a zip payload:
  - every blob that was not transferred by an earlier payload, under `blobs/<digest>`;
  - every manifest, under `manifests/<name with / replaced by _>`;
  - a descriptor `payload_descriptor.json` mapping each image name to its manifest's path in the zip.
- **Decoder.** On the air-gapped side, it reads the descriptor back. For each image it pushes to the destination registry every blob of the image's manifest that the zip holds, then sets the manifest. Finally it hands on the image's name.

The project models three things:

- the current pipeline: `docker_charon/utils.py`, `docker_charon/encoder.py` and `docker_charon/decoder.py`;
- the earlier single-file pipeline, `charon/utils.py`;
- what the two halves achieve together.

Modules:

- `Wrappers`: `Option`, `Result` and the `Error`s the Python code raises (a missing tag, a missing manifest, a malformed manifest, a missing zip entry, a null manifest path, ...), and bytes.
- `Sequences`: Python list idioms used by the pipeline.
  - `Select` is the list comprehension over `x in already` and `x not in already`.
  - `UniqBy` keeps the first element of each key, as `uniquify_blobs` does.
- `Utils`: `docker_charon/utils.py`.
  - `Blob` is a value; its `==` is `Blob.__eq__`.
  - `Manifest` is a class whose `content` field memoizes the fetched manifest.
  - Also modelled: the `split(":")` name parsing, `get_list_of_blobs`, `progress_as_string`, and `file_to_generator` over a `File` class with a read position.
- `Stores`: the two stores the pipeline changes.
  - `ZipFile` is a class with an entry map and a log of written paths.
  - `Registry` is the destination registry: a class with a log of `push_blob`/`set_manifest` calls, whose `State()` is the replay of that log over its initial state.
  - The source registry is a value (`Utils.SourceRegistry`) that the encoder only reads.
- `Encoder`: `docker_charon/encoder.py`.
  - Each loop of the source is a method proved against a function on values.
  - Among those functions, `PayloadWrites` gives the complete list of zip writes of a run, and its outcome.
- `Decoder`: `docker_charon/decoder.py`.
  - `Replay` walks the descriptor items as `json.loads(...).items()` yields them.
  - `LoadRun` gives the registry calls, the names handed on and the outcome of a whole replay.
- `RoundTrip`: what decoding an encoded archive achieves.
- `Findings`: the two discrepancies listed below, shown on the inputs that exhibit them.
- `Legacy`: `charon/utils.py`. It reuses the Encoder and Decoder members its functions share with the current pipeline.
  The members that model both pipelines, with the legacy spans they cover:
  - `Utils.BlobEq`: `Blob.__eq__`, charon/utils.py:27-28.
  - `Utils.Manifest.Content`: `content`, charon/utils.py:52-62.
  - `Utils.BlobsOfShape`: `get_list_of_blobs`, charon/utils.py:64-71.
  - `Utils.ProgressRoundTrip`: `progress_as_string`, charon/utils.py:81-82.
  - `Encoder.AddBlobsToZip`: charon/utils.py:85-112.
  - `Encoder.AddManifestsToZip`: charon/utils.py:115-121.
  - `Encoder.GetManifestsAndListOfAllBlobs`: charon/utils.py:124-133.
  - `Encoder.UniquifyBlobs`: charon/utils.py:136-141.
  - `Utils.FileToGenerator`: charon/utils.py:212-217.
  - `Decoder.PushAllBlobsFromManifest`: charon/utils.py:220-236.
  - `Decoder.LoadSingleImageFromZipInRegistry`: charon/utils.py:239-249.

Two switches keep the code as written and its correction side by side:

- **Blob planning.**
  - `Encoder.Planning.UniquifyThenExclude` is the order the encoder uses as written.
  - `ExcludeThenUniquify` is the corrected order.
- **Null paths in the decoder.**
  - `skipNull == false` is the decoder as written: a null path makes `zip.read(None)` fail.
  - `skipNull == true` passes a null item over and hands its name on.

`Encoder.CreateZipFromDockerImages` writes a null path for each skipped image; `Legacy.CreateZipFromDockerImages` does not list skipped images at all.

Where the code and its own documentation or callers disagree, the model follows the code:

- The command line passes a `strict` flag to the decoder (docker_charon/__main__.py:82 and 111-112). `push_payload_to_registry` (docker_charon/decoder.py:18-24) has no such parameter and checks nothing about skipped images. A skipped image's null path makes the decoder fail instead (Finding 1).
- The docstring of `push_payload_to_registry` (docker_charon/decoder.py:40-45) promises that the images skipped as already transferred are returned too. As written, they never are: the run fails first (Finding 1). The skipping replay (`skipNull == true`) returns them.
- The descriptor written at docker_charon/encoder.py:86-98 maps each image name to its manifest path, or to null, and records nothing about blobs. Whether a blob is in the archive is decided on the decoder side only by the entry `blobs/<digest>` being present (docker_charon/decoder.py:64-70).
- `add_blobs_to_zip` skips a blob only when an equal blob, by digest and repository (docker_charon/utils.py:24-25), was already transferred (docker_charon/encoder.py:22). The same digest under another repository is written again.

## Model

| member | source | states |
|---|---|---|
| Utils.BlobEq | docker_charon/utils.py:24-25 | two blobs are equal exactly when digest and repository both agree |
| Utils.Split | docker_charon/utils.py:41-47 | `str.split` yields at least one part and no part contains the separator |
| Utils.JoinSplit | docker_charon/utils.py:41-47 | joining the parts of a split with the separator gives back the name |
| Utils.SplitJoin | docker_charon/utils.py:41-47 | splitting a join of separator-free parts gives back the parts |
| Utils.RepositoryOf | docker_charon/utils.py:41-43 | (function, no contract) the `repository` property: the first part of the name split at `:`; `Utils.TagExistsIffColon` and `Utils.ImageRefParts` state its properties |
| Utils.TagOf | docker_charon/utils.py:45-47 | (function, no contract) the `tag` property: the second part of the name split at `:`, or the `IndexError` of a name without `:` |
| Utils.ImageRefParts | docker_charon/utils.py:41-47 | for `r:t` with no colon in `r` or `t`, the repository is `r` and the tag is `t` |
| Utils.TagExistsIffColon | docker_charon/utils.py:45-47 | a tag exists iff the name has a colon; the repository is the text before the first colon, or the whole name |
| Utils.IndexOf | docker_charon/utils.py:43 | the position found is the first occurrence of the separator |
| Utils.LayerBlobs | docker_charon/utils.py:66-67 | (function, no contract) the loop over `layers`, one blob per layer digest, or the KeyError of a layer without one; `Utils.LayerBlobsSpec` characterises it |
| Utils.BlobsOf | docker_charon/utils.py:61-68 | (function, no contract) `get_list_of_blobs` on a document: the config blob, then the layer blobs, all in the repository, or the KeyError of a malformed document; `Utils.BlobsOfShape` characterises it |
| Utils.LayerBlobsSpec | docker_charon/utils.py:66-67 | one blob per layer, in order, in the manifest's repository; a layer without a digest is an error |
| Utils.BlobsOfShape | docker_charon/utils.py:61-68 | the list of blobs is the config blob, then the layer blobs in order, all in the image's repository; it fails iff the manifest is malformed |
| Utils.FetchManifest | docker_charon/utils.py:57-58 | (function, no contract) `dxf.get_manifest(self.tag)` on the source: the tag's IndexError, the document, or a missing manifest; `Utils.Manifest.Content` is proved against it |
| Utils.ContentOf | docker_charon/utils.py:49-59 | (function, no contract) what the `content` property answers given its memo: the memo, the decoder-side ValueError, or the fetch; `Utils.Manifest.Content` is proved against it |
| Utils.ListOfBlobs | docker_charon/utils.py:61-68 | (function, no contract) `get_list_of_blobs` given what `content` answers; `Utils.Manifest.GetListOfBlobs` is proved against it |
| Utils.Manifest.constructor | docker_charon/utils.py:29-39 | a new manifest holds its name, side and optional content |
| Utils.Manifest.Content | docker_charon/utils.py:49-59 | cached content is returned unchanged; a decoder-side manifest without content fails; an encoder-side one fetches from the source registry and caches only a success |
| Utils.Manifest.GetListOfBlobs | docker_charon/utils.py:61-68 | the blobs of the content as `Content` would return it, and the cache changes only as `Content` changes it |
| Utils.Decimal | docker_charon/utils.py:72 | the decimal text of a number is non-empty and made of digits |
| Utils.DecimalRoundTrip | docker_charon/utils.py:72 | reading back the decimal text of `n` gives `n` |
| Utils.ProgressAsString | docker_charon/utils.py:71-72 | (function, no contract) `[<index + 1>/<length>]`; `Utils.ProgressRoundTrip` states that it reads back |
| Utils.ProgressRoundTrip | docker_charon/utils.py:71-72 | `[i+1/len]` parses back to index plus one and the length |
| Utils.ProgressShape | docker_charon/utils.py:71-72 | the progress text is two fields joined by `/` inside brackets |
| Utils.DigitsHaveNoSlash | docker_charon/utils.py:72 | decimal text never contains the `/` that separates the two fields |
| Utils.File.constructor | docker_charon/utils.py:75 | a new file-like object is positioned at the start of its data |
| Utils.File.Read | docker_charon/utils.py:77 | a read returns at most `n` bytes, and exactly `n` unless the data ends; the chunk and what remains make up what remained before |
| Utils.Chunks | docker_charon/utils.py:75-80 | (function, no contract) the data cut into pieces of 32768 bytes, the last one possibly shorter; `Utils.ChunksSpec` characterises it and `Utils.FileToGenerator` is proved against it |
| Utils.ChunksSpec | docker_charon/utils.py:75-80 | the chunks concatenate to the data; each is non-empty and at most 32768 bytes; all but the last are full |
| Utils.FileToGenerator | docker_charon/utils.py:75-80 | the loop yields exactly the chunking of the remaining data and leaves the file at its end |
| Sequences.SelectMembers | docker_charon/encoder.py:106-111 | an element is kept iff it is in the input and is (or is not) in the other list |
| Sequences.SelectSubseq | docker_charon/encoder.py:106-111 | the kept elements keep their input order |
| Sequences.SelectOneSide | docker_charon/encoder.py:106-111 | no element goes to the skip side iff every element goes to the transfer side, in order |
| Sequences.SelectPartition | docker_charon/encoder.py:106-111 | the two selections together are a permutation of the input |
| Sequences.UniqByKeys | docker_charon/encoder.py:72-77 | deduplicating keeps exactly the keys of the input |
| Sequences.UniqByFirst | docker_charon/encoder.py:72-77 | each element kept is the first one of the input with its key |
| Sequences.UniqByOrder | docker_charon/encoder.py:72-77 | the kept elements appear in the order of their keys' first occurrences |
| Sequences.UniqBySubseq | docker_charon/encoder.py:72-77 | the result is a subsequence of the input |
| Sequences.UniqByDistinct | docker_charon/encoder.py:72-77 | a list without repeated keys is left unchanged |
| Sequences.UniqByIdempotent | docker_charon/encoder.py:72-77 | deduplicating twice is deduplicating once |
| Sequences.UniqByAppend | docker_charon/encoder.py:86-95 | deduplicating two lists with disjoint keys is deduplicating each |
| Sequences.SelectKeepsDistinctKeys | docker_charon/encoder.py:133-135 | selecting from a list without repeated keys keeps it free of repeats |
| Sequences.FirstIndex | docker_charon/encoder.py:75 | the index found holds the key and no earlier element does |
| Stores.ZipFile.constructor | docker_charon/encoder.py:181 | a zip opened for writing starts with no entries and no writes |
| Stores.ZipFile.WriteStr | docker_charon/encoder.py:49 | `writestr` sets one entry, keeps every other, and logs the path |
| Stores.Apply | docker_charon/encoder.py:36-38 | (function, no contract) the zip's entries after a series of writes, a later write to a path replacing an earlier one; `Stores.ApplyLastWrite`, `Stores.ApplyUntouched` and `Stores.ApplyWritten` characterise it |
| Stores.ApplyLastWrite | docker_charon/encoder.py:36-38 | after a series of writes, a path written at least once holds a payload that some write to that path carried |
| Stores.ApplyUntouched | docker_charon/encoder.py:36-38 | a path has an entry iff it had one before or was written; an entry that no write touches keeps its payload |
| Stores.ApplyWritten | docker_charon/encoder.py:36-38 | when every write to a path carries the same payload, the entry holds that payload |
| Stores.Registry.constructor | docker_charon/decoder.py:47 | a new destination registry starts in the given state with no calls |
| Stores.Registry.PushBlob | docker_charon/decoder.py:68 | `push_blob` adds exactly one call to the registry's log; `Stores.CallsEffect` gives its effect on the state |
| Stores.Registry.SetManifest | docker_charon/decoder.py:83 | `set_manifest` adds exactly one call to the registry's log |
| Stores.Perform | docker_charon/decoder.py:62-83 | (function, no contract) the destination registry after one call: a push stores the blob, a set stores the manifest |
| Stores.PerformAll | docker_charon/decoder.py:62-83 | (function, no contract) the destination registry after a series of calls, in order; `Stores.PerformAllManifest`, `Stores.PerformAllBlob` and `Stores.CallsEffect` characterise it |
| Stores.PerformAllManifest | docker_charon/decoder.py:82-83 | when a series of calls sets a manifest under a repository and tag, and every such call sets the same manifest, the registry serves that manifest there |
| Stores.PerformAllBlob | docker_charon/decoder.py:66-68 | when a series of calls pushes a blob under a repository and digest, and every such push carries the same data, the registry holds that data there |
| Stores.CallsEffect | docker_charon/decoder.py:62-83 | the registry state is its initial state after every logged call, in order |
| Encoder.SeparateImagesToTransferAndImagesToSkip | docker_charon/encoder.py:101-112 | the loop returns the images not yet transferred and the ones already transferred, each in request order |
| Encoder.SeparateSpec | docker_charon/encoder.py:101-112 | the two lists partition the request as a permutation, each in request order; membership in each is characterized both ways |
| Encoder.ImageBlobs | docker_charon/encoder.py:53-57 | (function, no contract) one image's fetched document and its blob list, or the first error; `Encoder.AllBlobsSpec` and `Encoder.GetManifestAndListOfBlobsToPull` are stated with it |
| Encoder.AllBlobs | docker_charon/encoder.py:60-69 | a successful fetch yields one manifest per image |
| Encoder.AllBlobsSpec | docker_charon/encoder.py:60-69 | the fetch succeeds iff every image's manifest and blob list do; a failure is the first image's error; the blob list concatenates the images' lists in order |
| Encoder.AllBlobsMembers | docker_charon/encoder.py:65-68 | every blob of every image is in the concatenated list |
| Encoder.GetManifestAndListOfBlobsToPull | docker_charon/encoder.py:53-57 | a new encoder-side manifest for the image, its content cached, and its blob list, or the fetch's error |
| Encoder.GetManifestsAndListOfAllBlobs | docker_charon/encoder.py:60-69 | one new manifest per image in order, carrying its fetched content, and the concatenated blobs; the first failure otherwise |
| Encoder.UniquifyBlobs | docker_charon/encoder.py:72-77 | the loop keeps the first blob of each digest, in order |
| Encoder.UniquifySpec | docker_charon/encoder.py:72-77 | no digest is repeated and none is lost; each kept blob is the first with its digest; the result is an ordered subsequence and deduplicating again changes nothing |
| Encoder.AddBlobsToZip | docker_charon/encoder.py:14-41 | the zip receives exactly the writes of the blobs not already transferred, in order, stopping at the first blob the source lacks |
| Encoder.BlobWrites | docker_charon/encoder.py:14-41 | (function, no contract) the writes of the blob loop and how it ends; `Encoder.BlobWritesSpec` characterises them |
| Encoder.BlobWritesSpec | docker_charon/encoder.py:21-41 | writing succeeds iff the source has every blob not already transferred; each such blob is written once, in order, to `blobs/<digest>` with the source's bytes; a failure names a missing blob |
| Encoder.BlobWritesOk | docker_charon/encoder.py:21-41 | the blob writes succeed iff the source holds every blob not already transferred |
| Encoder.BlobWritesError | docker_charon/encoder.py:31-32 | a failure is the missing-blob error of a blob that was to be pulled |
| Encoder.BlobWritesValue | docker_charon/encoder.py:36-40 | successful writes are one write per blob to be pulled, in order, at `blobs/<digest>` with the source's bytes |
| Encoder.BlobWritesDistinct | docker_charon/encoder.py:133-135 | after deduplication no blob path is written twice |
| Encoder.BlobPathInjective | docker_charon/encoder.py:37 | two digests share a blob path iff they are equal |
| Encoder.ManifestPath | docker_charon/encoder.py:47-48 | (function, no contract) `manifests/` followed by the name with `/` replaced by `_`; `Encoder.ManifestPathSpec` states its shape and the collision |
| Encoder.ManifestPathSpec | docker_charon/encoder.py:47-48 | the path is `manifests/` followed by the name with every `/` replaced by `_` and every other character kept, so two names can share one path |
| Encoder.ManifestWrites | docker_charon/encoder.py:44-50 | (function, no contract) the writes of `add_manifests_to_zip` and the paths it yields, ending at the first content that fails; `Encoder.ManifestWritesSpec` characterises it |
| Encoder.ManifestWritesSpec | docker_charon/encoder.py:44-50 | it succeeds iff every manifest's content does; each manifest is then written once, in order, with its path yielded |
| Encoder.AddManifestsToZip | docker_charon/encoder.py:44-50 | the zip receives exactly those writes and the paths are returned; the manifests' contents are unchanged |
| Encoder.AddManifestToZip | docker_charon/encoder.py:46-50 | one manifest: its entry is set to its content and its path returned, or nothing is written when its content fails |
| Encoder.Put | docker_charon/encoder.py:88 | (function, no contract) one dict assignment on ordered items; `Encoder.PutSpec` characterises it |
| Encoder.PutAll | docker_charon/decoder.py:87 | (function, no contract) assigning items one after the other, as `json.loads` builds an object; `Encoder.PutAllKeys` and `Encoder.PutAllLookup` characterise it |
| Encoder.PutSpec | docker_charon/encoder.py:88 | dict assignment adds a new key at the end, keeps the position of an existing key, sets its value and changes no other key |
| Encoder.PutAllKeys | docker_charon/decoder.py:87 | loading an ordered object keeps each key's first position |
| Encoder.PutAllLookup | docker_charon/decoder.py:87 | a key given one value throughout maps to that value; an absent key maps to nothing |
| Encoder.DescriptorOf | docker_charon/encoder.py:80-98 | (function, no contract) the descriptor dict built by the two loops, as ordered items; `Encoder.DescriptorSpec` characterises it |
| Encoder.DescriptorSpec | docker_charon/encoder.py:80-98 | the descriptor names each transferred image, then each skipped image, once, in order of first occurrence; transferred images map to their manifest path, skipped ones to null, others to nothing |
| Encoder.DescriptorKeys | docker_charon/encoder.py:86-95 | the descriptor's key order is that of its two loops, repeats removed |
| Encoder.DescriptorLookups | docker_charon/encoder.py:86-95 | each name maps to its manifest path, to null, or to nothing |
| Encoder.BuildPayloadDescriptor | docker_charon/encoder.py:86-95 | the two loops build the descriptor of the manifests' names, the paths (up to the shorter list) and the skipped images |
| Encoder.WritePayloadDescriptorToZip | docker_charon/encoder.py:80-98 | the zip receives exactly one write: the descriptor, at `payload_descriptor.json` |
| Encoder.PlannedBlobs | docker_charon/encoder.py:133-135 | (function, no contract) the blobs handed to the blob loop: all of them deduplicated by digest (as written, the loop excludes the already-transferred ones afterwards), or the not-yet-transferred ones deduplicated by digest (corrected); `Findings.AsWrittenPlanDropsBlob` and `RoundTrip.PlannedEntry` state what separates the two |
| Encoder.ZipWrites | docker_charon/encoder.py:133-139 | (function, no contract) the blob, manifest and descriptor writes of a run once both lists are fetched; `Encoder.PayloadWritesFetched` and `RoundTrip.ZipWritesOk` characterise it |
| Encoder.PayloadWrites | docker_charon/encoder.py:115-139 | (function, no contract) every zip write of a run, in order, and how the run ends; `Encoder.CreateZipFromDockerImages` is proved against it |
| Encoder.PayloadWritesFetchFails | docker_charon/encoder.py:127-132 | a fetch failure ends the run before anything is written |
| Encoder.PayloadWritesFetched | docker_charon/encoder.py:121-139 | after both fetches, the run writes the planned blobs, then the manifests, then the descriptor |
| Encoder.CreateZipFromDockerImages | docker_charon/encoder.py:115-139 | the zip receives exactly the run's writes, in order, and the run's outcome is returned |
| Encoder.WritePayload | docker_charon/encoder.py:133-139 | the blob, manifest and descriptor steps together write the zip's writes for fetched manifests |
| Decoder.ReadDescriptor | docker_charon/decoder.py:87 | (function, no contract) `json.loads` of the descriptor entry, the KeyError of a missing one; `RoundTrip.DescriptorReadsBack` states that it reads back what the encoder wrote |
| Decoder.ReadManifest | docker_charon/decoder.py:77 | (function, no contract) `zip_file.read` of an item's path: the KeyError of `read(None)` or of a missing entry, or the document; `Decoder.ImageOpsSpec` and `Decoder.NullPathBreaksReplay` are stated with it |
| Decoder.BlobPushes | docker_charon/decoder.py:57-70 | (function, no contract) the pushes of `push_all_blobs_from_manifest`; `Decoder.BlobPushesData`, `Decoder.BlobPushesMembers` and `Decoder.BlobPushesOrder` characterise it |
| Decoder.BlobPushesData | docker_charon/decoder.py:66-68 | every push carries the bytes of the zip entry `blobs/<digest>` |
| Decoder.BlobPushesMembers | docker_charon/decoder.py:57-70 | a blob is pushed iff it is in the manifest and the zip holds its digest; a missing entry is skipped, not an error |
| Decoder.BlobPushesOrder | docker_charon/decoder.py:58-68 | the blobs pushed keep the manifest's order |
| Decoder.PushAllBlobsFromManifest | docker_charon/decoder.py:54-70 | the registry receives exactly the pushes of the manifest's blobs that the zip holds, or nothing when the list of blobs fails |
| Decoder.ImageOps | docker_charon/decoder.py:73-83 | (function, no contract) the registry calls of loading one image and how it ends; `Decoder.ImageOpsSpec` characterises them |
| Decoder.ImageOpsSpec | docker_charon/decoder.py:73-83 | loading an image succeeds iff its manifest entry reads, is well formed and the name has a tag; its calls are then the blob pushes into its repository followed by setting that manifest; nothing is called when reading fails |
| Decoder.LoadSingleImageFromZipInRegistry | docker_charon/decoder.py:73-83 | the registry receives exactly those calls and the outcome is returned |
| Decoder.Replay | docker_charon/decoder.py:88-92 | (function, no contract) the walk over the descriptor items: calls, names handed on, outcome; with `skipNull` a null item is handed on without calls |
| Decoder.LoadRun | docker_charon/decoder.py:86-92 | (function, no contract) reading the descriptor, then its replay, or the reading error |
| Decoder.ReplayLoaded | docker_charon/decoder.py:86-92 | the names handed on are a prefix of the descriptor's names: all of them on success; up to the failing item on failure, with its error |
| Decoder.ReplayOps | docker_charon/decoder.py:88-91 | a successful replay's calls are each item's calls, in descriptor order |
| Decoder.ReplayFailureSticks | docker_charon/decoder.py:88-92 | once an item fails, later items change nothing |
| Decoder.NullPathBreaksReplay | docker_charon/decoder.py:77 | as written, a null manifest path fails the replay at or before that item |
| Decoder.ReplayWithoutNulls | docker_charon/decoder.py:88-91 | without null items, skipping nulls changes nothing |
| Decoder.LoadZipImagesInRegistry | docker_charon/decoder.py:86-92 | the registry receives exactly the replay's calls; the names yielded and the outcome are the replay's |
| Decoder.LoadItems | docker_charon/decoder.py:88-92 | the loop over the items performs the replay of those items |
| Decoder.LoadItem | docker_charon/decoder.py:89-92 | one step of that loop extends the replay by one item, or ends it with the item's error |
| Decoder.PushPayloadToRegistry | docker_charon/decoder.py:18-51 | the registry state is the old one after the replay's calls; the names loaded are returned, or the error |
| RoundTrip.PutNew | docker_charon/encoder.py:88 | assigning a new key appends it |
| RoundTrip.PutAllDistinct | docker_charon/decoder.py:87 | `json.loads` of a descriptor without repeated names gives its items back in order |
| RoundTrip.LookupAt | docker_charon/decoder.py:88 | in such a descriptor each item's name looks up its own path |
| RoundTrip.UniqNamesDisjoint | docker_charon/encoder.py:86-95 | deduplicated disjoint name lists join without repeats |
| RoundTrip.DescriptorNames | docker_charon/encoder.py:80-98 | the descriptor's names are the deduplicated transferred names then the skipped names, all distinct, all requested |
| RoundTrip.DescriptorItems | docker_charon/encoder.py:86-95 | each item is a transferred image with its manifest path or a skipped image with null |
| RoundTrip.DescriptorHasTransferred | docker_charon/encoder.py:87-88 | every transferred image has an item with its manifest path |
| RoundTrip.PathsDiffer | docker_charon/encoder.py:37 | blob, manifest and descriptor paths never collide |
| RoundTrip.FetchedWrites | docker_charon/encoder.py:44-50 | fetched manifests are written one per transferred image at their paths |
| RoundTrip.ZipWritesOk | docker_charon/encoder.py:133-139 | a successful run's writes are its blob writes followed by the manifest and descriptor writes |
| RoundTrip.AfterBlobsAvoid | docker_charon/encoder.py:136-139 | the manifest and descriptor writes never touch a blob path |
| RoundTrip.AfterBlobsManifest | docker_charon/encoder.py:136 | when every transferred image sharing a manifest path has the same manifest, each transferred image's manifest entry holds its manifest |
| RoundTrip.AfterBlobsDescriptor | docker_charon/encoder.py:96-97 | the descriptor entry holds the descriptor |
| RoundTrip.DescriptorReadsBack | docker_charon/decoder.py:87 | the decoder reads back exactly the descriptor the encoder wrote |
| RoundTrip.BlobsHold | docker_charon/encoder.py:21-41 | every planned blob not already transferred is in the archive with the source's bytes |
| RoundTrip.HoldsUntouched | docker_charon/encoder.py:136-139 | later writes elsewhere keep a blob entry |
| RoundTrip.SkippedDisjoint | docker_charon/encoder.py:106-111 | no image is both transferred and skipped |
| RoundTrip.RunWrites | docker_charon/encoder.py:115-139 | a successful run's archive is its blob writes followed by the manifest and descriptor writes |
| RoundTrip.ArchiveOfRun | docker_charon/encoder.py:115-139 | when no two transferred names share a manifest path, a successful run's archive holds the descriptor and every transferred image's manifest |
| RoundTrip.RunDescriptor | docker_charon/encoder.py:137-139 | reading the archive gives the descriptor of the transferred and skipped images |
| RoundTrip.RunManifests | docker_charon/encoder.py:136 | when no two transferred names share a manifest path, every transferred image's manifest entry holds the source's manifest |
| RoundTrip.BlobArchived | docker_charon/encoder.py:133-135 | with exclusion before deduplication, every blob of a transferred image not transferred before has its digest in the archive with source bytes |
| RoundTrip.PlannedEntry | docker_charon/encoder.py:133-135 | such a blob's digest is planned by a blob not already transferred |
| RoundTrip.ReplaySkippingOk | docker_charon/decoder.py:86-92 | the skipping replay succeeds when every item with a path loads |
| RoundTrip.ReplayOpsFrom | docker_charon/decoder.py:88-91 | every call of the replay comes from some item |
| RoundTrip.ReplayOpsInclude | docker_charon/decoder.py:88-91 | a successful replay includes every replayed item's calls |
| RoundTrip.ImageOpsCalls | docker_charon/decoder.py:73-83 | every call made for an image pushes zip bytes or sets the manifest read from its path under its repository and tag |
| RoundTrip.TransferredImageOps | docker_charon/decoder.py:73-83 | a transferred image whose path holds its own fetched manifest loads by pushing its blobs found in the zip, then setting the source's manifest |
| RoundTrip.ArchiveLoadable | docker_charon/decoder.py:73-83 | an archive that holds each transferred image's own manifest is loadable: every such image has a tag and a well-formed manifest at its path |
| RoundTrip.LoadableImageOps | docker_charon/decoder.py:73-83 | an image whose name has a tag and whose path holds a well-formed manifest loads without error, whichever image's manifest it is |
| RoundTrip.AfterBlobsWellFormed | docker_charon/encoder.py:44-50 | after the manifest and descriptor writes, each transferred image's path holds a well-formed manifest, even when a later image with the same path overwrote it |
| RoundTrip.FetchedLoadable | docker_charon/encoder.py:53-57 | every manifest the encoder fetched is well formed and every fetched name has a tag, since fetching and listing its blobs succeeded |
| RoundTrip.LoadableArchiveOfRun | docker_charon/encoder.py:115-139 | every successful run, with or without names that share a manifest path, writes a loadable archive whose descriptor reads back |
| RoundTrip.ReplayOfArchive | docker_charon/decoder.py:86-92 | the skipping replay of a loadable archive succeeds and hands on every named image |
| RoundTrip.ReplayPushes | docker_charon/decoder.py:66-68 | every push of a replay carries the bytes the zip holds for its digest |
| RoundTrip.ReplaySets | docker_charon/decoder.py:82-83 | in an archive where each transferred image's path holds its own manifest (what a run writes when no two transferred names share a manifest path), every manifest set is the source registry's manifest for that repository and tag |
| RoundTrip.ReplayLoadsImage | docker_charon/decoder.py:88-91 | in an archive where each transferred image's path holds its own manifest (what a run writes when no two transferred names share a manifest path), a transferred image's calls are all made |
| RoundTrip.BlobPushed | docker_charon/decoder.py:66-68 | in an archive where each transferred image's path holds its own manifest (what a run writes when no two transferred names share a manifest path), a blob of a transferred image found in the archive is pushed to its repository |
| RoundTrip.RoundTripLoads | docker_charon/decoder.py:40-45 | replaying any successful run's archive, even one where two names share a manifest path, succeeds and hands on every requested image once: transferred ones first, then skipped ones |
| RoundTrip.ReplayedManifest | docker_charon/decoder.py:82-83 | in an archive where each transferred image's path holds its own manifest (what a run writes when no two transferred names share a manifest path), after the replay the destination serves each transferred image's source manifest |
| RoundTrip.ReplayedBlob | docker_charon/decoder.py:66-68 | in an archive where each transferred image's path holds its own manifest (what a run writes when no two transferred names share a manifest path), after the replay the destination holds each archived blob of a transferred image under its repository |
| RoundTrip.RoundTripManifest | docker_charon/decoder.py:77-83 | when no two transferred names share a manifest path, after replaying a run's archive, the destination serves every transferred image's manifest as the source does, and every manifest set is the source's manifest for that repository and tag |
| RoundTrip.RoundTripBlob | docker_charon/encoder.py:14-41 | with exclusion before deduplication and no two transferred names sharing a manifest path, after replaying, the destination holds, under the repository and digest of every blob of a transferred image not transferred before, the bytes some repository of the source holds for that digest |
| RoundTrip.ContentAddressed | docker_charon/decoder.py:64-68 | (predicate, no contract) a digest names the same bytes in every repository of the source that holds it, which is what lets one `blobs/<digest>` entry serve every repository |
| RoundTrip.RoundTripBlobBytes | docker_charon/encoder.py:14-41 | in a content-addressed source that holds the blob, with no two transferred names sharing a manifest path, the destination holds exactly that blob's own source bytes under its repository and digest after the replay |
| RoundTrip.AsWrittenReplayNeedsNoSkip | docker_charon/decoder.py:86-92 | when no requested image was transferred before, the decoder as written replays the archive exactly as the skipping replay does |
| RoundTrip.AsWrittenRoundTripLoads | docker_charon/decoder.py:86-92 | the decoder as written replays the archive of any successful run that skipped nothing without error, and loads every requested image once, in order of first request |
| RoundTrip.AsWrittenRoundTripManifest | docker_charon/decoder.py:77-83 | when no two requested names share a manifest path, after the decoder as written replays such an archive, the destination serves every requested image's manifest exactly as the source does |
| Findings.DescriptorHasSkipped | docker_charon/encoder.py:94-95 | every skipped image has an item with a null path |
| Findings.NullItemNotLoaded | docker_charon/decoder.py:88-92 | as written, a null item makes the replay fail before its name is handed on |
| Findings.AsWrittenReplayFailsOnSkipped | docker_charon/decoder.py:77 | as written, any run that skipped an image produces an archive whose replay fails without handing that image on |
| Findings.AsWrittenPlanDropsBlob | docker_charon/encoder.py:133-135 | as written, blobs `(d, r1)`, `(d, r2)` with only `(d, r1)` transferred before are planned as `(d, r1)` alone and nothing is written; excluding first plans `(d, r2)` |
| Findings.AsWrittenArchiveLacksBlob | docker_charon/encoder.py:133-135 | in such a run the archive has no entry for `d` and the replay never pushes `d` |
| Legacy.RemoveImagesAlreadyTransferred | charon/utils.py:155-162 | the loop keeps the requested images not already transferred, in request order |
| Legacy.WritePayloadDescriptorToZip | charon/utils.py:144-152 | the zip receives exactly the descriptor of the manifests' names and paths, without null items |
| Legacy.LegacyDescriptor | charon/utils.py:144-152 | the legacy descriptor names each transferred image once with its manifest path, and nothing else |
| Legacy.CreateZipFromDockerImages | charon/utils.py:165-184 | the zip receives exactly the writes of a run without null items, and the run's outcome is returned |
| Legacy.LoadZipImagesInRegistry | charon/utils.py:252-257 | the registry receives exactly the as-written replay's calls, and its outcome is returned |
| Legacy.PushPayloadToRegistry | charon/utils.py:260-272 | the registry state is the old one after those calls; the outcome is returned |
| Legacy.LegacyReplayNeedsNoSkip | charon/utils.py:252-257 | a legacy archive replays the same with or without skipping nulls |
| Legacy.LegacyRoundTripLoads | charon/utils.py:252-257 | the legacy decoder replays any successful legacy run's archive without error and loads each transferred image once, in order |
| Legacy.LegacyRoundTripManifest | charon/utils.py:239-249 | when no two transferred names share a manifest path, after that replay the destination serves every transferred image's source manifest |

## Left out

- Network access through `dxf` (authentication, TLS, HTTP), and opening the zip from a path or file object. The source registry is a value, and the destination registry and the zip are objects handed to the operations.
- `make_payload` (docker_charon/encoder.py:140-188 and charon/utils.py:187-209): only the zip opening and argument defaulting around `create_zip_from_docker_images`, which is modelled.
- `print` progress messages and `tqdm` progress bars. `progress_as_string` itself is modelled.
- JSON text: zip entries hold the parsed manifest or the descriptor's ordered items, not their text. `json.dumps` followed by `json.loads` is modelled as keeping the ordered items.
- Streaming: a blob's bytes are copied as one payload. `file_to_generator` is modelled on its own, over a byte sequence.
- `docker_charon.common` is not part of this model. `docker_charon/utils.py` defines the same `Blob`, `Manifest` and `progress_as_string`, and stands in for it.
- The command-line entry points and the package's `__init__`.
- RoundTrip.RoundTripManifest: proved under `ManifestPathsDistinct`. Two names such as `a/b:1` and `a_b:1` share one manifest path (`Encoder.ManifestPathSpec`), and the later manifest overwrites the earlier one in the zip. The earlier image is then loaded with the later image's manifest and blobs, so it does not receive its own manifest. Loading still succeeds (`RoundTrip.RoundTripLoads` does not need the restriction).
- AsWrittenRoundTripManifest: proved under `ManifestPathsDistinct`, for the reason given for `RoundTrip.RoundTripManifest`.
- LegacyRoundTripManifest: proved under `ManifestPathsDistinct`, for the reason given for `RoundTrip.RoundTripManifest`; the legacy encoder names manifest paths the same way.
- RoundTrip.RoundTripBlob: proved under `ManifestPathsDistinct`, because an image whose manifest path was overwritten is loaded with another image's blobs (see `RoundTrip.RoundTripManifest`). Proved only for the corrected planning `ExcludeThenUniquify`. As written, the property fails (Finding 2). It names the bytes some repository of the source holds for the blob's digest, because the archive keeps one entry per digest. `RoundTrip.RoundTripBlobBytes` names the blob's own bytes when the source is content addressed.
- RoundTrip.RoundTripBlobBytes: proved under `ManifestPathsDistinct`, as `RoundTrip.RoundTripBlob`. It assumes `ContentAddressed`, because the source registry is a plain map. Nothing in the model forces one digest to name one content.
- ArchiveOfRun: proved under `ManifestPathsDistinct`, for the reason given for `RoundTrip.RoundTripManifest`.
- RunManifests: proved under `ManifestPathsDistinct`, for the reason given for `RoundTrip.RoundTripManifest`.
- The destination registry (`Stores.Perform`) accepts every `push_blob` and every `set_manifest`. A real registry refuses a manifest whose blobs the repository lacks. On the input of Finding 2, the run as written would then stop at `set_manifest`, where `RoundTrip.RoundTripLoads` with planning `UniquifyThenExclude` reports success. The missing blob shows up only in `Findings.AsWrittenArchiveLacksBlob`.
- Decoder.PushAllBlobsFromManifest: a `KeyError` from a missing blob entry is modelled as the skip the code performs. Other exceptions raised inside `push_blob` are network failures and are left out.

## Findings

| source | as written | input that shows it | evidently intended | confidence | as-written member | corrected member |
|---|---|---|---|---|---|---|
| docker_charon/encoder.py:94-95 | the encoder gives each skipped image a null manifest path. The decoder reads every item's path with `zip_file.read(manifest_path_in_zip)` (docker_charon/decoder.py:77), and `read(None)` raises, so the replay stops | `docker_images_to_transfer = ["a:1"]`, `docker_images_already_transferred = ["a:1"]`: the descriptor is `{"a:1": null}` and pushing the payload fails | skipped images are listed and handed on without being loaded, as `push_payload_to_registry` documents | not executed | Findings.AsWrittenReplayFailsOnSkipped | RoundTrip.RoundTripLoads |
| docker_charon/encoder.py:133-135 | `uniquify_blobs` keeps the first blob of each digest before `add_blobs_to_zip` drops the already-transferred ones (also charon/utils.py:180-182) | blobs to pull `[(d, r1), (d, r2)]`, already transferred `[(d, r1)]`: `(d, r2)` is deduplicated away and `(d, r1)` is then skipped, so `blobs/d` is never written and `r2` never receives `d` | each blob not transferred before reaches its repository | not executed | Findings.AsWrittenArchiveLacksBlob | RoundTrip.RoundTripBlobBytes |

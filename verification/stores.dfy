/** The two stores the pipeline writes to, reduced to their observable state:
    the payload archive (a `ZipFile` opened for writing or reading) and the
    destination registry (the `push_blob` and `set_manifest` calls of the
    registry client). */
module Stores {
  import opened Wrappers
  import opened Utils

  /** What an archive entry holds: blob bytes, a manifest document, or the
      payload descriptor as its ordered (image, path-or-null) items. */
  datatype Payload =
    | BlobData(bytes: Bytes)
    | ManifestText(doc: ManifestDoc)
    | DescriptorText(items: seq<(string, Option<string>)>)

  /** One `writestr` (or `open(path, "w")`) on the archive. */
  datatype Write = Write(path: string, payload: Payload)

  /** The entries after a sequence of writes; a later write to a path replaces
      what an earlier one stored there, as reading the archive sees it. */
  function Apply(entries: map<string, Payload>, writes: seq<Write>): map<string, Payload>
  {
    if writes == [] then entries
    else Apply(entries, DropLast(writes))[Last(writes).path := Last(writes).payload]
  }

  function PathsOf(writes: seq<Write>): seq<string>
  {
    seq(|writes|, k requires 0 <= k < |writes| => writes[k].path)
  }

  /** Applying two batches of writes one after the other is applying their
      concatenation. */
  lemma {:induction false} ApplyAppend(entries: map<string, Payload>, w1: seq<Write>, w2: seq<Write>)
    ensures Apply(Apply(entries, w1), w2) == Apply(entries, w1 + w2)
  {
    if w2 == [] {
      assert w1 + w2 == w1;
    } else {
      ApplyAppend(entries, w1, DropLast(w2));
      assert DropLast(w1 + w2) == w1 + DropLast(w2);
    }
  }

  lemma ApplyOne(entries: map<string, Payload>, w: Write)
    ensures Apply(entries, [w]) == entries[w.path := w.payload]
    ensures PathsOf([w]) == [w.path]
  {
    assert DropLast([w]) == [];
  }

  /** Two batches of writes one after the other. */
  lemma WroteThen(e0: map<string, Payload>, l0: seq<string>, w1: seq<Write>,
                  e1: map<string, Payload>, l1: seq<string>, w2: seq<Write>,
                  e2: map<string, Payload>, l2: seq<string>)
    requires e1 == Apply(e0, w1) && l1 == l0 + PathsOf(w1)
    requires e2 == Apply(e1, w2) && l2 == l1 + PathsOf(w2)
    ensures e2 == Apply(e0, w1 + w2) && l2 == l0 + PathsOf(w1 + w2)
  {
    ApplyAppend(e0, w1, w2);
    LogThen(l0, w1, w2);
  }

  lemma LogThen(l0: seq<string>, w1: seq<Write>, w2: seq<Write>)
    ensures (l0 + PathsOf(w1)) + PathsOf(w2) == l0 + PathsOf(w1 + w2)
  {
    PathsOfAppend(w1, w2);
    assert (l0 + PathsOf(w1)) + PathsOf(w2) == l0 + (PathsOf(w1) + PathsOf(w2));
  }

  /** One more write. */
  lemma WroteOne(entries: map<string, Payload>, writes: seq<Write>, w: Write)
    ensures Apply(entries, writes + [w]) == Apply(entries, writes)[w.path := w.payload]
    ensures PathsOf(writes + [w]) == PathsOf(writes) + [w.path]
  {
    assert DropLast(writes + [w]) == writes;
  }

  lemma PathsOfAppend(w1: seq<Write>, w2: seq<Write>)
    ensures PathsOf(w1 + w2) == PathsOf(w1) + PathsOf(w2)
  {
  }

  /** A path is present after the writes exactly when it was before or some
      write targets it; a path no write targets keeps its old entry. */
  lemma {:induction false} ApplyUntouched(entries: map<string, Payload>, writes: seq<Write>, p: string)
    ensures p in Apply(entries, writes) <==> p in entries || p in PathsOf(writes)
    ensures p !in PathsOf(writes) && p in entries ==> Apply(entries, writes)[p] == entries[p]
  {
    if writes != [] {
      ApplyUntouched(entries, DropLast(writes), p);
      assert PathsOf(writes) == PathsOf(DropLast(writes)) + [Last(writes).path];
    }
  }

  /** When every write to `p` stores `v` and at least one does, `p` holds `v`. */
  lemma {:induction false} ApplyWritten(entries: map<string, Payload>, writes: seq<Write>, p: string, v: Payload)
    requires p in PathsOf(writes)
    requires forall k :: 0 <= k < |writes| && writes[k].path == p ==> writes[k].payload == v
    ensures p in Apply(entries, writes) && Apply(entries, writes)[p] == v
  {
    var init := DropLast(writes);
    if Last(writes).path != p {
      assert PathsOf(writes) == PathsOf(init) + [Last(writes).path];
      assert forall k :: 0 <= k < |init| ==> init[k] == writes[k];
      ApplyWritten(entries, init, p, v);
    }
  }

  /** A path that some write targets holds what one of those writes stored. */
  lemma {:induction false} ApplyLastWrite(entries: map<string, Payload>, writes: seq<Write>, p: string)
    requires p in PathsOf(writes)
    ensures p in Apply(entries, writes)
    ensures exists k :: 0 <= k < |writes| && writes[k].path == p && Apply(entries, writes)[p] == writes[k].payload
  {
    var init := DropLast(writes);
    if Last(writes).path != p {
      assert PathsOf(writes) == PathsOf(init) + [Last(writes).path];
      ApplyLastWrite(entries, init, p);
      var k :| 0 <= k < |init| && init[k].path == p && Apply(entries, init)[p] == init[k].payload;
      assert writes[k] == init[k];
    } else {
      assert writes[|writes| - 1].path == p;
    }
  }

  /** The archive being written or read. Entries map a path to what was last
      written there; the log keeps every path in write order, repeats
      included. */
  class ZipFile {
    var entries: map<string, Payload>
    var log: seq<string>

    constructor ()
      ensures entries == map[] && log == []
    {
      entries := map[];
      log := [];
    }

    /** `writestr(path, payload)`: stores the payload under the path. */
    method WriteStr(path: string, payload: Payload)
      modifies this
      ensures entries == old(entries)[path := payload]
      ensures log == old(log) + [path]
    {
      entries := entries[path := payload];
      log := log + [path];
    }

    /** `read(path)`: the entry, or the KeyError of a missing one. */
    function Read(path: string): Result<Payload>
      reads this
    {
      if path in entries then Ok(entries[path]) else Err(EntryNotFound(path))
    }

    /** The archive went from (`oldEntries`, `oldLog`) through exactly `writes`. */
    ghost predicate Wrote(oldEntries: map<string, Payload>, oldLog: seq<string>, writes: seq<Write>)
      reads this
    {
      entries == Apply(oldEntries, writes) && log == oldLog + PathsOf(writes)
    }
  }

  // ---------------------------------------------------------------------------
  // The destination registry

  /** A call on the destination registry: `push_blob` of some data under a
      digest in a repository, or `set_manifest` of a document under a tag. */
  datatype Op =
    | PushBlob(repository: string, digest: Digest, data: Payload)
    | SetManifest(repository: string, tag: string, doc: ManifestDoc)

  /** Blobs by (repository, digest), manifests by (repository, tag). */
  datatype RegistryState = RegistryState(
    blobs: map<(string, Digest), Payload>,
    manifests: map<(string, string), ManifestDoc>)

  function Perform(st: RegistryState, op: Op): RegistryState
  {
    match op
    case PushBlob(r, d, data) => st.(blobs := st.blobs[(r, d) := data])
    case SetManifest(r, t, doc) => st.(manifests := st.manifests[(r, t) := doc])
  }

  function PerformAll(st: RegistryState, ops: seq<Op>): RegistryState
  {
    if ops == [] then st else Perform(PerformAll(st, DropLast(ops)), Last(ops))
  }

  lemma {:induction false} PerformAllAppend(st: RegistryState, o1: seq<Op>, o2: seq<Op>)
    ensures PerformAll(PerformAll(st, o1), o2) == PerformAll(st, o1 + o2)
  {
    if o2 == [] {
      assert o1 + o2 == o1;
    } else {
      PerformAllAppend(st, o1, DropLast(o2));
      assert DropLast(o1 + o2) == o1 + DropLast(o2);
    }
  }

  lemma PerformAllStep(st: RegistryState, ops: seq<Op>, op: Op)
    ensures PerformAll(st, ops + [op]) == Perform(PerformAll(st, ops), op)
  {
    assert DropLast(ops + [op]) == ops;
  }

  predicate Sets(op: Op, r: string, t: string)
  {
    op.SetManifest? && op.repository == r && op.tag == t
  }

  predicate Pushes(op: Op, r: string, d: Digest)
  {
    op.PushBlob? && op.repository == r && op.digest == d
  }

  /** When every `set_manifest` on (r, t) stores `doc` and at least one call
      does, the registry serves `doc` under (r, t) afterwards. */
  lemma {:induction false} PerformAllManifest(st: RegistryState, ops: seq<Op>, r: string, t: string, doc: ManifestDoc)
    requires exists k :: 0 <= k < |ops| && Sets(ops[k], r, t)
    requires forall k :: 0 <= k < |ops| && Sets(ops[k], r, t) ==> ops[k].doc == doc
    ensures (r, t) in PerformAll(st, ops).manifests && PerformAll(st, ops).manifests[(r, t)] == doc
  {
    var init := DropLast(ops);
    var last := Last(ops);
    if !Sets(last, r, t) {
      var k :| 0 <= k < |ops| && Sets(ops[k], r, t);
      assert k < |init| && init[k] == ops[k];
      assert forall j :: 0 <= j < |init| ==> init[j] == ops[j];
      PerformAllManifest(st, init, r, t, doc);
    }
  }

  /** When every push of (r, d) carries `data` and at least one push happens,
      the registry holds `data` under (r, d) afterwards. */
  lemma {:induction false} PerformAllBlob(st: RegistryState, ops: seq<Op>, r: string, d: Digest, data: Payload)
    requires exists k :: 0 <= k < |ops| && Pushes(ops[k], r, d)
    requires forall k :: 0 <= k < |ops| && Pushes(ops[k], r, d) ==> ops[k].data == data
    ensures (r, d) in PerformAll(st, ops).blobs && PerformAll(st, ops).blobs[(r, d)] == data
  {
    var init := DropLast(ops);
    var last := Last(ops);
    if !Pushes(last, r, d) {
      var k :| 0 <= k < |ops| && Pushes(ops[k], r, d);
      assert k < |init| && init[k] == ops[k];
      assert forall j :: 0 <= j < |init| ==> init[j] == ops[j];
      PerformAllBlob(st, init, r, d, data);
    }
  }

  /** The destination registry, opened in state `initial`, and every call made
      on it since; what it serves now is the opening state after those calls. */
  class Registry {
    const initial: RegistryState
    var log: seq<Op>

    /** The blobs and manifests the registry holds now. */
    function State(): RegistryState
      reads this
    {
      PerformAll(initial, log)
    }

    constructor (initial: RegistryState)
      ensures this.initial == initial && log == [] && State() == initial
    {
      this.initial := initial;
      log := [];
    }

    /** `push_blob(data, digest)` on the repository. */
    method PushBlob(repository: string, digest: Digest, data: Payload)
      modifies this
      ensures log == old(log) + [Op.PushBlob(repository, digest, data)]
    {
      log := log + [Op.PushBlob(repository, digest, data)];
    }

    /** `set_manifest(tag, content)` on the repository. */
    method SetManifest(repository: string, tag: string, doc: ManifestDoc)
      modifies this
      ensures log == old(log) + [Op.SetManifest(repository, tag, doc)]
    {
      log := log + [Op.SetManifest(repository, tag, doc)];
    }
  }

  /** A call changes exactly the blob or manifest it names. */
  lemma CallEffect(r: Registry, oldLog: seq<Op>, op: Op)
    requires r.log == oldLog + [op]
    ensures r.State() == Perform(PerformAll(r.initial, oldLog), op)
  {
    PerformAllStep(r.initial, oldLog, op);
  }

  /** After calls `ops`, the registry serves its earlier state with `ops` applied. */
  lemma CallsEffect(r: Registry, oldLog: seq<Op>, ops: seq<Op>)
    requires r.log == oldLog + ops
    ensures r.State() == PerformAll(PerformAll(r.initial, oldLog), ops)
  {
    PerformAllAppend(r.initial, oldLog, ops);
  }
}

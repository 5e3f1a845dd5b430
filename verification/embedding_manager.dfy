/**
 * subsystems/embedding_manager.py with the embedding model and the FAISS
 * nearest-neighbour index abstracted away: the store is absent
 * (`vectorstore is None`) or holds a sequence of (text, metadata) entries,
 * and the ranking of a similarity search is an oracle.
 */
module EmbeddingStore {
  import opened Wrappers
  import opened Strings
  import opened Records

  /** One indexed document: the summary text and the `to_dict()` snapshot stored as its metadata. */
  datatype Entry = Entry(text: string, metadata: Snapshot)

  /** A file is indexed only when its `text_summary` is truthy. */
  predicate Indexable(s: Snapshot) {
    Truthy(s.content.textSummary)
  }

  function EntryFor(s: Snapshot): Entry
    requires Indexable(s)
  {
    Entry(s.content.textSummary.value, s)
  }

  /** The entries `build_index` gathers from a list of snapshots. */
  function IndexEntries(snaps: seq<Snapshot>): seq<Entry> {
    if snaps == [] then []
    else
      var last := snaps[|snaps| - 1];
      IndexEntries(snaps[..|snaps| - 1]) + if Indexable(last) then [EntryFor(last)] else []
  }

  /** The entries `delete_file(file_id)` keeps. */
  function Without(entries: seq<Entry>, fileId: string): seq<Entry> {
    if entries == [] then []
    else
      var last := entries[|entries| - 1];
      Without(entries[..|entries| - 1], fileId) + if last.metadata.fileId != fileId then [last] else []
  }

  /** The entries whose metadata carries `fileId`. */
  function WithId(entries: seq<Entry>, fileId: string): seq<Entry> {
    if entries == [] then []
    else
      var last := entries[|entries| - 1];
      WithId(entries[..|entries| - 1], fileId) + if last.metadata.fileId == fileId then [last] else []
  }

  predicate IdsDistinct(entries: seq<Entry>) {
    forall i, j :: 0 <= i < j < |entries| ==> entries[i].metadata.fileId != entries[j].metadata.fileId
  }

  // The effect of each operation on the optional store.

  /** `build_index`: a new store from the indexable snapshots, or the old store when there are none. */
  function Built(store: Option<seq<Entry>>, snaps: seq<Snapshot>): Option<seq<Entry>> {
    if IndexEntries(snaps) == [] then store else Some(IndexEntries(snaps))
  }

  /** `add_file`: one more entry when the summary is truthy, starting from nothing when the store is absent. */
  function Added(store: Option<seq<Entry>>, s: Snapshot): Option<seq<Entry>> {
    if !Indexable(s) then store
    else Some((if store.Some? then store.value else []) + [EntryFor(s)])
  }

  /** `delete_file`: a present store keeps only the entries of other files. */
  function Deleted(store: Option<seq<Entry>>, fileId: string): Option<seq<Entry>> {
    if store.None? then None else Some(Without(store.value, fileId))
  }

  /** `update_file`: delete, then add. */
  function Updated(store: Option<seq<Entry>>, s: Snapshot): Option<seq<Entry>> {
    Added(Deleted(store, s.fileId), s)
  }

  lemma {:induction false} IndexEntriesMembers(snaps: seq<Snapshot>)
    ensures |IndexEntries(snaps)| <= |snaps|
    ensures forall e :: e in IndexEntries(snaps) <==>
      exists i :: 0 <= i < |snaps| && Indexable(snaps[i]) && e == EntryFor(snaps[i])
  {
    if snaps != [] {
      var init := snaps[..|snaps| - 1];
      IndexEntriesMembers(init);
      assert forall i :: 0 <= i < |init| ==> init[i] == snaps[i];
    }
  }

  /** `build_index` keeps the input order: indexing a concatenation concatenates the indexes. */
  lemma {:induction false} IndexEntriesAppend(a: seq<Snapshot>, b: seq<Snapshot>)
    ensures IndexEntries(a + b) == IndexEntries(a) + IndexEntries(b)
  {
    if b == [] {
      assert a + b == a;
    } else {
      IndexEntriesAppend(a, b[..|b| - 1]);
      assert (a + b)[..|a + b| - 1] == a + b[..|b| - 1];
    }
  }

  lemma {:induction false} WithoutMembers(entries: seq<Entry>, fileId: string)
    ensures |Without(entries, fileId)| <= |entries|
    ensures forall e :: e in Without(entries, fileId) <==> e in entries && e.metadata.fileId != fileId
  {
    if entries != [] {
      var init := entries[..|entries| - 1];
      WithoutMembers(init, fileId);
      assert entries == init + [entries[|entries| - 1]];
    }
  }

  /** Deletion keeps the surviving entries in their original order. */
  lemma {:induction false} WithoutAppend(a: seq<Entry>, b: seq<Entry>, fileId: string)
    ensures Without(a + b, fileId) == Without(a, fileId) + Without(b, fileId)
  {
    if b == [] {
      assert a + b == a;
    } else {
      WithoutAppend(a, b[..|b| - 1], fileId);
      assert (a + b)[..|a + b| - 1] == a + b[..|b| - 1];
    }
  }

  lemma {:induction false} WithIdAppend(a: seq<Entry>, b: seq<Entry>, fileId: string)
    ensures WithId(a + b, fileId) == WithId(a, fileId) + WithId(b, fileId)
  {
    if b == [] {
      assert a + b == a;
    } else {
      WithIdAppend(a, b[..|b| - 1], fileId);
      assert (a + b)[..|a + b| - 1] == a + b[..|b| - 1];
    }
  }

  /** Deleting an identifier no entry carries changes nothing. */
  lemma {:induction false} WithoutUnseen(entries: seq<Entry>, fileId: string)
    requires forall e :: e in entries ==> e.metadata.fileId != fileId
    ensures Without(entries, fileId) == entries
  {
    if entries != [] {
      var init, last := entries[..|entries| - 1], entries[|entries| - 1];
      forall e | e in init
        ensures e.metadata.fileId != fileId
      {
        var k :| 0 <= k < |init| && init[k] == e;
        assert entries[k] == e;
      }
      WithoutUnseen(init, fileId);
      assert last in entries;
      assert entries == init + [last];
    }
  }

  lemma {:induction false} WithIdOfWithout(entries: seq<Entry>, fileId: string)
    ensures WithId(Without(entries, fileId), fileId) == []
    ensures Without(Without(entries, fileId), fileId) == Without(entries, fileId)
  {
    if entries != [] {
      var init := entries[..|entries| - 1];
      var last := entries[|entries| - 1];
      WithIdOfWithout(init, fileId);
      var tail := if last.metadata.fileId != fileId then [last] else [];
      WithIdAppend(Without(init, fileId), tail, fileId);
      WithoutAppend(Without(init, fileId), tail, fileId);
      if tail == [] {
        assert Without(init, fileId) + tail == Without(init, fileId);
      } else {
        assert [] + tail == tail;
      }
    }
  }

  /** `add_file` on an absent store is `build_index([file])`. */
  lemma AddOnAbsentIsBuild(s: Snapshot)
    ensures Added(None, s) == Built(None, [s])
  {
    assert [s][..0] == [];
    assert IndexEntries([s]) == IndexEntries([]) + if Indexable(s) then [EntryFor(s)] else [];
  }

  /**
   * After `update_file` on a present store, the entries of other files are
   * those that were there, in the same order, and the file's own identifier
   * is carried by exactly the new snapshot (by nothing when its summary is
   * not truthy), however many entries carried it before.
   */
  lemma UpdateReplaces(store: Option<seq<Entry>>, s: Snapshot)
    requires store.Some?
    ensures Updated(store, s).Some?
    ensures Without(Updated(store, s).value, s.fileId) == Without(store.value, s.fileId)
    ensures WithId(Updated(store, s).value, s.fileId) == if Indexable(s) then [EntryFor(s)] else []
  {
    var kept := Without(store.value, s.fileId);
    var tail := if Indexable(s) then [EntryFor(s)] else [];
    assert Updated(store, s).value == kept + tail;
    WithIdOfWithout(store.value, s.fileId);
    WithIdAppend(kept, tail, s.fileId);
    WithoutAppend(kept, tail, s.fileId);
    if Indexable(s) {
      assert WithId(tail, s.fileId) == WithId([], s.fileId) + [EntryFor(s)];
      assert Without(tail, s.fileId) == Without([], s.fileId) + [];
    }
    assert kept + [] == kept;
  }

  /** Every identifier is carried by at most one entry before an update and after it. */
  lemma UpdateKeepsIdsDistinct(store: Option<seq<Entry>>, s: Snapshot)
    requires store.Some? && IdsDistinct(store.value)
    ensures Updated(store, s).Some? ==> IdsDistinct(Updated(store, s).value)
  {
    var kept := Without(store.value, s.fileId);
    WithoutSubsequenceDistinct(store.value, s.fileId);
    WithoutMembers(store.value, s.fileId);
    if Indexable(s) {
      assert Updated(store, s).value == kept + [EntryFor(s)];
      assert forall e :: e in kept ==> e.metadata.fileId != s.fileId;
      assert forall i :: 0 <= i < |kept| ==> kept[i] in kept;
    }
  }

  lemma {:induction false} WithoutSubsequenceDistinct(entries: seq<Entry>, fileId: string)
    requires IdsDistinct(entries)
    ensures IdsDistinct(Without(entries, fileId))
  {
    if entries != [] {
      var init := entries[..|entries| - 1];
      var last := entries[|entries| - 1];
      WithoutSubsequenceDistinct(init, fileId);
      WithoutMembers(init, fileId);
      var kept := Without(init, fileId);
      assert forall i :: 0 <= i < |kept| ==> kept[i] in init;
      assert forall e :: e in init ==> e.metadata.fileId != last.metadata.fileId;
    }
  }

  /** `update_file` of a file the store has never seen is `add_file`. */
  lemma UpdateUnseenIsAdd(store: Option<seq<Entry>>, s: Snapshot)
    requires store.Some? ==> forall e :: e in store.value ==> e.metadata.fileId != s.fileId
    ensures Updated(store, s) == Added(store, s)
  {
    if store.Some? {
      WithoutUnseen(store.value, s.fileId);
    }
  }

  /** The ranked answer of the nearest-neighbour oracle: one entry per position in range, at most `k`. */
  function Nearest(entries: seq<Entry>, order: seq<nat>, k: nat): (r: seq<Entry>)
    ensures |r| <= k
    ensures forall e :: e in r ==> e in entries
  {
    if order == [] || k == 0 then []
    else if order[0] < |entries| then [entries[order[0]]] + Nearest(entries, order[1..], k - 1)
    else Nearest(entries, order[1..], k)
  }

  /** After `delete_file`, no search answer carries the deleted identifier, whatever the ranking. */
  lemma SearchAfterDelete(store: Option<seq<Entry>>, fileId: string, order: seq<nat>, k: nat)
    requires store.Some?
    ensures forall e :: e in Nearest(Deleted(store, fileId).value, order, k) ==> e.metadata.fileId != fileId
  {
    WithoutMembers(store.value, fileId);
  }

  /** The FAISS similarity search: the positions of the nearest entries to the query, best first. */
  type Ranker = (string, seq<Entry>) -> seq<nat>

  /** The sequence of `(text, metadata)` pairs `FAISS.from_texts(texts, metadatas=...)` stores. */
  function Pair(texts: seq<string>, metadatas: seq<Snapshot>): seq<Entry>
    requires |texts| == |metadatas|
  {
    seq(|texts|, i requires 0 <= i < |texts| => Entry(texts[i], metadatas[i]))
  }

  ghost function Snapshots(files: seq<FileInfo>): seq<Snapshot>
    reads set f | f in files
  {
    if files == [] then [] else Snapshots(files[..|files| - 1]) + [files[|files| - 1].ToDict()]
  }

  class EmbeddingManager {
    const persistPath: string
    /** `vectorstore`: `None`, or the index with its entries in insertion order. */
    var store: Option<seq<Entry>>
    /** What `save_local` last wrote to `persistPath`, as far as it can be loaded back. */
    ghost var persisted: Option<seq<Entry>>

    ghost predicate Synced()
      reads this
    {
      persisted == store
    }

    /**
     * `EmbeddingManager(persist_path)`: `loaded` is the outcome of
     * `FAISS.load_local`, `None` when the path is missing or cannot be read.
     */
    constructor (persistPath: string, loaded: Option<seq<Entry>>)
      ensures this.persistPath == persistPath && store == loaded && Synced()
    {
      this.persistPath := persistPath;
      store := loaded;
      persisted := loaded;
    }

    /** `save_index`: writes a present store, does nothing for an absent one. */
    method SaveIndex()
      modifies this`persisted
      ensures persisted == if store.Some? then store else old(persisted)
    {
      if store.Some? {
        persisted := store;
      }
    }

    method BuildIndex(files: seq<FileInfo>)
      modifies this
      ensures store == Built(old(store), Snapshots(files))
      ensures persisted == if IndexEntries(Snapshots(files)) != [] then store else old(persisted)
    {
      var texts: seq<string> := [];
      var metadatas: seq<Snapshot> := [];
      for i := 0 to |files|
        invariant |texts| == |metadatas|
        invariant Pair(texts, metadatas) == IndexEntries(Snapshots(files[..i]))
      {
        var f := files[i];
        assert files[..i + 1][..i] == files[..i];
        if Truthy(f.content.textSummary) {
          assert Pair(texts + [f.content.textSummary.value], metadatas + [f.ToDict()])
              == Pair(texts, metadatas) + [Entry(f.content.textSummary.value, f.ToDict())];
          texts := texts + [f.content.textSummary.value];
          metadatas := metadatas + [f.ToDict()];
        }
      }
      assert files[..|files|] == files;
      if texts != [] {
        store := Some(Pair(texts, metadatas));
        SaveIndex();
      }
    }

    method AddFile(f: FileInfo)
      modifies this
      ensures store == Added(old(store), f.ToDict())
      ensures persisted == if Indexable(f.ToDict()) then store else old(persisted)
    {
      if store.None? {
        BuildIndex([f]);
        assert [f][..0] == [];
        AddOnAbsentIsBuild(f.ToDict());
        return;
      }
      if Truthy(f.content.textSummary) {
        store := Some(store.value + [Entry(f.content.textSummary.value, f.ToDict())]);
        SaveIndex();
      }
    }

    /**
     * `delete_file(file_id)`: `False` on an absent store; otherwise the
     * store keeps the entries of other files and the answer is `True`,
     * whether or not an entry matched.
     */
    method DeleteFile(fileId: string) returns (deleted: bool)
      modifies this
      ensures deleted == old(store).Some?
      ensures store == Deleted(old(store), fileId)
      ensures persisted == if deleted then store else old(persisted)
    {
      if store.None? {
        return false;
      }
      store := Some(Without(store.value, fileId));
      SaveIndex();
      return true;
    }

    method UpdateFile(f: FileInfo)
      modifies this
      ensures store == Updated(old(store), f.ToDict())
      ensures old(Synced()) ==> Synced()
    {
      var deleted := DeleteFile(f.fileId);
      AddFile(f);
    }

    /** `search(query, k)`: nothing on an absent store, otherwise at most `k` stored entries. */
    function Search(query: string, k: nat, rank: Ranker): (r: seq<Entry>)
      reads this
      ensures store.None? ==> r == []
      ensures |r| <= k
      ensures forall e :: e in r ==> store.Some? && e in store.value
    {
      if store.None? then [] else Nearest(store.value, rank(query, store.value), k)
    }
  }
}

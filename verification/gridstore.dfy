/**
  An abstract GridFS bucket: a finite collection of stored files, each with an
  id, a file name, its bytes and an upload date. The three bucket calls the
  handlers make become pure functions on it: `fs.find()` enumerates `files`,
  `fs.delete(id)` is `Delete`, and `fs.put(...)` is `Put`. GridFS draws a fresh
  `_id` and a later `uploadDate` for every put; the store models both with
  counters.
 */
module GridStore {

  newtype byte = x: int | 0 <= x < 256

  datatype Option<T> = None | Some(value: T)

  datatype FileRecord = FileRecord(id: nat, filename: string, data: seq<byte>, uploadDate: nat)

  /** The bucket's files in enumeration order, plus the next id and the next
      upload date the bucket will hand out. */
  datatype Store = Store(files: seq<FileRecord>, nextId: nat, clock: nat)

  /** The bucket before anything was ever uploaded. */
  const Empty := Store([], 0, 0)

  /** What the model assumes of a bucket: ids and upload dates are unique, and
      everything stored was issued before the counters' current values. */
  ghost predicate Valid(st: Store) {
    && (forall f, g :: f in st.files && g in st.files && f.id == g.id ==> f == g)
    && (forall f, g :: f in st.files && g in st.files && f.uploadDate == g.uploadDate ==> f == g)
    && (forall f :: f in st.files ==> f.id < st.nextId && f.uploadDate < st.clock)
  }

  /** The ids of the files, in enumeration order: what the upload handler's
      `for old_file in fs.find()` visits. */
  function Ids(files: seq<FileRecord>): (ids: seq<nat>)
    ensures |ids| == |files|
    ensures forall i :: 0 <= i < |ids| ==> ids[i] == files[i].id
    ensures forall f :: f in files ==> f.id in ids
    ensures forall i :: 0 <= i < |ids| ==> ids[i] in IdSet(files)
  {
    if |files| == 0 then []
    else [files[0].id] + Ids(files[1..])
  }

  ghost function IdSet(files: seq<FileRecord>): set<nat> {
    set f | f in files :: f.id
  }

  /** The files whose id is not `id`, in their original order. */
  function Without(files: seq<FileRecord>, id: nat): (r: seq<FileRecord>)
    ensures forall f :: f in r <==> f in files && f.id != id
    ensures |r| <= |files|
  {
    if |files| == 0 then []
    else if files[0].id == id then Without(files[1..], id)
    else [files[0]] + Without(files[1..], id)
  }

  /** `fs.delete(id)`: removes the file with that id; a missing id removes
      nothing. The counters are untouched. */
  function Delete(st: Store, id: nat): (r: Store)
    ensures forall f :: f in r.files <==> f in st.files && f.id != id
    ensures r.nextId == st.nextId && r.clock == st.clock
    ensures Valid(st) ==> Valid(r)
  {
    st.(files := Without(st.files, id))
  }

  /** `fs.put(data, filename=...)`: appends a new file under a fresh id with
      an upload date later than any stored one; every file already stored is
      kept, in place. */
  function Put(st: Store, filename: string, data: seq<byte>): (r: Store)
    ensures |r.files| == |st.files| + 1
    ensures r.files[..|st.files|] == st.files
    ensures r.files[|st.files|].filename == filename && r.files[|st.files|].data == data
    ensures Valid(st) ==> forall f :: f in st.files ==>
              f.id != r.files[|st.files|].id && f.uploadDate < r.files[|st.files|].uploadDate
    ensures Valid(st) ==> Valid(r)
  {
    Store(st.files + [FileRecord(st.nextId, filename, data, st.clock)], st.nextId + 1, st.clock + 1)
  }

  /** The states the bucket passes through while the files with the given ids
      are deleted one after another: entry `k` is the state after the
      `k + 1`-th delete. */
  function DeleteSteps(st: Store, ids: seq<nat>): (t: seq<Store>)
    ensures |t| == |ids|
    ensures forall k :: 0 <= k < |t| ==> t[k].nextId == st.nextId && t[k].clock == st.clock
    ensures forall k, f :: 0 <= k < |t| ==> (f in t[k].files <==> f in st.files && f.id !in ids[..k + 1])
    ensures forall k, f :: 0 <= k < |t| && f in t[k].files ==> f in st.files
    decreases |ids|
  {
    if |ids| == 0 then []
    else
      var next := Delete(st, ids[0]);
      var rest := DeleteSteps(next, ids[1..]);
      [next] + rest
  }

  /** The bucket after a run of deletes: the last delete's state, or the
      bucket itself when there was nothing to delete. */
  function AfterDeletes(st: Store, steps: seq<Store>): Store {
    if |steps| == 0 then st else steps[|steps| - 1]
  }

  /** Deleting the id of every enumerated file leaves the bucket empty, with
      its counters unchanged. */
  lemma DeletingEveryIdEmpties(st: Store)
    ensures AfterDeletes(st, DeleteSteps(st, Ids(st.files))).files == []
    ensures AfterDeletes(st, DeleteSteps(st, Ids(st.files))).nextId == st.nextId
    ensures AfterDeletes(st, DeleteSteps(st, Ids(st.files))).clock == st.clock
  {
    var ids := Ids(st.files);
    var steps := DeleteSteps(st, ids);
    if |steps| == 0 {
      NothingListedIsEmpty(st.files);
    } else {
      var last := steps[|steps| - 1];
      assert ids[..|steps|] == ids;
      assert forall f :: f in last.files ==> f in st.files && f.id !in ids;
      NothingListedIsEmpty(last.files);
    }
  }

  lemma NothingListedIsEmpty(files: seq<FileRecord>)
    requires forall f :: f !in files
    ensures files == []
  {
    FirstIsListed(files);
  }

  lemma FirstIsListed(files: seq<FileRecord>)
    ensures |files| > 0 ==> files[0] in files
  {
  }

  /** The file a reader takes as current: `fs.find().sort("uploadDate", -1)
      .limit(1)`. Among equal upload dates the first enumerated one wins. */
  function Newest(files: seq<FileRecord>): (r: Option<FileRecord>)
    ensures r.None? <==> |files| == 0
    ensures r.Some? ==> IsNewest(r.value, files)
  {
    if |files| == 0 then None
    else
      assert forall f :: f in files ==> f == files[0] || f in files[1..];
      match Newest(files[1..])
      case None => Some(files[0])
      case Some(g) => if g.uploadDate > files[0].uploadDate then Some(g) else Some(files[0])
  }

  /** `f` is stored and no stored file has a later upload date. */
  ghost predicate IsNewest(f: FileRecord, files: seq<FileRecord>) {
    f in files && forall g :: g in files ==> g.uploadDate <= f.uploadDate
  }

  /** In a valid bucket the newest file is unique, so the lookup returns
      exactly the file with the greatest upload date. */
  lemma NewestIsUnique(st: Store, f: FileRecord)
    requires Valid(st)
    ensures IsNewest(f, st.files) <==> Newest(st.files) == Some(f)
  {
  }
}

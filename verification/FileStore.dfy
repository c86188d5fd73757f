/** One directory of the on-disk store, with crashes.

    A file's contents are durable once it is fsynced; until then a crash may leave
    anything in it. Directory changes are journaled in order: the directory found
    after a crash is the one as of some change since it was last fsynced. A file
    is named after the text form of one record's key. Serialised records are modelled as the
    records themselves, and anything that does not parse as junk. */
module FileStore {
  import opened Wrappers

  datatype Ext = Json | Tmp | Corrupt(stamp: nat)

  datatype Name = Name(key: string, ext: Ext)

  datatype Doc<R> = Record(value: R) | Junk(raw: seq<char>)

  type Listing = map<Name, nat>

  /** The journal of directory listings, newest last, over numbered files. */
  datatype Disk<R> = Disk(
    journal: seq<Listing>,
    files: map<nat, Doc<R>>,
    synced: set<nat>,
    next: nat)

  /** The system calls the store makes on one directory. */
  datatype Call<R> =
    | Create(key: string)
    | Write(key: string, value: R)
    | Sync(key: string)
    | Rename(key: string)
    | SyncDir
    | Unlink(key: string)
    | SetAside(key: string, stamp: nat)

  predicate Mounted<R>(d: Disk<R>) { d.journal != [] }

  function Live<R>(d: Disk<R>): Listing
    requires Mounted(d)
  {
    d.journal[|d.journal| - 1]
  }

  predicate Possible<R>(d: Disk<R>, c: Call<R>) {
    Mounted(d) &&
    match c
    case Create(_) => true
    case Write(key, _) => Name(key, Tmp) in Live(d)
    case Sync(key) => Name(key, Tmp) in Live(d)
    case Rename(key) => Name(key, Tmp) in Live(d)
    case SyncDir => true
    case Unlink(key) => Name(key, Json) in Live(d)
    case SetAside(key, _) => Name(key, Json) in Live(d)
  }

  /** Creating a file that is there truncates it in place. */
  function After<R>(d: Disk<R>, c: Call<R>): (e: Disk<R>)
    requires Possible(d, c)
    ensures Mounted(e)
  {
    match c
    case Create(key) =>
      var tmp := Name(key, Tmp);
      if tmp in Live(d) then
        d.(files := d.files[Live(d)[tmp] := Junk([])], synced := d.synced - {Live(d)[tmp]})
      else
        Disk(d.journal + [Live(d)[tmp := d.next]], d.files[d.next := Junk([])], d.synced - {d.next}, d.next + 1)
    case Write(key, value) =>
      var file := Live(d)[Name(key, Tmp)];
      d.(files := d.files[file := Record(value)], synced := d.synced - {file})
    case Sync(key) => d.(synced := d.synced + {Live(d)[Name(key, Tmp)]})
    case Rename(key) =>
      d.(journal := d.journal + [(Live(d) - {Name(key, Tmp)})[Name(key, Json) := Live(d)[Name(key, Tmp)]]])
    case SyncDir => d.(journal := [Live(d)])
    case Unlink(key) => d.(journal := d.journal + [Live(d) - {Name(key, Json)}])
    case SetAside(key, stamp) =>
      d.(journal := d.journal + [(Live(d) - {Name(key, Json)})[Name(key, Corrupt(stamp)) := Live(d)[Name(key, Json)]]])
  }

  /** What may be found after a crash: some journaled listing, with the contents of
      fsynced files intact and any contents at all in the others. */
  predicate Crashed<R(==)>(d: Disk<R>, e: Disk<R>, pick: nat)
    requires pick < |d.journal|
  {
    && e.journal == [d.journal[pick]]
    && e.files.Keys == d.files.Keys == e.synced
    && e.next == d.next
    && forall f :: f in d.synced && f in d.files ==> e.files[f] == d.files[f]
  }

  // ---------------------------------------------------------------------
  // The store it refines: maps of records, with the versions a crash may bring back

  type Records<R> = map<string, R>

  function Last<T>(s: seq<T>): T
    requires s != []
  {
    s[|s| - 1]
  }

  /** The record a listing gives for a key, if its file parses. */
  function Read<R>(listing: Listing, files: map<nat, Doc<R>>, key: string): Option<R> {
    if Name(key, Json) in listing && listing[Name(key, Json)] in files && files[listing[Name(key, Json)]].Record?
    then Some(files[listing[Name(key, Json)]].value) else None
  }

  function Lookup<R>(m: Records<R>, key: string): Option<R> {
    if key in m then Some(m[key]) else None
  }

  /** A listing reads as a map of records. */
  ghost predicate Shows<R>(listing: Listing, files: map<nat, Doc<R>>, m: Records<R>) {
    forall key :: Read(listing, files, key) == Lookup(m, key)
  }

  /** Every file of a listing exists, record files are fsynced, and no file is
      linked twice. */
  ghost predicate Whole<R>(l: Listing, d: Disk<R>) {
    && (forall n :: n in l ==> l[n] < d.next && l[n] in d.files)
    && (forall n :: n in l && n.ext != Tmp ==> l[n] in d.synced)
    && forall n, m :: n in l && m in l && n != m ==> l[n] != l[m]
  }

  /** No temporary file in use is a record file of another listing. */
  ghost predicate Apart(l: Listing, live: Listing) {
    forall n, m :: n in l && n.ext != Tmp && m in live && m.ext == Tmp ==> l[n] != live[m]
  }

  ghost predicate Safe<R>(d: Disk<R>) {
    && Mounted(d)
    && forall i :: 0 <= i < |d.journal| ==> Whole(d.journal[i], d) && Apart(d.journal[i], Live(d))
  }

  /** The disk is safe and its journaled listings read as these versions. */
  ghost predicate Holds<R>(d: Disk<R>, versions: seq<Records<R>>) {
    && Safe(d) && |versions| == |d.journal|
    && forall i :: 0 <= i < |versions| ==> Shows(d.journal[i], d.files, versions[i])
  }

  lemma ShownOnce<R>(l: Listing, files: map<nat, Doc<R>>, m: Records<R>, n: Records<R>)
    requires Shows(l, files, m) && Shows(l, files, n)
    ensures m == n
  {
    forall key
      ensures Lookup(m, key) == Lookup(n, key)
    {
      assert Read(l, files, key) == Lookup(m, key);
    }
    assert forall key :: key in m ==> Lookup(m, key) == Lookup(n, key);
    assert forall key :: key in n ==> Lookup(m, key) == Lookup(n, key);
  }

  // ---------------------------------------------------------------------
  // What each call does to the versions

  /** A change to a file that is no record file of a listing does not show there. */
  lemma TmpIsInvisible<R>(d: Disk<R>, e: Disk<R>, l: Listing, file: nat, m: Records<R>)
    requires Shows(l, d.files, m)
    requires forall n :: n in l && n.ext != Tmp ==> l[n] != file
    requires e.files == d.files[file := Junk([])] || (exists v :: e.files == d.files[file := Record(v)])
    ensures Shows(l, e.files, m)
  {
    forall key
      ensures Read(l, e.files, key) == Read(l, d.files, key)
    {
    }
  }

  lemma TruncateHolds<R>(d: Disk<R>, versions: seq<Records<R>>, key: string)
    requires Holds(d, versions) && Name(key, Tmp) in Live(d)
    ensures Holds(After(d, Create(key)), versions)
  {
    var e, file := After(d, Create(key)), Live(d)[Name(key, Tmp)];
    forall i | 0 <= i < |d.journal|
      ensures Whole(e.journal[i], e) && Apart(e.journal[i], Live(e)) && Shows(e.journal[i], e.files, versions[i])
    {
      TmpIsInvisible(d, e, d.journal[i], file, versions[i]);
    }
  }

  lemma NewTmpHolds<R>(d: Disk<R>, versions: seq<Records<R>>, key: string)
    requires Holds(d, versions) && Name(key, Tmp) !in Live(d)
    ensures Holds(After(d, Create(key)), versions + [Last(versions)])
  {
    var e := After(d, Create(key));
    forall i | 0 <= i < |d.journal|
      ensures Whole(e.journal[i], e) && Apart(e.journal[i], Live(e)) && Shows(e.journal[i], e.files, versions[i])
    {
      assert e.journal[i] == d.journal[i];
      TmpIsInvisible(d, e, d.journal[i], d.next, versions[i]);
    }
    var last := |d.journal| - 1;
    assert Whole(d.journal[last], d) && Apart(d.journal[last], Live(d)) && Shows(d.journal[last], d.files, versions[last]);
    NewTmpIsInvisible(d, key, versions[last]);
    assert Whole(Live(e), e) && Apart(Live(e), Live(e));
  }

  lemma NewTmpIsInvisible<R>(d: Disk<R>, key: string, m: Records<R>)
    requires Mounted(d) && Name(key, Tmp) !in Live(d) && Whole(Live(d), d) && Shows(Live(d), d.files, m)
    ensures Shows(Live(After(d, Create(key))), After(d, Create(key)).files, m)
  {
    var e := After(d, Create(key));
    forall k
      ensures Read(Live(e), e.files, k) == Lookup(m, k)
    {
      assert Read(Live(d), d.files, k) == Lookup(m, k);
    }
  }

  lemma WriteHolds<R>(d: Disk<R>, versions: seq<Records<R>>, key: string, value: R)
    requires Holds(d, versions) && Possible(d, Write(key, value))
    ensures Holds(After(d, Write(key, value)), versions)
  {
    var e, file := After(d, Write(key, value)), Live(d)[Name(key, Tmp)];
    forall i | 0 <= i < |d.journal|
      ensures Whole(e.journal[i], e) && Apart(e.journal[i], Live(e)) && Shows(e.journal[i], e.files, versions[i])
    {
      assert e.files == d.files[file := Record(value)];
      TmpIsInvisible(d, e, d.journal[i], file, versions[i]);
    }
  }

  lemma SyncHolds<R>(d: Disk<R>, versions: seq<Records<R>>, key: string)
    requires Holds(d, versions) && Possible(d, Sync(key))
    ensures Holds(After(d, Sync(key)), versions)
  {
    var e := After(d, Sync(key));
    forall i | 0 <= i < |d.journal|
      ensures Whole(e.journal[i], e) && Apart(e.journal[i], Live(e)) && Shows(e.journal[i], e.files, versions[i])
    {
      assert Whole(d.journal[i], d);
    }
  }

  /** The rename makes the new record visible whole, provided it was fsynced. */
  lemma RenameHolds<R>(d: Disk<R>, versions: seq<Records<R>>, key: string, value: R)
    requires Holds(d, versions) && Possible(d, Rename(key))
    requires Live(d)[Name(key, Tmp)] in d.synced && d.files[Live(d)[Name(key, Tmp)]] == Record(value)
    ensures Holds(After(d, Rename(key)), versions + [Last(versions)[key := value]])
  {
    var e, last := After(d, Rename(key)), |d.journal| - 1;
    RenameShows(d, key, value, versions[last]);
    RelinkKeeps(d, e, key);
    forall i | 0 <= i < |d.journal|
      ensures Whole(e.journal[i], e) && Apart(e.journal[i], Live(e)) && Shows(e.journal[i], e.files, versions[i])
    {
      assert e.journal[i] == d.journal[i] && Whole(d.journal[i], d) && Apart(d.journal[i], Live(d));
    }
  }

  lemma RenameShows<R>(d: Disk<R>, key: string, value: R, m: Records<R>)
    requires Possible(d, Rename(key)) && Shows(Live(d), d.files, m)
    requires Live(d)[Name(key, Tmp)] in d.files && d.files[Live(d)[Name(key, Tmp)]] == Record(value)
    ensures Shows(Live(After(d, Rename(key))), After(d, Rename(key)).files, m[key := value])
  {
    var e := After(d, Rename(key));
    forall k
      ensures Read(Live(e), e.files, k) == Lookup(m[key := value], k)
    {
      assert Read(Live(d), d.files, k) == Lookup(m, k);
    }
  }

  lemma RelinkKeeps<R>(d: Disk<R>, e: Disk<R>, key: string)
    requires Safe(d) && Possible(d, Rename(key)) && Live(d)[Name(key, Tmp)] in d.synced && e == After(d, Rename(key))
    ensures Whole(Live(e), e) && Apart(Live(e), Live(e))
    ensures forall m :: m in Live(e) && m.ext == Tmp ==> m in Live(d) && Live(d)[m] == Live(e)[m]
  {
    var last := |d.journal| - 1;
    assert Whole(d.journal[last], d) && Apart(d.journal[last], Live(d));
  }

  lemma SyncDirHolds<R>(d: Disk<R>, versions: seq<Records<R>>)
    requires Holds(d, versions)
    ensures Holds(After(d, SyncDir), [Last(versions)])
  {
    var last := |d.journal| - 1;
    assert Whole(d.journal[last], d) && Apart(d.journal[last], Live(d)) && Shows(d.journal[last], d.files, versions[last]);
  }

  /** Taking a record file away, by deleting it or by setting it aside. */
  lemma TakeAwayHolds<R>(d: Disk<R>, versions: seq<Records<R>>, c: Call<R>)
    requires Holds(d, versions) && Possible(d, c) && (c.Unlink? || c.SetAside?)
    ensures Holds(After(d, c), versions + [Last(versions) - {c.key}])
  {
    var e, last := After(d, c), |d.journal| - 1;
    TakeAwayShows(d, c, versions[last]);
    TakeAwayKeeps(d, c, e);
    forall i | 0 <= i < |d.journal|
      ensures Whole(e.journal[i], e) && Apart(e.journal[i], Live(e)) && Shows(e.journal[i], e.files, versions[i])
    {
      assert e.journal[i] == d.journal[i] && Whole(d.journal[i], d) && Apart(d.journal[i], Live(d));
    }
  }

  lemma TakeAwayShows<R>(d: Disk<R>, c: Call<R>, m: Records<R>)
    requires Possible(d, c) && (c.Unlink? || c.SetAside?) && Shows(Live(d), d.files, m)
    ensures Shows(Live(After(d, c)), After(d, c).files, m - {c.key})
  {
    forall k
      ensures Read(Live(After(d, c)), d.files, k) == Lookup(m - {c.key}, k)
    {
      assert Read(Live(d), d.files, k) == Lookup(m, k);
    }
  }

  lemma TakeAwayKeeps<R>(d: Disk<R>, c: Call<R>, e: Disk<R>)
    requires Safe(d) && Possible(d, c) && (c.Unlink? || c.SetAside?) && e == After(d, c)
    ensures Whole(Live(e), e) && Apart(Live(e), Live(e))
    ensures forall m :: m in Live(e) && m.ext == Tmp ==> m in Live(d) && Live(d)[m] == Live(e)[m]
  {
    var last := |d.journal| - 1;
    assert Whole(d.journal[last], d) && Apart(d.journal[last], Live(d));
  }

  /** A crash brings back one whole version, never a mixture. */
  lemma CrashHolds<R>(d: Disk<R>, versions: seq<Records<R>>, e: Disk<R>, pick: nat)
    requires Holds(d, versions) && pick < |d.journal| && Crashed(d, e, pick)
    ensures Holds(e, [versions[pick]])
  {
    var l := d.journal[pick];
    assert Whole(l, d) && Shows(l, d.files, versions[pick]);
    forall key
      ensures Read(l, e.files, key) == Lookup(versions[pick], key)
    {
      assert Read(l, d.files, key) == Lookup(versions[pick], key);
    }
  }

  // ---------------------------------------------------------------------
  // Store operations

  datatype Op<R> = Upsert(key: string, value: R) | Delete(key: string) | Load

  /** What the in-memory store does. */
  function Stored<R>(m: Records<R>, op: Op<R>): Records<R> {
    match op
    case Upsert(key, value) => m[key := value]
    case Delete(key) => m - {key}
    case Load => m
  }

  /** The system calls of a write or delete, in order. A delete does not fsync the directory. */
  function Calls<R>(d: Disk<R>, op: Op<R>): seq<Call<R>>
    requires Mounted(d) && !op.Load?
  {
    match op
    case Upsert(key, value) => [Create(key), Write(key, value), Sync(key), Rename(key), SyncDir]
    case Delete(key) => if Name(key, Json) in Live(d) then [Unlink(key)] else []
  }

  /** A record file of the present listing that does not parse. */
  predicate Unparsed<R>(d: Disk<R>, key: string)
    requires Mounted(d)
  {
    Name(key, Json) in Live(d) && Read(Live(d), d.files, key) == None
  }

  ghost predicate AllParse<R>(d: Disk<R>) {
    Mounted(d) && forall key :: !Unparsed(d, key)
  }

  /** One rename of a load: some record file that does not parse is set aside. */
  ghost predicate Quarantines<R>(d: Disk<R>, e: Disk<R>) {
    Mounted(d) && exists key, stamp :: Unparsed(d, key) && e == After(d, SetAside(key, stamp))
  }

  /** The disks an operation goes through. A load changes the directory once for
      each record file that does not parse, and is done when none is left. */
  ghost predicate Executes<R>(d: Disk<R>, op: Op<R>, states: seq<Disk<R>>) {
    && Mounted(d) && |states| > 0 && states[0] == d
    && if op.Load? then
         && QuarantineSteps(d, states, states[|states| - 1])
         && AllParse(states[|states| - 1])
       else
         && |states| == |Calls(d, op)| + 1
         && forall i :: 0 <= i < |Calls(d, op)| ==>
              Possible(states[i], Calls(d, op)[i]) && states[i + 1] == After(states[i], Calls(d, op)[i])
  }

  /** Every write and delete can be carried out on a mounted disk. */
  lemma Executable<R>(d: Disk<R>, op: Op<R>) returns (states: seq<Disk<R>>)
    requires Mounted(d) && !op.Load?
    ensures Executes(d, op, states)
  {
    match op
    case Upsert(key, value) =>
      var a := After(d, Create(key));
      assert Name(key, Tmp) in Live(a);
      var b := After(a, Write(key, value));
      var c := After(b, Sync(key));
      var e := After(c, Rename(key));
      states := [d, a, b, c, e, After(e, SyncDir)];
    case Delete(key) =>
      states := if Name(key, Json) in Live(d) then [d, After(d, Unlink(key))] else [d];
  }

  /** The versions after the first `k` calls of an upsert. */
  function UpsertVersions<R>(d: Disk<R>, versions: seq<Records<R>>, key: string, value: R, k: nat): (w: seq<Records<R>>)
    requires Mounted(d) && versions != [] && k <= 5
    ensures w != []
  {
    var created := if k == 0 || Name(key, Tmp) in Live(d) then versions else versions + [Last(versions)];
    if k <= 3 then created
    else if k == 4 then created + [Last(versions)[key := value]]
    else [Last(versions)[key := value]]
  }

  /** How far an upsert has got: its temporary file linked, written, fsynced. */
  ghost predicate Staged<R>(e: Disk<R>, w: seq<Records<R>>, key: string, value: R, k: nat) {
    && Holds(e, w)
    && (1 <= k <= 3 ==> Name(key, Tmp) in Live(e))
    && (2 <= k <= 3 ==> Live(e)[Name(key, Tmp)] in e.files && e.files[Live(e)[Name(key, Tmp)]] == Record(value))
    && (k == 3 ==> Live(e)[Name(key, Tmp)] in e.synced)
  }

  /** The calls of an upsert, by number. */
  function UpsertCall<R>(key: string, value: R, i: nat): Call<R>
    requires i < 5
  {
    if i == 0 then Create(key) else if i == 1 then Write(key, value) else if i == 2 then Sync(key)
    else if i == 3 then Rename(key) else SyncDir
  }

  /** What one call of an upsert makes of the versions. */
  function NextVersions<R>(e: Disk<R>, w: seq<Records<R>>, key: string, value: R, i: nat): seq<Records<R>>
    requires Mounted(e) && w != []
  {
    if i == 0 then if Name(key, Tmp) in Live(e) then w else w + [Last(w)]
    else if i == 3 then w + [Last(w)[key := value]]
    else if i == 4 then [Last(w)]
    else w
  }

  lemma StageCreate<R>(e: Disk<R>, w: seq<Records<R>>, key: string, value: R)
    requires Staged(e, w, key, value, 0)
    ensures Staged(After(e, Create(key)), NextVersions(e, w, key, value, 0), key, value, 1)
  {
    if Name(key, Tmp) in Live(e) {
      TruncateHolds(e, w, key);
    } else {
      NewTmpHolds(e, w, key);
    }
  }

  lemma StageWrite<R>(e: Disk<R>, w: seq<Records<R>>, key: string, value: R)
    requires Staged(e, w, key, value, 1)
    ensures Staged(After(e, Write(key, value)), w, key, value, 2)
  {
    WriteHolds(e, w, key, value);
  }

  lemma StageSync<R>(e: Disk<R>, w: seq<Records<R>>, key: string, value: R)
    requires Staged(e, w, key, value, 2)
    ensures Staged(After(e, Sync(key)), w, key, value, 3)
  {
    SyncHolds(e, w, key);
  }

  lemma StageRename<R>(e: Disk<R>, w: seq<Records<R>>, key: string, value: R)
    requires Staged(e, w, key, value, 3)
    ensures Staged(After(e, Rename(key)), w + [Last(w)[key := value]], key, value, 4)
  {
    RenameHolds(e, w, key, value);
  }

  lemma StageSyncDir<R>(e: Disk<R>, w: seq<Records<R>>, key: string, value: R)
    requires Staged(e, w, key, value, 4)
    ensures Staged(After(e, SyncDir), [Last(w)], key, value, 5)
  {
    SyncDirHolds(e, w);
  }

  /** One call of an upsert takes it one stage further. */
  lemma StageNext<R>(e: Disk<R>, w: seq<Records<R>>, key: string, value: R, i: nat)
    requires i < 5 && Staged(e, w, key, value, i) && Possible(e, UpsertCall(key, value, i))
    ensures Staged(After(e, UpsertCall(key, value, i)), NextVersions(e, w, key, value, i), key, value, i + 1)
  {
    if i == 0 {
      StageCreate(e, w, key, value);
    } else if i == 1 {
      StageWrite(e, w, key, value);
    } else if i == 2 {
      StageSync(e, w, key, value);
    } else if i == 3 {
      StageRename(e, w, key, value);
    } else {
      StageSyncDir(e, w, key, value);
    }
  }

  lemma UpsertGoes<R>(d: Disk<R>, key: string, value: R, states: seq<Disk<R>>, i: nat)
    requires Executes(d, Upsert(key, value), states) && i < 5
    ensures |states| == 6 && states[0] == d
    ensures Possible(states[i], UpsertCall(key, value, i)) && states[i + 1] == After(states[i], UpsertCall(key, value, i))
  {
    assert Calls(d, Upsert(key, value))[i] == UpsertCall(key, value, i);
  }

  lemma VersionsGo<R>(d: Disk<R>, e: Disk<R>, versions: seq<Records<R>>, key: string, value: R, i: nat)
    requires Mounted(d) && Mounted(e) && versions != [] && i < 5 && (i == 0 ==> e == d)
    ensures UpsertVersions(d, versions, key, value, i + 1) ==
            NextVersions(e, UpsertVersions(d, versions, key, value, i), key, value, i)
  {
  }

  lemma {:induction false} UpsertHolds<R>(d: Disk<R>, versions: seq<Records<R>>, key: string, value: R, states: seq<Disk<R>>, k: nat)
    requires Holds(d, versions) && Executes(d, Upsert(key, value), states) && k <= 5
    ensures |states| == 6 && Staged(states[k], UpsertVersions(d, versions, key, value, k), key, value, k)
    decreases k
  {
    UpsertGoes(d, key, value, states, if k == 0 then 0 else k - 1);
    if k > 0 {
      UpsertHolds(d, versions, key, value, states, k - 1);
      StageNext(states[k - 1], UpsertVersions(d, versions, key, value, k - 1), key, value, k - 1);
      VersionsGo(d, states[k - 1], versions, key, value, k - 1);
    }
  }

  /** Between any two calls of an operation, every version of the directory is one
      from before it or the state it is making; a finished operation has made it
      the present one, and a finished upsert the only one. */
  lemma OpHolds<R>(d: Disk<R>, versions: seq<Records<R>>, op: Op<R>, states: seq<Disk<R>>, k: nat) returns (after: seq<Records<R>>)
    requires Holds(d, versions) && Executes(d, op, states) && k < |states|
    ensures Holds(states[k], after) && Reached(versions, op, after)
    ensures k == |states| - 1 ==> Last(after) == Stored(Last(versions), op)
    ensures op.Upsert? && k == 5 ==> |after| == 1
  {
    match op
    case Upsert(key, value) =>
      UpsertHolds(d, versions, key, value, states, k);
      after := UpsertVersions(d, versions, key, value, k);
    case Delete(key) =>
      after := DeleteHolds(d, versions, key, states, k);
    case Load =>
      LoadHolds(d, versions, states, k);
      after := versions + seq(k, _ => Last(versions));
  }

  /** Versions from before an operation, or of the state it is making. */
  ghost predicate Reached<R>(versions: seq<Records<R>>, op: Op<R>, after: seq<Records<R>>) {
    versions != [] && after != [] && forall v :: v in after ==> v in versions || v == Stored(Last(versions), op)
  }

  lemma DeleteHolds<R>(d: Disk<R>, versions: seq<Records<R>>, key: string, states: seq<Disk<R>>, k: nat) returns (after: seq<Records<R>>)
    requires Holds(d, versions) && Executes(d, Delete(key), states) && k < |states|
    ensures Holds(states[k], after) && Reached(versions, Delete(key), after)
    ensures k == |states| - 1 ==> Last(after) == Last(versions) - {key}
  {
    if k == 1 {
      assert states[0 + 1] == After(d, Unlink(key));
      TakeAwayHolds(d, versions, Unlink(key));
      after := versions + [Last(versions) - {key}];
    } else {
      if Name(key, Json) !in Live(d) {
        assert Read(Live(d), d.files, key) == Lookup(Last(versions), key);
        assert Last(versions) - {key} == Last(versions);
      }
      after := versions;
    }
  }

  /** Setting aside what does not parse changes no version. */
  lemma {:induction false} LoadHolds<R>(d: Disk<R>, versions: seq<Records<R>>, states: seq<Disk<R>>, k: nat)
    requires Holds(d, versions) && Executes(d, Load, states) && k < |states|
    ensures Holds(states[k], versions + seq(k, _ => Last(versions)))
    decreases k
  {
    var again := seq(k, _ => Last(versions));
    if k == 0 {
      assert versions + again == versions;
    } else {
      LoadHolds(d, versions, states, k - 1);
      var fewer := seq(k - 1, _ => Last(versions));
      assert Last(versions + fewer) == Last(versions);
      assert Quarantines(states[k - 1], states[(k - 1) + 1]);
      QuarantineHolds(states[k - 1], versions + fewer, states[k]);
      assert versions + again == versions + fewer + [Last(versions)];
    }
  }

  lemma QuarantineHolds<R>(d: Disk<R>, versions: seq<Records<R>>, e: Disk<R>)
    requires Holds(d, versions) && Quarantines(d, e)
    ensures Holds(e, versions + [Last(versions)])
  {
    var key, stamp :| Unparsed(d, key) && e == After(d, SetAside(key, stamp));
    assert Read(Live(d), d.files, key) == Lookup(Last(versions), key);
    assert Last(versions) - {key} == Last(versions);
    TakeAwayHolds(d, versions, SetAside(key, stamp));
  }

  /** Wherever a crash strikes, the whole directory reads afterwards as one version
      from before the operation or as the state it was making. When the directory
      was durable that is exactly old or new, and a finished upsert always survives. */
  lemma CrashAnywhere<R>(d: Disk<R>, versions: seq<Records<R>>, op: Op<R>, states: seq<Disk<R>>, k: nat, found: Disk<R>, pick: nat)
    returns (m: Records<R>)
    requires Holds(d, versions) && Executes(d, op, states) && k < |states|
    requires pick < |states[k].journal| && Crashed(states[k], found, pick)
    ensures Holds(found, [m])
    ensures m in versions || m == Stored(Last(versions), op)
    ensures |versions| == 1 ==> m == versions[0] || m == Stored(versions[0], op)
    ensures op.Upsert? && k == 5 ==> m == Stored(Last(versions), op)
  {
    var after := OpHolds(d, versions, op, states, k);
    m := CrashPicks(states[k], after, found, pick);
    OneOf(versions, op, after, m);
    if op.Upsert? && k == 5 {
      UpsertGoes(d, op.key, op.value, states, 4);
    }
  }

  lemma CrashPicks<R>(d: Disk<R>, versions: seq<Records<R>>, found: Disk<R>, pick: nat) returns (m: Records<R>)
    requires Holds(d, versions) && pick < |d.journal| && Crashed(d, found, pick)
    ensures Holds(found, [m]) && m in versions
    ensures |versions| == 1 ==> m == Last(versions)
  {
    CrashHolds(d, versions, found, pick);
    m := versions[pick];
  }

  lemma OneOf<R>(versions: seq<Records<R>>, op: Op<R>, after: seq<Records<R>>, m: Records<R>)
    requires Reached(versions, op, after) && m in after
    ensures m in versions || m == Stored(Last(versions), op)
    ensures |versions| == 1 ==> m == versions[0] || m == Stored(versions[0], op)
  {
  }

  // ---------------------------------------------------------------------
  // What a crash can undo

  /** Whatever is found after a crash reads as one map, and that map is unique. */
  lemma FoundOnce<R>(found: Disk<R>, m: Records<R>, n: Records<R>)
    requires Holds(found, [m]) && Holds(found, [n])
    ensures m == n
  {
    assert Shows(found.journal[0], found.files, [m][0]) && Shows(found.journal[0], found.files, [n][0]);
    ShownOnce(found.journal[0], found.files, m, n);
  }

  /** Any version can be the one a crash brings back. */
  lemma AnyVersionReturns<R>(d: Disk<R>, versions: seq<Records<R>>, pick: nat) returns (found: Disk<R>)
    requires Holds(d, versions) && pick < |versions|
    ensures Crashed(d, found, pick) && Holds(found, [versions[pick]])
  {
    found := Disk([d.journal[pick]], d.files, d.files.Keys, d.next);
    CrashHolds(d, versions, found, pick);
  }

  /** Whether every crash of a disk leaves a key without a record. */
  ghost predicate GoneForGood<R(!new)>(d: Disk<R>, key: string) {
    forall found: Disk<R>, pick: nat ::
      pick < |d.journal| && Crashed(d, found, pick) ==> Read(found.journal[0], found.files, key) == None
  }

  /** A key is gone for good exactly when no version has it. */
  lemma GoneExactly<R(!new)>(d: Disk<R>, versions: seq<Records<R>>, key: string)
    requires Holds(d, versions)
    ensures GoneForGood(d, key) <==> forall v :: v in versions ==> key !in v
  {
    if v :| v in versions && key in v {
      var pick :| 0 <= pick < |versions| && versions[pick] == v;
      var found := AnyVersionReturns(d, versions, pick);
      assert Read(found.journal[0], found.files, key) == Lookup(versions[pick], key);
    } else {
      forall found: Disk<R>, pick: nat | pick < |d.journal| && Crashed(d, found, pick)
        ensures Read(found.journal[0], found.files, key) == None
      {
        CrashHolds(d, versions, found, pick);
        assert Read(found.journal[0], found.files, key) == Lookup(versions[pick], key);
      }
    }
  }

  /** A crash can undo a delete that had returned: any version from before it,
      with the record in it or not, can be what is found. */
  lemma DeleteUndone<R>(d: Disk<R>, versions: seq<Records<R>>, key: string, states: seq<Disk<R>>, pick: nat)
      returns (found: Disk<R>)
    requires Holds(d, versions) && Executes(d, Delete(key), states) && pick < |versions|
    ensures pick < |Last(states).journal| && Crashed(Last(states), found, pick) && Holds(found, [versions[pick]])
  {
    var after := DeletedVersions(d, versions, key, states);
    found := AnyVersionReturns(Last(states), after, pick);
  }

  /** A delete adds at most the map without the key to what a crash can bring back. */
  lemma DeletedVersions<R>(d: Disk<R>, versions: seq<Records<R>>, key: string, states: seq<Disk<R>>)
      returns (after: seq<Records<R>>)
    requires Holds(d, versions) && Executes(d, Delete(key), states)
    ensures Holds(Last(states), after) && versions <= after
    ensures after == versions || after == versions + [Last(versions) - {key}]
  {
    if Name(key, Json) in Live(d) {
      assert states[0 + 1] == After(d, Unlink(key));
      TakeAwayHolds(d, versions, Unlink(key));
      after := versions + [Last(versions) - {key}];
    } else {
      after := versions;
    }
  }

  /** A returned delete is durable exactly when no version from before it had the record. */
  lemma DeleteIsDurable<R(!new)>(d: Disk<R>, versions: seq<Records<R>>, key: string, states: seq<Disk<R>>)
    requires Holds(d, versions) && Executes(d, Delete(key), states)
    ensures GoneForGood(Last(states), key) <==> forall v :: v in versions ==> key !in v
  {
    var after := DeletedVersions(d, versions, key, states);
    GoneExactly(Last(states), after, key);
    assert forall v :: v in versions ==> v in after;
  }

  // ---------------------------------------------------------------------
  // Runs

  /** One operation of a run with the disks it went through: finished, or cut short
      by a crash after some of its calls, with what was then found on disk. */
  datatype Turn<R> =
    | Finished(op: Op<R>, states: seq<Disk<R>>)
    | CutShort(op: Op<R>, states: seq<Disk<R>>, calls: nat, found: Disk<R>, pick: nat)

  ghost predicate Follows<R>(d: Disk<R>, t: Turn<R>, e: Disk<R>) {
    Executes(d, t.op, t.states) &&
    match t
    case Finished(_, states) => e == Last(states)
    case CutShort(_, states, k, found, pick) =>
      k < |states| && pick < |states[k].journal| && Crashed(states[k], found, pick) && e == found
  }

  function Empty<R>(): Disk<R> { Disk([map[]], map[], {}, 0) }

  /** The disks a run goes through, from whatever disk it starts on. */
  ghost predicate IsRun<R>(turns: seq<Turn<R>>, disks: seq<Disk<R>>) {
    && |disks| == |turns| + 1
    && forall i :: 0 <= i < |turns| ==> Follows(disks[i], turns[i], disks[i + 1])
  }

  /** A step of the in-memory store with versions: a finished operation is the map
      operation, and a crash keeps one version, old or the one being made. */
  ghost predicate MemoryStep<R>(before: seq<Records<R>>, t: Turn<R>, after: seq<Records<R>>) {
    before != [] && after != [] &&
    match t
    case Finished(op, _) =>
      && Last(after) == Stored(Last(before), op) && (op.Upsert? ==> |after| == 1)
      && forall v :: v in after ==> v in before || v == Stored(Last(before), op)
    case CutShort(op, _, _, _, _) => |after| == 1 && (after[0] in before || after[0] == Stored(Last(before), op))
  }

  /** The disk reads, at each point of a run, as the store's present map. */
  ghost predicate Refined<R>(turns: seq<Turn<R>>, disks: seq<Disk<R>>, stores: seq<seq<Records<R>>>) {
    && |stores| == |disks| == |turns| + 1
    && (forall i :: 0 <= i < |disks| ==> Holds(disks[i], stores[i]))
    && forall i :: 0 <= i < |turns| ==> MemoryStep(stores[i], turns[i], stores[i + 1])
  }

  /** Every run of writes, deletes and loads, with crashes wherever they fall, is a
      run of the in-memory store, whatever versions and junk it starts from. */
  lemma {:induction false} EveryRunRefines<R>(turns: seq<Turn<R>>, disks: seq<Disk<R>>, first: seq<Records<R>>)
      returns (stores: seq<seq<Records<R>>>)
    requires IsRun(turns, disks) && Holds(disks[0], first)
    ensures Refined(turns, disks, stores) && stores[0] == first
    decreases |turns|
  {
    if turns == [] {
      stores := [first];
    } else {
      var last := |turns| - 1;
      PrefixIsRun(turns, disks);
      var before := EveryRunRefines(turns[..last], disks[..|turns|], first);
      assert Holds(disks[..|turns|][last], before[last]);
      var next := TurnHolds(disks[last], before[last], turns[last], disks[|turns|]);
      stores := before + [next];
      OneMoreTurn(turns, disks, before, next);
    }
  }

  /** Along a run, a deleted record stays gone until something writes it again, once
      a later write in the directory has finished. */
  lemma DeletedForGood<R(!new)>(turns: seq<Turn<R>>, disks: seq<Disk<R>>, stores: seq<seq<Records<R>>>,
                                  key: string, i: nat, j: nat, n: nat)
    requires Refined(turns, disks, stores) && i < j < n <= |turns|
    requires turns[i].Finished? && turns[i].op == Delete(key)
    requires forall t :: i < t <= j ==> turns[t].Finished?
    requires turns[j].op.Upsert?
    requires forall t :: i < t < n && turns[t].op.Upsert? ==> turns[t].op.key != key
    ensures GoneForGood(disks[n], key)
  {
    StillInNoVersion(turns, disks, stores, key, i, j, n);
    assert Holds(disks[n], stores[n]);
    GoneExactly(disks[n], stores[n], key);
  }

  lemma {:induction false} StillInNoVersion<R>(turns: seq<Turn<R>>, disks: seq<Disk<R>>, stores: seq<seq<Records<R>>>,
                                               key: string, i: nat, j: nat, n: nat)
    requires Refined(turns, disks, stores) && i < j < n <= |turns|
    requires turns[i].Finished? && turns[i].op == Delete(key)
    requires forall t :: i < t <= j ==> turns[t].Finished?
    requires turns[j].op.Upsert?
    requires forall t :: i < t < n && turns[t].op.Upsert? ==> turns[t].op.key != key
    ensures forall v :: v in stores[n] ==> key !in v
    decreases n
  {
    if n == j + 1 {
      StillAbsent(turns, disks, stores, key, i, j + 1);
      UpsertLeavesOne(turns, disks, stores, j);
    } else {
      StillInNoVersion(turns, disks, stores, key, i, j, n - 1);
      assert MemoryStep(stores[n - 1], turns[n - 1], stores[(n - 1) + 1]);
      assert key !in Stored(Last(stores[n - 1]), turns[n - 1].op);
    }
  }

  lemma UpsertLeavesOne<R>(turns: seq<Turn<R>>, disks: seq<Disk<R>>, stores: seq<seq<Records<R>>>, j: nat)
    requires Refined(turns, disks, stores) && j < |turns| && turns[j].Finished? && turns[j].op.Upsert?
    ensures |stores[j + 1]| == 1
  {
    assert MemoryStep(stores[j], turns[j], stores[j + 1]);
  }

  lemma {:induction false} StillAbsent<R>(turns: seq<Turn<R>>, disks: seq<Disk<R>>, stores: seq<seq<Records<R>>>,
                                          key: string, i: nat, k: nat)
    requires Refined(turns, disks, stores) && i < k <= |turns|
    requires turns[i].Finished? && turns[i].op == Delete(key)
    requires forall t :: i < t < k ==> turns[t].Finished? && (turns[t].op.Upsert? ==> turns[t].op.key != key)
    ensures stores[k] != [] && key !in Last(stores[k])
    decreases k
  {
    assert MemoryStep(stores[k - 1], turns[k - 1], stores[(k - 1) + 1]);
    if k > i + 1 {
      StillAbsent(turns, disks, stores, key, i, k - 1);
    }
  }

  lemma EmptyHolds<R>()
    ensures Holds(Empty<R>(), [map[]])
  {
  }

  lemma OneMoreTurn<R>(turns: seq<Turn<R>>, disks: seq<Disk<R>>, before: seq<seq<Records<R>>>, next: seq<Records<R>>)
    requires turns != [] && |disks| == |turns| + 1
    requires Refined(turns[..|turns| - 1], disks[..|turns|], before)
    requires Holds(disks[|turns|], next) && MemoryStep(before[|turns| - 1], turns[|turns| - 1], next)
    ensures Refined(turns, disks, before + [next])
  {
    var n, stores := |turns|, before + [next];
    forall i | 0 <= i < |disks|
      ensures Holds(disks[i], stores[i])
    {
      if i < n {
        assert Holds(disks[..n][i], before[i]);
      }
    }
    forall i | 0 <= i < n
      ensures MemoryStep(stores[i], turns[i], stores[i + 1])
    {
      if i < n - 1 {
        assert MemoryStep(before[i], turns[..n - 1][i], before[i + 1]);
      }
    }
  }

  lemma PrefixIsRun<R>(turns: seq<Turn<R>>, disks: seq<Disk<R>>)
    requires turns != [] && IsRun(turns, disks)
    ensures IsRun(turns[..|turns| - 1], disks[..|turns|])
    ensures Follows(disks[|turns| - 1], turns[|turns| - 1], disks[|turns|])
  {
    var fewer, prefix := turns[..|turns| - 1], disks[..|turns|];
    forall i | 0 <= i < |fewer|
      ensures Follows(prefix[i], fewer[i], prefix[i + 1])
    {
      assert Follows(disks[i], turns[i], disks[i + 1]);
    }
    assert Follows(disks[|turns| - 1], turns[|turns| - 1], disks[(|turns| - 1) + 1]);
  }

  lemma TurnHolds<R>(d: Disk<R>, versions: seq<Records<R>>, t: Turn<R>, e: Disk<R>) returns (after: seq<Records<R>>)
    requires Holds(d, versions) && Follows(d, t, e)
    ensures Holds(e, after) && MemoryStep(versions, t, after)
  {
    match t
    case Finished(op, states) =>
      after := OpHolds(d, versions, op, states, |states| - 1);
    case CutShort(op, states, k, found, pick) =>
      var m := CrashAnywhere(d, versions, op, states, k, found, pick);
      after := [m];
  }

  // ---------------------------------------------------------------------
  // The store's methods

  class Directory<R> {
    var disk: Disk<R>
    ghost var versions: seq<Records<R>>

    ghost predicate Valid()
      reads this
    {
      Holds(disk, versions)
    }

    /** The records the in-memory store would have. */
    ghost function Present(): Records<R>
      reads this
      requires Valid()
    {
      Last(versions)
    }

    constructor ()
      ensures Valid() && disk == Empty() && Present() == map[]
    {
      EmptyHolds<R>();
      disk, versions := Empty(), [map[]];
    }

    /** A directory as found, for instance after a crash. */
    constructor Mount(found: Disk<R>, ghost m: Records<R>)
      requires Holds(found, [m])
      ensures Valid() && disk == found && Present() == m
    {
      disk, versions := found, [m];
    }

    method Do(c: Call<R>)
      requires Possible(disk, c)
      modifies this`disk
      ensures disk == After(old(disk), c)
    {
      disk := After(disk, c);
    }

    /** Writes to a temporary file, fsyncs it, renames it over the target, and
        fsyncs the directory. */
    method WriteAtomic(key: string, value: R) returns (ghost states: seq<Disk<R>>)
      requires Valid()
      modifies this
      ensures Executes(old(disk), Upsert(key, value), states) && disk == Last(states)
      ensures Valid() && versions == [old(Present())[key := value]]
    {
      states := Executable(disk, Upsert(key, value));
      UpsertHolds(disk, versions, key, value, states, 5);
      Do(Create(key));
      assert disk == states[0 + 1];
      Do(Write(key, value));
      assert disk == states[1 + 1];
      Do(Sync(key));
      assert disk == states[2 + 1];
      Do(Rename(key));
      assert disk == states[3 + 1];
      Do(SyncDir);
      assert disk == states[4 + 1];
      versions := [Last(versions)[key := value]];
    }

    /** Deleting something already absent is not an error. */
    method RemoveIfPresent(key: string) returns (ghost states: seq<Disk<R>>)
      requires Valid()
      modifies this
      ensures Executes(old(disk), Delete(key), states) && disk == Last(states)
      ensures Valid() && Present() == old(Present()) - {key}
    {
      states := Executable(disk, Delete(key));
      ghost var after := OpHolds(disk, versions, Delete(key), states, |states| - 1);
      if Name(key, Json) in Live(disk) {
        assert states[0 + 1] == After(disk, Unlink(key));
        Do(Unlink(key));
      }
      versions := after;
    }

    /** Reads one record file of the present listing, or sets it aside. */
    method LoadFile(key: string, stamp: nat) returns (r: Option<R>)
      requires Valid() && Name(key, Json) in Live(disk)
      modifies this
      ensures Valid() && Present() == old(Present())
      ensures r == Lookup(Present(), key)
      ensures if r.Some? then disk == old(disk) else Quarantines(old(disk), disk)
      ensures Live(disk).Keys == if r.Some? then old(Live(disk)).Keys
                                 else old(Live(disk)).Keys - {Name(key, Json)} + {Name(key, Corrupt(stamp))}
    {
      assert Read(Live(disk), disk.files, key) == Lookup(Present(), key);
      assert Whole(Live(disk), disk) by { assert Live(disk) == disk.journal[|disk.journal| - 1]; }
      var content := disk.files[Live(disk)[Name(key, Json)]];
      if content.Record? {
        return Some(content.value);
      }
      assert Unparsed(disk, key);
      TakeAwayHolds(disk, versions, SetAside(key, stamp));
      assert Present() - {key} == Present();
      Do(SetAside(key, stamp));
      versions := versions + [Last(versions)];
      r := None;
    }

    /** Reads every record file, setting aside those that do not parse, each under
        a stamp of its own. Leftover temporary files and files set aside before
        are not looked at. */
    method LoadDir(stamp: nat) returns (records: seq<R>, ghost keys: seq<string>, ghost states: seq<Disk<R>>)
      requires Valid()
      modifies this
      ensures Valid() && Present() == old(Present())
      ensures Executes(old(disk), Load, states) && disk == Last(states)
      ensures Loaded(Present(), records, keys)
    {
      records, keys, states := [], [], [disk];
      ghost var m := Present();
      var listed := set n | n in Live(disk) && n.ext == Json;
      var todo, at := listed, stamp;
      while todo != {}
        invariant Valid() && Present() == m
        invariant Loading(Live(disk).Keys, m, listed, todo, records, keys)
        invariant QuarantineSteps(old(disk), states, disk)
        decreases todo
      {
        var n :| n in todo;
        ghost var live, before := Live(disk).Keys, disk;
        assert n == Name(n.key, Json);
        var record := LoadFile(n.key, at);
        LoadedOne(live, Live(disk).Keys, m, listed, todo, records, keys, n, at, record);
        todo := todo - {n};
        if record.Some? {
          records, keys := records + [record.value], keys + [n.key];
        } else {
          StepsGrow(old(disk), states, before, disk);
          states, at := states + [disk], at + 1;
        }
      }
      AllRead(disk, versions, listed, records, keys);
    }
  }

  /** Every record of the map, each once, and nothing else. */
  ghost predicate Loaded<R>(m: Records<R>, records: seq<R>, keys: seq<string>) {
    && |keys| == |records| && (forall i, j :: 0 <= i < j < |keys| ==> keys[i] != keys[j])
    && (forall key :: key in keys <==> key in m)
    && forall i :: 0 <= i < |keys| ==> Lookup(m, keys[i]) == Some(records[i])
  }

  /** Disks going from one to another by setting files aside. */
  ghost predicate QuarantineSteps<R>(d: Disk<R>, states: seq<Disk<R>>, e: Disk<R>) {
    && |states| > 0 && states[0] == d && Last(states) == e
    && forall i :: 0 <= i < |states| - 1 ==> Quarantines(states[i], states[i + 1])
  }

  lemma StepsGrow<R>(d: Disk<R>, states: seq<Disk<R>>, e: Disk<R>, f: Disk<R>)
    requires QuarantineSteps(d, states, e) && Quarantines(e, f)
    ensures QuarantineSteps(d, states + [f], f)
  {
  }

  lemma AllRead<R>(d: Disk<R>, versions: seq<Records<R>>, listed: set<Name>, records: seq<R>, keys: seq<string>)
    requires Holds(d, versions) && Loading(Live(d).Keys, Last(versions), listed, {}, records, keys)
    ensures Loaded(Last(versions), records, keys)
    ensures forall key :: !Unparsed(d, key)
  {
    forall key
      ensures key in Last(versions) ==> Name(key, Json) in Live(d)
      ensures !Unparsed(d, key)
    {
      assert Read(Live(d), d.files, key) == Lookup(Last(versions), key);
      assert Name(key, Json) in Live(d) ==> key in keys;
      if key in keys {
        var i :| 0 <= i < |keys| && keys[i] == key;
        assert Lookup(Last(versions), keys[i]) == Some(records[i]);
      }
    }
    forall key | key in keys
      ensures key in Last(versions)
    {
      var i :| 0 <= i < |keys| && keys[i] == key;
      assert Lookup(Last(versions), keys[i]) == Some(records[i]);
    }
  }

  /** Mounting and loading what a crash left: exactly the records of one version
      from before the operation, or of the state it was making. */
  method Recover<R>(ghost d: Disk<R>, ghost versions: seq<Records<R>>, ghost op: Op<R>, ghost states: seq<Disk<R>>,
                    ghost k: nat, ghost pick: nat, found: Disk<R>, stamp: nat)
      returns (directory: Directory<R>, records: seq<R>, ghost keys: seq<string>, ghost m: Records<R>)
    requires Holds(d, versions) && Executes(d, op, states) && k < |states|
    requires pick < |states[k].journal| && Crashed(states[k], found, pick)
    ensures fresh(directory) && directory.Valid() && directory.Present() == m && Loaded(m, records, keys)
    ensures m in versions || m == Stored(Last(versions), op)
    ensures op.Upsert? && k == 5 ==> m == Stored(Last(versions), op)
  {
    m := CrashAnywhere(d, versions, op, states, k, found, pick);
    directory := new Directory.Mount(found, m);
    ghost var quarantined;
    records, keys, quarantined := directory.LoadDir(stamp);
  }

  /** What a load has done while the files in `todo` are still to be read. */
  ghost predicate Loading<R>(live: set<Name>, m: Records<R>, listed: set<Name>, todo: set<Name>, records: seq<R>, keys: seq<string>) {
    && todo <= listed && (forall n :: n in listed ==> n.ext == Json) && (forall n :: n in todo ==> n in live)
    && (forall n :: n in live && n.ext == Json ==> n in listed)
    && (forall n :: n in listed - todo && n in live ==> n.key in keys)
    && |keys| == |records| && (forall i, j :: 0 <= i < j < |keys| ==> keys[i] != keys[j])
    && forall i :: 0 <= i < |keys| ==> Name(keys[i], Json) !in todo && Lookup(m, keys[i]) == Some(records[i])
  }

  lemma LoadedOne<R>(live: set<Name>, after: set<Name>, m: Records<R>, listed: set<Name>, todo: set<Name>,
                     records: seq<R>, keys: seq<string>, n: Name, stamp: nat, record: Option<R>)
    requires Loading(live, m, listed, todo, records, keys) && n in todo
    requires record == Lookup(m, n.key)
    requires after == if record.Some? then live else live - {n} + {Name(n.key, Corrupt(stamp))}
    ensures Loading(after, m, listed, todo - {n},
                    if record.Some? then records + [record.value] else records,
                    if record.Some? then keys + [n.key] else keys)
  {
    assert n == Name(n.key, Json);
    assert n.key !in keys;
    var more := keys + [n.key];
    assert more[|keys|] == n.key && forall k :: k in keys ==> k in more;
    forall x | x in listed - (todo - {n}) && x in after
      ensures x.key in if record.Some? then more else keys
    {
      assert x == n || x in listed - todo;
    }
  }

  /** Without the fsync before the rename a crash can leave junk where the record was. */
  lemma WithoutSyncTorn<R>(key: string, was: R, value: R, raw: seq<char>)
    ensures var d := Disk([map[Name(key, Json) := 0]], map[0 := Record(was)], {0}, 1);
            var e := After(After(After(d, Create(key)), Write(key, value)), Rename(key));
            |e.journal| == 3 && exists f :: Crashed(e, f, 2) && Read(Live(f), f.files, key) == None
  {
    var d := Disk([map[Name(key, Json) := 0]], map[0 := Record(was)], {0}, 1);
    var e := After(After(After(d, Create(key)), Write(key, value)), Rename(key));
    var f := Disk([e.journal[2]], e.files[1 := Junk(raw)], e.files.Keys, e.next);
    assert Crashed(e, f, 2);
  }
}

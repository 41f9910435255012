/** A node's store of DHT packets under remote requests (src/DHTStorage.cpp,
    src/DHTworker.cpp): files, their total size, storing and authorised deletion. */
module Storage {
  import opened Num
  import opened PlainPacket
  import opened EncryptedPacket

  datatype Dir = Index | Email | Directory

  /** A file: its directory, the DHT key it is named by, and whether it is a deletion record. */
  datatype Name = Name(dir: Dir, key: bytes, deleted: bool)

  type Files = map<Name, bytes>

  datatype Status = OK | GENERAL_ERROR | NO_DATA_FOUND | INVALID_PACKET | NO_DISK_SPACE | DUPLICATED_DATA

  datatype StoreStatus = STORE_SUCCESS | STORE_FILE_EXIST | STORE_FILE_OPEN_ERROR

  /** What one request meets: the clock, and whether files can be opened and removed. */
  datatype Env = Env(now: Time, opens: bool, removes: bool)

  //
  // Sizes
  //

  /** The size of all files together. */
  ghost function Sum(files: Files): nat
  {
    if files == map[] then 0
    else
      var k :| k in files;
      |files[k]| + Sum(files - {k})
  }

  /** Whichever file is counted first. */
  lemma {:induction false} SumWithout(files: Files, k: Name)
    requires k in files
    ensures Sum(files) == |files[k]| + Sum(files - {k})
    decreases |files|
  {
    var j :| j in files && Sum(files) == |files[j]| + Sum(files - {j});
    if j != k {
      SumWithout(files - {j}, k);
      SumWithout(files - {k}, j);
      assert files - {j} - {k} == files - {k} - {j};
    }
  }

  lemma SumPut(files: Files, k: Name, v: bytes)
    ensures Sum(files[k := v]) == Sum(files - {k}) + |v|
  {
    SumWithout(files[k := v], k);
    assert files[k := v] - {k} == files - {k};
  }

  lemma SumDrop(files: Files, k: Name)
    ensures Sum(files - {k}) + (if k in files then |files[k]| else 0) == Sum(files)
  {
    if k in files {
      SumWithout(files, k);
    } else {
      assert files - {k} == files;
    }
  }

  //
  // Contents
  //

  const TYPE_I: byte := 73
  const TYPE_C: byte := 67
  const TYPE_T: byte := 84

  /** The deletion record of one email: `DeletionInfoPacket::toByte` with one item, whose time
      is written in the order of a little-endian host. */
  function Record(key: bytes, da: bytes, time: Time): (s: bytes)
    ensures |s| == 10 + |key| + |da|
  {
    [TYPE_T, VERSION, 0, 0, 0, 1] + key + da + LeBytes(time, 4)
  }

  /** `DeletionInfoPacket::item_exist` after `fromBuffer`. */
  predicate HasItem(s: bytes, key: bytes, da: bytes)
    requires |s| >= 6 && 6 + 68 * Get32(s[2..6]) <= |s|
  {
    exists i :: 0 <= i < Get32(s[2..6]) % 256 && s[6 + 68 * i..][..32] == key && s[38 + 68 * i..][..32] == da
  }

  lemma RecordItem(key: bytes, da: bytes, time: Time, k: bytes, d: bytes)
    requires |key| == 32 && |da| == 32 && |k| == 32 && |d| == 32
    ensures var s := Record(key, da, time);
      && Get32(s[2..6]) == 1 && |s| == 74
      && (HasItem(s, k, d) <==> k == key && d == da)
  {
    var s := Record(key, da, time);
    assert s[2..6] == [0, 0, 0, 1];
    assert s[6..38] == key && s[38..70] == da;
    if k == key && d == da {
      assert s[6 + 68 * 0..6 + 68 * 0 + 32] == k;
    }
  }

  /** The file is an email as some `safeEmail` wrote it. */
  ghost predicate IsEmail(s: bytes)
  {
    |s| >= FIXED && Sized(s)
  }

  /** The file records the deletion of the email of this key. */
  ghost predicate IsRecord(key: bytes, s: bytes)
  {
    exists da: bytes, time: Time :: |da| == 32 && s == Record(key, da, time)
  }

  ghost predicate SoundFile(k: Name, s: bytes)
  {
    && |k.key| == 32
    && (k.dir == Email && !k.deleted ==> IsEmail(s))
    && (k.dir == Email && k.deleted ==> IsRecord(k.key, s))
  }

  ghost predicate Sound(files: Files)
  {
    forall k :: k in files ==> SoundFile(k, files[k])
  }

  /** The delete authorisation and key of a request match what can be read of the stored
      packet (`da_valid`). */
  predicate Authorised(sha: bytes -> bytes, stored: bytes, key: bytes, da: bytes)
    requires Sized(stored)
  {
    var p := Load(sha, stored).1;
    p.deleteHash == sha(da) && p.key == key
  }

  //
  // Requests
  //

  datatype Request =
    | Store(data: Option<bytes>)
    | DeleteEmail(target: Option<(bytes, bytes)>)

  /** A store request holds a type, a version and a key, and an email's length field stays
      inside it; a delete request holds a key and an authorisation. */
  predicate Readable(r: Request)
  {
    match r
    case Store(Some(s)) => |s| >= 34 && (s[0] == TYPE_E ==> Sized(s))
    case DeleteEmail(Some((key, da))) => |key| == 32 && |da| == 32
    case _ => true
  }

  datatype Event = Event(request: Request, env: Env)

  function Read(files: Files, k: Name): bytes
  {
    if k in files then files[k] else []
  }

  function Supported(s: bytes): bool
    requires |s| >= 2
  {
    (s[0] == TYPE_I || s[0] == TYPE_E || s[0] == TYPE_C) && s[1] >= 4
  }

  function NameOf(s: bytes): Name
    requires |s| >= 34
  {
    Name(if s[0] == TYPE_I then Index else if s[0] == TYPE_E then Email else Directory, s[2..34], false)
  }

  /** `safe` on a supported packet: an index is replaced, anything else is never overwritten. */
  function Saved(sha: bytes -> bytes, files: Files, s: bytes, env: Env): (StoreStatus, Files)
    requires |s| >= 34 && Supported(s) && (s[0] == TYPE_E ==> Sized(s))
  {
    var k := NameOf(s);
    if k in files && k.dir != Index then (STORE_FILE_EXIST, files)
    else if k in files && files[k] == [] then (STORE_FILE_OPEN_ERROR, files)
    else
      var left := if k in files && env.removes then files - {k} else files;
      if !env.opens then (STORE_FILE_OPEN_ERROR, left)
      else (STORE_SUCCESS, left[k := if s[0] == TYPE_E then Stored(sha, s, env.now) else s])
  }

  function Answer(status: StoreStatus): Status
  {
    match status
    case STORE_SUCCESS => OK
    case STORE_FILE_EXIST => DUPLICATED_DATA
    case STORE_FILE_OPEN_ERROR => GENERAL_ERROR
  }

  /** `receiveStoreRequest` */
  function AfterStore(sha: bytes -> bytes, limit: nat, used: nat, files: Files, data: Option<bytes>,
                      env: Env): (Status, Files)
    requires Readable(Store(data))
  {
    match data
    case None => (INVALID_PACKET, files)
    case Some(s) =>
      if !Supported(s) then (INVALID_PACKET, files)
      else if limit <= used + |s| then (NO_DISK_SPACE, files)
      else
        var (status, after) := Saved(sha, files, s, env);
        (Answer(status), after)
  }

  /** A record that already holds this key and authorisation. */
  ghost predicate Recorded(files: Files, key: bytes, da: bytes)
    requires Sound(files) && |key| == 32 && |da| == 32
  {
    Name(Email, key, true) in files && exists time: Time :: files[Name(Email, key, true)] == Record(key, da, time)
  }

  /** The email that the request may remove is there, and is not recorded as removed by it. */
  ghost predicate Removable(sha: bytes -> bytes, files: Files, key: bytes, da: bytes)
    requires Sound(files) && |key| == 32 && |da| == 32
  {
    var k := Name(Email, key, false);
    k in files && !Recorded(files, key, da) && Authorised(sha, files[k], key, da)
  }

  /** `receiveEmailPacketDeleteRequest` */
  ghost function AfterDelete(sha: bytes -> bytes, files: Files, target: Option<(bytes, bytes)>, env: Env): (Status,
                             Files)
    requires Readable(DeleteEmail(target)) && Sound(files)
  {
    match target
    case None => (INVALID_PACKET, files)
    case Some((key, da)) =>
      var k, rec := Name(Email, key, false), Name(Email, key, true);
      if Recorded(files, key, da) then (OK, files)
      else if k !in files then (NO_DATA_FOUND, files)
      else if !Authorised(sha, files[k], key, da) then (INVALID_PACKET, files)
      else if !env.removes then (GENERAL_ERROR, files)
      else if rec in files || !env.opens then (OK, files - {k})
      else (OK, (files - {k})[rec := Record(key, da, Load(sha, files[k]).1.time)])
  }

  class DHTStorage {
    var files: Files
    var used: nat
    const limit: nat
    const sha: bytes -> bytes

    ghost predicate Valid()
      reads this
    {
      Sound(files) && used == Sum(files)
    }

    /** `update_storage_usage`, listing the files in whatever order. */
    method UpdateStorageUsage()
      modifies this`used
      ensures used == Sum(files)
    {
      var newUsed, rest := 0, files;
      while rest != map[]
        invariant newUsed + Sum(rest) == Sum(files)
        decreases |rest|
      {
        var k :| k in rest;
        SumWithout(rest, k);
        newUsed := newUsed + |rest[k]|;
        rest := rest - {k};
      }
      used := newUsed;
    }

    predicate LimitReached(size: nat)
      reads this
    {
      limit <= used + size
    }

    method Write(k: Name, data: bytes, env: Env) returns (status: StoreStatus)
      modifies this`files, this`used
      ensures status == if env.opens then STORE_SUCCESS else STORE_FILE_OPEN_ERROR
      ensures files == if env.opens then old(files)[k := data] else old(files)
      ensures env.opens ==> used == Sum(files)
      ensures !env.opens ==> used == old(used)
    {
      if !env.opens {
        return STORE_FILE_OPEN_ERROR;
      }
      files := files[k := data];
      UpdateStorageUsage();
      return STORE_SUCCESS;
    }

    /** `Delete` */
    method Delete(k: Name, env: Env) returns (ok: bool)
      modifies this`files, this`used
      ensures ok == (Name(k.dir, k.key, false) in old(files) && env.removes)
      ensures files == if ok then old(files) - {k} else old(files)
      ensures used == if ok then Sum(files) else old(used)
    {
      if Name(k.dir, k.key, false) !in files || !env.removes {
        return false;
      }
      files := files - {k};
      UpdateStorageUsage();
      return true;
    }

    /** `safeEmail` */
    method SafeEmail(k: Name, s: bytes, env: Env) returns (status: StoreStatus)
      requires Valid() && |s| >= 34 && s[0] == TYPE_E && s[1] >= 4 && Sized(s) && k == NameOf(s)
      modifies this`files, this`used
      ensures (status, files) == Saved(sha, old(files), s, env) && used == Sum(files)
    {
      if k in files {
        return STORE_FILE_EXIST;
      }
      if !env.opens {
        return STORE_FILE_OPEN_ERROR;
      }
      var packet := Load(sha, s).1;
      packet := packet.(time := env.now);
      status := Write(k, EncryptedPacket.Serialize(packet), env);
    }

    /** `safeContact` */
    method SafeContact(k: Name, s: bytes, env: Env) returns (status: StoreStatus)
      requires Valid() && |s| >= 34 && s[0] == TYPE_C && s[1] >= 4 && k == NameOf(s)
      modifies this`files, this`used
      ensures (status, files) == Saved(sha, old(files), s, env) && used == Sum(files)
    {
      if k in files {
        return STORE_FILE_EXIST;
      }
      status := Write(k, s, env);
    }

    /** `safeIndex` with `update_index`: the packet that came in replaces the one there. */
    method SafeIndex(k: Name, s: bytes, env: Env) returns (status: StoreStatus)
      requires Valid() && |s| >= 34 && s[0] == TYPE_I && s[1] >= 4 && k == NameOf(s)
      modifies this`files, this`used
      ensures (status, files) == Saved(sha, old(files), s, env) && used == Sum(files)
    {
      if k in files {
        if files[k] == [] {
          return STORE_FILE_OPEN_ERROR;
        }
        var _ := Delete(k, env);
      }
      status := Write(k, s, env);
    }

    /** `safe` */
    method Safe(s: bytes, env: Env) returns (status: StoreStatus)
      requires Valid() && |s| >= 34 && Supported(s) && (s[0] == TYPE_E ==> Sized(s))
      modifies this`files, this`used
      ensures (status, files) == Saved(sha, old(files), s, env) && used == Sum(files)
    {
      var k := NameOf(s);
      if s[0] == TYPE_I {
        status := SafeIndex(k, s, env);
      } else if s[0] == TYPE_E {
        status := SafeEmail(k, s, env);
      } else {
        status := SafeContact(k, s, env);
      }
    }

    /** `safe_deleted_email` */
    method SafeDeletedEmail(key: bytes, data: bytes, env: Env) returns (status: StoreStatus)
      requires used == Sum(files)
      modifies this`files, this`used
      ensures files ==
        var k := Name(Email, key, true);
        if k !in old(files) && env.opens then old(files)[k := data] else old(files)
      ensures used == Sum(files)
    {
      if Name(Email, key, true) in files {
        return STORE_FILE_EXIST;
      }
      status := Write(Name(Email, key, true), data, env);
    }

    method ReceiveStoreRequest(data: Option<bytes>, env: Env) returns (status: Status)
      requires Valid() && Readable(Store(data))
      modifies this`files, this`used
      ensures (status, files) == AfterStore(sha, limit, old(used), old(files), data, env) && Valid()
    {
      if data == None {
        return INVALID_PACKET;
      }
      var s := data.value;
      if !Supported(s) {
        return INVALID_PACKET;
      }
      if LimitReached(|s|) {
        return NO_DISK_SPACE;
      }
      SavedSound(sha, files, s, env);
      var saved := Safe(s, env);
      status := Answer(saved);
    }

    method ReceiveEmailPacketDeleteRequest(target: Option<(bytes, bytes)>, env: Env) returns (status: Status)
      requires Valid() && Readable(DeleteEmail(target))
      modifies this`files, this`used
      ensures (status, files) == AfterDelete(sha, old(files), target, env) && Valid()
    {
      if target == None {
        return INVALID_PACKET;
      }
      var (key, da) := target.value;
      DeleteSound(sha, files, key, da, env);
      var record := Read(files, Name(Email, key, true));
      if record != [] {
        RecordRead(files, key, da);
        if HasItem(record, key, da) {
          return OK;
        }
      }
      var email := Read(files, Name(Email, key, false));
      if email == [] {
        return NO_DATA_FOUND;
      }
      var packet := Load(sha, email).1;
      if packet.deleteHash != sha(da) || packet.key != key {
        return INVALID_PACKET;
      }
      var removed := Delete(Name(Email, key, false), env);
      if !removed {
        return GENERAL_ERROR;
      }
      var _ := SafeDeletedEmail(key, Record(key, da, packet.time), env);
      return OK;
    }
  }

  lemma SavedSound(sha: bytes -> bytes, files: Files, s: bytes, env: Env)
    requires Sound(files) && |s| >= 34 && Supported(s) && (s[0] == TYPE_E ==> Sized(s))
    ensures Sound(Saved(sha, files, s, env).1)
  {
    if s[0] == TYPE_E {
      StoredSized(sha, s, env.now);
    }
  }

  lemma RecordRead(files: Files, key: bytes, da: bytes)
    requires Sound(files) && |key| == 32 && |da| == 32 && Name(Email, key, true) in files
    ensures var s := files[Name(Email, key, true)];
      |s| >= 6 && 6 + 68 * Get32(s[2..6]) <= |s| && (HasItem(s, key, da) <==> Recorded(files, key, da))
  {
    var s := files[Name(Email, key, true)];
    assert SoundFile(Name(Email, key, true), s);
    var d: bytes, time: Time :| |d| == 32 && s == Record(key, d, time);
    RecordItem(key, d, time, key, da);
    forall t: Time | s == Record(key, da, t)
      ensures d == da
    {
      assert s[38..70] == da && s[38..70] == d;
    }
  }

  lemma DeleteSound(sha: bytes -> bytes, files: Files, key: bytes, da: bytes, env: Env)
    requires Sound(files) && |key| == 32 && |da| == 32
    ensures Sound(AfterDelete(sha, files, Some((key, da)), env).1)
    ensures Name(Email, key, false) in files ==> files[Name(Email, key, false)] != []
    ensures Name(Email, key, true) in files ==> files[Name(Email, key, true)] != []
  {
    var k := Name(Email, key, false);
    if k in files {
      assert SoundFile(k, files[k]);
    }
    if Name(Email, key, true) in files {
      RecordRead(files, key, da);
    }
  }

  //
  // Runs
  //

  /** The node: its hash function and quota. */
  datatype Node = Node(sha: bytes -> bytes, limit: nat)

  ghost function Next(n: Node, files: Files, e: Event): (after: Files)
    requires Sound(files) && Readable(e.request)
    ensures Sound(after)
  {
    match e.request
    case Store(data) =>
      AfterStoreSound(n, files, data, e.env);
      AfterStore(n.sha, n.limit, Sum(files), files, data, e.env).1
    case DeleteEmail(target) =>
      if target.Some? then
        DeleteSound(n.sha, files, target.value.0, target.value.1, e.env);
        AfterDelete(n.sha, files, target, e.env).1
      else files
  }

  lemma AfterStoreSound(n: Node, files: Files, data: Option<bytes>, env: Env)
    requires Sound(files) && Readable(Store(data))
    ensures Sound(AfterStore(n.sha, n.limit, Sum(files), files, data, env).1)
  {
    if data.Some? && Supported(data.value) {
      SavedSound(n.sha, files, data.value, env);
    }
  }

  ghost predicate AllReadable(es: seq<Event>)
  {
    forall i :: 0 <= i < |es| ==> Readable(es[i].request)
  }

  /** The files after a run of requests. */
  ghost function Run(n: Node, files: Files, es: seq<Event>): (after: Files)
    requires Sound(files) && AllReadable(es)
    ensures Sound(after)
  {
    if es == [] then files else Next(n, Run(n, files, es[..|es| - 1]), es[|es| - 1])
  }

  /** This request has the hash and key of the email stored under the key. */
  ghost predicate Permits(n: Node, files: Files, e: Event, key: bytes, da: bytes)
    requires Sound(files)
  {
    var k := Name(Email, key, false);
    && e.request == DeleteEmail(Some((key, da)))
    && k in files && SoundFile(k, files[k]) && Authorised(n.sha, files[k], key, da)
  }

  /** s records the removal, with this authorisation, of the email stored under the key. */
  ghost predicate Records(n: Node, files: Files, key: bytes, da: bytes, s: bytes)
    requires Sound(files)
  {
    var k := Name(Email, key, false);
    k in files && SoundFile(k, files[k]) && s == Record(key, da, Load(n.sha, files[k]).1.time)
  }

  /** One request leaves an email's bytes alone, or removes it with permission; and a new
      record comes from the removal it records. */
  lemma EmailStep(n: Node, files: Files, e: Event, key: bytes)
    requires Sound(files) && Readable(e.request)
    ensures var k, after := Name(Email, key, false), Next(n, files, e);
      && (k in files && k in after ==> after[k] == files[k])
      && (k in files && k !in after ==> exists da :: Permits(n, files, e, key, da))
    ensures var r, after := Name(Email, key, true), Next(n, files, e);
      && (r in files ==> r in after && after[r] == files[r])
      && (r !in files && r in after ==>
           exists da :: Permits(n, files, e, key, da) && Records(n, files, key, da, after[r]))
  {
    var k, after := Name(Email, key, false), Next(n, files, e);
    if k in files {
      assert SoundFile(k, files[k]);
    }
    match e.request
    case Store(_) =>
    case DeleteEmail(target) =>
      if target.Some? && target.value.0 == key && after != files {
        assert Permits(n, files, e, key, target.value.1);
      }
  }

  /** While an email is there, its file is the same byte for byte. */
  lemma {:induction false} Unchanged(n: Node, files: Files, es: seq<Event>, key: bytes)
    requires Sound(files) && AllReadable(es) && Name(Email, key, false) in files
    requires forall m :: 0 <= m <= |es| ==> Name(Email, key, false) in Run(n, files, es[..m])
    ensures Name(Email, key, false) in Run(n, files, es)
    ensures Run(n, files, es)[Name(Email, key, false)] == files[Name(Email, key, false)]
  {
    assert es[..|es|] == es;
    if es != [] {
      var before := es[..|es| - 1];
      forall m | 0 <= m <= |before|
        ensures Name(Email, key, false) in Run(n, files, before[..m])
      {
        assert before[..m] == es[..m];
      }
      Unchanged(n, files, before, key);
      EmailStep(n, Run(n, files, before), es[|es| - 1], key);
    }
  }

  /** Request i of the run has the hash and key of the email as it is stored then. */
  ghost predicate PermitsAt(n: Node, files: Files, es: seq<Event>, i: nat, key: bytes, da: bytes)
    requires Sound(files) && AllReadable(es)
  {
    i < |es| && Permits(n, Run(n, files, es[..i]), es[i], key, da)
  }

  /** Request i of the run removed the email, with permission. */
  ghost predicate RemovesAt(n: Node, files: Files, es: seq<Event>, i: nat, key: bytes, da: bytes)
    requires Sound(files) && AllReadable(es)
  {
    PermitsAt(n, files, es, i, key, da) && Name(Email, key, false) !in Run(n, files, es[..i + 1])
  }

  /** An email that has gone was removed by a request that had its hash and key. */
  lemma {:induction false} RemovedByPermission(n: Node, files: Files, es: seq<Event>, key: bytes)
    requires Sound(files) && AllReadable(es) && Name(Email, key, false) in files
    requires Name(Email, key, false) !in Run(n, files, es)
    ensures exists i: nat, da :: RemovesAt(n, files, es, i, key, da)
  {
    var last := |es| - 1;
    var before := es[..last];
    assert es[..last + 1] == es;
    if Name(Email, key, false) in Run(n, files, before) {
      EmailStep(n, Run(n, files, before), es[last], key);
      var da :| Permits(n, Run(n, files, before), es[last], key, da);
      assert RemovesAt(n, files, es, last, key, da);
    } else {
      RemovedByPermission(n, files, before, key);
      var i: nat, da :| RemovesAt(n, files, before, i, key, da);
      assert before[..i] == es[..i] && before[..i + 1] == es[..i + 1];
      assert RemovesAt(n, files, es, i, key, da);
    }
  }

  ghost predicate RecordsAt(n: Node, files: Files, es: seq<Event>, i: nat, key: bytes, da: bytes, s: bytes)
    requires Sound(files) && AllReadable(es)
  {
    PermitsAt(n, files, es, i, key, da) && Records(n, Run(n, files, es[..i]), key, da, s)
  }

  /** A deletion record that has appeared records a removal that was permitted. */
  lemma {:induction false} RecordsPermitted(n: Node, files: Files, es: seq<Event>, key: bytes)
    requires Sound(files) && AllReadable(es) && Name(Email, key, true) !in files
    requires Name(Email, key, true) in Run(n, files, es)
    ensures exists i: nat, da :: RecordsAt(n, files, es, i, key, da, Run(n, files, es)[Name(Email, key, true)])
  {
    var last := |es| - 1;
    var before := es[..last];
    EmailStep(n, Run(n, files, before), es[last], key);
    if Name(Email, key, true) in Run(n, files, before) {
      RecordsPermitted(n, files, before, key);
      var s := Run(n, files, before)[Name(Email, key, true)];
      var i: nat, da :| RecordsAt(n, files, before, i, key, da, s);
      assert before[..i] == es[..i];
      assert RecordsAt(n, files, es, i, key, da, s);
    } else {
      var s := Run(n, files, es)[Name(Email, key, true)];
      var da :| Permits(n, Run(n, files, before), es[last], key, da) && Records(n, Run(n, files, before), key, da, s);
      assert RecordsAt(n, files, es, last, key, da, s);
    }
  }

  /** A request removes the email under a key exactly if it is a deletion that the email's own
      hash and key allow, that is not already on record, and that the file system lets through. */
  lemma RemovedIff(n: Node, files: Files, e: Event, key: bytes)
    requires Sound(files) && Readable(e.request) && Name(Email, key, false) in files
    ensures Name(Email, key, false) !in Next(n, files, e) <==>
      e.env.removes && e.request.DeleteEmail? && e.request.target.Some? && e.request.target.value.0 == key
      && Removable(n.sha, files, key, e.request.target.value.1)
  {
    assert SoundFile(Name(Email, key, false), files[Name(Email, key, false)]);
  }

  /** A record is never changed or removed. */
  lemma {:induction false} RecordStays(n: Node, files: Files, es: seq<Event>, key: bytes)
    requires Sound(files) && AllReadable(es) && Name(Email, key, true) in files
    ensures Name(Email, key, true) in Run(n, files, es)
    ensures Run(n, files, es)[Name(Email, key, true)] == files[Name(Email, key, true)]
  {
    if es != [] {
      RecordStays(n, files, es[..|es| - 1], key);
      EmailStep(n, Run(n, files, es[..|es| - 1]), es[|es| - 1], key);
    }
  }

  /** An email stored again after its deletion is not removed by the same authorisation: at no
      later time does a request with the recorded key and authorisation change anything. */
  lemma DeletedOnce(n: Node, files: Files, es: seq<Event>, key: bytes, da: bytes, env: Env)
    requires Sound(files) && AllReadable(es) && |key| == 32 && |da| == 32 && Recorded(files, key, da)
    ensures Next(n, Run(n, files, es), Event(DeleteEmail(Some((key, da))), env)) == Run(n, files, es)
  {
    RecordStays(n, files, es, key);
    var time: Time :| files[Name(Email, key, true)] == Record(key, da, time);
    assert Recorded(Run(n, files, es), key, da);
  }

  /** Storing, deleting, storing and deleting an email again. */
  function TwiceDeleted(s: bytes, key: bytes, da: bytes, env: Env): seq<Event>
  {
    var put, drop := Event(Store(Some(s)), env), Event(DeleteEmail(Some((key, da))), env);
    [put, drop, put, drop]
  }

  lemma RunStep(n: Node, files: Files, es: seq<Event>, e: Event)
    requires Sound(files) && AllReadable(es) && Readable(e.request)
    ensures AllReadable(es + [e]) && Run(n, files, es + [e]) == Next(n, Run(n, files, es), e)
  {
    assert (es + [e])[..|es|] == es;
  }

  /** The stored form of a genuine packet is deleted by the authorisation it was made with. */
  lemma StoredIsDeletable(n: Node, p: Packet, da: bytes, env: Env)
    requires Genuine(n.sha, p) && p.deleteHash == n.sha(da)
    ensures Sized(EncryptedPacket.Serialize(p)) && Supported(EncryptedPacket.Serialize(p))
    ensures NameOf(EncryptedPacket.Serialize(p)) == Name(Email, p.key, false)
    ensures var t := Stored(n.sha, EncryptedPacket.Serialize(p), env.now);
      |t| == FIXED + |p.edata| && Sized(t) && Authorised(n.sha, t, p.key, da)
  {
    LoadOfGenuine(n.sha, p);
    LoadOfGenuine(n.sha, p.(time := env.now));
    SerializedFields(p);
  }

  /** From the empty store, an email stored, deleted and stored again stays, although the second
      deletion has its key and authorisation. */
  lemma DeletedOnceExample(n: Node, p: Packet, da: bytes, env: Env)
    requires Genuine(n.sha, p) && p.deleteHash == n.sha(da) && |da| == 32
    requires env.opens && env.removes && n.limit > 74 + FIXED + |p.edata|
    ensures var es := TwiceDeleted(EncryptedPacket.Serialize(p), p.key, da, env);
      AllReadable(es) && Name(Email, p.key, false) in Run(n, map[], es) && Recorded(Run(n, map[], es), p.key, da)
  {
    var s := EncryptedPacket.Serialize(p);
    var k, r := Name(Email, p.key, false), Name(Email, p.key, true);
    StoredIsDeletable(n, p, da, env);
    var t := Stored(n.sha, s, env.now);
    var put, drop := Event(Store(Some(s)), env), Event(DeleteEmail(Some((p.key, da))), env);
    var none: Files := map[];
    var record := Record(p.key, da, Load(n.sha, t).1.time);
    FirstRound(n, s, t, k, r, da, env, record);
    RunOfFour(n, none, put, drop, map[k := t], map[r := record], map[r := record, k := t]);
  }

  lemma RunOfFour(n: Node, none: Files, put: Event, drop: Event, one: Files, two: Files, three: Files)
    requires Readable(put.request) && Readable(drop.request) && Sound(none) && Sound(one) && Sound(two) && Sound(three)
    requires Next(n, none, put) == one && Next(n, one, drop) == two
    requires Next(n, two, put) == three && Next(n, three, drop) == three
    ensures AllReadable([put, drop, put, drop]) && Run(n, none, [put, drop, put, drop]) == three
  {
    RunStep(n, none, [], put);
    RunStep(n, none, [put], drop);
    RunStep(n, none, [put, drop], put);
    RunStep(n, none, [put, drop, put], drop);
    assert [] + [put] == [put] && [put] + [drop] == [put, drop] && [put, drop] + [put] == [put, drop, put];
    assert [put, drop, put] + [drop] == [put, drop, put, drop];
  }

  lemma FirstRound(n: Node, s: bytes, t: bytes, k: Name, r: Name, da: bytes, env: Env, record: bytes)
    requires |s| >= 34 && Supported(s) && Sized(s) && s[0] == TYPE_E && k == NameOf(s) && t == Stored(n.sha, s, env.now)
    requires r == Name(Email, k.key, true) && |da| == 32 && |k.key| == 32
    requires IsEmail(t) && Authorised(n.sha, t, k.key, da) && record == Record(k.key, da, Load(n.sha, t).1.time)
    requires env.opens && env.removes && n.limit > 74 + |s|
    ensures var put, drop, none := Event(Store(Some(s)), env), Event(DeleteEmail(Some((k.key, da))), env), map[];
      && Sound(none) && Sound(map[k := t]) && Sound(map[r := record]) && Sound(map[r := record, k := t])
      && Next(n, none, put) == map[k := t] && Next(n, map[k := t], drop) == map[r := record]
      && Next(n, map[r := record], put) == map[r := record, k := t]
      && Next(n, map[r := record, k := t], drop) == map[r := record, k := t]
      && Recorded(map[r := record, k := t], k.key, da)
  {
    var none: Files := map[];
    var one: Files := map[k := t];
    var two: Files := map[r := record];
    var three: Files := map[r := record, k := t];
    assert |record| == 74;
    assert Sound(one) && Sound(two) && Sound(three);
    assert !Recorded(one, k.key, da);
    SumPut(none, r, record);
    assert none[r := record] == two && none - {r} == none;
    assert Sum(two) == 74 && Sum(none) == 0;
    assert none[k := t] == one && one - {k} == none && none[r := record] == two && two[k := t] == three;
    assert Recorded(three, k.key, da);
  }

  //
  // The quota
  //

  /** A delete request does not name the zeros that a packet too short to be read has for its key
      and for its delete hash. */
  predicate NotBlank(sha: bytes -> bytes, r: Request)
  {
    match r
    case DeleteEmail(Some((key, da))) => key != BLANK || sha(da) != BLANK
    case _ => true
  }

  /** An email to be stored is no shorter than a packet without payload. */
  predicate LongEnough(r: Request)
  {
    match r
    case Store(Some(s)) => |s| > 0 && s[0] == TYPE_E ==> |s| >= FIXED
    case _ => true
  }

  lemma StoredSize(sha: bytes -> bytes, s: bytes, now: Time)
    requires Sized(s)
    ensures |Stored(sha, s, now)| == (if Load(sha, s).0 then FIXED + Get16(s[71..73]) else FIXED)
    ensures |Stored(sha, s, now)| <= (if |s| < FIXED then FIXED else |s|)
  {
  }

  lemma StoreKeepsQuota(n: Node, files: Files, data: Option<bytes>, env: Env)
    requires Sound(files) && Readable(Store(data)) && LongEnough(Store(data)) && Sum(files) < n.limit
    ensures Sum(Next(n, files, Event(Store(data), env))) < n.limit
  {
    if data.Some? && Supported(data.value) && n.limit > Sum(files) + |data.value| {
      var s, k := data.value, NameOf(data.value);
      if s[0] == TYPE_E {
        StoredSize(n.sha, s, env.now);
      }
      SumDrop(files, k);
      SumPut(files, k, if s[0] == TYPE_E then Stored(n.sha, s, env.now) else s);
      SumPut(files - {k}, k, s);
      assert files - {k} - {k} == files - {k};
    }
  }

  /** A permitted removal frees more than its record takes. */
  lemma DeleteKeepsQuota(n: Node, files: Files, target: Option<(bytes, bytes)>, env: Env)
    requires Sound(files) && Readable(DeleteEmail(target)) && NotBlank(n.sha, DeleteEmail(target))
    ensures Sum(Next(n, files, Event(DeleteEmail(target), env))) <= Sum(files)
    ensures Next(n, files, Event(DeleteEmail(target), env)) != files ==>
      Sum(Next(n, files, Event(DeleteEmail(target), env))) + SHORTEST <= Sum(files) + 74
  {
    if target.Some? {
      var (key, da) := target.value;
      var k, rec := Name(Email, key, false), Name(Email, key, true);
      SumDrop(files, k);
      if k in files {
        assert SoundFile(k, files[k]);
        if Authorised(n.sha, files[k], key, da) {
          assert |files[k]| >= SHORTEST;
          SumPut(files - {k}, rec, Record(key, da, Load(n.sha, files[k]).1.time));
          SumDrop(files - {k}, rec);
        }
      }
    }
  }

  /** Below the quota, a run of requests stays below it. */
  lemma {:induction false} QuotaKept(n: Node, files: Files, es: seq<Event>)
    requires Sound(files) && AllReadable(es) && Sum(files) < n.limit
    requires forall i :: 0 <= i < |es| ==> LongEnough(es[i].request) && NotBlank(n.sha, es[i].request)
    ensures Sum(Run(n, files, es)) < n.limit
  {
    if es != [] {
      QuotaKept(n, files, es[..|es| - 1]);
      var e, before := es[|es| - 1], Run(n, files, es[..|es| - 1]);
      match e
      case Event(Store(data), env) => StoreKeepsQuota(n, before, data, env);
      case Event(DeleteEmail(target), env) => DeleteKeepsQuota(n, before, target, env);
    }
  }

  /** Serving this request never exceeds the quota, from any state below it. */
  ghost predicate AlwaysFits(sha: bytes -> bytes, e: Event)
    requires Readable(e.request)
  {
    forall limit: nat, files: Files :: FitsFrom(sha, e, limit, files)
  }

  ghost predicate FitsFrom(sha: bytes -> bytes, e: Event, limit: nat, files: Files)
    requires Readable(e.request)
  {
    Sound(files) && Sum(files) < limit ==> Sum(Next(Node(sha, limit), files, e)) < limit
  }

  /** The check against the quota looks at the packet sent, not at the one stored: a supported
      email packet is safe exactly if it is not shorter than the shortest one stored. */
  lemma FitsIff(sha: bytes -> bytes, s: bytes, env: Env)
    requires Readable(Store(Some(s))) && Supported(s) && s[0] == TYPE_E && env.opens
    ensures AlwaysFits(sha, Event(Store(Some(s)), env)) <==> |s| >= FIXED
  {
    var e := Event(Store(Some(s)), env);
    if |s| >= FIXED {
      forall limit: nat, files: Files
        ensures FitsFrom(sha, e, limit, files)
      {
        if Sound(files) && Sum(files) < limit {
          StoreKeepsQuota(Node(sha, limit), files, Some(s), env);
        }
      }
    } else {
      var files: Files, limit := map[], |s| + 1;
      StoredSize(sha, s, env.now);
      SumPut(files, NameOf(s), Stored(sha, s, env.now));
      assert files - {NameOf(s)} == files;
      assert !FitsFrom(sha, e, limit, files);
    }
  }

  /** A delete request is safe exactly if it does not name the zeros of an unread packet: the
      record of its removal takes one byte more than such a packet. */
  lemma DeleteFitsIff(sha: bytes -> bytes, key: bytes, da: bytes, env: Env)
    requires |key| == 32 && |da| == 32 && env.removes && env.opens
    ensures AlwaysFits(sha, Event(DeleteEmail(Some((key, da))), env)) <==> key != BLANK || sha(da) != BLANK
  {
    var e := Event(DeleteEmail(Some((key, da))), env);
    if key != BLANK || sha(da) != BLANK {
      forall limit: nat, files: Files
        ensures FitsFrom(sha, e, limit, files)
      {
        if Sound(files) && Sum(files) < limit {
          DeleteKeepsQuota(Node(sha, limit), files, Some((key, da)), env);
        }
      }
    } else {
      UnreadRecorded(sha, da, env);
    }
  }

  /** A store that holds nothing but a packet too short to be read. */
  lemma UnreadRecorded(sha: bytes -> bytes, da: bytes, env: Env)
    requires |da| == 32 && env.removes && env.opens && sha(da) == BLANK
    ensures !AlwaysFits(sha, Event(DeleteEmail(Some((BLANK, da))), env))
  {
    var k, rec, none: Files := Name(Email, BLANK, false), Name(Email, BLANK, true), map[];
    var s, record := EncryptedPacket.Serialize(DEFAULT), Record(BLANK, da, DEFAULT.time);
    var files: Files := none[k := s];
    assert Sound(files);
    assert files - {k} == none && none - {k} == none && none - {rec} == none;
    SumPut(none, k, s);
    SumPut(none, rec, record);
    assert Sum(files) == FIXED && |record| == 74;
    assert !FitsFrom(sha, Event(DeleteEmail(Some((BLANK, da))), env), 74, files);
  }
}

/** What a storing node answers and keeps, in terms of the bytes it is sent. */
module StorageLaws {
  import opened Num
  import opened PlainPacket
  import opened EncryptedPacket
  import opened Storage

  /** An index packet (type `I`), a contact (`C`) or an email (`E`), of version 4 or later. */
  predicate OfKind(s: bytes, kind: char)
  {
    |s| >= 34 && s[0] == kind as int && s[1] >= 4
  }

  /** An index that fits replaces whatever index of its key was there, unless that file is empty. */
  lemma IndexReplaced(n: Node, files: Files, s: bytes, env: Env)
    requires Sound(files) && OfKind(s, 'I') && Sum(files) + |s| < n.limit && env.opens
    ensures var k, e := Name(Index, s[2..34], false), Event(Store(Some(s)), env);
      Next(n, files, e) == (if k in files && files[k] == [] then files else files[k := s])
      && AfterStore(n.sha, n.limit, Sum(files), files, Some(s), env).0
        == (if k in files && files[k] == [] then GENERAL_ERROR else OK)
  {
  }

  /** The bytes that a stored packet is kept as. */
  function Kept(sha: bytes -> bytes, s: bytes, now: Time): bytes
    requires |s| >= 34 && (s[0] == 'E' as int ==> Sized(s))
  {
    if s[0] == 'E' as int then EncryptedPacket.Serialize(Load(sha, s).1.(time := now)) else s
  }

  /** What stands in the way of a packet of a known kind that fits: an email or contact of its key,
      or an empty index file. */
  predicate Duplicate(files: Files, s: bytes)
    requires |s| >= 34
  {
    || (OfKind(s, 'E') && Name(Email, s[2..34], false) in files)
    || (OfKind(s, 'C') && Name(Directory, s[2..34], false) in files)
  }

  predicate EmptyIndex(files: Files, s: bytes)
    requires |s| >= 34
  {
    OfKind(s, 'I') && Name(Index, s[2..34], false) in files && files[Name(Index, s[2..34], false)] == []
  }

  predicate Known(s: bytes)
  {
    OfKind(s, 'I') || OfKind(s, 'E') || OfKind(s, 'C')
  }

  /** The file a packet of a known kind goes to. */
  function FileOf(s: bytes): Name
    requires |s| >= 34
  {
    if s[0] == 'I' as int then Name(Index, s[2..34], false)
    else if s[0] == 'E' as int then Name(Email, s[2..34], false) else Name(Directory, s[2..34], false)
  }

  /** Every answer to a store request, and the files after it. */
  lemma StoreAnswers(n: Node, files: Files, s: bytes, env: Env)
    requires Sound(files) && |s| >= 34 && (s[0] == 'E' as int ==> Sized(s))
    ensures var r, k := AfterStore(n.sha, n.limit, Sum(files), files, Some(s), env), FileOf(s);
      var fits := Sum(files) + |s| < n.limit;
      && (r.0 == INVALID_PACKET <==> !Known(s))
      && (r.0 == NO_DISK_SPACE <==> Known(s) && !fits)
      && (r.0 == DUPLICATED_DATA <==> Known(s) && fits && Duplicate(files, s))
      && (r.0 == OK <==> Known(s) && fits && !Duplicate(files, s) && !EmptyIndex(files, s) && env.opens)
      && (r.0 == OK ==> r.1 == files[k := Kept(n.sha, s, env.now)])
      && (r.0 == GENERAL_ERROR ==> r.1 == files || (OfKind(s, 'I') && env.removes && r.1 == files - {k}))
      && (r.0 != OK && r.0 != GENERAL_ERROR ==> r.1 == files)
      && r.0 in {OK, INVALID_PACKET, NO_DISK_SPACE, DUPLICATED_DATA, GENERAL_ERROR}
  {
  }

  /** The packet read from the file has this key and the hash of this authorisation. */
  predicate Matches(sha: bytes -> bytes, s: bytes, key: bytes, da: bytes)
  {
    Sized(s) && Load(sha, s).1.deleteHash == sha(da) && Load(sha, s).1.key == key
  }

  /** Every answer to a request to delete an email. */
  lemma DeleteAnswers(n: Node, files: Files, key: bytes, da: bytes, env: Env)
    requires Sound(files) && |key| == 32 && |da| == 32
    ensures var r, k := AfterDelete(n.sha, files, Some((key, da)), env), Name(Email, key, false);
      && (r.0 == NO_DATA_FOUND <==> !Recorded(files, key, da) && k !in files)
      && (r.0 == INVALID_PACKET <==> !Recorded(files, key, da) && k in files && !Matches(n.sha, files[k], key, da))
      && (r.0 == GENERAL_ERROR <==>
          !Recorded(files, key, da) && k in files && Matches(n.sha, files[k], key, da) && !env.removes)
      && (r.0 == OK ==> Recorded(files, key, da) || k !in r.1)
      && (r.0 != OK ==> r.1 == files)
      && r.0 in {OK, NO_DATA_FOUND, INVALID_PACKET, GENERAL_ERROR}
  {
    if Name(Email, key, false) in files {
      assert SoundFile(Name(Email, key, false), files[Name(Email, key, false)]);
    }
  }

  /** A deletion record by its bytes; the time has its low byte first. */
  lemma RecordBytes(key: bytes, da: bytes, time: Time)
    requires |key| == 32 && |da| == 32
    ensures var s := Record(key, da, time);
      && |s| == 74 && s[0] == 'T' as int && s[1] == 4 && s[2..6] == [0, 0, 0, 1] && s[6..38] == key
      && s[38..70] == da && Le(s[70..]) == time
  {
    var s := Record(key, da, time);
    assert s[70..] == LeBytes(time, 4) && s[2..6] == [0, 0, 0, 1];
    TimeRead(time, 4);
  }

  lemma TimeRead(t: Time, n: nat)
    requires n == 4
    ensures Le(LeBytes(t, n)) == t
  {
    var two := 2;
    assert Pow(256, two) == 0x1_0000;
    PowAdd(256, two, two);
    LeOfLeBytes(t, n);
    ModUnique(t, 0x1_0000_0000, 0, t);
  }

  //
  // Runs
  //

  /** A request touches the file of the packet it stores, or the email and record it deletes. */
  lemma Touches(n: Node, files: Files, e: Event, k: Name)
    requires Sound(files) && Readable(e.request)
    requires e.request.Store? && e.request.data.Some? ==> k != FileOf(e.request.data.value)
    requires e.request.DeleteEmail? && e.request.target.Some? ==> k.dir != Email || k.key != e.request.target.value.0
    ensures k in files <==> k in Next(n, files, e)
    ensures k in files ==> Next(n, files, e)[k] == files[k]
  {
  }

  /** A contact once stored stays, byte for byte. */
  lemma {:induction false} ContactStays(n: Node, files: Files, es: seq<Event>, key: bytes)
    requires Sound(files) && AllReadable(es) && Name(Directory, key, false) in files
    ensures Name(Directory, key, false) in Run(n, files, es)
    ensures Run(n, files, es)[Name(Directory, key, false)] == files[Name(Directory, key, false)]
  {
    if es != [] {
      ContactStays(n, files, es[..|es| - 1], key);
      ContactStep(n, Run(n, files, es[..|es| - 1]), es[|es| - 1], key);
    }
  }

  lemma ContactStep(n: Node, files: Files, e: Event, key: bytes)
    requires Sound(files) && Readable(e.request) && Name(Directory, key, false) in files
    ensures var k := Name(Directory, key, false); k in Next(n, files, e) && Next(n, files, e)[k] == files[k]
  {
  }

  /** Request i of the run stored these bytes as the index of the key. */
  ghost predicate IndexStored(es: seq<Event>, i: nat, key: bytes, s: bytes)
  {
    i < |es| && es[i].request == Store(Some(s)) && OfKind(s, 'I') && s[2..34] == key
  }

  /** The index of a key is the one there at the start, or one that a request brought. */
  lemma {:induction false} IndexFrom(n: Node, files: Files, es: seq<Event>, key: bytes)
    requires Sound(files) && AllReadable(es) && Name(Index, key, false) in Run(n, files, es)
    ensures var k := Name(Index, key, false);
      || (k in files && Run(n, files, es)[k] == files[k])
      || exists i: nat :: IndexStored(es, i, key, Run(n, files, es)[k])
  {
    if es != [] {
      var before, last, k := es[..|es| - 1], |es| - 1, Name(Index, key, false);
      IndexStep(n, Run(n, files, before), es[last], key);
      if IndexStored(es, last, key, Run(n, files, es)[k]) {
      } else {
        IndexFrom(n, files, before, key);
        if i: nat :| IndexStored(before, i, key, Run(n, files, before)[k]) {
          assert IndexStored(es, i, key, Run(n, files, es)[k]);
        }
      }
    }
  }

  lemma IndexStep(n: Node, files: Files, e: Event, key: bytes)
    requires Sound(files) && Readable(e.request) && Name(Index, key, false) in Next(n, files, e)
    ensures var k, after := Name(Index, key, false), Next(n, files, e);
      || (k in files && after[k] == files[k])
      || (e.request == Store(Some(after[k])) && OfKind(after[k], 'I') && after[k][2..34] == key)
  {
  }

  /** No request of the run stores an index of this key. */
  ghost predicate NoIndex(es: seq<Event>, key: bytes)
  {
    forall i :: 0 <= i < |es| && es[i].request.Store? && es[i].request.data.Some? ==>
      var s := es[i].request.data.value; !(OfKind(s, 'I') && s[2..34] == key)
  }

  lemma {:induction false} IndexStays(n: Node, files: Files, es: seq<Event>, key: bytes)
    requires Sound(files) && AllReadable(es) && NoIndex(es, key) && Name(Index, key, false) in files
    ensures Name(Index, key, false) in Run(n, files, es)
    ensures Run(n, files, es)[Name(Index, key, false)] == files[Name(Index, key, false)]
  {
    if es != [] {
      var before, e := es[..|es| - 1], es[|es| - 1];
      IndexStays(n, files, before, key);
      IndexUntouched(n, Run(n, files, before), e, key);
    }
  }

  lemma IndexUntouched(n: Node, files: Files, e: Event, key: bytes)
    requires Sound(files) && Readable(e.request) && Name(Index, key, false) in files
    requires e.request.Store? && e.request.data.Some? ==>
      !(OfKind(e.request.data.value, 'I') && e.request.data.value[2..34] == key)
    ensures var k := Name(Index, key, false); k in Next(n, files, e) && Next(n, files, e)[k] == files[k]
  {
  }

  /** The index last stored is the one found, whatever else is requested afterwards. */
  lemma IndexLatest(n: Node, files: Files, s: bytes, env: Env, es: seq<Event>)
    requires Sound(files) && OfKind(s, 'I') && AllReadable(es) && NoIndex(es, s[2..34])
    requires AfterStore(n.sha, n.limit, Sum(files), files, Some(s), env).0 == OK
    ensures var k, after := Name(Index, s[2..34], false), Run(n, Next(n, files, Event(Store(Some(s)), env)), es);
      k in after && after[k] == s
  {
    StoreAnswers(n, files, s, env);
    IndexStays(n, Next(n, files, Event(Store(Some(s)), env)), es, s[2..34]);
  }
}

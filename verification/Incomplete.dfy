/** Receiving the parts of emails (src/EmailWorker.cpp): decrypted parts become files of the
    directory `incomplete`, named by DHT key, and the files are grouped by message id. */
module Incomplete {
  import opened Num
  import opened PlainPacket
  import opened Email
  import EncryptedPacket

  type Files = map<bytes, bytes>

  class Directory {
    var files: Files
  }

  //
  // From mails to files
  //

  /** The recipient's decryption, which gives nothing when it fails, and SHA-256. */
  datatype Reader = Reader(decrypt: bytes -> bytes, sha: bytes -> bytes)

  /** An encrypted packet, and whether the file for it can be opened. */
  datatype Mail = Mail(packet: EncryptedPacket.Packet, opens: bool)

  /** The part that a mail holds, if it decrypts, parses and matches its delete hash. */
  function Opened(e: Reader, m: EncryptedPacket.Packet): (r: Option<Plain>)
    ensures r.Some? ==> r.value.WellFormed()
  {
    if m.edata == [] || e.decrypt(m.edata) == [] then None
    else
      var p := Parse(e.decrypt(m.edata));
      if p == None || e.sha(p.value.da) != m.deleteHash then None else p
  }

  /** What `process_emails` writes for a mail. */
  function Accepted(e: Reader, m: Mail): (r: Option<Plain>)
    ensures r.Some? ==> r.value.WellFormed()
  {
    if m.opens then Opened(e, m.packet) else None
  }

  function Received(e: Reader, files: Files, mails: seq<Mail>): Files
  {
    if mails == [] then files
    else
      var before, m := Received(e, files, mails[..|mails| - 1]), mails[|mails| - 1];
      var p := Accepted(e, m);
      if p == None then before else before[m.packet.key := Serialize(p.value)]
  }

  /** `process_emails` */
  method ProcessEmails(e: Reader, dir: Directory, mails: seq<Mail>)
    modifies dir
    ensures dir.files == Received(e, old(dir.files), mails)
  {
    for i := 0 to |mails|
      invariant dir.files == Received(e, old(dir.files), mails[..i])
    {
      assert mails[..i + 1][..i] == mails[..i];
      var m := mails[i].packet;
      if m.edata == [] {
        continue;
      }
      var data := e.decrypt(m.edata);
      if data == [] {
        continue;
      }
      var plain := Parse(data);
      if plain == None || e.sha(plain.value.da) != m.deleteHash {
        continue;
      }
      if !mails[i].opens {
        continue;
      }
      dir.files := dir.files[m.key := Serialize(plain.value)];
    }
    assert mails[..|mails|] == mails;
  }

  /** No two accepted mails with one key hold different parts. */
  ghost predicate KeysAgree(e: Reader, mails: seq<Mail>)
  {
    forall i, j :: 0 <= i < |mails| && 0 <= j < |mails| && mails[i].packet.key == mails[j].packet.key
      && Accepted(e, mails[i]).Some? && Accepted(e, mails[j]).Some?
      ==> Accepted(e, mails[i]) == Accepted(e, mails[j])
  }

  /** Every accepted part is in a file, whatever came before or after it. */
  lemma {:induction false} ReceivedKeeps(e: Reader, files: Files, mails: seq<Mail>, i: nat)
    requires i < |mails| && KeysAgree(e, mails) && Accepted(e, mails[i]).Some?
    ensures var r, key := Received(e, files, mails), mails[i].packet.key;
      key in r && Parse(r[key]) == Accepted(e, mails[i])
  {
    var last := |mails| - 1;
    var p := Accepted(e, mails[i]);
    if i < last {
      var before := mails[..last];
      assert forall k :: 0 <= k < last ==> before[k] == mails[k];
      ReceivedKeeps(e, files, before, i);
      assert mails[last].packet.key == mails[i].packet.key && Accepted(e, mails[last]).Some? ==>
        Accepted(e, mails[last]) == p;
    }
    ParseOfSerialize(p.value);
  }

  /** A mail that does not decrypt to a part, or whose authorisation does not hash to its delete hash,
      leaves the directory as it was; any other that can be written leaves its part in its file. */
  lemma MailReceived(e: Reader, files: Files, m: Mail)
    ensures (m.packet.edata == [] || e.decrypt(m.packet.edata) == [] || Parse(e.decrypt(m.packet.edata)) == None
             || e.sha(Parse(e.decrypt(m.packet.edata)).value.da) != m.packet.deleteHash || !m.opens)
      ==> Received(e, files, [m]) == files
    ensures m.packet.edata != [] && Parse(e.decrypt(m.packet.edata)).Some? && m.opens
      && e.sha(Parse(e.decrypt(m.packet.edata)).value.da) == m.packet.deleteHash
      ==> Received(e, files, [m]) == files[m.packet.key := e.decrypt(m.packet.edata)]
  {
    assert [m][..0] == [];
    if Parse(e.decrypt(m.packet.edata)).Some? {
      SerializeOfParse(e.decrypt(m.packet.edata));
    }
  }

  /** Every file was there before or holds what some mail was accepted for. */
  lemma {:induction false} ReceivedFrom(e: Reader, files: Files, mails: seq<Mail>, k: bytes)
    requires k in Received(e, files, mails)
    ensures var s := Received(e, files, mails)[k];
      || (k in files && files[k] == s)
      || exists i :: 0 <= i < |mails| && Accepted(e, mails[i]) == Parse(s) && Parse(s).Some?
  {
    if mails != [] {
      var last := |mails| - 1;
      var before := mails[..last];
      var p := Accepted(e, mails[last]);
      if p.Some? && mails[last].packet.key == k {
        ParseOfSerialize(p.value);
      } else {
        ReceivedFrom(e, files, before, k);
        var s := Received(e, files, mails)[k];
        if i :| 0 <= i < |before| && Accepted(e, before[i]) == Parse(s) && Parse(s).Some? {
          assert mails[i] == before[i];
        }
      }
    }
  }

  //
  // From the network to mails
  //

  /** A buffer from the network, and whether the file for what it holds can be opened. */
  datatype Arrival = Arrival(wire: bytes, opens: bool)

  ghost predicate AllSized(arrivals: seq<Arrival>)
  {
    forall i :: 0 <= i < |arrivals| ==> EncryptedPacket.Sized(arrivals[i].wire)
  }

  /** The mails among what arrives: what `fromBuffer` accepts. */
  function Parsed(sha: bytes -> bytes, arrivals: seq<Arrival>): seq<Mail>
    requires AllSized(arrivals)
  {
    if arrivals == [] then []
    else
      var before, a := Parsed(sha, arrivals[..|arrivals| - 1]), arrivals[|arrivals| - 1];
      var (ok, p) := EncryptedPacket.Load(sha, a.wire);
      if ok then before + [Mail(p, a.opens)] else before
  }

  /** Mail m is what arrival a was accepted for. */
  ghost predicate Holds(sha: bytes -> bytes, a: Arrival, m: Mail)
  {
    EncryptedPacket.Sized(a.wire) && EncryptedPacket.Load(sha, a.wire) == (true, m.packet) && m.opens == a.opens
  }

  ghost predicate Sourced(sha: bytes -> bytes, arrivals: seq<Arrival>, m: Mail)
  {
    exists i :: 0 <= i < |arrivals| && Holds(sha, arrivals[i], m)
  }

  lemma {:induction false} ParsedHolds(sha: bytes -> bytes, arrivals: seq<Arrival>, m: Mail)
    requires AllSized(arrivals) && m in Parsed(sha, arrivals)
    ensures Sourced(sha, arrivals, m)
  {
    var last := |arrivals| - 1;
    var before := arrivals[..last];
    if m in Parsed(sha, before) {
      ParsedHolds(sha, before, m);
      var i :| 0 <= i < |before| && Holds(sha, before[i], m);
      assert Holds(sha, arrivals[i], m);
    } else {
      assert Holds(sha, arrivals[last], m);
    }
  }

  lemma {:induction false} ParsedHas(sha: bytes -> bytes, arrivals: seq<Arrival>, i: nat, m: Mail)
    requires AllSized(arrivals) && i < |arrivals| && Holds(sha, arrivals[i], m)
    ensures m in Parsed(sha, arrivals)
  {
    var last := |arrivals| - 1;
    if i < last {
      ParsedHas(sha, arrivals[..last], i, m);
    }
  }

  /** The hash tells apart the hashed parts of all that arrives. */
  ghost predicate NoCollision(sha: bytes -> bytes, arrivals: seq<Arrival>)
  {
    forall i, j :: 0 <= i < |arrivals| && 0 <= j < |arrivals| ==> Distinguishes(sha, arrivals[i].wire, arrivals[j].wire)
  }

  ghost predicate Distinguishes(sha: bytes -> bytes, a: bytes, b: bytes)
  {
    |a| >= 71 && |b| >= 71 && sha(a[71..]) == sha(b[71..]) ==> a[71..] == b[71..]
  }

  /** Length and payload are a function of the hashed part. */
  lemma SameHashedPart(sha: bytes -> bytes, a: bytes, b: bytes)
    requires EncryptedPacket.Sized(a) && EncryptedPacket.Sized(b)
    requires EncryptedPacket.Load(sha, a).0 && EncryptedPacket.Load(sha, b).0 && a[71..] == b[71..]
    ensures EncryptedPacket.Load(sha, a).1.edata == EncryptedPacket.Load(sha, b).1.edata
  {
    SliceOfTail(a, 71, 71, 73);
    SliceOfTail(b, 71, 71, 73);
    var n := 73 + Get16(a[71..73]);
    SliceOfTail(a, 71, 73, n);
    SliceOfTail(b, 71, 73, n);
  }

  lemma SliceOfTail(s: bytes, k: nat, i: nat, j: nat)
    requires k <= i <= j <= |s|
    ensures s[i..j] == s[k..][i - k..j - k]
  {
  }

  lemma SameKey(e: Reader, a: Arrival, b: Arrival, m: Mail, n: Mail)
    requires Holds(e.sha, a, m) && Holds(e.sha, b, n) && Distinguishes(e.sha, a.wire, b.wire)
    requires m.packet.key == n.packet.key && Accepted(e, m).Some? && Accepted(e, n).Some?
    ensures Accepted(e, m) == Accepted(e, n)
  {
    SameHashedPart(e.sha, a.wire, b.wire);
  }

  /** Mails with one key hold one part, because keys are hashes of payloads. */
  lemma HashedKeysAgree(e: Reader, arrivals: seq<Arrival>)
    requires AllSized(arrivals) && NoCollision(e.sha, arrivals)
    ensures KeysAgree(e, Parsed(e.sha, arrivals))
  {
    var mails := Parsed(e.sha, arrivals);
    forall i, j | 0 <= i < |mails| && 0 <= j < |mails| && mails[i].packet.key == mails[j].packet.key
      && Accepted(e, mails[i]).Some? && Accepted(e, mails[j]).Some?
      ensures Accepted(e, mails[i]) == Accepted(e, mails[j])
    {
      ParsedHolds(e.sha, arrivals, mails[i]);
      ParsedHolds(e.sha, arrivals, mails[j]);
      var a :| 0 <= a < |arrivals| && Holds(e.sha, arrivals[a], mails[i]);
      var b :| 0 <= b < |arrivals| && Holds(e.sha, arrivals[b], mails[j]);
      SameKey(e, arrivals[a], arrivals[b], mails[i], mails[j]);
    }
  }

  //
  // From files to messages
  //

  datatype Meta = Meta(count: nat, parts: map<nat, Part>)

  /** The packet in a file, if it belongs to a message. */
  function Carried(s: bytes): (r: Option<Plain>)
    ensures r.Some? ==> r.value.WellFormed() && r.value.mid != BLANK
  {
    var p := Parse(s);
    if p.Some? && p.value.mid == BLANK then None else p
  }

  predicate Malformed(s: bytes)
  {
    Parse(s).Some? && Parse(s).value.mid == BLANK
  }

  function WithPart(m: Meta, key: bytes, p: Plain): Meta
  {
    if p.id in m.parts then m else m.(parts := m.parts[p.id := Part(p.id, key, p.da)])
  }

  function Absorb(ms: map<bytes, Meta>, key: bytes, s: bytes): map<bytes, Meta>
  {
    var p := Carried(s);
    if p == None then ms
    else
      var m := if p.value.mid in ms then ms[p.value.mid] else Meta(p.value.count, map[]);
      ms[p.value.mid := WithPart(m, key, p.value)]
  }

  /** The messages found in the listed files, taken in order. */
  function Collect(files: Files, paths: seq<bytes>): map<bytes, Meta>
    requires forall k :: k in paths ==> k in files
  {
    if paths == [] then map[]
    else
      var last := paths[|paths| - 1];
      Absorb(Collect(files, paths[..|paths| - 1]), last, files[last])
  }

  /** The files left: packets without a message id are removed, where the file system lets it. */
  function Cleaned(files: Files, paths: seq<bytes>, removes: bytes -> bool): Files
  {
    map k | k in files && !(k in paths && Malformed(files[k]) && removes(k)) :: files[k]
  }

  /** The deletions asked of the DHT: the key and authorisation of each such packet. */
  function Deletions(files: Files, paths: seq<bytes>): seq<(bytes, bytes)>
    requires forall k :: k in paths ==> k in files
  {
    if paths == [] then []
    else
      var last := paths[|paths| - 1];
      Deletions(files, paths[..|paths| - 1]) + DeletionOf(last, files[last])
  }

  function DeletionOf(key: bytes, s: bytes): seq<(bytes, bytes)>
  {
    if Malformed(s) then [(key, Parse(s).value.da)] else []
  }

  /** Exactly the listed packets that parse and have 32 zeros for a message id are deleted in the DHT, by
      their own authorisation, and removed; every other file is left. */
  lemma {:induction false} Cleanup(files: Files, paths: seq<bytes>, removes: bytes -> bool, k: bytes)
    requires (forall j :: j in paths ==> j in files) && k in files
    ensures var p := Parse(files[k]);
      var blank := k in paths && p.Some? && p.value.mid == Zeros(32);
      && (forall da :: (k, da) in Deletions(files, paths) <==> blank && da == p.value.da)
      && (k in Cleaned(files, paths, removes) <==> !(blank && removes(k)))
      && (k in Cleaned(files, paths, removes) ==> Cleaned(files, paths, removes)[k] == files[k])
  {
    if paths != [] {
      var before, last := paths[..|paths| - 1], paths[|paths| - 1];
      Cleanup(files, before, removes, k);
      assert k in paths <==> k in before || k == last;
    }
  }

  ghost predicate Represents(metas: map<bytes, EmailMetadata>, ms: map<bytes, Meta>)
    reads metas.Values
  {
    && metas.Keys == ms.Keys
    && (forall m :: m in metas ==> metas[m].mid == m && Meta(metas[m].frCount, metas[m].parts) == ms[m])
    && (forall m, n :: m in metas && n in metas && m != n ==> metas[m] != metas[n])
  }

  /** The packet joins the metadata of its message, which is made if there is none. */
  method AddPacket(metas: map<bytes, EmailMetadata>, key: bytes, p: Plain, ghost ms: map<bytes, Meta>, ghost s: bytes)
    returns (metas': map<bytes, EmailMetadata>)
    requires Represents(metas, ms) && Carried(s) == Some(p)
    modifies metas.Values
    ensures Represents(metas', Absorb(ms, key, s)) && fresh(metas'.Values - metas.Values)
  {
    var metadata;
    metas' := metas;
    if p.mid in metas {
      metadata := metas[p.mid];
    } else {
      metadata := new EmailMetadata(p.mid, p.count);
      metas' := metas'[p.mid := metadata];
    }
    if p.id !in metadata.parts {
      metadata.AddPart(Part(p.id, key, p.da));
    }
  }

  /** One file of the listing. */
  method Look(dir: Directory, key: bytes, removes: bytes -> bool, metas: map<bytes, EmailMetadata>,
              ghost ms: map<bytes, Meta>)
    returns (metas': map<bytes, EmailMetadata>, asked: seq<(bytes, bytes)>)
    requires key in dir.files && Represents(metas, ms)
    modifies dir, metas.Values
    ensures Represents(metas', Absorb(ms, key, old(dir.files[key]))) && fresh(metas'.Values - metas.Values)
    ensures dir.files ==
      if Malformed(old(dir.files[key])) && removes(key) then old(dir.files) - {key} else old(dir.files)
    ensures asked == DeletionOf(key, old(dir.files[key]))
  {
    metas', asked := metas, [];
    var bytes := dir.files[key];
    if bytes == [] {
      return;
    }
    var packet := Parse(bytes);
    if packet == None {
      return;
    }
    if packet.value.mid == BLANK {
      asked := [(key, packet.value.da)];
      if removes(key) {
        dir.files := dir.files - {key};
      }
      return;
    }
    metas' := AddPacket(metas, key, packet.value, ms, bytes);
  }

  /** `get_incomplete`, for a listing in any order. */
  method GetIncomplete(dir: Directory, paths: seq<bytes>, removes: bytes -> bool)
    returns (metas: map<bytes, EmailMetadata>, asked: seq<(bytes, bytes)>)
    requires forall k :: k in paths ==> k in dir.files
    requires forall i, j :: 0 <= i < j < |paths| ==> paths[i] != paths[j]
    modifies dir
    ensures fresh(metas.Values) && Represents(metas, Collect(old(dir.files), paths))
    ensures dir.files == Cleaned(old(dir.files), paths, removes) && asked == Deletions(old(dir.files), paths)
  {
    metas, asked := map[], [];
    ghost var files := dir.files;
    assert Cleaned(files, [], removes) == files;
    for i := 0 to |paths|
      invariant fresh(metas.Values) && Represents(metas, Collect(files, paths[..i]))
      invariant dir.files == Cleaned(files, paths[..i], removes) && asked == Deletions(files, paths[..i])
    {
      assert paths[i] !in paths[..i];
      Listed(files, paths, i, removes);
      var more;
      metas, more := Look(dir, paths[i], removes, metas, Collect(files, paths[..i]));
      asked := asked + more;
    }
    assert paths[..|paths|] == paths;
  }

  /** One more file in the listing. */
  lemma Listed(files: Files, paths: seq<bytes>, i: nat, removes: bytes -> bool)
    requires i < |paths| && forall k :: k in paths ==> k in files
    ensures Collect(files, paths[..i + 1]) == Absorb(Collect(files, paths[..i]), paths[i], files[paths[i]])
    ensures Deletions(files, paths[..i + 1]) == Deletions(files, paths[..i]) + DeletionOf(paths[i], files[paths[i]])
    ensures var before := Cleaned(files, paths[..i], removes);
      Cleaned(files, paths[..i + 1], removes) ==
      if Malformed(files[paths[i]]) && removes(paths[i]) then before - {paths[i]} else before
  {
    assert paths[..i + 1][..i] == paths[..i];
    assert forall k :: k in paths[..i + 1] <==> k in paths[..i] || k == paths[i];
  }

  //
  // What the grouping finds
  //

  /** The file of key k is listed and carries a part of message mid. */
  ghost predicate CarriesMessage(files: Files, paths: seq<bytes>, mid: bytes, k: bytes)
  {
    k in paths && k in files && Carried(files[k]).Some? && Carried(files[k]).value.mid == mid
  }

  /** The file of key k carries part id of message mid. */
  ghost predicate Carries(files: Files, paths: seq<bytes>, mid: bytes, id: nat, k: bytes)
  {
    CarriesMessage(files, paths, mid, k) && Carried(files[k]).value.id == id
  }

  ghost predicate Arrived(files: Files, paths: seq<bytes>, mid: bytes, id: nat)
  {
    exists k :: Carries(files, paths, mid, id, k)
  }

  /** Part id of message mid is recorded, with a file that carries it. */
  ghost predicate Recorded(files: Files, paths: seq<bytes>, ms: map<bytes, Meta>, mid: bytes, id: nat)
  {
    && mid in ms && id in ms[mid].parts && ms[mid].parts[id].id == id
    && Carries(files, paths, mid, id, ms[mid].parts[id].key)
  }

  /** A part is recorded exactly if some listed file carries it, and each message has parts. */
  ghost predicate Complete(files: Files, paths: seq<bytes>, ms: map<bytes, Meta>)
  {
    && (forall mid, id: nat :: mid in ms && id in ms[mid].parts ==> Recorded(files, paths, ms, mid, id))
    && (forall mid, id: nat, k :: Carries(files, paths, mid, id, k) ==> Recorded(files, paths, ms, mid, id))
    && (forall mid :: mid in ms ==> exists k :: Founder(files, paths, ms, mid, k))
  }

  /** The file that gave the message its part count. */
  ghost predicate Founder(files: Files, paths: seq<bytes>, ms: map<bytes, Meta>, mid: bytes, k: bytes)
  {
    mid in ms && CarriesMessage(files, paths, mid, k) && Carried(files[k]).value.count == ms[mid].count
  }

  /** What was recorded or carried before is recorded after one more file. */
  lemma StillRecorded(files: Files, before: seq<bytes>, k: bytes, ms: map<bytes, Meta>, mid: bytes, id: nat)
    requires k in files && Recorded(files, before, ms, mid, id)
    ensures Recorded(files, before + [k], Absorb(ms, k, files[k]), mid, id)
  {
  }

  lemma NewlyRecorded(files: Files, before: seq<bytes>, k: bytes, ms: map<bytes, Meta>, mid: bytes, id: nat)
    requires k in files && Complete(files, before, ms) && Carries(files, before + [k], mid, id, k)
    ensures Recorded(files, before + [k], Absorb(ms, k, files[k]), mid, id)
  {
    if mid in ms && id in ms[mid].parts {
      StillRecorded(files, before, k, ms, mid, id);
    }
  }

  lemma AbsorbFounders(files: Files, before: seq<bytes>, k: bytes, ms: map<bytes, Meta>, mid: bytes)
    requires k in files && Complete(files, before, ms) && mid in Absorb(ms, k, files[k])
    ensures exists j :: Founder(files, before + [k], Absorb(ms, k, files[k]), mid, j)
  {
    var paths, after := before + [k], Absorb(ms, k, files[k]);
    if mid in ms {
      var j :| Founder(files, before, ms, mid, j);
      assert Founder(files, paths, after, mid, j);
    } else {
      assert Founder(files, paths, after, mid, k);
    }
  }

  lemma AbsorbCompletes(files: Files, before: seq<bytes>, k: bytes, ms: map<bytes, Meta>)
    requires k in files && Complete(files, before, ms)
    ensures Complete(files, before + [k], Absorb(ms, k, files[k]))
  {
    var paths, after := before + [k], Absorb(ms, k, files[k]);
    forall mid, id: nat | mid in after && id in after[mid].parts
      ensures Recorded(files, paths, after, mid, id)
    {
      if mid in ms && id in ms[mid].parts {
        StillRecorded(files, before, k, ms, mid, id);
      } else {
        NewlyRecorded(files, before, k, ms, mid, id);
      }
    }
    forall mid, id: nat, j | Carries(files, paths, mid, id, j)
      ensures Recorded(files, paths, after, mid, id)
    {
      if j in before {
        assert Carries(files, before, mid, id, j);
        StillRecorded(files, before, k, ms, mid, id);
      } else {
        NewlyRecorded(files, before, k, ms, mid, id);
      }
    }
    forall mid | mid in after
      ensures exists j :: Founder(files, paths, after, mid, j)
    {
      AbsorbFounders(files, before, k, ms, mid);
    }
  }

  lemma {:induction false} CollectCompletes(files: Files, paths: seq<bytes>)
    requires forall k :: k in paths ==> k in files
    ensures Complete(files, paths, Collect(files, paths))
  {
    if paths != [] {
      var before, last := paths[..|paths| - 1], paths[|paths| - 1];
      CollectCompletes(files, before);
      AbsorbCompletes(files, before, last, Collect(files, before));
      assert before + [last] == paths;
    }
  }

  /** Numbers below n make a set of n only if none is missing. */
  lemma {:induction false} Pigeonhole(s: set<nat>, n: nat)
    requires forall x :: x in s ==> x < n
    ensures |s| <= n && (|s| == n <==> forall x: nat :: x < n ==> x in s)
  {
    if n == 0 {
      assert s == {};
    } else {
      Pigeonhole(s - {n - 1}, n - 1);
    }
  }

  /** A set of n numbers has all those below n exactly if it has no other. */
  lemma Exchanged(s: set<nat>, n: nat)
    requires |s| == n
    ensures (forall x: nat :: x < n ==> x in s) <==> (forall x :: x in s ==> x < n)
  {
    if forall x :: x in s ==> x < n {
      Pigeonhole(s, n);
    }
    if forall x: nat :: x < n ==> x in s {
      var low := set x | x in s && x < n;
      Pigeonhole(low, n);
      assert s == low + (s - low) && |s - low| == 0;
    }
  }

  /** Place i of the listing has the first file that carries a part of the message. */
  ghost predicate First(files: Files, paths: seq<bytes>, mid: bytes, i: nat)
  {
    && i < |paths| && CarriesMessage(files, paths, mid, paths[i])
    && forall j :: 0 <= j < i ==> !CarriesMessage(files, paths, mid, paths[j])
  }

  /** The first file decides how many parts the message is said to have. */
  lemma {:induction false} FirstCounts(files: Files, paths: seq<bytes>, mid: bytes, i: nat)
    requires (forall k :: k in paths ==> k in files) && First(files, paths, mid, i)
    ensures mid in Collect(files, paths)
    ensures Collect(files, paths)[mid].count == Carried(files[paths[i]]).value.count
  {
    var before := paths[..|paths| - 1];
    if i < |before| {
      assert forall j :: 0 <= j <= i ==> before[j] == paths[j];
      FirstCounts(files, before, mid, i);
    } else {
      CollectCompletes(files, before);
      assert mid !in Collect(files, before);
    }
  }

  lemma CarriedIsFound(files: Files, paths: seq<bytes>, mid: bytes, k: bytes)
    requires forall k :: k in paths ==> k in files
    ensures CarriesMessage(files, paths, mid, k) ==> mid in Collect(files, paths)
  {
    CollectCompletes(files, paths);
    if CarriesMessage(files, paths, mid, k) {
      assert Carries(files, paths, mid, Carried(files[k]).value.id, k);
    }
  }

  /** Every message found has a first file. */
  lemma {:induction false} HasFirst(files: Files, paths: seq<bytes>, mid: bytes) returns (i: nat)
    requires (forall k :: k in paths ==> k in files) && mid in Collect(files, paths)
    ensures First(files, paths, mid, i)
  {
    var before := paths[..|paths| - 1];
    if mid in Collect(files, before) {
      i := HasFirst(files, before, mid);
      assert forall j :: 0 <= j <= i ==> before[j] == paths[j];
    } else {
      i := |before|;
      CollectCompletes(files, before);
      forall j | 0 <= j < i
        ensures CarriesMessage(files, paths, mid, paths[j]) ==> mid in Collect(files, before)
      {
        assert before[j] == paths[j];
        CarriedIsFound(files, before, mid, paths[j]);
      }
    }
  }

  /** The ids recorded are those that arrived. */
  lemma IdsArrived(files: Files, paths: seq<bytes>, mid: bytes, id: nat)
    requires (forall k :: k in paths ==> k in files) && mid in Collect(files, paths)
    ensures id in Collect(files, paths)[mid].parts <==> Arrived(files, paths, mid, id)
  {
    CollectCompletes(files, paths);
    var ms := Collect(files, paths);
    if id in ms[mid].parts {
      assert Recorded(files, paths, ms, mid, id);
    }
    if Arrived(files, paths, mid, id) {
      var k :| Carries(files, paths, mid, id, k);
      assert Recorded(files, paths, ms, mid, id);
    }
  }

  /** Every part that the message is said to have is in some file. */
  ghost predicate AllArrived(files: Files, paths: seq<bytes>, mid: bytes, n: nat)
  {
    forall id: nat :: id < n ==> Arrived(files, paths, mid, id)
  }

  /** No part beyond those is. */
  ghost predicate NoneBeyond(files: Files, paths: seq<bytes>, mid: bytes, n: nat)
  {
    forall id: nat :: Arrived(files, paths, mid, id) ==> id < n
  }

  /** A part that is missing makes `restore` fail. */
  lemma {:induction false} MissingFails(files: Files, parts: map<nat, Part>, n: nat, id: nat)
    requires id < n && id !in parts
    ensures Gathered(files, parts, n) == None
  {
    if id < n - 1 { MissingFails(files, parts, n - 1, id); }
  }

  /** What `is_full` reports, for packets that may disagree on the number of parts: it compares the
      number of ids that arrived with the count in the first file. This is right where no id beyond
      the count arrived; where one did, a message reported full lacks a part and is not restored,
      and one with all its parts is not reported full. */
  lemma FullReport(files: Files, paths: seq<bytes>, mid: bytes, i: nat, left: Files)
    requires (forall k :: k in paths ==> k in files) && First(files, paths, mid, i)
    ensures mid in Collect(files, paths)
    ensures var m, n := Collect(files, paths)[mid], Carried(files[paths[i]]).value.count;
      && m.count == n && (forall id :: id in m.parts.Keys <==> Arrived(files, paths, mid, id))
      && (NoneBeyond(files, paths, mid, n) ==> (|m.parts| == n <==> AllArrived(files, paths, mid, n)))
      && (|m.parts| == n ==> (AllArrived(files, paths, mid, n) <==> NoneBeyond(files, paths, mid, n)))
      && (!AllArrived(files, paths, mid, n) ==> Gathered(left, m.parts, n) == None)
  {
    FirstCounts(files, paths, mid, i);
    var m := Collect(files, paths)[mid];
    forall id: nat
      ensures id in m.parts.Keys <==> Arrived(files, paths, mid, id)
    {
      IdsArrived(files, paths, mid, id);
    }
    assert |m.parts| == |m.parts.Keys|;
    if NoneBeyond(files, paths, mid, m.count) {
      Pigeonhole(m.parts.Keys, m.count);
    }
    if |m.parts| == m.count {
      Exchanged(m.parts.Keys, m.count);
    }
    if !AllArrived(files, paths, mid, m.count) {
      var id: nat :| id < m.count && !Arrived(files, paths, mid, id);
      MissingFails(left, m.parts, m.count, id);
    }
  }

  /** Part 0 of two, and part 2 of three of the same message: reported full, and not restored. */
  lemma FalseFullExample(mid: bytes, da: bytes, a: bytes, b: bytes, left: Files)
    requires |mid| == 32 && mid != BLANK && |da| == 32 && a != b
    ensures var p, q := Plain(mid, da, 0, 2, 0, []), Plain(mid, da, 2, 3, 0, []);
      var ms := Collect(map[a := Serialize(p), b := Serialize(q)], [a, b]);
      mid in ms && ms[mid].count == |ms[mid].parts| == 2 && Gathered(left, ms[mid].parts, 2) == None
  {
    var p, q := Plain(mid, da, 0, 2, 0, []), Plain(mid, da, 2, 3, 0, []);
    ParseOfSerialize(p);
    ParseOfSerialize(q);
    TwoFiles(map[a := Serialize(p), b := Serialize(q)], a, b, p, q, left);
  }

  lemma TwoFiles(files: Files, a: bytes, b: bytes, p: Plain, q: Plain, left: Files)
    requires a != b && files.Keys == {a, b} && Carried(files[a]) == Some(p) && Carried(files[b]) == Some(q)
    requires p.mid == q.mid && p.id == 0 && p.count == 2 && q.id == 2
    ensures var ms := Collect(files, [a, b]);
      p.mid in ms && ms[p.mid].count == |ms[p.mid].parts| == 2 && Gathered(left, ms[p.mid].parts, 2) == None
  {
    var none: map<bytes, Meta> := map[];
    var one := Absorb(none, a, files[a]);
    var two := Absorb(one, b, files[b]);
    assert Collect(files, [a]) == one by { assert [a][..0] == []; }
    assert Collect(files, [a, b]) == two by { assert [a, b][..1] == [a]; }
    assert two[p.mid].parts.Keys == {0, 2};
    MissingFails(left, two[p.mid].parts, 2, 1);
  }

  /** Every listed packet of the message says it has n parts. */
  ghost predicate Agreed(files: Files, paths: seq<bytes>, mid: bytes, n: nat)
  {
    forall k :: CarriesMessage(files, paths, mid, k) ==> Carried(files[k]).value.count == n
  }

  /** Where the packets agree, the message is reported full exactly if every part is in some file. */
  lemma FullIffArrived(files: Files, paths: seq<bytes>, mid: bytes, n: nat)
    requires (forall k :: k in paths ==> k in files) && Agreed(files, paths, mid, n) && mid in Collect(files, paths)
    ensures var m := Collect(files, paths)[mid];
      m.count == n && (|m.parts| == m.count <==> AllArrived(files, paths, mid, n))
  {
    var i := HasFirst(files, paths, mid);
    FullReport(files, paths, mid, i, files);
  }

  //
  // The whole way
  //

  /** Every listed file that carries a part of the message carries one of those sent. */
  ghost predicate OnlySent(files: Files, paths: seq<bytes>, mid: bytes, sent: seq<Plain>)
  {
    forall k :: CarriesMessage(files, paths, mid, k) ==> Carried(files[k]).value in sent
  }

  lemma RecordedIsSent(files: Files, paths: seq<bytes>, removes: bytes -> bool, mid: bytes, sent: seq<Plain>, i: nat)
    requires (forall k :: k in paths ==> k in files) && OnlySent(files, paths, mid, sent) && i < |sent|
    requires (forall j :: 0 <= j < |sent| ==> sent[j].id == j) && Arrived(files, paths, mid, i)
    ensures var ms, left := Collect(files, paths), Cleaned(files, paths, removes);
      && mid in ms && i in ms[mid].parts && ms[mid].parts[i].key in left
      && Parse(left[ms[mid].parts[i].key]) == Some(sent[i])
  {
    CollectCompletes(files, paths);
    var k :| Carries(files, paths, mid, i, k);
    assert Recorded(files, paths, Collect(files, paths), mid, i);
  }

  lemma Whole(full: bytes)
    ensures full[..Least(Offset(PartCount(full)), |full|)] == full
  {
  }

  /** An email split into parts, of which copies are found among other files: it is reported
      full exactly if every part is there, and then what is restored is the email. */
  lemma Reassembly(email: bytes, mid: bytes, draw: nat -> bytes, files: Files, paths: seq<bytes>,
                   removes: bytes -> bool, c: Codecs)
    requires Splittable([0] + email) && |mid| == 32 && forall i {:trigger draw(i)} :: |draw(i)| == 32
    requires (forall k :: k in paths ==> k in files) && OnlySent(files, paths, mid, PartsOf([0] + email, mid, draw))
    requires mid in Collect(files, paths)
    ensures var m, n := Collect(files, paths)[mid], PartCount([0] + email);
      && m.count == n
      && (|m.parts| == m.count <==> AllArrived(files, paths, mid, n))
      && (|m.parts| == m.count ==>
           && Gathered(Cleaned(files, paths, removes), m.parts, n) == Some([0] + email)
           && Decompressed(c, [0] + email) == email)
  {
    var full := [0] + email;
    var sent, n, left := PartsOf(full, mid, draw), PartCount(full), Cleaned(files, paths, removes);
    PartsFit(full, mid, draw);
    FullIffArrived(files, paths, mid, n);
    var parts := Collect(files, paths)[mid].parts;
    if |parts| == n {
      forall i | 0 <= i < n
        ensures i in parts && parts[i].key in left && Parse(left[parts[i].key]) == Some(sent[i])
      {
        RecordedIsSent(files, paths, removes, mid, sent, i);
      }
      GatheredParts(left, parts, full, mid, draw, n);
      Whole(full);
    }
  }

  /** Mail m is an encryption of part p. */
  ghost predicate Encrypts(e: Reader, m: EncryptedPacket.Packet, p: Plain)
  {
    p.Fits() && m.edata != [] && e.decrypt(m.edata) == Serialize(p) && m.deleteHash == e.sha(p.da)
  }

  lemma EncryptedOpens(e: Reader, m: EncryptedPacket.Packet, p: Plain)
    requires Encrypts(e, m, p) && p.WellFormed()
    ensures Opened(e, m) == Some(p)
  {
    ParseOfSerialize(p);
  }

  /** A part encrypted and carried over any number of storing nodes is a mail that opens to it. */
  lemma TravelledPart(e: Reader, cipher: bytes -> bytes, alg: byte, p: Plain, clocks: seq<EncryptedPacket.Time>)
    requires Hashes(e.sha) && p.WellFormed()
    requires e.decrypt(cipher(Serialize(p))) == Serialize(p) && 32 <= |cipher(Serialize(p))| < 0x1_0000
    ensures var sent := EncryptedPacket.Serialize(Encryption(e.sha, cipher, alg, p));
      && EncryptedPacket.Sized(sent)
      && var (ok, m) := EncryptedPacket.Load(e.sha, EncryptedPacket.Hops(e.sha, sent, clocks));
         ok && Encrypts(e, m, p)
  {
    EncryptedPacket.PartTravels(e.sha, cipher(Serialize(p)), p.da, alg, clocks);
  }

  /** Whatever else arrives, or was there before, does not pass itself off as a part of the
      message: what carries its id is one of the parts sent. */
  ghost predicate NoForgery(e: Reader, stored: Files, mails: seq<Mail>, mid: bytes, sent: seq<Plain>)
  {
    && (forall k :: k in stored && Carried(stored[k]).Some? && Carried(stored[k]).value.mid == mid ==>
          Carried(stored[k]).value in sent)
    && (forall i :: 0 <= i < |mails| && Accepted(e, mails[i]).Some? && Accepted(e, mails[i]).value.mid == mid ==>
          Accepted(e, mails[i]).value in sent)
  }

  lemma ReceivedOnlySent(e: Reader, stored: Files, mails: seq<Mail>, paths: seq<bytes>, mid: bytes, sent: seq<Plain>)
    requires NoForgery(e, stored, mails, mid, sent)
    ensures OnlySent(Received(e, stored, mails), paths, mid, sent)
  {
    var files := Received(e, stored, mails);
    forall k | CarriesMessage(files, paths, mid, k)
      ensures Carried(files[k]).value in sent
    {
      ReceivedFrom(e, stored, mails, k);
    }
  }

  /** Every part, encrypted and carried over some storing nodes, is among what arrives, and the
      file for it can be opened. */
  ghost predicate AllArrive(e: Reader, cipher: bytes -> bytes, alg: byte, sent: seq<Plain>, arrivals: seq<Arrival>)
  {
    forall i :: 0 <= i < |sent| ==> exists j :: 0 <= j < |arrivals| && Delivers(e, cipher, alg, sent[i], arrivals[j])
  }

  ghost predicate Delivers(e: Reader, cipher: bytes -> bytes, alg: byte, p: Plain, a: Arrival)
  {
    && p.Fits() && a.opens && Encryption(e.sha, cipher, alg, p).Fits()
    && var sent := EncryptedPacket.Serialize(Encryption(e.sha, cipher, alg, p));
       EncryptedPacket.Sized(sent) && exists clocks: seq<EncryptedPacket.Time> ::
         a.wire == EncryptedPacket.Hops(e.sha, sent, clocks)
  }

  /** Decryption undoes the cipher on p, and the packet survives hops. */
  ghost predicate Travels(e: Reader, cipher: bytes -> bytes, p: Plain)
  {
    p.Fits() && e.decrypt(cipher(Serialize(p))) == Serialize(p) && 32 <= |cipher(Serialize(p))| < 0x1_0000
  }

  lemma PartArrives(e: Reader, cipher: bytes -> bytes, alg: byte, p: Plain, arrivals: seq<Arrival>, j: nat,
                    stored: Files, paths: seq<bytes>)
    requires Hashes(e.sha) && p.WellFormed() && p.mid != BLANK && Travels(e, cipher, p)
    requires AllSized(arrivals) && NoCollision(e.sha, arrivals)
    requires j < |arrivals| && Delivers(e, cipher, alg, p, arrivals[j])
    requires forall k :: k in Received(e, stored, Parsed(e.sha, arrivals)) ==> k in paths
    ensures Arrived(Received(e, stored, Parsed(e.sha, arrivals)), paths, p.mid, p.id)
  {
    var sent, mails := EncryptedPacket.Serialize(Encryption(e.sha, cipher, alg, p)), Parsed(e.sha, arrivals);
    var clocks: seq<EncryptedPacket.Time> :| arrivals[j].wire == EncryptedPacket.Hops(e.sha, sent, clocks);
    TravelledPart(e, cipher, alg, p, clocks);
    var m := Mail(EncryptedPacket.Load(e.sha, arrivals[j].wire).1, true);
    EncryptedOpens(e, m.packet, p);
    ParsedHas(e.sha, arrivals, j, m);
    var i :| 0 <= i < |mails| && mails[i] == m;
    HashedKeysAgree(e, arrivals);
    ReceivedKeeps(e, stored, mails, i);
    assert Carries(Received(e, stored, mails), paths, p.mid, p.id, m.packet.key);
  }

  /** From sending to reading: an email is split, each part is encrypted and carried over storing
      nodes, and arrives among anything else, in any order and any number of copies; the files it
      leaves, listed in any order, give back the email. */
  lemma EndToEnd(e: Reader, email: bytes, mid: bytes, draw: nat -> bytes, cipher: bytes -> bytes, alg: byte,
                 arrivals: seq<Arrival>, stored: Files, paths: seq<bytes>, removes: bytes -> bool, c: Codecs)
    requires Splittable([0] + email) && |mid| == 32 && mid != BLANK && forall i {:trigger draw(i)} :: |draw(i)| == 32
    requires Hashes(e.sha) && AllSized(arrivals) && NoCollision(e.sha, arrivals)
    requires forall i :: 0 <= i < PartCount([0] + email) ==> Travels(e, cipher, PartsOf([0] + email, mid, draw)[i])
    requires AllArrive(e, cipher, alg, PartsOf([0] + email, mid, draw), arrivals)
    requires NoForgery(e, stored, Parsed(e.sha, arrivals), mid, PartsOf([0] + email, mid, draw))
    requires forall k :: k in paths <==> k in Received(e, stored, Parsed(e.sha, arrivals))
    ensures var files, n := Received(e, stored, Parsed(e.sha, arrivals)), PartCount([0] + email);
      && mid in Collect(files, paths)
      && |Collect(files, paths)[mid].parts| == Collect(files, paths)[mid].count == n
      && Gathered(Cleaned(files, paths, removes), Collect(files, paths)[mid].parts, n) == Some([0] + email)
      && Decompressed(c, [0] + email) == email
  {
    var full := [0] + email;
    var mails, sent := Parsed(e.sha, arrivals), PartsOf(full, mid, draw);
    var files := Received(e, stored, mails);
    PartsFit(full, mid, draw);
    forall i: nat | i < PartCount(full)
      ensures Arrived(files, paths, mid, i)
    {
      assert sent[i] in sent;
      var j :| 0 <= j < |arrivals| && Delivers(e, cipher, alg, sent[i], arrivals[j]);
      PartArrives(e, cipher, alg, sent[i], arrivals, j, stored, paths);
    }
    ReceivedOnlySent(e, stored, mails, paths, mid, sent);
    CollectCompletes(files, paths);
    assert Arrived(files, paths, mid, 0);
    Reassembly(email, mid, draw, files, paths, removes, c);
  }
}

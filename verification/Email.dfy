/** Splitting an email into parts and putting it together again (src/Email.cpp). Compression is
    the identity with a marker byte in front; the LZMA and ZLIB decoders are parameters. */
module Email {
  import opened Num
  import opened PlainPacket
  import EncryptedPacket

  /** `EmailMetadata::Part`, without the delivery flags. */
  datatype Part = Part(id: nat, key: bytes, da: bytes)

  class EmailMetadata {
    var mid: bytes
    var frCount: nat
    var parts: map<nat, Part>

    constructor (mid: bytes, frCount: nat)
      ensures this.mid == mid && this.frCount == frCount && parts == map[]
    {
      this.mid, this.frCount, parts := mid, frCount, map[];
    }

    method AddPart(p: Part)
      modifies this`parts
      ensures parts == if p.id in old(parts) then old(parts) else old(parts)[p.id := p]
    {
      if p.id !in parts {
        parts := parts[p.id := p];
      }
    }

    predicate IsFull()
      reads this
    {
      |parts| == frCount
    }
  }

  //
  // Parts
  //

  /** `MAX_DATAGRAM_LEN - PACKET_MAX_OVERHEAD` */
  const PART: nat := 28768

  function FullParts(size: nat): nat
  {
    size / 28768
  }

  function Rest(size: nat): nat
  {
    size % 28768
  }

  /** Where part i starts. */
  function Offset(i: nat): (n: nat)
    ensures i > 0 ==> n >= PART
  {
    28768 * i
  }

  function Least(a: nat, b: nat): nat
  {
    if a < b then a else b
  }

  /** Part i of n in its packet. */
  function PartOf(full: bytes, mid: bytes, draw: nat -> bytes, n: nat, i: nat): Plain
    requires Offset(i) <= |full|
  {
    var data := full[Offset(i)..Least(Offset(i + 1), |full|)];
    Plain(mid, draw(i), i, n, |data|, data)
  }

  /** How many parts a splittable email has. */
  function PartCount(full: bytes): nat
  {
    FullParts(|full|) + 1
  }

  function PartsOf(full: bytes, mid: bytes, draw: nat -> bytes): (ps: seq<Plain>)
    ensures |ps| == PartCount(full)
  {
    seq(PartCount(full), i requires 0 <= i < PartCount(full) => PartOf(full, mid, draw, PartCount(full), i))
  }

  /** The length is no multiple of the part size, and the part count fits 16 bits. */
  predicate Splittable(full: bytes)
  {
    Rest(|full|) != 0 && FullParts(|full|) < 0xffff
  }

  /** The parts by their bytes: part i has the 28768 bytes from 28768 i on, or what is left of them. */
  lemma PartIs(full: bytes, mid: bytes, draw: nat -> bytes, i: nat)
    requires i <= |full| / 28768
    ensures var p, n := PartsOf(full, mid, draw)[i], |full| / 28768 + 1;
      && p.id == i && p.count == n && p.mid == mid && p.da == draw(i) && p.length == |p.data|
      && p.data == full[28768 * i..][..|p.data|]
      && |p.data| == if i < n - 1 then 28768 else |full| % 28768
  {
    var p := PartsOf(full, mid, draw)[i];
    assert p.data == full[28768 * i..28768 * i + |p.data|];
  }

  /** When an email is split. */
  lemma SplittableIff(full: bytes)
    ensures Splittable(full) <==> |full| % 28768 != 0 && |full| / 28768 + 1 < 0x1_0000
  {
  }

  /** One byte short of a full part, an email cannot be split: the marker byte fills the part. */
  lemma FullPartFails(email: bytes)
    requires |email| == 28767
    ensures !Splittable([0] + email)
  {
  }

  /** `split` cut out the data; ids and authorisations are still to come. */
  function Cut(full: bytes, mid: bytes, i: nat): Plain
    requires Offset(i) <= |full|
  {
    var data := full[Offset(i)..Least(Offset(i + 1), |full|)];
    Plain(mid, BLANK, 0, 0, |data|, data)
  }

  ghost predicate AreCut(full: bytes, mid: bytes, ps: seq<Plain>)
  {
    forall i :: 0 <= i < |ps| ==> Offset(i) <= |full| && ps[i] == Cut(full, mid, i)
  }

  lemma AppendCut(full: bytes, mid: bytes, ps: seq<Plain>, offset: nat, data: bytes)
    requires AreCut(full, mid, ps) && offset == Offset(|ps|) && offset + |data| <= |full|
    requires offset + |data| == Least(Offset(|ps| + 1), |full|) && data == full[offset..offset + |data|]
    ensures AreCut(full, mid, ps + [Plain(mid, BLANK, 0, 0, |data|, data)])
  {
    assert Plain(mid, BLANK, 0, 0, |data|, data) == Cut(full, mid, |ps|);
  }

  /** The metadata of part i, over what was there. */
  function Noted(parts: map<nat, Part>, draw: nat -> bytes, i: nat): Part
  {
    if i in parts then parts[i].(id := i, da := draw(i)) else Part(i, BLANK, draw(i))
  }

  /** The packet a part is encrypted into. */
  function Encryption(sha: bytes -> bytes, cipher: bytes -> bytes, alg: byte, p: Plain): EncryptedPacket.Packet
    requires p.Fits()
  {
    EncryptedPacket.Built(sha, cipher(Serialize(p)), p.da, alg)
  }

  /** The part can be encrypted and is known to the metadata. */
  predicate Ready(cipher: bytes -> bytes, hasSender: bool, p: Plain, i: nat, parts: map<nat, Part>)
    requires p.Fits()
  {
    hasSender && cipher(Serialize(p)) != [] && i in parts
  }

  ghost predicate AreEncrypted(sha: bytes -> bytes, cipher: bytes -> bytes, alg: byte, ps: seq<Plain>,
                               es: seq<EncryptedPacket.Packet>)
  {
    |es| <= |ps| && forall i :: 0 <= i < |es| ==> ps[i].Fits() && es[i] == Encryption(sha, cipher, alg, ps[i])
  }

  /** The metadata have got the keys of these packets, and are otherwise as before. */
  ghost predicate Keyed(before: map<nat, Part>, after: map<nat, Part>, es: seq<EncryptedPacket.Packet>)
  {
    && after.Keys == before.Keys
    && forall i :: i in before ==> after[i] == if i < |es| then before[i].(key := es[i].key) else before[i]
  }

  /** The packet made for a part, if the cipher gives something. */
  function Attempt(sha: bytes -> bytes, cipher: bytes -> bytes, alg: byte, hasSender: bool,
                   p: Plain): seq<EncryptedPacket.Packet>
    requires p.Fits()
  {
    if hasSender && cipher(Serialize(p)) != [] then [Encryption(sha, cipher, alg, p)] else []
  }

  /** Part i is the first that fails: the packets before it are made and their keys recorded, and
      its own is made if only the metadata lacks it. */
  ghost predicate FailsAt(sha: bytes -> bytes, cipher: bytes -> bytes, alg: byte, hasSender: bool, ps: seq<Plain>,
                          es: seq<EncryptedPacket.Packet>, before: map<nat, Part>, after: map<nat, Part>, i: nat)
  {
    && i < |ps| && i <= |es| && (forall k :: 0 <= k <= i ==> ps[k].Fits())
    && (forall k :: 0 <= k < i ==> Ready(cipher, hasSender, ps[k], k, before))
    && !Ready(cipher, hasSender, ps[i], i, before)
    && AreEncrypted(sha, cipher, alg, ps, es[..i]) && es[i..] == Attempt(sha, cipher, alg, hasSender, ps[i])
    && Keyed(before, after, es[..i])
  }

  ghost predicate Fails(sha: bytes -> bytes, cipher: bytes -> bytes, alg: byte, hasSender: bool, ps: seq<Plain>,
                        es: seq<EncryptedPacket.Packet>, before: map<nat, Part>, after: map<nat, Part>)
  {
    exists i: nat :: FailsAt(sha, cipher, alg, hasSender, ps, es, before, after, i)
  }

  lemma LastAttempt(sha: bytes -> bytes, cipher: bytes -> bytes, alg: byte, hasSender: bool, ps: seq<Plain>,
                    es: seq<EncryptedPacket.Packet>, before: map<nat, Part>, after: map<nat, Part>)
    requires |es| < |ps| && (forall k :: 0 <= k <= |es| ==> ps[k].Fits())
    requires forall k :: 0 <= k < |es| ==> Ready(cipher, hasSender, ps[k], k, before)
    requires !Ready(cipher, hasSender, ps[|es|], |es|, before)
    requires AreEncrypted(sha, cipher, alg, ps, es) && Keyed(before, after, es)
    ensures var all := es + Attempt(sha, cipher, alg, hasSender, ps[|es|]);
      FailsAt(sha, cipher, alg, hasSender, ps, all, before, after, |es|)
  {
    var all := es + Attempt(sha, cipher, alg, hasSender, ps[|es|]);
    assert all[..|es|] == es && all[|es|..] == Attempt(sha, cipher, alg, hasSender, ps[|es|]);
  }

  lemma OneMoreEncrypted(sha: bytes -> bytes, cipher: bytes -> bytes, alg: byte, ps: seq<Plain>,
                         es: seq<EncryptedPacket.Packet>,
                         before: map<nat, Part>, after: map<nat, Part>)
    requires AreEncrypted(sha, cipher, alg, ps, es) && Keyed(before, after, es) && |es| < |ps| && ps[|es|].Fits()
    ensures AreEncrypted(sha, cipher, alg, ps, es + [Encryption(sha, cipher, alg, ps[|es|])])
    ensures |es| in before ==>
      var e := Encryption(sha, cipher, alg, ps[|es|]);
      Keyed(before, after[|es| := after[|es|].(key := e.key)], es + [e])
  {
  }

  class Email {
    var fullBytes: bytes
    var skip: bool
    var splitted: bool
    var plainParts: seq<Plain>
    var encParts: seq<EncryptedPacket.Packet>
    var encrypted: bool
    const metadata: EmailMetadata

    ghost predicate Valid()
      reads this
    {
      !splitted && !skip ==> plainParts == []
    }

    constructor (full: bytes, metadata: EmailMetadata)
      ensures Valid() && fullBytes == full && !skip && !splitted && this.metadata == metadata
      ensures encParts == [] && !encrypted
    {
      fullBytes, skip, splitted, plainParts, this.metadata := full, false, false, [], metadata;
      encParts, encrypted := [], false;
    }

    /** `compress (UNCOMPRESSED)`. */
    method Compress()
      requires Valid()
      modifies this`fullBytes
      ensures Valid() && fullBytes == [0] + old(fullBytes)
    {
      fullBytes := [0] + fullBytes;
    }

    /** The loop that cuts full parts, then the remainder. */
    method CutParts() returns (offset: nat)
      requires plainParts == []
      modifies this`plainParts
      ensures offset == Offset(FullParts(|fullBytes|))
      ensures |plainParts| == PartCount(fullBytes) && AreCut(fullBytes, metadata.mid, plainParts)
    {
      var remainder := Rest(|fullBytes|);
      offset := 0;
      while offset + remainder < |fullBytes|
        invariant offset == Offset(|plainParts|) && |plainParts| <= FullParts(|fullBytes|)
        invariant AreCut(fullBytes, metadata.mid, plainParts)
      {
        CutPart(offset, PART);
        offset := offset + PART;
      }
      CutPart(offset, remainder);
    }

    method CutPart(offset: nat, size: nat)
      requires AreCut(fullBytes, metadata.mid, plainParts) && offset == Offset(|plainParts|)
      requires offset + size <= |fullBytes|
      requires offset + size == Least(Offset(|plainParts| + 1), |fullBytes|)
      modifies this`plainParts
      ensures AreCut(fullBytes, metadata.mid, plainParts) && |plainParts| == old(|plainParts|) + 1
    {
      var data := fullBytes[offset..offset + size];
      AppendCut(fullBytes, metadata.mid, plainParts, offset, data);
      plainParts := plainParts + [Plain(metadata.mid, BLANK, 0, 0, |data|, data)];
    }

    /** Part i gets its id, the count and an authorisation, here and in the metadata. */
    method Number(i: nat, draw: nat -> bytes)
      requires i < |plainParts| && plainParts[i].da == BLANK
      modifies this`plainParts, metadata`parts
      ensures plainParts ==
        var p := old(plainParts[i]);
        old(plainParts)[i := p.(da := draw(i), id := i, count := metadata.frCount, length := |p.data|)]
      ensures metadata.parts == old(metadata.parts)[i := Noted(old(metadata.parts), draw, i)]
    {
      var p := plainParts[i];
      if p.da == BLANK {
        p := p.(da := draw(i));
      }
      if i in metadata.parts {
        metadata.parts := metadata.parts[i := metadata.parts[i].(id := i, da := p.da)];
      } else {
        metadata.parts := metadata.parts[i := Part(i, BLANK, p.da)];
      }
      plainParts := plainParts[i := p.(id := i, count := metadata.frCount, length := |p.data|)];
    }

    method NumberAll(draw: nat -> bytes)
      requires metadata.frCount == |plainParts| == PartCount(fullBytes)
      requires AreCut(fullBytes, metadata.mid, plainParts)
      modifies this`plainParts, metadata`parts
      ensures plainParts == PartsOf(fullBytes, metadata.mid, draw)
      ensures metadata.parts == AllNoted(old(metadata.parts), draw, metadata.frCount)
    {
      for i := 0 to metadata.frCount
        invariant |plainParts| == PartCount(fullBytes)
        invariant forall k :: 0 <= k < i ==> plainParts[k] == PartOf(fullBytes, metadata.mid, draw, |plainParts|, k)
        invariant forall k :: i <= k < |plainParts| ==> plainParts[k] == Cut(fullBytes, metadata.mid, k)
        invariant metadata.parts == AllNoted(old(metadata.parts), draw, i)
      {
        Number(i, draw);
      }
    }

    /** `split`. Every draw of `random_cid` is a value of `draw`. */
    method Split(draw: nat -> bytes) returns (ok: bool)
      requires Valid()
      modifies this, metadata
      ensures Valid() && fullBytes == old(fullBytes) && metadata.mid == old(metadata.mid)
      ensures old(skip) || old(splitted) ==>
        ok == !old(skip) && skip == old(skip) && splitted == old(splitted) && plainParts == old(plainParts)
        && metadata.frCount == old(metadata.frCount) && metadata.parts == old(metadata.parts)
      ensures !old(skip) && !old(splitted) ==>
        && ok == splitted == !skip == Splittable(fullBytes)
        && metadata.frCount == FrCount(fullBytes)
        && (ok ==> plainParts == PartsOf(fullBytes, metadata.mid, draw))
        && metadata.parts == if ok then AllNoted(old(metadata.parts), draw, FrCount(fullBytes)) else old(metadata.parts)
    {
      if skip {
        return false;
      }
      if splitted {
        return true;
      }
      metadata.frCount := FrCount(fullBytes);
      var offset := CutParts();
      // The check for a loop that stopped short never fails.
      assert offset + Rest(|fullBytes|) == |fullBytes|;
      if |plainParts| != metadata.frCount {
        skip := true;
        return false;
      }
      NumberAll(draw);
      splitted := true;
      return true;
    }

    /** One turn of `encrypt`. */
    method EncryptPart(i: nat, sha: bytes -> bytes, cipher: bytes -> bytes, alg: byte, hasSender: bool)
      returns (ok: bool)
      requires i < |plainParts| && plainParts[i].Fits()
      modifies this`encParts, metadata`parts
      ensures ok <==> Ready(cipher, hasSender, plainParts[i], i, old(metadata.parts))
      ensures ok ==> encParts == old(encParts) + [Encryption(sha, cipher, alg, plainParts[i])]
      ensures ok ==>
        var key := Encryption(sha, cipher, alg, plainParts[i]).key;
        metadata.parts == old(metadata.parts)[i := old(metadata.parts[i]).(key := key)]
      ensures !ok ==> metadata.parts == old(metadata.parts)
      ensures !ok ==> encParts == old(encParts) + Attempt(sha, cipher, alg, hasSender, plainParts[i])
    {
      var deleteHash := sha(plainParts[i].da);
      var part := Serialize(plainParts[i]);
      if !hasSender {
        return false;
      }
      var edata := cipher(part);
      if edata == [] {
        return false;
      }
      var length := |edata| % 0x1_0000;
      var key := sha(Put16(length) + edata);
      encParts := encParts + [EncryptedPacket.Packet(VERSION, key, 0, deleteHash, alg, length, edata)];
      if i !in metadata.parts {
        return false;
      }
      metadata.parts := metadata.parts[i := metadata.parts[i].(key := key)];
      return true;
    }

    predicate Encryptable(cipher: bytes -> bytes, hasSender: bool)
      reads this, metadata
      requires metadata.frCount <= |plainParts| && forall i :: 0 <= i < |plainParts| ==> plainParts[i].Fits()
    {
      forall i :: 0 <= i < metadata.frCount ==> Ready(cipher, hasSender, plainParts[i], i, metadata.parts)
    }

    /** The loop of `encrypt`, which stops at the first part that fails. */
    method EncryptAll(sha: bytes -> bytes, cipher: bytes -> bytes, alg: byte, hasSender: bool) returns (ok: bool)
      requires metadata.frCount <= |plainParts| && forall i :: 0 <= i < |plainParts| ==> plainParts[i].Fits()
      requires encParts == []
      modifies this`encParts, metadata`parts
      ensures ok == old(Encryptable(cipher, hasSender))
      ensures ok ==> |encParts| == metadata.frCount && AreEncrypted(sha, cipher, alg, plainParts, encParts)
      ensures ok ==> Keyed(old(metadata.parts), metadata.parts, encParts)
      ensures !ok ==> Fails(sha, cipher, alg, hasSender, plainParts, encParts, old(metadata.parts), metadata.parts)
    {
      for i := 0 to metadata.frCount
        invariant |encParts| == i && AreEncrypted(sha, cipher, alg, plainParts, encParts)
        invariant Keyed(old(metadata.parts), metadata.parts, encParts)
        invariant forall k :: 0 <= k < i ==> Ready(cipher, hasSender, plainParts[k], k, old(metadata.parts))
      {
        OneMoreEncrypted(sha, cipher, alg, plainParts, encParts, old(metadata.parts), metadata.parts);
        assert Ready(cipher, hasSender, plainParts[i], i, metadata.parts)
          == Ready(cipher, hasSender, plainParts[i], i, old(metadata.parts));
        ghost var es, after := encParts, metadata.parts;
        ok := EncryptPart(i, sha, cipher, alg, hasSender);
        if !ok {
          LastAttempt(sha, cipher, alg, hasSender, plainParts, es, old(metadata.parts), after);
          return;
        }
      }
      ok := true;
    }

    /** `encrypt`. The cipher answers with nothing when it fails. */
    method Encrypt(sha: bytes -> bytes, cipher: bytes -> bytes, alg: byte, hasSender: bool)
      requires metadata.frCount <= |plainParts| && forall i :: 0 <= i < |plainParts| ==> plainParts[i].Fits()
      requires encrypted || encParts == []
      modifies this`encParts, this`skip, this`encrypted, metadata`parts
      ensures old(skip) || old(encrypted) ==> skip == old(skip) && encrypted == old(encrypted)
      ensures old(skip) || old(encrypted) ==> encParts == old(encParts) && metadata.parts == old(metadata.parts)
      ensures !old(skip) && !old(encrypted) ==> encrypted == !skip == old(Encryptable(cipher, hasSender))
      ensures !old(encrypted) && encrypted ==>
        |encParts| == metadata.frCount && AreEncrypted(sha, cipher, alg, plainParts, encParts)
      ensures !old(encrypted) && encrypted ==> Keyed(old(metadata.parts), metadata.parts, encParts)
      ensures !old(skip) && !old(encrypted) && !encrypted ==>
        Fails(sha, cipher, alg, hasSender, plainParts, encParts, old(metadata.parts), metadata.parts)
    {
      if skip || encrypted {
        return;
      }
      var ok := EncryptAll(sha, cipher, alg, hasSender);
      if ok {
        encrypted := true;
      } else {
        skip := true;
      }
    }

    /** `restore`: on failure the data read so far is left behind. */
    method Restore(files: map<bytes, bytes>, c: Codecs) returns (ok: bool)
      modifies this`fullBytes
      ensures ok <==> metadata.IsFull() && Gathered(files, metadata.parts, metadata.frCount).Some?
      ensures ok ==> fullBytes == Decompressed(c, Gathered(files, metadata.parts, metadata.frCount).value)
      ensures !metadata.IsFull() ==> fullBytes == old(fullBytes)
      ensures metadata.IsFull() && !ok ==> StoppedAt(files, metadata.parts, metadata.frCount, fullBytes)
    {
      if !metadata.IsFull() {
        return false;
      }
      fullBytes := [];
      for i := 0 to |metadata.parts|
        invariant Gathered(files, metadata.parts, i) == Some(fullBytes)
      {
        var data := ReadPart(files, metadata.parts, i);
        if data == None {
          Stops(files, metadata.parts, i, metadata.frCount, fullBytes);
          return false;
        }
        fullBytes := fullBytes + data.value;
      }
      fullBytes := Decompressed(c, fullBytes);
      return true;
    }
  }

  /** The count of parts that hold data, as 16 bits. */
  function FrCount(full: bytes): nat
  {
    (if Rest(|full|) > 0 then FullParts(|full|) + 1 else FullParts(|full|)) % 0x1_0000
  }

  /** The parts below n are noted, in order. */
  function AllNoted(parts: map<nat, Part>, draw: nat -> bytes, n: nat): map<nat, Part>
  {
    if n == 0 then parts
    else
      var before := AllNoted(parts, draw, n - 1);
      before[n - 1 := Noted(before, draw, n - 1)]
  }

  /** Noting touches the parts below n only, each once. */
  lemma {:induction false} NotedOnce(parts: map<nat, Part>, draw: nat -> bytes, n: nat)
    ensures forall i: nat :: i in AllNoted(parts, draw, n) <==> i < n || i in parts
    ensures forall i: nat :: i in AllNoted(parts, draw, n) ==>
      AllNoted(parts, draw, n)[i] == if i < n then Noted(parts, draw, i) else parts[i]
  {
    if n > 0 {
      NotedOnce(parts, draw, n - 1);
    }
  }

  /** The parts an email is split into are well formed. */
  lemma PartsFit(full: bytes, mid: bytes, draw: nat -> bytes)
    requires Splittable(full) && |mid| == 32 && forall i {:trigger draw(i)} :: |draw(i)| == 32
    ensures forall p :: p in PartsOf(full, mid, draw) ==> p.WellFormed() && p.mid == mid && p.count == PartCount(full)
    ensures forall i :: 0 <= i < PartCount(full) ==> PartsOf(full, mid, draw)[i].id == i
  {
  }

  //
  // Restoring
  //

  /** The data in the file of part i. */
  function PartData(files: map<bytes, bytes>, parts: map<nat, Part>, i: nat): Option<bytes>
  {
    if i !in parts || parts[i].key !in files then None
    else
      var p := Parse(files[parts[i].key]);
      if p == None then None else Some(p.value.data)
  }

  /** The data of the first i parts, in order of their ids, where every file reads well. */
  function Gathered(files: map<bytes, bytes>, parts: map<nat, Part>, i: nat): Option<bytes>
  {
    if i == 0 then Some([])
    else
      var before, data := Gathered(files, parts, i - 1), PartData(files, parts, i - 1);
      if before == None || data == None then None else Some(before.value + data.value)
  }

  /** The two decoders, and what is left of an email without a byte, for which the source reads
      one all the same. */
  datatype Codecs = Codecs(lzma: bytes -> bytes, zlib: bytes -> bytes, nothing: bytes)

  /** What `decompress` leaves in `full_bytes`. */
  function Decompressed(c: Codecs, v: bytes): bytes
  {
    if v == [] then c.nothing else if v[0] == 1 then c.lzma(v[1..]) else if v[0] == 2 then c.zlib(v[1..]) else v[1..]
  }

  method ReadPart(files: map<bytes, bytes>, parts: map<nat, Part>, i: nat) returns (data: Option<bytes>)
    ensures data == PartData(files, parts, i)
  {
    if i !in parts {
      return None;
    }
    if parts[i].key !in files {
      return None;
    }
    var bytes := files[parts[i].key];
    if bytes == [] {
      return None;
    }
    var packet := Parse(bytes);
    if packet == None {
      return None;
    }
    return Some(packet.value.data);
  }

  /** w is the data of the parts before the first that cannot be read. */
  ghost predicate StoppedAt(files: map<bytes, bytes>, parts: map<nat, Part>, n: nat, w: bytes)
  {
    exists i: nat :: i < n && Gathered(files, parts, i) == Some(w) && PartData(files, parts, i) == None
  }

  lemma Stops(files: map<bytes, bytes>, parts: map<nat, Part>, i: nat, n: nat, w: bytes)
    requires i < n && Gathered(files, parts, i) == Some(w) && PartData(files, parts, i) == None
    ensures StoppedAt(files, parts, n, w) && Gathered(files, parts, n) == None
  {
    StaysLost(files, parts, i + 1, n);
  }

  lemma {:induction false} StaysLost(files: map<bytes, bytes>, parts: map<nat, Part>, i: nat, n: nat)
    requires Gathered(files, parts, i) == None && i <= n
    ensures Gathered(files, parts, n) == None
  {
    if i < n { StaysLost(files, parts, i, n - 1); }
  }

  /** The parts' data, joined in order, is the email. */
  lemma {:induction false} GatheredParts(files: map<bytes, bytes>, parts: map<nat, Part>, full: bytes, mid: bytes,
                                         draw: nat -> bytes, i: nat)
    requires i <= PartCount(full)
    requires forall k :: 0 <= k < PartCount(full) ==>
      k in parts && parts[k].key in files && Parse(files[parts[k].key]) == Some(PartsOf(full, mid, draw)[k])
    ensures Gathered(files, parts, i) == Some(full[..Least(Offset(i), |full|)])
  {
    if i > 0 {
      GatheredParts(files, parts, full, mid, draw, i - 1);
      assert PartData(files, parts, i - 1) == Some(PartOf(full, mid, draw, PartCount(full), i - 1).data);
      JoinPart(full, mid, draw, PartCount(full), i - 1);
    }
  }

  lemma JoinPart(full: bytes, mid: bytes, draw: nat -> bytes, n: nat, i: nat)
    requires Offset(i) <= |full|
    ensures full[..Least(Offset(i), |full|)] + PartOf(full, mid, draw, n, i).data ==
      full[..Least(Offset(i + 1), |full|)]
  {
  }
}

/** The packet that carries one encrypted part of an email through the DHT:
    `EmailEncryptedPacket` (src/Packet.h), and the storing nodes it passes. */
module EncryptedPacket {
  import opened Num
  import opened PlainPacket

  const TYPE_E: byte := 69
  const SHORTEST: nat := 105
  const FIXED: nat := 73

  /** `stored_time` as the 32 bits it occupies. */
  type Time = t: nat | t < 0x1_0000_0000

  function Put32(t: Time): (s: bytes)
    ensures |s| == 4
  {
    [t / 0x100_0000, (t / 0x1_0000) % 256, (t / 256) % 256, t % 256]
  }

  function Get32(s: bytes): Time
    requires |s| == 4
  {
    var a: nat, b: nat, c: nat, d: nat := s[0], s[1], s[2], s[3];
    0x100_0000 * a + 0x1_0000 * b + 256 * c + d
  }

  lemma Put32Back(t: Time)
    ensures Get32(Put32(t)) == t
  {
    var x: nat := t;
    var y, z := x / 0x100, x / 0x1_0000;
    assert z == y / 256 && x / 0x100_0000 == z / 256;
  }

  datatype Packet = Packet(version: byte, key: bytes, time: Time, deleteHash: bytes, alg: byte, length: nat,
                           edata: bytes)
  {
    predicate Fits()
    {
      |key| == 32 && |deleteHash| == 32 && length < 0x1_0000
    }
  }

  /** A freshly constructed packet. */
  const DEFAULT: Packet := Packet(VERSION, BLANK, 0, BLANK, 0, 0, [])

  /** `toByte`. */
  function Serialize(p: Packet): (s: bytes)
    requires p.Fits()
    ensures |s| == FIXED + |p.edata|
  {
    [TYPE_E, p.version] + p.key + Put32(p.time) + p.deleteHash + [p.alg] + Put16(p.length) + p.edata
  }

  /** The length field does not point past the end of the buffer. */
  predicate Sized(s: bytes)
  {
    |s| >= SHORTEST ==> FIXED + Get16(s[71..73]) <= |s|
  }

  /** `fromBuffer` on a packet of type E from the network: the fields as they are left, and
      whether it was accepted. */
  function Load(sha: bytes -> bytes, s: bytes): (r: (bool, Packet))
    requires Sized(s)
    ensures r.1.Fits()
  {
    if |s| < SHORTEST || s[0] != TYPE_E then (false, DEFAULT)
    else if s[1] != VERSION then (false, DEFAULT.(version := s[1]))
    else
      var p := Packet(s[1], s[2..34], Get32(s[34..38]), s[38..70], s[70], Get16(s[71..73]), []);
      if p.key != sha(s[71..]) then (false, p) else (true, p.(edata := s[73..73 + p.length]))
  }

  /** The fields sit at fixed offsets. */
  lemma SerializedFields(p: Packet)
    requires p.Fits()
    ensures var s := Serialize(p);
      && s[0] == TYPE_E && s[1] == p.version && s[2..34] == p.key && s[34..38] == Put32(p.time)
      && s[38..70] == p.deleteHash && s[70] == p.alg && s[71..73] == Put16(p.length) && s[73..] == p.edata
      && s[71..] == Put16(p.length) + p.edata
  {
  }

  lemma Put16Back(x: nat)
    requires x < 0x1_0000
    ensures Get16(Put16(x)) == x
  {
  }

  /** A packet is accepted exactly if it is long enough, of type `E` and version 4, and its key is the
      hash of its length and payload; it is then read field by field. */
  lemma LoadAccepts(sha: bytes -> bytes, s: bytes)
    requires Sized(s)
    ensures Load(sha, s).0 <==> |s| >= 105 && s[0] == 'E' as int && s[1] == 4 && s[2..34] == sha(s[71..])
    ensures Load(sha, s).0 ==>
      var p := Load(sha, s).1;
      && p.key == s[2..34] && p.time == Get32(s[34..38]) && p.deleteHash == s[38..70] && p.alg == s[70]
      && p.length == 256 * (s[71] as int) + s[72] as int && p.edata == s[73..][..p.length]
  {
    if Load(sha, s).0 {
      assert s[73..73 + Load(sha, s).1.length] == s[73..][..Load(sha, s).1.length];
    }
  }

  //
  // Sending and storing
  //

  /** The packet `Email::encrypt` makes; its 16-bit length wraps. */
  function Built(sha: bytes -> bytes, edata: bytes, da: bytes, alg: byte): Packet
  {
    var length := |edata| % 0x1_0000;
    Packet(VERSION, sha(Put16(length) + edata), 0, sha(da), alg, length, edata)
  }

  /** A node stores what it can read of the packet, with its own time (`safeEmail`). */
  function Stored(sha: bytes -> bytes, s: bytes, now: Time): bytes
    requires Sized(s)
  {
    Serialize(Load(sha, s).1.(time := now))
  }

  /** What passing the nodes with these clocks makes of a packet. */
  function Hops(sha: bytes -> bytes, s: bytes, clocks: seq<Time>): (t: bytes)
    requires Sized(s)
    ensures Sized(t)
    decreases |clocks|
  {
    if clocks == [] then s
    else
      StoredSized(sha, s, clocks[0]);
      Hops(sha, Stored(sha, s, clocks[0]), clocks[1..])
  }

  lemma StoredSized(sha: bytes -> bytes, s: bytes, now: Time)
    requires Sized(s)
    ensures Sized(Stored(sha, s, now))
  {
    var p := Load(sha, s).1.(time := now);
    SerializedFields(p);
    Put16Back(p.length);
  }

  /** p is what a part was encrypted into, up to the time. */
  ghost predicate Genuine(sha: bytes -> bytes, p: Packet)
  {
    && p.Fits() && p.version == VERSION && p.length == |p.edata| && 32 <= |p.edata|
    && p.key == sha(Put16(p.length) + p.edata)
  }

  lemma LoadOfGenuine(sha: bytes -> bytes, p: Packet)
    requires Genuine(sha, p)
    ensures Sized(Serialize(p)) && Load(sha, Serialize(p)) == (true, p)
  {
    var s := Serialize(p);
    SerializedFields(p);
    Put16Back(p.length);
    Put32Back(p.time);
    assert s[73..73 + p.length] == s[73..];
  }

  /** The packet as the receiver reads it after some hops: only the time has changed. */
  lemma {:induction false} HopsKeep(sha: bytes -> bytes, p: Packet, clocks: seq<Time>)
    requires Genuine(sha, p)
    ensures Sized(Serialize(p))
    ensures Load(sha, Hops(sha, Serialize(p), clocks)) ==
      (true, p.(time := if clocks == [] then p.time else clocks[|clocks| - 1]))
    decreases |clocks|
  {
    LoadOfGenuine(sha, p);
    if clocks != [] {
      var next := p.(time := clocks[0]);
      assert Stored(sha, Serialize(p), clocks[0]) == Serialize(next);
      HopsKeep(sha, next, clocks[1..]);
    }
  }

  /** An encrypted part survives any number of hops exactly if it has at least 32 bytes and its
      length fits 16 bits. */
  lemma Survives(sha: bytes -> bytes, edata: bytes, da: bytes, alg: byte)
    requires Hashes(sha)
    ensures var p := Built(sha, edata, da, alg);
      && Sized(Serialize(p))
      && ((32 <= |edata| < 0x1_0000) <==>
           forall clocks: seq<Time> :: Intact(sha, p, clocks))
  {
    var p := Built(sha, edata, da, alg);
    SerializedFields(p);
    Put16Back(p.length);
    if 32 <= |edata| < 0x1_0000 {
      forall clocks: seq<Time>
        ensures Intact(sha, p, clocks)
      {
        HopsKeep(sha, p, clocks);
      }
    } else {
      assert !Intact(sha, p, []);
    }
  }

  /** After these hops the receiver accepts the packet, with key, hash and payload unchanged. */
  ghost predicate Intact(sha: bytes -> bytes, p: Packet, clocks: seq<Time>)
    requires p.Fits() && Sized(Serialize(p))
  {
    var (ok, r) := Load(sha, Hops(sha, Serialize(p), clocks));
    ok && r.key == p.key && r.deleteHash == p.deleteHash && r.alg == p.alg && r.edata == p.edata
  }

  /** What the receiver reads of a part's packet after some hops. */
  lemma PartTravels(sha: bytes -> bytes, edata: bytes, da: bytes, alg: byte, clocks: seq<Time>)
    requires Hashes(sha) && 32 <= |edata| < 0x1_0000
    ensures var p := Built(sha, edata, da, alg);
      && Sized(Serialize(p))
      && var (ok, r) := Load(sha, Hops(sha, Serialize(p), clocks));
         ok && r.key == p.key && r.deleteHash == sha(da) && r.edata == edata
  {
    Survives(sha, edata, da, alg);
    assert Intact(sha, Built(sha, edata, da, alg), clocks);
  }
}

/** The packet that carries one part of an email before encryption: `EmailUnencryptedPacket`
    (src/Packet.h). */
module PlainPacket {
  import opened Num

  const TYPE_U: byte := 85
  const VERSION: byte := 4
  const HEADER: nat := 72
  const BLANK: bytes := Zeros(32)

  function Put16(x: nat): (s: bytes)
    requires x < 0x1_0000
    ensures |s| == 2
  {
    [x / 256, x % 256]
  }

  function Get16(s: bytes): (x: nat)
    requires |s| == 2
    ensures x < 0x1_0000 && Put16(x) == s
  {
    var high: nat, low: nat := s[0], s[1];
    256 * high + low
  }

  datatype Plain = Plain(mid: bytes, da: bytes, id: nat, count: nat, length: nat, data: bytes)
  {
    /** The fixed-width fields hold what they say. */
    predicate Fits()
    {
      |mid| == 32 && |da| == 32 && id < 0x1_0000 && count < 0x1_0000 && length < 0x1_0000
    }

    predicate WellFormed()
    {
      Fits() && length == |data| && id < count
    }
  }

  /** `toByte`. */
  function Serialize(p: Plain): (s: bytes)
    requires p.Fits()
  {
    [TYPE_U, VERSION] + p.mid + p.da + Put16(p.id) + Put16(p.count) + Put16(p.length) + p.data
  }

  /** `fromBuffer` on a packet from the network. */
  function Parse(s: bytes): (r: Option<Plain>)
    ensures r.Some? ==> r.value.WellFormed()
  {
    if |s| < HEADER || s[0] != TYPE_U || s[1] != VERSION then None
    else
      var p := Plain(s[2..34], s[34..66], Get16(s[66..68]), Get16(s[68..70]), Get16(s[70..72]), s[72..]);
      if HEADER + p.length != |s| || p.id >= p.count then None else Some(p)
  }

  /** Parsing inverts serialising exactly on the packets it accepts. */
  lemma ParseOfSerialize(p: Plain)
    requires p.Fits()
    ensures Parse(Serialize(p)) == if p.WellFormed() then Some(p) else None
  {
    var s := Serialize(p);
    assert s[2..34] == p.mid && s[34..66] == p.da && s[72..] == p.data;
    assert s[66..68] == Put16(p.id) && s[68..70] == Put16(p.count) && s[70..72] == Put16(p.length);
  }

  lemma SerializeOfParse(s: bytes)
    requires Parse(s).Some?
    ensures Serialize(Parse(s).value) == s
  {
    var p := Parse(s).value;
    assert s == s[..2] + s[2..34] + s[34..66] + s[66..68] + s[68..70] + s[70..72] + s[72..];
  }

  /** The fields sit at fixed offsets, numbers with the high byte first. */
  lemma SerializedPlain(p: Plain)
    requires p.Fits()
    ensures var s := Serialize(p);
      && |s| == 72 + |p.data| && s[0] == 'U' as int && s[1] == 4 && s[2..34] == p.mid && s[34..66] == p.da
      && s[66] == p.id / 256 && s[67] == p.id % 256 && s[68] == p.count / 256 && s[69] == p.count % 256
      && s[70] == p.length / 256 && s[71] == p.length % 256 && s[72..] == p.data
  {
  }
}

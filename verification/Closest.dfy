/** The nodes closest to a key by the XOR metric (src/DHTworker.cpp, lib/libi2pd/Identity.cpp,
    lib/libi2pd/Identity.h). */
module Closest {
  import opened Num
  import opened Bits
  import opened BigEndian

  //
  // The metric
  //

  /** `memcmp (a, b) < 0` on buffers of one length. */
  predicate Less(a: bytes, b: bytes)
    requires |a| == |b|
  {
    if a == [] then false else if a[0] != b[0] then a[0] < b[0] else Less(a[1..], b[1..])
  }

  /** The comparison of bytes is that of big-endian numbers. */
  lemma {:induction false} LessIsBe(a: bytes, b: bytes)
    requires |a| == |b|
    ensures Less(a, b) <==> Be(a) < Be(b)
  {
    if a != [] {
      LessIsBe(a[1..], b[1..]);
      BeFront(a);
      BeFront(b);
      BeBound(a[1..]);
      BeBound(b[1..]);
      FirstDecides(a[0], Be(a[1..]), b[0], Be(b[1..]), Pow(256, |a| - 1));
    }
  }

  lemma FirstDecides(x: nat, u: nat, y: nat, v: nat, p: nat)
    requires u < p && v < p
    ensures x * p + u < y * p + v <==> x < y || (x == y && u < v)
  {
    if x < y { MulMono(x + 1, y, p); } else if x > y { MulMono(y + 1, x, p); }
  }

  const WORD: nat := 8

  /** The portable `operator^`: four words of eight bytes. */
  function Metric(a: bytes, b: bytes): (m: bytes)
    requires |a| == 32 && |b| == 32
    ensures |m| == 32
  {
    XorWord(a, b, 0) + XorWord(a, b, 8) + XorWord(a, b, 16) + XorWord(a, b, 24)
  }

  function XorWord(a: bytes, b: bytes, i: nat): (m: bytes)
    requires i + 8 <= |a| == |b|
    ensures |m| == 8
  {
    LeBytes(Xor(Le(a[i..i + WORD]), Le(b[i..i + WORD])), WORD)
  }

  lemma XorWordBytes(a: bytes, b: bytes, i: nat, n: nat)
    requires i + n <= |a| == |b|
    ensures LeBytes(Xor(Le(a[i..i + n]), Le(b[i..i + n])), n) == XorBytes(a, b)[i..i + n]
  {
    var s := XorBytes(a[i..i + n], b[i..i + n]);
    XorBytesValue(a[i..i + n], b[i..i + n]);
    LeBytesOfLe(s, n);
    assert s[..n] == s;
  }

  lemma MetricBytes(a: bytes, b: bytes)
    requires |a| == 32 && |b| == 32
    ensures Metric(a, b) == XorBytes(a, b)
  {
    XorWordIs(a, b, 0);
    XorWordIs(a, b, 8);
    XorWordIs(a, b, 16);
    XorWordIs(a, b, 24);
    Quarters(XorBytes(a, b));
  }

  lemma XorWordIs(a: bytes, b: bytes, i: nat)
    requires i + 8 <= |a| == |b|
    ensures XorWord(a, b, i) == XorBytes(a, b)[i..i + 8]
  {
    XorWordBytes(a, b, i, WORD);
  }

  lemma Quarters(s: bytes)
    requires |s| == 32
    ensures s == s[0..8] + s[8..16] + s[16..24] + s[24..32]
  {
  }

  /** Different nodes are at different distances from a key. */
  lemma MetricInjective(key: bytes, a: bytes, b: bytes)
    requires |key| == 32 && |a| == 32 && |b| == 32 && Metric(key, a) == Metric(key, b)
    ensures a == b
  {
    MetricBytes(key, a);
    MetricBytes(key, b);
    forall i | 0 <= i < 32
      ensures a[i] == b[i]
    {
      assert XorBytes(key, a)[i] == XorByte(key[i], a[i]) == XorByte(key[i], b[i]);
    }
  }

  //
  // Selection
  //

  type Hash = s: bytes | |s| == 32 witness Zeros(32)

  datatype Node = Node(hash: Hash, lockedUntil: int)

  /** `sortable_node` */
  datatype Entry = Entry(node: Node, metric: Hash)
  {
    function Distance(): nat
    {
      Be(metric)
    }
  }

  /** The order of the set: bytes of the metrics are compared, which compares distances. */
  predicate Nearer(a: Hash, b: Hash)
    ensures Nearer(a, b) <==> Be(a) < Be(b)
  {
    LessIsBe(a, b);
    Less(a, b)
  }

  /** What is asked for: the key, whether nodes farther than ours count, our hash, the time. */
  datatype Query = Query(key: Hash, toUs: bool, ours: Hash, now: int)

  function Distance(q: Query, hash: Hash): nat
  {
    Be(Metric(q.key, hash))
  }

  predicate Eligible(q: Query, n: Node)
  {
    n.lockedUntil <= q.now && (q.toUs ==> Distance(q, n.hash) <= Distance(q, q.ours))
  }

  /** Insertion into a `std::set`: an entry at a distance already there is dropped. */
  function Insert(s: seq<Entry>, e: Entry): (r: seq<Entry>)
    ensures |s| <= |r| <= |s| + 1 && r != []
  {
    if s == [] || Nearer(e.metric, s[0].metric) then [e] + s
    else if Nearer(s[0].metric, e.metric) then [s[0]] + Insert(s[1..], e)
    else s
  }

  ghost predicate Ascending(s: seq<Entry>)
  {
    forall i, j :: 0 <= i < j < |s| ==> s[i].Distance() < s[j].Distance()
  }

  ghost predicate Fresh(s: seq<Entry>, e: Entry)
  {
    forall i :: 0 <= i < |s| ==> s[i].Distance() != e.Distance()
  }

  lemma {:induction false} InsertAdds(s: seq<Entry>, e: Entry)
    requires Fresh(s, e)
    ensures multiset(Insert(s, e)) == multiset(s) + multiset{e}
  {
    if s != [] && e.Distance() > s[0].Distance() {
      InsertAdds(s[1..], e);
      assert s == [s[0]] + s[1..];
    }
  }

  /** What is inserted lies above x if everything did. */
  lemma {:induction false} InsertAbove(s: seq<Entry>, e: Entry, x: nat)
    requires x < e.Distance() && forall i :: 0 <= i < |s| ==> x < s[i].Distance()
    ensures forall i :: 0 <= i < |Insert(s, e)| ==> x < Insert(s, e)[i].Distance()
  {
    if s != [] { InsertAbove(s[1..], e, x); }
  }

  lemma AscendingCons(a: Entry, t: seq<Entry>)
    requires Ascending(t) && forall i :: 0 <= i < |t| ==> a.Distance() < t[i].Distance()
    ensures Ascending([a] + t)
  {
  }

  lemma {:induction false} InsertSorts(s: seq<Entry>, e: Entry)
    requires Ascending(s) && Fresh(s, e)
    ensures Ascending(Insert(s, e))
  {
    if s == [] || Nearer(e.metric, s[0].metric) {
      AscendingCons(e, s);
    } else {
      InsertSorts(s[1..], e);
      InsertAbove(s[1..], e, s[0].Distance());
      AscendingCons(s[0], Insert(s[1..], e));
    }
  }

  function Take(s: seq<Entry>, k: nat): seq<Entry>
  {
    if |s| <= k then s else s[..k]
  }

  /** The loop's treatment of one more entry: keep at most num. */
  function Keep(s: seq<Entry>, e: Entry, num: nat): seq<Entry>
    requires num > 0
  {
    if |s| < num then Insert(s, e)
    else if Nearer(e.metric, s[|s| - 1].metric) then
      var t := Insert(s, e);
      t[..|t| - 1]
    else s
  }

  lemma {:induction false} InsertLength(s: seq<Entry>, e: Entry)
    requires Fresh(s, e)
    ensures |Insert(s, e)| == |s| + 1
  {
    if s != [] && e.Distance() > s[0].Distance() { InsertLength(s[1..], e); }
  }

  /** The first k after an insertion depend on the first k before it alone. */
  lemma {:induction false} TakeInsert(s: seq<Entry>, e: Entry, k: nat)
    requires Ascending(s) && Fresh(s, e) && 0 < k <= |s|
    ensures Keep(s[..k], e, k) == Insert(s, e)[..k]
  {
    InsertLength(s, e);
    InsertLength(s[..k], e);
    if Nearer(e.metric, s[0].metric) {
      assert Nearer(e.metric, s[k - 1].metric);
      assert Insert(s[..k], e)[..k] == ([e] + s)[..k];
    } else if k == 1 {
      assert Insert(s, e)[..1] == [s[0]];
    } else {
      TakeInsert(s[1..], e, k - 1);
      TakeInsertNext(s, e, k);
    }
  }

  lemma TakeInsertNext(s: seq<Entry>, e: Entry, k: nat)
    requires Fresh(s, e) && 1 < k <= |s| && !Nearer(e.metric, s[0].metric)
    requires Keep(s[1..][..k - 1], e, k - 1) == Insert(s[1..], e)[..k - 1]
    ensures Keep(s[..k], e, k) == Insert(s, e)[..k]
  {
    var t, r := s[..k], s[1..];
    InsertLength(r, e);
    InsertLength(t[1..], e);
    assert t[1..] == r[..k - 1] && t[k - 1] == t[1..][k - 2];
    TakeCons(s[0], Insert(r, e), k);
    TakeCons(s[0], Insert(t[1..], e), k);
    assert t == [s[0]] + t[1..];
  }

  lemma TakeCons(a: Entry, s: seq<Entry>, k: nat)
    requires 0 < k <= |s| + 1
    ensures ([a] + s)[..k] == [a] + s[..k - 1]
  {
  }

  lemma KeepTakes(s: seq<Entry>, e: Entry, num: nat)
    requires Ascending(s) && Fresh(s, e) && num > 0
    ensures Keep(Take(s, num), e, num) == Take(Insert(s, e), num)
  {
    InsertLength(s, e);
    if num <= |s| {
      TakeInsert(s, e, num);
      assert num == |s| ==> s[..num] == s;
    }
  }

  /** The node map has one node for a hash. */
  ghost predicate NoTwins(nodes: seq<Node>)
  {
    forall i, j :: 0 <= i < j < |nodes| ==> nodes[i].hash != nodes[j].hash
  }

  /** The eligible nodes with their distances, in the order of the node map. */
  function Candidates(q: Query, nodes: seq<Node>): (s: seq<Entry>)
  {
    if nodes == [] then []
    else
      var n, s := nodes[|nodes| - 1], Candidates(q, nodes[..|nodes| - 1]);
      if Eligible(q, n) then s + [Entry(n, Metric(q.key, n.hash))] else s
  }

  /** All entries sorted. */
  function Sorted(s: seq<Entry>): seq<Entry>
  {
    if s == [] then [] else Insert(Sorted(s[..|s| - 1]), s[|s| - 1])
  }

  ghost predicate AllDistinct(s: seq<Entry>)
  {
    forall i, j :: 0 <= i < j < |s| ==> s[i].Distance() != s[j].Distance()
  }

  /** Sorting loses nothing when no two distances are equal. */
  lemma {:induction false} SortedSorts(s: seq<Entry>)
    requires AllDistinct(s)
    ensures Ascending(Sorted(s)) && multiset(Sorted(s)) == multiset(s)
  {
    if s != [] {
      var t, e := s[..|s| - 1], s[|s| - 1];
      SortedSorts(t);
      assert s == t + [e];
      StillFresh(t, Sorted(t), e);
      InsertSorts(Sorted(t), e);
      InsertAdds(Sorted(t), e);
    }
  }

  lemma StillFresh(t: seq<Entry>, r: seq<Entry>, e: Entry)
    requires multiset(r) == multiset(t) && Fresh(t, e)
    ensures Fresh(r, e)
  {
    forall i | 0 <= i < |r|
      ensures r[i].Distance() != e.Distance()
    {
      assert r[i] in multiset(r);
    }
  }

  lemma CandidatesAre(q: Query, nodes: seq<Node>)
    requires NoTwins(nodes)
    ensures forall e :: e in Candidates(q, nodes) <==>
      e.node in nodes && Eligible(q, e.node) && e.metric == Metric(q.key, e.node.hash)
    ensures AllDistinct(Candidates(q, nodes))
  {
    CandidatesDiffer(q, nodes);
    forall e
      ensures e in Candidates(q, nodes) <==>
        e.node in nodes && Eligible(q, e.node) && e.metric == Metric(q.key, e.node.hash)
    {
      CandidateIff(q, nodes, e);
    }
  }

  lemma {:induction false} CandidateIff(q: Query, nodes: seq<Node>, e: Entry)
    ensures e in Candidates(q, nodes) <==>
      e.node in nodes && Eligible(q, e.node) && e.metric == Metric(q.key, e.node.hash)
  {
    if nodes != [] {
      var before, n := nodes[..|nodes| - 1], nodes[|nodes| - 1];
      CandidateIff(q, before, e);
      assert nodes == before + [n];
    }
  }

  lemma {:induction false} CandidatesDiffer(q: Query, nodes: seq<Node>)
    requires NoTwins(nodes)
    ensures AllDistinct(Candidates(q, nodes))
  {
    if nodes != [] {
      var before, n := nodes[..|nodes| - 1], nodes[|nodes| - 1];
      CandidatesDiffer(q, before);
      var s := Candidates(q, before);
      assert nodes == before + [n];
      if Eligible(q, n) {
        forall i | 0 <= i < |s|
          ensures s[i].Distance() != Distance(q, n.hash)
        {
          CandidateIff(q, before, s[i]);
          if s[i].Distance() == Distance(q, n.hash) {
            SameDistance(q, s[i].node.hash, n.hash);
          }
        }
      }
    }
  }

  lemma SameDistance(q: Query, a: Hash, b: Hash)
    requires Distance(q, a) == Distance(q, b)
    ensures a == b
  {
    BeBytesOfBe(Metric(q.key, a));
    BeBytesOfBe(Metric(q.key, b));
    MetricInjective(q.key, a, b);
  }

  function Nodes(s: seq<Entry>): (ns: seq<Node>)
    ensures |ns| == |s| && forall i :: 0 <= i < |s| ==> ns[i] == s[i].node
  {
    seq(|s|, i requires 0 <= i < |s| => s[i].node)
  }

  /** One node of the map. */
  method Consider(q: Query, n: Node, num: nat, s: seq<Entry>) returns (sorted: seq<Entry>)
    requires num > 0
    ensures sorted == if Eligible(q, n) then Keep(s, Entry(n, Metric(q.key, n.hash)), num) else s
  {
    sorted := s;
    if q.now < n.lockedUntil {
      return;
    }
    var metric := Metric(q.key, n.hash);
    if q.toUs && Nearer(Metric(q.key, q.ours), metric) {
      return;
    }
    if |sorted| < num {
      sorted := Insert(sorted, Entry(n, metric));
    } else if Nearer(metric, sorted[|sorted| - 1].metric) {
      sorted := Insert(sorted, Entry(n, metric));
      sorted := sorted[..|sorted| - 1];
    }
  }

  /** `getClosestNodes` over the node map listed in any order. */
  method GetClosestNodes(q: Query, nodes: seq<Node>, num: nat) returns (result: seq<Node>)
    requires NoTwins(nodes) && num > 0
    ensures result == Nodes(Take(Sorted(Candidates(q, nodes)), num))
  {
    var sorted: seq<Entry> := [];
    for i := 0 to |nodes|
      invariant sorted == Take(Sorted(Candidates(q, nodes[..i])), num)
    {
      assert nodes[..i + 1] == nodes[..i] + [nodes[i]];
      OneMore(q, nodes[..i], nodes[i], num);
      sorted := Consider(q, nodes[i], num, sorted);
    }
    assert nodes[..|nodes|] == nodes;
    result := Nodes(sorted);
  }

  lemma OneMore(q: Query, before: seq<Node>, n: Node, num: nat)
    requires NoTwins(before + [n]) && num > 0
    ensures var s, e := Sorted(Candidates(q, before)), Entry(n, Metric(q.key, n.hash));
      Take(Sorted(Candidates(q, before + [n])), num) ==
      if Eligible(q, n) then Keep(Take(s, num), e, num) else Take(s, num)
  {
    var nodes, e := before + [n], Entry(n, Metric(q.key, n.hash));
    assert nodes[..|nodes| - 1] == before;
    CandidatesAre(q, nodes);
    if !Eligible(q, n) {
      return;
    }
    var c := Candidates(q, before);
    assert Candidates(q, nodes) == c + [e] && (c + [e])[..|c|] == c;
    CandidatesAre(q, before);
    SortedSorts(c);
    forall i | 0 <= i < |Sorted(c)|
      ensures Sorted(c)[i].Distance() != e.Distance()
    {
      assert Sorted(c)[i] in multiset(Sorted(c));
    }
    KeepTakes(Sorted(c), e, num);
  }

  lemma SortedCandidates(q: Query, nodes: seq<Node>)
    requires NoTwins(nodes)
    ensures var s := Sorted(Candidates(q, nodes));
      && |s| == |Candidates(q, nodes)| && Ascending(s)
      && (forall i :: 0 <= i < |s| ==> Chosen(q, nodes, s[i]))
      && (forall n :: n in nodes && Eligible(q, n) ==> Entry(n, Metric(q.key, n.hash)) in s)
  {
    var c := Candidates(q, nodes);
    CandidatesAre(q, nodes);
    SortedSorts(c);
    assert |Sorted(c)| == |multiset(Sorted(c))| == |multiset(c)| == |c|;
    forall i | 0 <= i < |c|
      ensures Chosen(q, nodes, Sorted(c)[i])
    {
      assert Sorted(c)[i] in multiset(c);
    }
    forall n | n in nodes && Eligible(q, n)
      ensures Entry(n, Metric(q.key, n.hash)) in Sorted(c)
    {
      assert Entry(n, Metric(q.key, n.hash)) in multiset(c);
    }
  }

  /** The result is the nearest eligible nodes, nearest first; none is missing while there is room. */
  lemma Nearest(q: Query, nodes: seq<Node>, num: nat)
    requires NoTwins(nodes) && num > 0
    ensures var r := Nodes(Take(Sorted(Candidates(q, nodes)), num));
      && |r| == (if |Candidates(q, nodes)| < num then |Candidates(q, nodes)| else num)
      && (forall i :: 0 <= i < |r| ==> r[i] in nodes && Eligible(q, r[i]))
      && (forall i, j :: 0 <= i < j < |r| ==> Distance(q, r[i].hash) < Distance(q, r[j].hash))
      && (forall n :: n in nodes && Eligible(q, n) && n !in r ==>
           |r| == num && forall i :: 0 <= i < num ==> Distance(q, r[i].hash) < Distance(q, n.hash))
  {
    SortedCandidates(q, nodes);
    var s := Sorted(Candidates(q, nodes));
    var t := Take(s, num);
    assert forall i :: 0 <= i < |t| ==> t[i] == s[i];
    forall n | n in nodes && Eligible(q, n) && n !in Nodes(t)
      ensures |t| == num && forall i :: 0 <= i < num ==> s[i].Distance() < Distance(q, n.hash)
    {
      var e := Entry(n, Metric(q.key, n.hash));
      forall i | 0 <= i < |t|
        ensures t[i] != e
      {
        assert Nodes(t)[i] in Nodes(t);
      }
      LeftOut(s, num, e);
    }
  }

  /** The nodes selected, in terms of locks and of the XOR of hashes: no locked node is among them, and
      with `to_us` none farther from the key than we are; without `to_us` only a lock, or num nearer
      nodes, keep a node out. */
  lemma Selected(q: Query, nodes: seq<Node>, num: nat, r: seq<Node>, n: Node)
    requires NoTwins(nodes) && num > 0 && r == Nodes(Take(Sorted(Candidates(q, nodes)), num))
    ensures |r| <= num
    ensures n in r ==> n in nodes && n.lockedUntil <= q.now
    ensures n in r && q.toUs ==> Be(XorBytes(q.key, n.hash)) <= Be(XorBytes(q.key, q.ours))
    ensures n in nodes && n !in r && n.lockedUntil <= q.now ==>
      || (q.toUs && Be(XorBytes(q.key, n.hash)) > Be(XorBytes(q.key, q.ours)))
      || (|r| == num && forall i :: 0 <= i < num ==> Be(XorBytes(q.key, r[i].hash)) < Be(XorBytes(q.key, n.hash)))
  {
    Nearest(q, nodes, num);
    MetricBytes(q.key, n.hash);
    MetricBytes(q.key, q.ours);
    forall i | 0 <= i < |r|
      ensures Metric(q.key, r[i].hash) == XorBytes(q.key, r[i].hash)
    {
      MetricBytes(q.key, r[i].hash);
    }
  }

  ghost predicate Chosen(q: Query, nodes: seq<Node>, e: Entry)
  {
    e.node in nodes && Eligible(q, e.node) && e.metric == Metric(q.key, e.node.hash)
  }

  lemma LeftOut(s: seq<Entry>, num: nat, e: Entry)
    requires Ascending(s) && e in s && e !in Take(s, num)
    ensures |s| > num && forall i :: 0 <= i < num ==> s[i].Distance() < e.Distance()
  {
    var j :| 0 <= j < |s| && s[j] == e;
    assert forall k :: 0 <= k < |Take(s, num)| ==> Take(s, num)[k] == s[k] && s[k] != e;
    assert j >= num;
  }
}

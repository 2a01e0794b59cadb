/** The BIRD configuration text `_update` builds from the zone roster: a
    header line, then one `protocol bgp` statement per BIRD peer of every
    BIRD-enabled zone, joined with newlines; or a deferral when a
    BIRD-enabled zone's peer list is locked. */
module BirdRender {
  import opened Wrappers
  import Decimal
  import Ipv4
  import opened BirdConfig

  const Header: string := "# generated by peerd"

  /** A zone's BIRD settings (`zone.conf.bird`). */
  datatype ZoneBirdConf = ZoneBirdConf(protocolPrefix: string, bgpTemplate: string)

  /** What `peer.tun.get_ifname(..)` returned: `Ok(Some(name))`, `Ok(None)`
      or an error. */
  datatype IfnameLookup = IfnameFound(ifname: string) | IfnameNone | IfnameError

  /** `peer.route`: only the BIRD variant carries a descriptor. */
  datatype Route = Bird(conf: Config) | OtherRoute

  datatype Peer = Peer(name: string, route: Route, ifname: IfnameLookup)

  /** A zone as the renderer sees it: its optional BIRD settings, whether
      `peers.try_lock()` succeeds, and its peers in iteration order. */
  datatype Zone = Zone(bird: Option<ZoneBirdConf>, lockFree: bool, peers: seq<Peer>)

  datatype RenderOutcome = Deferred | Rendered(text: string)

  /** `" port N "` when a port is set, nothing otherwise. */
  function PortClause(port: Option<Decimal.U16>): string
  {
    match port
    case Some(p) => " port " + Decimal.Show(p) + " "
    case None => ""
  }

  /** `interface '<name>';` only when the lookup found a name. */
  function IfClause(lookup: IfnameLookup): string
  {
    match lookup
    case IfnameFound(name) => "interface '" + name + "';"
    case _ => ""
  }

  /** The port clause is printed exactly when a port is configured. */
  lemma PortClauseEmpty(port: Option<Decimal.U16>)
    ensures PortClause(port) == "" <==> port.None?
  {
  }

  /** The interface clause is printed exactly when a name was found. */
  lemma IfClauseEmpty(lookup: IfnameLookup)
    ensures IfClause(lookup) == "" <==> !lookup.IfnameFound?
  {
  }

  /** The statement for one BIRD peer of a zone. */
  function PeerLine(zc: ZoneBirdConf, name: string, conf: Config, lookup: IfnameLookup): string
  {
    "protocol bgp " + (zc.protocolPrefix + name) + " from " + zc.bgpTemplate
    + " { neighbor " + Ipv4.Show(conf.endpoint) + " " + PortClause(conf.endpointPort)
    + " as " + Decimal.Show(conf.neighborAs) + "; " + IfClause(lookup) + " };"
  }

  function LineOf(zc: ZoneBirdConf, p: Peer): string
    requires p.route.Bird?
  {
    PeerLine(zc, p.name, p.route.conf, p.ifname)
  }

  /** The statements of a list of peers of one zone, taken in order. */
  function PeerLines(zc: ZoneBirdConf, peers: seq<Peer>): seq<string>
  {
    if peers == [] then []
    else
      var last := peers[|peers| - 1];
      PeerLines(zc, peers[..|peers| - 1]) + (if last.route.Bird? then [LineOf(zc, last)] else [])
  }

  function ZoneLines(z: Zone): seq<string>
  {
    if z.bird.Some? then PeerLines(z.bird.value, z.peers) else []
  }

  /** The statements of the first `n` zones, zone after zone. */
  function LinesUpTo(zones: seq<Zone>, n: nat): seq<string>
    requires n <= |zones|
  {
    if n == 0 then [] else LinesUpTo(zones, n - 1) + ZoneLines(zones[n - 1])
  }

  /** The statements of all zones. */
  function AllLines(zones: seq<Zone>): seq<string>
  {
    LinesUpTo(zones, |zones|)
  }

  /** A zone stops the render: BIRD-enabled and its peer lock is taken. */
  predicate Blocks(z: Zone)
  {
    z.bird.Some? && !z.lockFree
  }

  predicate AnyBlocked(zones: seq<Zone>)
  {
    exists i :: 0 <= i < |zones| && Blocks(zones[i])
  }

  /** Some zone among the first `n` stops the render. */
  predicate BlockedBefore(zones: seq<Zone>, n: nat)
    requires n <= |zones|
  {
    n > 0 && (BlockedBefore(zones, n - 1) || Blocks(zones[n - 1]))
  }

  lemma {:induction false} BlockedBeforeMeaning(zones: seq<Zone>, n: nat)
    requires n <= |zones|
    ensures BlockedBefore(zones, n) <==> exists k :: 0 <= k < n && Blocks(zones[k])
  {
    if n > 0 {
      BlockedBeforeMeaning(zones, n - 1);
    }
  }

  /** `lines.join("\n")`. */
  function Join(lines: seq<string>): string
  {
    if |lines| == 0 then ""
    else if |lines| == 1 then lines[0]
    else lines[0] + "\n" + Join(lines[1..])
  }

  function RenderSpec(zones: seq<Zone>): RenderOutcome
  {
    if AnyBlocked(zones) then Deferred else Rendered(Join([Header] + AllLines(zones)))
  }

  lemma PeerLinesStep(zc: ZoneBirdConf, peers: seq<Peer>, j: nat)
    requires j < |peers|
    ensures PeerLines(zc, peers[..j + 1])
         == PeerLines(zc, peers[..j]) + (if peers[j].route.Bird? then [LineOf(zc, peers[j])] else [])
  {
    assert peers[..j + 1][..j] == peers[..j];
  }

  /** The inner loop of `_update` over one locked zone's peers: every BIRD
      peer pushes its statement onto `lines`, in order. */
  method PushPeerLines(lines: seq<string>, zoneConf: ZoneBirdConf, peers: seq<Peer>) returns (lines': seq<string>)
    ensures lines' == lines + PeerLines(zoneConf, peers)
  {
    lines' := lines;
    var j := 0;
    while j < |peers|
      invariant 0 <= j <= |peers|
      invariant lines' == lines + PeerLines(zoneConf, peers[..j])
    {
      var peer := peers[j];
      PeerLinesStep(zoneConf, peers, j);
      if peer.route.Bird? {
        lines' := lines' + [LineOf(zoneConf, peer)];
      }
      j := j + 1;
    }
    assert peers[..j] == peers;
  }

  /** The rendering part of `_update`: the lines vector starts with the
      header and grows zone by zone, peer by peer; the first BIRD zone whose
      peers cannot be locked abandons everything built so far. */
  method Render(zones: seq<Zone>) returns (r: RenderOutcome)
    ensures r == RenderSpec(zones)
  {
    var lines := [Header];
    var i := 0;
    while i < |zones|
      invariant 0 <= i <= |zones|
      invariant !BlockedBefore(zones, i)
      invariant lines == [Header] + LinesUpTo(zones, i)
    {
      var zone := zones[i];
      if zone.bird.Some? {
        if zone.lockFree {
          lines := PushPeerLines(lines, zone.bird.value, zone.peers);
        } else {
          DeferredWhenBlocked(zones, i);
          return Deferred;
        }
      }
      i := i + 1;
    }
    RenderedWhenFree(zones);
    return Rendered(Join(lines));
  }

  lemma DeferredWhenBlocked(zones: seq<Zone>, i: nat)
    requires i < |zones| && Blocks(zones[i])
    ensures RenderSpec(zones) == Deferred
  {
  }

  lemma RenderedWhenFree(zones: seq<Zone>)
    requires !BlockedBefore(zones, |zones|)
    ensures RenderSpec(zones) == Rendered(Join([Header] + AllLines(zones)))
  {
    BlockedBeforeMeaning(zones, |zones|);
  }

  /** The BIRD peers of a list of peers, each paired with its zone's
      settings, read front to back. */
  function BirdPeers(zc: ZoneBirdConf, peers: seq<Peer>): (r: seq<(ZoneBirdConf, Peer)>)
    ensures forall k :: 0 <= k < |r| ==> r[k].0 == zc && r[k].1.route.Bird? && r[k].1 in peers
  {
    if peers == [] then []
    else (if peers[0].route.Bird? then [(zc, peers[0])] else []) + BirdPeers(zc, peers[1..])
  }

  /** The BIRD peers of one zone, if it is BIRD-enabled. */
  function ZoneEligible(z: Zone): (r: seq<(ZoneBirdConf, Peer)>)
    ensures forall k :: 0 <= k < |r| ==> r[k].1.route.Bird?
  {
    if z.bird.Some? then BirdPeers(z.bird.value, z.peers) else []
  }

  /** The peers that get a statement: BIRD peers of BIRD-enabled zones,
      zone by zone, then peer by peer. */
  function Eligible(zones: seq<Zone>): (r: seq<(ZoneBirdConf, Peer)>)
    ensures forall k :: 0 <= k < |r| ==> r[k].1.route.Bird?
  {
    if zones == [] then [] else ZoneEligible(zones[0]) + Eligible(zones[1..])
  }

  function LinesOf(ps: seq<(ZoneBirdConf, Peer)>): seq<string>
    requires forall k :: 0 <= k < |ps| ==> ps[k].1.route.Bird?
  {
    seq(|ps|, k requires 0 <= k < |ps| => LineOf(ps[k].0, ps[k].1))
  }

  lemma LinesOfConcat(a: seq<(ZoneBirdConf, Peer)>, b: seq<(ZoneBirdConf, Peer)>)
    requires forall k :: 0 <= k < |a| ==> a[k].1.route.Bird?
    requires forall k :: 0 <= k < |b| ==> b[k].1.route.Bird?
    ensures LinesOf(a + b) == LinesOf(a) + LinesOf(b)
  {
  }

  lemma {:induction false} LinesUpToPrefix(a: seq<Zone>, b: seq<Zone>, n: nat)
    requires n <= |a| && n <= |b| && a[..n] == b[..n]
    ensures LinesUpTo(a, n) == LinesUpTo(b, n)
  {
    if n > 0 {
      assert a[n - 1] == a[..n][n - 1] == b[..n][n - 1] == b[n - 1];
      assert a[..n - 1] == a[..n][..n - 1] == b[..n][..n - 1] == b[..n - 1];
      LinesUpToPrefix(a, b, n - 1);
    }
  }

  lemma {:induction false} LinesUpToConcat(a: seq<Zone>, b: seq<Zone>, k: nat)
    requires k <= |b|
    ensures LinesUpTo(a + b, |a| + k) == AllLines(a) + LinesUpTo(b, k)
  {
    if k == 0 {
      assert (a + b)[..|a|] == a[..|a|];
      LinesUpToPrefix(a + b, a, |a|);
    } else {
      LinesUpToConcat(a, b, k - 1);
      LinesUpToStep(a, b, k);
      var prev, last := LinesUpTo(b, k - 1), ZoneLines(b[k - 1]);
      assert AllLines(a) + prev + last == AllLines(a) + (prev + last);
    }
  }

  lemma LinesUpToStep(a: seq<Zone>, b: seq<Zone>, k: nat)
    requires 0 < k <= |b|
    ensures LinesUpTo(a + b, |a| + k) == LinesUpTo(a + b, |a| + k - 1) + ZoneLines(b[k - 1])
  {
    assert (a + b)[|a| + k - 1] == b[k - 1];
  }

  /** Lines of two zone lists in a row are the lines of each, in order. */
  lemma AllLinesConcat(a: seq<Zone>, b: seq<Zone>)
    ensures AllLines(a + b) == AllLines(a) + AllLines(b)
  {
    LinesUpToConcat(a, b, |b|);
  }

  lemma {:induction false} PeerLinesConcat(zc: ZoneBirdConf, a: seq<Peer>, b: seq<Peer>)
    ensures PeerLines(zc, a + b) == PeerLines(zc, a) + PeerLines(zc, b)
    decreases |b|
  {
    if b == [] {
      assert a + b == a;
    } else {
      var init := b[..|b| - 1];
      assert (a + b)[..|a + b| - 1] == a + init;
      assert (a + b)[|a + b| - 1] == b[|b| - 1];
      PeerLinesConcat(zc, a, init);
    }
  }

  lemma {:induction false} PeerLinesAreBirdPeers(zc: ZoneBirdConf, peers: seq<Peer>)
    ensures PeerLines(zc, peers) == LinesOf(BirdPeers(zc, peers))
    decreases |peers|
  {
    if peers != [] {
      var head := (if peers[0].route.Bird? then [(zc, peers[0])] else []);
      PeerLinesAreBirdPeers(zc, peers[1..]);
      PeerLinesConcat(zc, [peers[0]], peers[1..]);
      assert [peers[0]] + peers[1..] == peers;
      assert PeerLines(zc, [peers[0]]) == LinesOf(head) by {
        assert [peers[0]][..0] == [];
      }
      LinesOfConcat(head, BirdPeers(zc, peers[1..]));
    }
  }

  lemma ZoneLinesAreEligible(z: Zone)
    ensures ZoneLines(z) == LinesOf(ZoneEligible(z))
  {
    if z.bird.Some? {
      PeerLinesAreBirdPeers(z.bird.value, z.peers);
    }
  }

  /** Exactly one statement per eligible peer, in zone order and then in
      peer order. */
  lemma {:induction false} OneLinePerEligiblePeer(zones: seq<Zone>)
    ensures AllLines(zones) == LinesOf(Eligible(zones))
    decreases |zones|
  {
    if zones != [] {
      var z := zones[0];
      OneLinePerEligiblePeer(zones[1..]);
      AllLinesConcat([z], zones[1..]);
      assert [z] + zones[1..] == zones;
      assert AllLines([z]) == ZoneLines(z) by {
        assert LinesUpTo([z], 1) == LinesUpTo([z], 0) + ZoneLines(z);
      }
      ZoneLinesAreEligible(z);
      LinesOfConcat(ZoneEligible(z), Eligible(zones[1..]));
    }
  }

  /** The same, position by position. */
  lemma LineAt(zones: seq<Zone>, k: nat)
    requires k < |Eligible(zones)|
    ensures |AllLines(zones)| == |Eligible(zones)|
    ensures AllLines(zones)[k] == LineOf(Eligible(zones)[k].0, Eligible(zones)[k].1)
  {
    OneLinePerEligiblePeer(zones);
  }

  lemma {:induction false} BirdPeersMembers(zc: ZoneBirdConf, peers: seq<Peer>, zc': ZoneBirdConf, p: Peer)
    ensures (zc', p) in BirdPeers(zc, peers) <==> zc' == zc && p in peers && p.route.Bird?
    decreases |peers|
  {
    if peers != [] {
      BirdPeersMembers(zc, peers[1..], zc', p);
      assert peers == [peers[0]] + peers[1..];
    }
  }

  /** Only BIRD-enabled zones and only BIRD peers contribute. */
  lemma {:induction false} EligibleMembers(zones: seq<Zone>, zc: ZoneBirdConf, p: Peer)
    ensures (zc, p) in Eligible(zones) <==>
      exists i :: 0 <= i < |zones| && zones[i].bird == Some(zc) && p in zones[i].peers && p.route.Bird?
    decreases |zones|
  {
    if zones != [] {
      EligibleMembers(zones[1..], zc, p);
      if zones[0].bird.Some? {
        BirdPeersMembers(zones[0].bird.value, zones[0].peers, zc, p);
      }
      if exists i :: 0 <= i < |zones| && zones[i].bird == Some(zc) && p in zones[i].peers && p.route.Bird? {
        var i :| 0 <= i < |zones| && zones[i].bird == Some(zc) && p in zones[i].peers && p.route.Bird?;
        if i > 0 {
          assert zones[1..][i - 1] == zones[i];
        }
      }
    }
  }

  /** The first element of joined lines is a complete first line. */
  lemma JoinFirstLine(first: string, rest: seq<string>)
    ensures var t := Join([first] + rest);
      |t| >= |first| && t[..|first|] == first && (|t| == |first| || t[|first|] == '\n')
  {
    var lines := [first] + rest;
    if rest != [] {
      assert lines[1..] == rest;
      var t := first + "\n" + Join(rest);
      assert t[..|first|] == first;
    }
  }

  /** A successful render starts with the header as a line of its own. */
  lemma HeaderFirstLine(zones: seq<Zone>)
    requires RenderSpec(zones).Rendered?
    ensures '\n' !in Header
    ensures var t := RenderSpec(zones).text;
      |t| >= |Header| && t[..|Header|] == Header && (|t| == |Header| || t[|Header|] == '\n')
  {
    JoinFirstLine(Header, AllLines(zones));
  }

  /** Every statement ends with the `;` that closes it. */
  lemma PeerLineEnd(zc: ZoneBirdConf, name: string, conf: Config, lookup: IfnameLookup)
    ensures var l := PeerLine(zc, name, conf, lookup); |l| > 0 && l[|l| - 1] == ';'
  {
  }

  lemma {:induction false} JoinLast(lines: seq<string>)
    requires |lines| > 0 && |lines[|lines| - 1]| > 0
    ensures var t := Join(lines); |t| > 0 && t[|t| - 1] == lines[|lines| - 1][|lines[|lines| - 1]| - 1]
    decreases |lines|
  {
    if |lines| > 1 {
      JoinLast(lines[1..]);
    }
  }

  /** The text has no trailing newline: it ends with the header's last
      character or a statement's closing `;`. */
  lemma NoTrailingNewline(zones: seq<Zone>)
    requires RenderSpec(zones).Rendered?
    ensures var t := RenderSpec(zones).text; |t| > 0 && t[|t| - 1] != '\n'
  {
    var lines := [Header] + AllLines(zones);
    if AllLines(zones) != [] {
      OneLinePerEligiblePeer(zones);
      var k := |AllLines(zones)| - 1;
      LineAt(zones, k);
      var e := Eligible(zones)[k];
      PeerLineEnd(e.0, e.1.name, e.1.route.conf, e.1.ifname);
      assert lines[|lines| - 1] == AllLines(zones)[k];
    }
    JoinLast(lines);
  }

  /** A roster without BIRD peers in BIRD-enabled zones, none of them
      locked, renders to the header alone. */
  lemma HeaderOnly(zones: seq<Zone>)
    requires !AnyBlocked(zones)
    requires forall i, p :: 0 <= i < |zones| && zones[i].bird.Some? && p in zones[i].peers ==> !p.route.Bird?
    ensures RenderSpec(zones) == Rendered(Header)
  {
    OneLinePerEligiblePeer(zones);
    if Eligible(zones) != [] {
      var e := Eligible(zones)[0];
      EligibleMembers(zones, e.0, e.1);
    }
  }

  lemma {:induction false} LinesUpToPointwise(a: seq<Zone>, b: seq<Zone>, n: nat)
    requires n <= |a| && n <= |b|
    requires forall i :: 0 <= i < n ==> ZoneLines(a[i]) == ZoneLines(b[i])
    ensures LinesUpTo(a, n) == LinesUpTo(b, n)
  {
    if n > 0 {
      LinesUpToPointwise(a, b, n - 1);
    }
  }

  /** The peer lock of a zone without BIRD settings is never probed: its
      state does not change the outcome. */
  lemma NonBirdZoneLockIgnored(zones: seq<Zone>, i: nat, lockFree: bool)
    requires i < |zones| && zones[i].bird.None?
    ensures RenderSpec(zones[i := zones[i].(lockFree := lockFree)]) == RenderSpec(zones)
  {
    var zones' := zones[i := zones[i].(lockFree := lockFree)];
    LinesUpToPointwise(zones, zones', |zones|);
    assert forall k :: 0 <= k < |zones| ==> (Blocks(zones[k]) <==> Blocks(zones'[k]));
  }

  // Proof steps for the two example statements below. They say nothing
  // about peerd beyond `PeerLine` itself: `LineFromParts` lets a caller
  // name the printed parts of a statement, and the lemmas from
  // `ExampleAddress` to `ExamplePortAs` evaluate printed numbers and
  // string-literal concatenations one piece at a time, which keeps each
  // solver query small.

  lemma LineFromParts(zc: ZoneBirdConf, name: string, conf: Config, lookup: IfnameLookup,
                      ip: string, port: string, asn: string, iface: string)
    requires Ipv4.Show(conf.endpoint) == ip && PortClause(conf.endpointPort) == port
    requires Decimal.Show(conf.neighborAs) == asn && IfClause(lookup) == iface
    ensures PeerLine(zc, name, conf, lookup)
         == "protocol bgp " + (zc.protocolPrefix + name) + " from " + zc.bgpTemplate
            + " { neighbor " + ip + " " + port + " as " + asn + "; " + iface + " };"
  {
  }

  lemma ExampleAddress()
    ensures Ipv4.Show(Ipv4.Addr(10, 0, 0, 5)) == "10.0.0.5"
  {
    ExampleNumbers();
  }

  lemma ExampleHead()
    ensures "protocol bgp " + ("bgp-" + "alice") + " from " + "t_bgp" + " { neighbor "
         == "protocol bgp bgp-alice from t_bgp { neighbor "
  {
  }

  lemma ExampleBareNeighbor()
    ensures "protocol bgp bgp-alice from t_bgp { neighbor " + "10.0.0.5" + " " + ""
         == "protocol bgp bgp-alice from t_bgp { neighbor 10.0.0.5 "
  {
  }

  lemma ExampleBareAs()
    ensures "protocol bgp bgp-alice from t_bgp { neighbor 10.0.0.5 " + " as " + "65001"
         == "protocol bgp bgp-alice from t_bgp { neighbor 10.0.0.5  as 65001"
  {
  }

  lemma ExamplePortClause()
    ensures PortClause(Some(179)) == " port 179 "
  {
    assert Decimal.Show(1) == "1";
    assert Decimal.Show(17) == "17";
    assert Decimal.Show(179) == "179";
  }

  lemma ExamplePortNeighbor()
    ensures "protocol bgp bgp-alice from t_bgp { neighbor " + "10.0.0.5" + " " + " port 179 "
         == "protocol bgp bgp-alice from t_bgp { neighbor 10.0.0.5  port 179 "
  {
  }

  lemma ExamplePortAs()
    ensures "protocol bgp bgp-alice from t_bgp { neighbor 10.0.0.5  port 179 " + " as " + "65001"
         == "protocol bgp bgp-alice from t_bgp { neighbor 10.0.0.5  port 179  as 65001"
  {
  }

  /** Peer alice of a zone with prefix `bgp-` and template `t_bgp`, endpoint
      10.0.0.5 and AS 65001: no port, no interface. */
  lemma ExampleLineWithoutPort()
    ensures PeerLine(ZoneBirdConf("bgp-", "t_bgp"), "alice", Config(Ipv4.Addr(10, 0, 0, 5), None, 65001), IfnameNone)
         == "protocol bgp bgp-alice from t_bgp { neighbor 10.0.0.5  as 65001;  };"
  {
    ExampleNumbers();
    ExampleAddress();
    LineFromParts(ZoneBirdConf("bgp-", "t_bgp"), "alice", Config(Ipv4.Addr(10, 0, 0, 5), None, 65001), IfnameNone,
                  "10.0.0.5", "", "65001", "");
    ExampleHead();
    ExampleBareNeighbor();
    ExampleBareAs();
  }

  /** The same peer with port 179: the neighbor clause gains ` port 179 `. */
  lemma ExampleLineWithPort()
    ensures PeerLine(ZoneBirdConf("bgp-", "t_bgp"), "alice", Config(Ipv4.Addr(10, 0, 0, 5), Some(179), 65001), IfnameNone)
         == "protocol bgp bgp-alice from t_bgp { neighbor 10.0.0.5  port 179  as 65001;  };"
  {
    ExampleNumbers();
    ExampleAddress();
    ExamplePortClause();
    LineFromParts(ZoneBirdConf("bgp-", "t_bgp"), "alice", Config(Ipv4.Addr(10, 0, 0, 5), Some(179), 65001), IfnameNone,
                  "10.0.0.5", " port 179 ", "65001", "");
    ExampleHead();
    ExamplePortNeighbor();
    ExamplePortAs();
  }

  /** A failed lookup and an empty one print alike; a found name adds the
      interface clause just before the closing ` };` and nothing else. */
  lemma InterfaceClause(zc: ZoneBirdConf, name: string, conf: Config, ifname: string)
    ensures PeerLine(zc, name, conf, IfnameError) == PeerLine(zc, name, conf, IfnameNone)
    ensures var base := PeerLine(zc, name, conf, IfnameNone);
      |base| >= 3 && base[|base| - 3..] == " };" &&
      PeerLine(zc, name, conf, IfnameFound(ifname)) == base[..|base| - 3] + "interface '" + ifname + "';" + " };"
  {
    var stem := "protocol bgp " + (zc.protocolPrefix + name) + " from " + zc.bgpTemplate
      + " { neighbor " + Ipv4.Show(conf.endpoint) + " " + PortClause(conf.endpointPort)
      + " as " + Decimal.Show(conf.neighborAs) + "; ";
    var base := PeerLine(zc, name, conf, IfnameNone);
    assert base == stem + "" + " };";
    assert base[..|base| - 3] == stem;
  }
}

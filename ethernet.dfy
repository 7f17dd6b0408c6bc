/** The Ethernet status line of `MacEthernetStatus`: which peers count as
    active, which show an age label, and the compact status text. Times are
    integer milliseconds; the current time is a parameter. */
module EthernetStatus {
  import opened Strings

  datatype Peer = Peer(macAddress: string, rttMs: int, lastPingTimeMs: int)

  /** A peer pinged within this many milliseconds is active. */
  const ActiveWindowMs: int := 60000
  /** A peer last pinged more than this many milliseconds ago shows its age. */
  const AgeLabelAfterMs: int := 30000

  predicate IsActive(peer: Peer, nowMs: int)
  {
    nowMs - peer.lastPingTimeMs < ActiveWindowMs
  }

  predicate ShowsAgeLabel(peer: Peer, nowMs: int)
  {
    nowMs - peer.lastPingTimeMs > AgeLabelAfterMs
  }

  /** `peers.filter(IsActive)`: the active peers, in their order. */
  function ActivePeers(peers: seq<Peer>, nowMs: int): (r: seq<Peer>)
    ensures |r| <= |peers|
    ensures forall p :: p in r <==> p in peers && IsActive(p, nowMs)
    ensures |r| == |peers| <==> forall i :: 0 <= i < |peers| ==> IsActive(peers[i], nowMs)
  {
    if peers == [] then []
    else
      var rest := ActivePeers(peers[1..], nowMs);
      assert forall i :: 1 <= i < |peers| ==> peers[i] == peers[1..][i - 1];
      if IsActive(peers[0], nowMs) then [peers[0]] + rest else rest
  }

  /** Each active peer is kept as often as it occurs, so the active count
      is the number of active entries, repeats included. */
  lemma {:induction false} ActivePeersMultiplicity(peers: seq<Peer>, nowMs: int, x: Peer)
    ensures multiset(ActivePeers(peers, nowMs))[x] == if IsActive(x, nowMs) then multiset(peers)[x] else 0
    decreases |peers|
  {
    if peers != [] {
      ActivePeersMultiplicity(peers[1..], nowMs, x);
      assert peers == [peers[0]] + peers[1..];
      assert multiset(peers) == multiset{peers[0]} + multiset(peers[1..]);
      var rest := ActivePeers(peers[1..], nowMs);
      if IsActive(peers[0], nowMs) {
        assert multiset([peers[0]] + rest) == multiset{peers[0]} + multiset(rest);
      }
    }
  }

  function ActivePeerCount(peers: seq<Peer>, nowMs: int): nat
  {
    |ActivePeers(peers, nowMs)|
  }

  /** As time passes without new pings the active count never grows. */
  lemma {:induction false} ActiveCountMonotone(peers: seq<Peer>, nowMs: int, laterMs: int)
    requires nowMs <= laterMs
    ensures ActivePeerCount(peers, laterMs) <= ActivePeerCount(peers, nowMs)
  {
    if peers != [] {
      ActiveCountMonotone(peers[1..], nowMs, laterMs);
    }
  }

  /** The two thresholds are independent: between them a peer is both
      active and labelled with its age; at or past a minute it is labelled
      and inactive; within thirty seconds it is active and unlabelled. */
  lemma ThresholdsIndependent(peer: Peer, nowMs: int)
    ensures var age := nowMs - peer.lastPingTimeMs;
      && (AgeLabelAfterMs < age < ActiveWindowMs ==> IsActive(peer, nowMs) && ShowsAgeLabel(peer, nowMs))
      && (age >= ActiveWindowMs ==> !IsActive(peer, nowMs) && ShowsAgeLabel(peer, nowMs))
      && (age <= AgeLabelAfterMs ==> IsActive(peer, nowMs) && !ShowsAgeLabel(peer, nowMs))
  {
  }

  /** The bezel text: `Ethernet: <description>`, followed by the active
      peer count when there is one. */
  function StatusText(description: string, peers: seq<Peer>, nowMs: int): (r: string)
    ensures "Ethernet: " + description <= r
    ensures ActivePeerCount(peers, nowMs) == 0 <==> r == "Ethernet: " + description
  {
    var text := "Ethernet: " + description;
    var count := ActivePeerCount(peers, nowMs);
    if count > 0 then text + " (" + NatToString(count) + " peer" + (if count == 1 then "" else "s") + ")"
    else text
  }

  /** Nothing is appended when no peer is active; ` (1 peer)` when one is;
      otherwise ` (<n> peers)` where the digits read back as the count. */
  lemma StatusTextCases(description: string, peers: seq<Peer>, nowMs: int)
    ensures var base := "Ethernet: " + description;
      var text := StatusText(description, peers, nowMs);
      var count := ActivePeerCount(peers, nowMs);
      && base <= text
      && (count == 0 <==> text == base)
      && (count == 1 <==> text == base + " (1 peer)")
      && (count >= 2 ==>
            var digits := text[|base| + 2..|text| - 7];
            && EndsWith(text, " peers)")
            && (forall i :: 0 <= i < |digits| ==> IsDigit(digits[i]))
            && DecimalValue(digits) == count)
  {
    var base := "Ethernet: " + description;
    var text := StatusText(description, peers, nowMs);
    var count := ActivePeerCount(peers, nowMs);
    var digits := NatToString(count);
    if count == 1 {
      assert digits == "1";
    } else if count >= 2 {
      assert text == base + " (" + digits + " peers)";
      DecimalOfNatToString(count);
      assert text[|base| + 2..|text| - 7] == digits;
      assert text[|text| - 7..] == " peers)";
      assert text[|text| - 2] == 's' != (base + " (1 peer)")[|base| + 7];
    }
  }
}

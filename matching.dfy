/**
 Matching logos against host boxes (torsos, then headgears) and counting the
 merchandise found in one frame.
 */
module Matching {
  import opened Geometry

  /** The hosts that contain the centre of `logo`, in host order. */
  function HostsContaining(logo: Box, hosts: seq<Box>): (r: seq<Box>)
    ensures |r| <= |hosts|
    ensures forall k :: 0 <= k < |r| ==> r[k] in hosts && LogoInside(logo, r[k])
  {
    if hosts == [] then []
    else
      var h := hosts[|hosts| - 1];
      HostsContaining(logo, hosts[..|hosts| - 1]) + (if LogoInside(logo, h) then [h] else [])
  }

  /** `merch_boxes`: for each logo in turn, the hosts that contain it.
      With no hosts, no logo matches anything. */
  function Matches(logos: seq<Box>, hosts: seq<Box>): (r: seq<Box>)
    ensures hosts == [] ==> r == []
  {
    if logos == [] then []
    else Matches(logos[..|logos| - 1], hosts) + HostsContaining(logos[|logos| - 1], hosts)
  }

  /** The index pairs (i, j) such that logo i lies inside host j. */
  function MatchingPairs(logos: seq<Box>, hosts: seq<Box>): set<(int, int)>
  {
    set i, j | 0 <= i < |logos| && 0 <= j < |hosts| && LogoInside(logos[i], hosts[j]) :: (i, j)
  }

  /** The nested matching loop and `merch_count = len(merch_boxes)`. */
  method MatchMerch(logos: seq<Box>, torsos: seq<Box>, headgears: seq<Box>)
    returns (merchBoxes: seq<Box>, merchCount: nat)
    ensures merchBoxes == Matches(logos, torsos + headgears)
    ensures merchCount == |merchBoxes|
    ensures merchCount == |MatchingPairs(logos, torsos + headgears)|
  {
    merchBoxes := [];
    for i := 0 to |logos|
      invariant merchBoxes == Matches(logos[..i], torsos + headgears)
    {
      var logo := logos[i];
      var hosts := torsos + headgears;
      for j := 0 to |hosts|
        invariant merchBoxes == Matches(logos[..i], hosts) + HostsContaining(logo, hosts[..j])
      {
        assert hosts[..j + 1][..j] == hosts[..j];
        if LogoInside(logo, hosts[j]) {
          merchBoxes := merchBoxes + [hosts[j]];
        }
      }
      assert hosts[..|hosts|] == hosts;
      assert logos[..i + 1][..i] == logos[..i];
    }
    assert logos[..|logos|] == logos;
    merchCount := |merchBoxes|;
    MatchCountIsPairCount(logos, torsos + headgears);
  }

  /** Every merch box is one of the hosts, and a host is a merch box exactly
      when some logo lies inside it. */
  lemma {:induction false} MatchesMembers(logos: seq<Box>, hosts: seq<Box>, b: Box)
    ensures b in Matches(logos, hosts) <==> b in hosts && exists l :: l in logos && LogoInside(l, b)
  {
    if logos != [] {
      var front, last := logos[..|logos| - 1], logos[|logos| - 1];
      MatchesMembers(front, hosts, b);
      HostsContainingMembers(last, hosts, b);
      if b in hosts && exists l :: l in logos && LogoInside(l, b) {
        var l :| l in logos && LogoInside(l, b);
        if l != last {
          assert l in front;
        }
      }
    }
  }

  lemma {:induction false} HostsContainingMembers(logo: Box, hosts: seq<Box>, b: Box)
    ensures b in HostsContaining(logo, hosts) <==> b in hosts && LogoInside(logo, b)
  {
    if hosts != [] {
      var front, last := hosts[..|hosts| - 1], hosts[|hosts| - 1];
      HostsContainingMembers(logo, front, b);
      assert hosts == front + [last];
    }
  }

  lemma {:induction false} HostsContainingAppend(logo: Box, a: seq<Box>, b: seq<Box>)
    ensures HostsContaining(logo, a + b) == HostsContaining(logo, a) + HostsContaining(logo, b)
  {
    if b == [] {
      assert a + b == a;
    } else {
      var front, last := b[..|b| - 1], b[|b| - 1];
      var ab := a + b;
      assert ab[..|ab| - 1] == a + front && ab[|ab| - 1] == last;
      HostsContainingAppend(logo, a, front);
    }
  }

  /** One step of the outer loop: appending a logo appends its matches. */
  lemma MatchesSnoc(s: seq<Box>, last: Box, hosts: seq<Box>)
    ensures Matches(s + [last], hosts) == Matches(s, hosts) + HostsContaining(last, hosts)
  {
    assert (s + [last])[..|s|] == s;
  }

  lemma {:induction false} MatchesAppend(a: seq<Box>, b: seq<Box>, hosts: seq<Box>)
    ensures Matches(a + b, hosts) == Matches(a, hosts) + Matches(b, hosts)
  {
    if b == [] {
      assert a + b == a;
    } else {
      var front, last := b[..|b| - 1], b[|b| - 1];
      assert b == front + [last];
      assert a + b == (a + front) + [last];
      MatchesAppend(a, front, hosts);
      MatchesSnoc(a + front, last, hosts);
      MatchesSnoc(front, last, hosts);
    }
  }

  /** Order of `merch_boxes`: logos in turn; for one logo, the matching torsos
      and then the matching headgears, each in input order. */
  lemma MatchOrder(logo: Box, rest: seq<Box>, torsos: seq<Box>, headgears: seq<Box>)
    ensures Matches([logo] + rest, torsos + headgears)
            == HostsContaining(logo, torsos) + HostsContaining(logo, headgears)
               + Matches(rest, torsos + headgears)
  {
    MatchesAppend([logo], rest, torsos + headgears);
    assert [logo][..0] == [];
    HostsContainingAppend(logo, torsos, headgears);
  }

  /** Without logos, or without torsos and headgears, nothing is counted. */
  lemma NothingToMatch(logos: seq<Box>, torsos: seq<Box>, headgears: seq<Box>)
    requires logos == [] || (torsos == [] && headgears == [])
    ensures Matches(logos, torsos + headgears) == []
    ensures |MatchingPairs(logos, torsos + headgears)| == 0
  {
    MatchCountIsPairCount(logos, torsos + headgears);
  }

  /** The pairs whose logo index is `i` and whose host index is below `m`. */
  function RowPairs(i: int, logo: Box, hosts: seq<Box>, m: nat): set<(int, int)>
    requires m <= |hosts|
  {
    set j | 0 <= j < m && LogoInside(logo, hosts[j]) :: (i, j)
  }

  lemma {:induction false} RowPairsCount(i: int, logo: Box, hosts: seq<Box>, m: nat)
    requires m <= |hosts|
    ensures |RowPairs(i, logo, hosts, m)| == |HostsContaining(logo, hosts[..m])|
  {
    if m > 0 {
      RowPairsCount(i, logo, hosts, m - 1);
      assert hosts[..m][..m - 1] == hosts[..m - 1];
      var extra := if LogoInside(logo, hosts[m - 1]) then {(i, m - 1)} else {};
      assert RowPairs(i, logo, hosts, m) == RowPairs(i, logo, hosts, m - 1) + extra;
      assert (i, m - 1) !in RowPairs(i, logo, hosts, m - 1);
    }
  }

  /** `merch_count` is the number of (logo, host) index pairs with the logo
      inside the host: a host is counted once for every logo it contains. */
  lemma {:induction false} MatchCountIsPairCount(logos: seq<Box>, hosts: seq<Box>)
    ensures |Matches(logos, hosts)| == |MatchingPairs(logos, hosts)|
  {
    if logos != [] {
      var n := |logos| - 1;
      var front := logos[..n];
      MatchCountIsPairCount(front, hosts);
      RowPairsCount(n, logos[n], hosts, |hosts|);
      assert hosts[..|hosts|] == hosts;
      PairsSplit(logos, hosts);
    }
  }

  /** The pairs of a non-empty logo list: those of all but the last logo, and
      the row of the last one; the two share no pair. */
  lemma PairsSplit(logos: seq<Box>, hosts: seq<Box>)
    requires logos != []
    ensures var n := |logos| - 1;
            var row := RowPairs(n, logos[n], hosts, |hosts|);
            && MatchingPairs(logos, hosts) == MatchingPairs(logos[..n], hosts) + row
            && MatchingPairs(logos[..n], hosts) * row == {}
  {
    var n := |logos| - 1;
    var front := logos[..n];
    var row := RowPairs(n, logos[n], hosts, |hosts|);
    forall p | p in MatchingPairs(logos, hosts)
      ensures p in MatchingPairs(front, hosts) + row
    {
      var (i, j) := p;
      if i < n {
        assert front[i] == logos[i];
      }
    }
    forall p | p in MatchingPairs(front, hosts) + row
      ensures p in MatchingPairs(logos, hosts)
    {
      var (i, j) := p;
      if p in MatchingPairs(front, hosts) {
        assert front[i] == logos[i];
      }
    }
  }
}

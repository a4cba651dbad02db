/** Light scrub: a majority vote over projection hashes among the configured voters. */
module LightScrub {
  import opened Bytes
  import opened Collections

  /** A projection hash; it is only ever compared, and 0 stands for the all-zero hash. */
  type Hash = nat

  /** What one peer answers: not yet, nothing usable, or a hash. */
  datatype Answer = NotReady | Unreachable | Reported(hash: Hash)

  /** Reported hashes by peer address. */
  type Reports<!A> = map<A, Hash>

  function Voters<A(==)>(peers: Reports<A>, hash: Hash): set<A>
  {
    set a | a in peers && peers[a] == hash
  }

  /** Votes for a hash: the leader's own and the peers'. */
  function Votes<A(==)>(leader: Hash, peers: Reports<A>, hash: Hash): nat
  {
    (if leader == hash then 1 else 0) + |Voters(peers, hash)|
  }

  predicate Majority<A(==)>(leader: Hash, peers: Reports<A>, configured: nat, hash: Hash)
  {
    Votes(leader, peers, hash) > configured / 2
  }

  /** No voter votes twice. */
  lemma VotesAddUp<A>(leader: Hash, peers: Reports<A>, h1: Hash, h2: Hash)
    requires h1 != h2
    ensures Votes(leader, peers, h1) + Votes(leader, peers, h2) <= 1 + |peers|
  {
    var a, b := Voters(peers, h1), Voters(peers, h2);
    SubsetSize(a + b, peers.Keys);
    assert a !! b && |a + b| == |a| + |b| && |peers.Keys| == |peers|;
  }

  /** At most one hash can have the majority, so the order votes are counted in does not matter. */
  lemma MajorityUnique<A>(leader: Hash, peers: Reports<A>, configured: nat, h1: Hash, h2: Hash)
    requires 1 + |peers| <= configured
    requires Majority(leader, peers, configured, h1) && Majority(leader, peers, configured, h2)
    ensures h1 == h2
  {
    if h1 != h2 {
      VotesAddUp(leader, peers, h1, h2);
    }
  }

  /** The vote table of majorityHash, filled in any order. */
  method CountVotes<A(==)>(leader: Hash, peers: Reports<A>) returns (votes: map<Hash, nat>)
    ensures forall h :: h in votes ==> votes[h] == Votes(leader, peers, h)
    ensures forall h :: h !in votes ==> Votes(leader, peers, h) == 0
  {
    votes := map[leader := 1];
    var done: Reports<A> := map[];
    var todo := peers.Keys;
    Uncounted<A>(leader);
    while todo != {}
      invariant todo <= peers.Keys && done == map a | a in peers && a !in todo :: peers[a]
      invariant forall h :: h in votes ==> votes[h] == Votes(leader, done, h)
      invariant forall h :: h !in votes ==> Votes(leader, done, h) == 0
      decreases todo
    {
      hide Votes;
      var a :| a in todo;
      var h := peers[a];
      OneVote(leader, done, a, h);
      done := done[a := h];
      todo := todo - {a};
      votes := votes[h := (if h in votes then votes[h] else 0) + 1];
    }
    assert done == peers;
  }

  lemma Uncounted<A>(leader: Hash)
    ensures forall h :: Votes<A>(leader, map[], h) == if h == leader then 1 else 0
  {
    assert forall h :: Voters<A>(map[], h) == {};
  }

  lemma OneVote<A>(leader: Hash, done: Reports<A>, a: A, h: Hash)
    requires a !in done
    ensures forall g :: Votes(leader, done[a := h], g) == Votes(leader, done, g) + if g == h then 1 else 0
  {
    assert Voters(done[a := h], h) == Voters(done, h) + {a};
    assert forall g :: g != h ==> Voters(done[a := h], g) == Voters(done, g);
  }

  method MajorityHash<A(==)>(leader: Hash, peers: Reports<A>, configured: nat) returns (hash: Hash, ok: bool)
    ensures ok ==> Majority(leader, peers, configured, hash)
    ensures !ok ==> forall h :: !Majority(leader, peers, configured, h)
  {
    hide Votes;
    var votes := CountVotes(leader, peers);
    var entries := votes.Keys;
    while entries != {}
      invariant entries <= votes.Keys
      invariant forall h :: h in votes && h !in entries ==> votes[h] <= configured / 2
      decreases entries
    {
      var h :| h in entries;
      if votes[h] > configured / 2 {
        return h, true;
      }
      entries := entries - {h};
    }
    hash, ok := 0, false;
  }

  predicate Conclusive<A(==)>(addrs: seq<A>, answer: A -> Answer)
  {
    && (forall a :: a in addrs ==> answer(a) != NotReady && answer(a) != Reported(0))
    && (addrs != [] ==> exists a :: a in addrs && answer(a).Reported?)
  }

  /** collectPeerHashes: unreachable peers are left out, an unready or hashless one aborts. */
  method CollectPeerHashes<A(==)>(addrs: seq<A>, answer: A -> Answer) returns (hashes: Reports<A>, ok: bool)
    ensures ok <==> Conclusive(addrs, answer)
    ensures ok ==> |hashes| <= |addrs| && forall a :: a in hashes <==> a in addrs && answer(a).Reported?
    ensures ok ==> forall a :: a in hashes ==> answer(a) == Reported(hashes[a])
  {
    hashes := map[];
    for i := 0 to |addrs|
      invariant |hashes| <= i && forall a :: a in hashes <==> a in addrs[..i] && answer(a).Reported?
      invariant forall a :: a in hashes ==> answer(a) == Reported(hashes[a])
      invariant forall a :: a in addrs[..i] ==> answer(a) != NotReady && answer(a) != Reported(0)
    {
      var addr := addrs[i];
      assert addrs[..i + 1] == addrs[..i] + [addr];
      assert addr in addrs;
      var reply := answer(addr);
      if reply == NotReady || reply == Reported(0) {
        return hashes, false;
      }
      if reply.Reported? {
        Grows(hashes, addr, reply.hash);
        hashes := hashes[addr := reply.hash];
      }
    }
    assert addrs[..|addrs|] == addrs;
    ok := addrs == [] || hashes != map[];
    assert ok ==> Conclusive(addrs, answer) by {
      if hashes != map[] {
        var a :| a in hashes;
      }
    }
  }

  lemma Grows<A>(m: Reports<A>, a: A, h: Hash)
    ensures |m[a := h]| <= |m| + 1
  {
    assert m[a := h].Keys == m.Keys + {a};
    assert |m[a := h]| == |m[a := h].Keys| && |m| == |m.Keys|;
  }

  datatype Verdict<A> = Tie | Decided(selfRebuild: bool, rebuild: set<A>)

  /** applyQuorumVerdict: rebuilds go to exactly the voters whose hash is not the majority's. */
  method ApplyQuorumVerdict<A(==)>(leader: Hash, peers: Reports<A>, configured: nat) returns (v: Verdict<A>)
    requires 1 + |peers| <= configured
    ensures v == Tie <==> forall h :: !Majority(leader, peers, configured, h)
    ensures forall h :: Majority(leader, peers, configured, h) ==>
              v == Decided(leader != h, set a | a in peers && peers[a] != h)
  {
    hide Majority;
    var hash, ok := MajorityHash(leader, peers, configured);
    if !ok {
      return Tie;
    }
    forall h | Majority(leader, peers, configured, h)
      ensures h == hash
    {
      MajorityUnique(leader, peers, configured, h, hash);
    }
    v := Decided(leader != hash, set a | a in peers && peers[a] != hash);
  }

  /** The hashes the peers reported. */
  ghost function ReportsOf<A(!new)>(addrs: seq<A>, answer: A -> Answer): Reports<A>
  {
    map a | a in addrs && answer(a).Reported? :: answer(a).hash
  }

  /** The hash has the majority of the leader and all configured peers. */
  ghost predicate Wins<A(!new)>(leader: Hash, addrs: seq<A>, answer: A -> Answer, h: Hash)
  {
    Majority(leader, ReportsOf(addrs, answer), 1 + |addrs|, h)
  }

  /** RunOnce on the leader: None when the leader has no hash of its own or the check is
      inconclusive; otherwise the verdict, whose rebuilds are exactly the voters that differ
      from the majority. */
  method RunOnce<A(==, !new)>(leader: Hash, addrs: seq<A>, answer: A -> Answer) returns (v: Option<Verdict<A>>)
    ensures v == None <==> leader == 0 || !Conclusive(addrs, answer)
    ensures v == Some(Tie) ==> forall h :: !Wins(leader, addrs, answer, h)
    ensures v.Some? && v.value.Decided? ==>
              exists h :: Wins(leader, addrs, answer, h) && h != 0
                && v.value.selfRebuild == (leader != h)
                && forall a :: a in v.value.rebuild <==> a in addrs && answer(a).Reported? && answer(a).hash != h
  {
    hide Conclusive, Majority;
    if leader == 0 {
      return None;
    }
    var hashes, ok := CollectPeerHashes(addrs, answer);
    if !ok {
      return None;
    }
    var configured := 1 + |addrs|;
    assert hashes == ReportsOf(addrs, answer);
    var verdict := ApplyQuorumVerdict(leader, hashes, configured);
    if verdict.Decided? {
      ghost var h :| Majority(leader, hashes, configured, h);
      assert Wins(leader, addrs, answer, h);
      assert h != 0 by {
        ZeroNeverWins(leader, addrs, answer);
      }
    }
    v := Some(verdict);
  }

  lemma ZeroNeverWins<A(!new)>(leader: Hash, addrs: seq<A>, answer: A -> Answer)
    requires leader != 0 && Conclusive(addrs, answer)
    ensures !Wins(leader, addrs, answer, 0)
  {
    assert Voters(ReportsOf(addrs, answer), 0) == {};
  }
}

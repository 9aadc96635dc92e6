/** The longest-valid-chain rule: which peer chain, if any, replaces the local one. */
module Consensus {
  import opened LedgerTypes
  import opened ChainValidation

  /** The two variables the resolver carries across peers: the length bar and the chosen chain. */
  datatype Selection = Selection(maxLength: nat, newChain: Option<seq<Block>>)

  /** A reply that beats the bar: status 200, strictly longer, and valid. */
  predicate Eligible(hash: Block -> string, validProof: (int, int) -> bool, response: PeerResponse, bar: int)
  {
    response.status == StatusOk && |response.chain| > bar && IsValidChain(hash, validProof, response.chain)
  }

  /** The resolver's pass over the replies in the order the peers were asked: a reply that
      beats the current bar becomes the candidate and raises the bar to its length. */
  function Scan(hash: Block -> string, validProof: (int, int) -> bool, responses: seq<PeerResponse>, localLength: nat): (s: Selection)
    decreases |responses|
  {
    if responses == [] then Selection(localLength, None)
    else
      var before := Scan(hash, validProof, responses[..|responses| - 1], localLength);
      var response := responses[|responses| - 1];
      if response.status == StatusOk && |response.chain| > before.maxLength && IsValidChain(hash, validProof, response.chain)
      then Selection(|response.chain|, Some(response.chain))
      else before
  }

  /** Reply `i` is longer than the local chain and valid, no eligible reply is longer, and
      every eligible reply before it is strictly shorter: it is the first longest one. */
  ghost predicate IsFirstLongest(hash: Block -> string, validProof: (int, int) -> bool, responses: seq<PeerResponse>, localLength: nat, i: int)
  {
    && 0 <= i < |responses|
    && Eligible(hash, validProof, responses[i], localLength)
    && (forall j :: 0 <= j < |responses| && Eligible(hash, validProof, responses[j], localLength)
          ==> |responses[j].chain| <= |responses[i].chain|)
    && (forall j :: 0 <= j < i && Eligible(hash, validProof, responses[j], localLength)
          ==> |responses[j].chain| < |responses[i].chain|)
  }

  /** The replies the resolver receives when it asks the peers in `order`. */
  function Responses(fetch: string -> PeerResponse, order: seq<string>): seq<PeerResponse>
  {
    seq(|order|, i requires 0 <= i < |order| => fetch(order[i]))
  }

  /** `order` visits every registered peer exactly once. */
  ghost predicate Enumerates(order: seq<string>, nodes: set<string>)
  {
    && (forall node :: node in nodes <==> node in order)
    && (forall i, j :: 0 <= i < j < |order| ==> order[i] != order[j])
  }

  /** What the pass computes, stated without the pass: the bar ends at the longest eligible
      length (or the local length when no reply is eligible), a chain is chosen exactly when
      some reply is eligible, and the chosen chain is that of the first longest eligible reply. */
  lemma {:induction false} ScanSelectsFirstLongest(hash: Block -> string, validProof: (int, int) -> bool, responses: seq<PeerResponse>, localLength: nat)
    ensures var s := Scan(hash, validProof, responses, localLength);
      && s.maxLength >= localLength
      && (forall r :: r in responses && Eligible(hash, validProof, r, localLength) ==> |r.chain| <= s.maxLength)
      && (s.newChain.None? <==> forall r :: r in responses ==> !Eligible(hash, validProof, r, localLength))
      && (s.newChain.None? ==> s.maxLength == localLength)
      && (s.newChain.Some? ==>
            && s.maxLength == |s.newChain.value|
            && exists i :: IsFirstLongest(hash, validProof, responses, localLength, i) && responses[i].chain == s.newChain.value)
    decreases |responses|
  {
    if responses != [] {
      var n := |responses| - 1;
      var front := responses[..n];
      var last := responses[n];
      assert responses == front + [last];
      ScanSelectsFirstLongest(hash, validProof, front, localLength);
      var before := Scan(hash, validProof, front, localLength);
      var s := Scan(hash, validProof, responses, localLength);
      if last.status == StatusOk && |last.chain| > before.maxLength && IsValidChain(hash, validProof, last.chain) {
        assert s == Selection(|last.chain|, Some(last.chain));
        forall j | 0 <= j < |responses| && Eligible(hash, validProof, responses[j], localLength)
          ensures |responses[j].chain| <= |last.chain|
        {
          if j < n {
            assert responses[j] == front[j];
            assert front[j] in front;
          }
        }
        forall j | 0 <= j < n && Eligible(hash, validProof, responses[j], localLength)
          ensures |responses[j].chain| < |last.chain|
        {
          assert responses[j] == front[j];
          assert front[j] in front;
        }
        assert IsFirstLongest(hash, validProof, responses, localLength, n);
      } else {
        assert s == before;
        if before.newChain.Some? {
          var i :| IsFirstLongest(hash, validProof, front, localLength, i) && front[i].chain == before.newChain.value;
          assert responses[i] == front[i];
          forall j | 0 <= j < |responses| && Eligible(hash, validProof, responses[j], localLength)
            ensures |responses[j].chain| <= |responses[i].chain|
          {
            if j < n {
              assert responses[j] == front[j];
            }
          }
          forall j | 0 <= j < i && Eligible(hash, validProof, responses[j], localLength)
            ensures |responses[j].chain| < |responses[i].chain|
          {
            assert responses[j] == front[j];
          }
          assert IsFirstLongest(hash, validProof, responses, localLength, i);
        } else {
          assert !Eligible(hash, validProof, last, localLength);
        }
      }
    }
  }

  /** Which peer is asked first decides at most which of several equally long chains is
      adopted: whether the chain is replaced, and the length it is replaced with, depend
      only on the replies received, not on their order. */
  lemma OutcomeIgnoresOrder(hash: Block -> string, validProof: (int, int) -> bool, responses1: seq<PeerResponse>, responses2: seq<PeerResponse>, localLength: nat)
    requires forall r :: r in responses1 <==> r in responses2
    ensures Scan(hash, validProof, responses1, localLength).newChain.Some?
            == Scan(hash, validProof, responses2, localLength).newChain.Some?
    ensures Scan(hash, validProof, responses1, localLength).maxLength
            == Scan(hash, validProof, responses2, localLength).maxLength
  {
    ScanSelectsFirstLongest(hash, validProof, responses1, localLength);
    ScanSelectsFirstLongest(hash, validProof, responses2, localLength);
    var s1 := Scan(hash, validProof, responses1, localLength);
    var s2 := Scan(hash, validProof, responses2, localLength);
    if s1.newChain.Some? {
      var i :| IsFirstLongest(hash, validProof, responses1, localLength, i) && responses1[i].chain == s1.newChain.value;
      assert responses1[i] in responses2;
    }
    if s2.newChain.Some? {
      var i :| IsFirstLongest(hash, validProof, responses2, localLength, i) && responses2[i].chain == s2.newChain.value;
      assert responses2[i] in responses1;
    }
  }

  /** When no peer answers with status 200 and a strictly longer chain, nothing is chosen
      and the bar stays at the local length. */
  lemma NoLongerReplyKeepsLocal(hash: Block -> string, validProof: (int, int) -> bool, responses: seq<PeerResponse>, localLength: nat)
    requires forall r :: r in responses ==> r.status != StatusOk || |r.chain| <= localLength
    ensures Scan(hash, validProof, responses, localLength) == Selection(localLength, None)
  {
    ScanSelectsFirstLongest(hash, validProof, responses, localLength);
  }

  /** A local chain of one block; peer A answers with a valid chain of three blocks, peer B
      with an invalid chain of five, peer C with a failure status: A's chain is adopted. */
  lemma ThreePeerScenario(hash: Block -> string, validProof: (int, int) -> bool, a: PeerResponse, b: PeerResponse, c: PeerResponse)
    requires a.status == StatusOk && |a.chain| == 3 && IsValidChain(hash, validProof, a.chain)
    requires b.status == StatusOk && |b.chain| == 5 && !IsValidChain(hash, validProof, b.chain)
    requires c.status != StatusOk
    ensures Scan(hash, validProof, [a, b, c], 1) == Selection(3, Some(a.chain))
  {
    assert [a][..0] == [];
    assert Scan(hash, validProof, [a], 1) == Selection(3, Some(a.chain));
    assert [a, b][..1] == [a];
    assert Scan(hash, validProof, [a, b], 1) == Selection(3, Some(a.chain));
    assert [a, b, c][..2] == [a, b];
  }
}

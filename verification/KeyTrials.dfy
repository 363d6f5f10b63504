/** Trying candidate session keys, one after the other, until one opens the message. */
module KeyTrials {
  import opened SessionKeys
  import opened Wrappers

  /** The first candidate that is accepted; packets that yielded none are passed over. */
  function FirstAccepted(results: seq<Option<Candidate>>, accepts: Candidate -> bool): Option<Candidate> {
    if results == [] then None
    else if results[0].Some? && accepts(results[0].value) then results[0]
    else FirstAccepted(results[1..], accepts)
  }

  /** The candidates for which `accepts` is asked, in order. */
  function Asked(results: seq<Option<Candidate>>, accepts: Candidate -> bool): seq<Candidate> {
    if results == [] then []
    else if results[0].None? then Asked(results[1..], accepts)
    else if accepts(results[0].value) then [results[0].value]
    else [results[0].value] + Asked(results[1..], accepts)
  }

  /** What each packet yields with each key pair: all pairs for the first packet, then all for the second, and so on. */
  function PairResults<P, K>(packets: seq<P>, pairs: seq<K>, open: (P, K) -> Option<Candidate>)
    : seq<Option<Candidate>>
  {
    if packets == [] then []
    else PacketResults(packets[0], pairs, open) + PairResults(packets[1..], pairs, open)
  }

  function PacketResults<P, K>(packet: P, pairs: seq<K>, open: (P, K) -> Option<Candidate>): (r: seq<Option<Candidate>>)
    ensures |r| == |pairs|
  {
    seq(|pairs|, j requires 0 <= j < |pairs| => open(packet, pairs[j]))
  }

  /** What is left to do after a stretch of unsuccessful trials. */
  lemma {:induction false} TrialsConcat(a: seq<Option<Candidate>>, b: seq<Option<Candidate>>,
                                        accepts: Candidate -> bool)
    ensures FirstAccepted(a + b, accepts)
         == if FirstAccepted(a, accepts).Some? then FirstAccepted(a, accepts) else FirstAccepted(b, accepts)
    ensures Asked(a + b, accepts)
         == if FirstAccepted(a, accepts).Some? then Asked(a, accepts) else Asked(a, accepts) + Asked(b, accepts)
  {
    if a == [] {
      assert a + b == b;
    } else {
      assert (a + b)[1..] == a[1..] + b;
      TrialsConcat(a[1..], b, accepts);
    }
  }

  /** The inner loop of the key helper: one packet against every key pair. `asked` records the calls of `accepts`. */
  method TryPacket<P, K>(packet: P, pairs: seq<K>, open: (P, K) -> Option<Candidate>, accepts: Candidate -> bool)
    returns (found: Option<Candidate>, asked: seq<Candidate>)
    ensures found == FirstAccepted(PacketResults(packet, pairs, open), accepts)
    ensures asked == Asked(PacketResults(packet, pairs, open), accepts)
  {
    asked := [];
    ghost var all := PacketResults(packet, pairs, open);
    for j := 0 to |pairs|
      invariant FirstAccepted(all, accepts) == FirstAccepted(all[j..], accepts)
      invariant Asked(all, accepts) == asked + Asked(all[j..], accepts)
    {
      assert all[j..][1..] == all[j + 1..];
      var result := open(packet, pairs[j]);
      if result.Some? {
        asked := asked + [result.value];
        if accepts(result.value) {
          return result, asked;
        }
      }
    }
    return None, asked;
  }

  /** The outer loop of the key helper. */
  method TryPairs<P, K>(packets: seq<P>, pairs: seq<K>, open: (P, K) -> Option<Candidate>, accepts: Candidate -> bool)
    returns (found: Option<Candidate>, asked: seq<Candidate>)
    ensures found == FirstAccepted(PairResults(packets, pairs, open), accepts)
    ensures asked == Asked(PairResults(packets, pairs, open), accepts)
  {
    asked := [];
    ghost var all := PairResults(packets, pairs, open);
    for i := 0 to |packets|
      invariant FirstAccepted(all, accepts) == FirstAccepted(PairResults(packets[i..], pairs, open), accepts)
      invariant Asked(all, accepts) == asked + Asked(PairResults(packets[i..], pairs, open), accepts)
    {
      hide FirstAccepted, Asked, PacketResults;
      assert packets[i..][1..] == packets[i + 1..];
      TrialsConcat(PacketResults(packets[i], pairs, open), PairResults(packets[i + 1..], pairs, open), accepts);
      var here, calls := TryPacket(packets[i], pairs, open, accepts);
      asked := asked + calls;
      if here.Some? {
        return here, asked;
      }
    }
    return None, asked;
  }

  // ---------- What the trials promise ----------

  /** The candidates among some results, in order. */
  function Candidates(results: seq<Option<Candidate>>): seq<Candidate> {
    if results == [] then []
    else (if results[0].Some? then [results[0].value] else []) + Candidates(results[1..])
  }

  /** The result at position i is the first that holds an accepted candidate. */
  ghost predicate IsFirstAccepted(results: seq<Option<Candidate>>, accepts: Candidate -> bool, i: nat) {
    && i < |results| && results[i].Some? && accepts(results[i].value)
    && forall j | 0 <= j < i :: results[j].Some? ==> !accepts(results[j].value)
  }

  lemma {:induction false} TrialsWithoutSuccess(results: seq<Option<Candidate>>, accepts: Candidate -> bool)
    requires forall i | 0 <= i < |results| :: results[i].Some? ==> !accepts(results[i].value)
    ensures FirstAccepted(results, accepts) == None
    ensures Asked(results, accepts) == Candidates(results)
  {
    if results != [] {
      TrialsWithoutSuccess(results[1..], accepts);
    }
  }

  lemma {:induction false} TrialsUpToSuccess(results: seq<Option<Candidate>>, accepts: Candidate -> bool, i: nat)
    requires IsFirstAccepted(results, accepts, i)
    ensures FirstAccepted(results, accepts) == results[i]
    ensures Asked(results, accepts) == Candidates(results[..i + 1])
  {
    var upTo, rest := results[..i + 1], results[1..];
    assert upTo[0] == results[0];
    if i > 0 {
      assert rest[..i] == upTo[1..];
      assert rest[i - 1] == results[i];
      assert IsFirstAccepted(rest, accepts, i - 1) by {
        assert forall j | 0 <= j < |rest| :: rest[j] == results[j + 1];
      }
      assert !results[0].Some? || !accepts(results[0].value);
      hide IsFirstAccepted;
      TrialsUpToSuccess(rest, accepts, i - 1);
    } else {
      assert upTo == [results[0]] && upTo[1..] == [];
    }
  }

  lemma {:induction false} SuccessOrNot(results: seq<Option<Candidate>>, accepts: Candidate -> bool)
    ensures (exists i: nat :: IsFirstAccepted(results, accepts, i))
         || (forall i | 0 <= i < |results| :: results[i].Some? ==> !accepts(results[i].value))
  {
    if results != [] {
      if results[0].Some? && accepts(results[0].value) {
        assert IsFirstAccepted(results, accepts, 0);
      } else {
        var rest := results[1..];
        SuccessOrNot(rest, accepts);
        if i: nat :| IsFirstAccepted(rest, accepts, i) {
          assert forall j | 1 <= j < |results| :: results[j] == rest[j - 1];
          assert IsFirstAccepted(results, accepts, i + 1);
        }
      }
    }
  }

  /**
    Either some result is the first with an accepted candidate: it is the one found, and the candidates asked
    about are exactly those up to it. Or no candidate is accepted: none is found, and all are asked about.
   */
  lemma TrialsFindFirst(results: seq<Option<Candidate>>, accepts: Candidate -> bool)
    ensures var found, asked := FirstAccepted(results, accepts), Asked(results, accepts);
      && (found.Some? <==> exists i :: 0 <= i < |results| && results[i].Some? && accepts(results[i].value))
      && (found.Some? ==>
            exists i: nat :: IsFirstAccepted(results, accepts, i)
              && results[i] == found && asked == Candidates(results[..i + 1]))
      && (found.None? ==> asked == Candidates(results))
  {
    hide FirstAccepted, Asked, Candidates;
    SuccessOrNot(results, accepts);
    if i: nat :| IsFirstAccepted(results, accepts, i) {
      TrialsUpToSuccess(results, accepts, i);
    } else {
      TrialsWithoutSuccess(results, accepts);
    }
  }

  // ---------- The order of the nested loops ----------

  lemma {:induction false} PairResultsLength<P, K>(packets: seq<P>, pairs: seq<K>, open: (P, K) -> Option<Candidate>)
    ensures |PairResults(packets, pairs, open)| == |packets| * |pairs|
  {
    if packets != [] {
      PairResultsLength(packets[1..], pairs, open);
      OneMoreRow(|packets| - 1, |pairs|);
    }
  }

  lemma OneMoreRow(rows: nat, width: nat)
    ensures (rows + 1) * width == rows * width + width
  {
  }

  /** Where the result of packet i with pair j stands, when there are `width` pairs. */
  function Place(i: nat, j: nat, width: nat): nat {
    i * width + j
  }

  /** The results stand in lexicographic order: first by packet, then by pair. */
  lemma {:induction false} PairResultsAt<P, K>(packets: seq<P>, pairs: seq<K>, open: (P, K) -> Option<Candidate>,
                                              i: nat, j: nat)
    requires i < |packets| && j < |pairs|
    ensures Place(i, j, |pairs|) < |PairResults(packets, pairs, open)|
    ensures PairResults(packets, pairs, open)[Place(i, j, |pairs|)] == open(packets[i], pairs[j])
  {
    var here, later := PacketResults(packets[0], pairs, open), PairResults(packets[1..], pairs, open);
    if i == 0 {
      assert (here + later)[j] == here[j];
    } else {
      PairResultsAt(packets[1..], pairs, open, i - 1, j);
      OneMoreRow(i - 1, |pairs|);
      var k := Place(i - 1, j, |pairs|);
      assert Place(i, j, |pairs|) == |here| + k;
      assert (here + later)[|here| + k] == later[k];
    }
  }

  lemma {:induction false} RowsAscend(k: nat, i: nat, width: nat)
    requires k < i
    ensures k * width + width <= i * width
    decreases i
  {
    OneMoreRow(i - 1, width);
    if k < i - 1 {
      RowsAscend(k, i - 1, width);
    }
  }

  lemma EarlierPlace(i: nat, j: nat, k: nat, l: nat, width: nat)
    requires l < width && (k < i || (k == i && l < j))
    ensures Place(k, l, width) < Place(i, j, width)
  {
    if k < i {
      RowsAscend(k, i, width);
    }
  }

  /** Every position is the place of some combination. */
  lemma {:induction false} PlaceOf(at: nat, rows: nat, width: nat) returns (i: nat, j: nat)
    requires at < rows * width
    ensures i < rows && j < width && Place(i, j, width) == at
    decreases rows
  {
    OneMoreRow(rows - 1, width);
    if at < (rows - 1) * width {
      i, j := PlaceOf(at, rows - 1, width);
    } else {
      i, j := rows - 1, at - (rows - 1) * width;
    }
  }

  /** Packet i with pair j yields an accepted candidate, and no lexicographically earlier combination does. */
  ghost predicate IsFirstPair<P, K>(packets: seq<P>, pairs: seq<K>, open: (P, K) -> Option<Candidate>,
                                    accepts: Candidate -> bool, i: nat, j: nat)
  {
    && i < |packets| && j < |pairs|
    && open(packets[i], pairs[j]).Some? && accepts(open(packets[i], pairs[j]).value)
    && forall k, l | 0 <= k <= i && 0 <= l < |pairs| && (k < i || l < j) ::
         open(packets[k], pairs[l]).Some? ==> !accepts(open(packets[k], pairs[l]).value)
  }

  /** The nested loops find the lexicographically first combination whose candidate is accepted, if there is one. */
  lemma PairsFindFirst<P, K>(packets: seq<P>, pairs: seq<K>, open: (P, K) -> Option<Candidate>,
                             accepts: Candidate -> bool)
    ensures var found := FirstAccepted(PairResults(packets, pairs, open), accepts);
      && (found.Some? ==>
            exists i: nat, j: nat ::
              IsFirstPair(packets, pairs, open, accepts, i, j) && open(packets[i], pairs[j]) == found)
      && (found.None? ==>
            forall i, j | 0 <= i < |packets| && 0 <= j < |pairs| ::
              open(packets[i], pairs[j]).Some? ==> !accepts(open(packets[i], pairs[j]).value))
  {
    hide PairResults, FirstAccepted, Asked, Place;
    var results, width := PairResults(packets, pairs, open), |pairs|;
    var found := FirstAccepted(results, accepts);
    TrialsFindFirst(results, accepts);
    forall i, j | 0 <= i < |packets| && 0 <= j < width
      ensures Place(i, j, width) < |results| && results[Place(i, j, width)] == open(packets[i], pairs[j])
    {
      PairResultsAt(packets, pairs, open, i, j);
    }
    if found.Some? {
      var at: nat :| IsFirstAccepted(results, accepts, at) && results[at] == found;
      PairResultsLength(packets, pairs, open);
      var i, j := PlaceOf(at, |packets|, width);
      forall k, l | 0 <= k <= i && 0 <= l < width && (k < i || l < j)
        ensures open(packets[k], pairs[l]).Some? ==> !accepts(open(packets[k], pairs[l]).value)
      {
        EarlierPlace(i, j, k, l, width);
        assert results[Place(k, l, width)] == open(packets[k], pairs[l]);
      }
      assert IsFirstPair(packets, pairs, open, accepts, i, j);
    }
  }

  /** When all accepted candidates are the same, neither the order of the trials nor repetitions matter. */
  lemma OrderDoesNotMatter(a: seq<Option<Candidate>>, b: seq<Option<Candidate>>, accepts: Candidate -> bool)
    requires forall r :: r in a <==> r in b
    requires forall c, d :: Some(c) in a && Some(d) in a && accepts(c) && accepts(d) ==> c == d
    ensures FirstAccepted(a, accepts) == FirstAccepted(b, accepts)
  {
    TrialsFindFirst(a, accepts);
    TrialsFindFirst(b, accepts);
  }

  lemma {:induction false} InPairResults<P, K>(packets: seq<P>, pairs: seq<K>, open: (P, K) -> Option<Candidate>,
                                              r: Option<Candidate>)
    ensures r in PairResults(packets, pairs, open) <==> exists p, k :: p in packets && k in pairs && open(p, k) == r
  {
    if packets != [] {
      var here := PacketResults(packets[0], pairs, open);
      InPairResults(packets[1..], pairs, open, r);
      assert packets == [packets[0]] + packets[1..];
      assert r in here <==> exists k :: k in pairs && open(packets[0], k) == r by {
        if r in here {
          var j :| 0 <= j < |here| && here[j] == r;
          assert pairs[j] in pairs;
        }
        forall k | k in pairs && open(packets[0], k) == r
          ensures r in here
        {
          var j :| 0 <= j < |pairs| && pairs[j] == k;
          assert here[j] == r;
        }
      }
    }
  }

  /** The session key found does not depend on the order of the packets or of the key pairs. */
  lemma PairOrderDoesNotMatter<P, K>(packets: seq<P>, packets': seq<P>, pairs: seq<K>, pairs': seq<K>,
                                     open: (P, K) -> Option<Candidate>, accepts: Candidate -> bool, truth: Candidate)
    requires forall p :: p in packets <==> p in packets'
    requires forall k :: k in pairs <==> k in pairs'
    requires forall c :: accepts(c) ==> c == truth
    ensures FirstAccepted(PairResults(packets, pairs, open), accepts)
         == FirstAccepted(PairResults(packets', pairs', open), accepts)
  {
    var a, b := PairResults(packets, pairs, open), PairResults(packets', pairs', open);
    forall r
      ensures r in a <==> r in b
    {
      InPairResults(packets, pairs, open, r);
      InPairResults(packets', pairs', open, r);
    }
    OrderDoesNotMatter(a, b, accepts);
  }
}

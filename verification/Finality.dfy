/** The finality gadget: stake-weighted votes, proofs of finality, and the choice of a candidate. */
module Finality {
  import opened Primitives
  import opened Stake
  import opened DagGraph
  import opened DagState
  import opened Dag

  datatype FinalityVote = FinalityVote(round: nat, target: Target, voter: ValidatorId, signature: Bytes)

  datatype Target = Target(hash: Hash, height: nat)

  datatype FinalityProof = FinalityProof(
    round: nat,
    target: Target,
    votes: seq<FinalityVote>,
    totalWeight: nat,
    epoch: nat)

  datatype Signature = Good | Bad | Unreadable

  /** The signature scheme: what it makes of a signature over a round and a target, under a public key. */
  type Scheme = (nat, Target, Bytes, Bytes) -> Signature

  datatype FinalityError =
    | VoteForPastRound
    | UnknownValidator
    | InvalidVoteSignature
    | UnreadableSignature
    | EpochMismatch
    | DuplicateVoter
    | VoteTargetMismatch
    | InsufficientVoteWeight
    | TargetNotInDag

  function CheckSignature(scheme: Scheme, vote: FinalityVote, publicKey: Bytes): Outcome<FinalityError> {
    match scheme(vote.round, vote.target, vote.signature, publicKey)
    case Good => Ok
    case Bad => Err(InvalidVoteSignature)
    case Unreadable => Err(UnreadableSignature)
  }

  // ---------------------------------------------------------------- proofs of finality

  ghost function Voters(votes: seq<FinalityVote>): set<ValidatorId> {
    set i | 0 <= i < |votes| :: votes[i].voter
  }

  ghost predicate DistinctVoters(votes: seq<FinalityVote>) {
    forall i, j :: 0 <= i < j < |votes| ==> votes[i].voter != votes[j].voter
  }

  /** A vote of a member of the set, validly signed, for the given target. */
  ghost predicate Signed(scheme: Scheme, s: ValidatorSet, vote: FinalityVote, target: Target) {
    && vote.target == target && vote.voter in s.validators
    && scheme(vote.round, vote.target, vote.signature, s.validators[vote.voter].publicKey) == Good
  }

  /** A proof is good when distinct members of the set with a supermajority of stake signed its target. */
  ghost predicate Accepts(scheme: Scheme, s: ValidatorSet, proof: FinalityProof) {
    && s.epoch == proof.epoch
    && DistinctVoters(proof.votes)
    && (forall i :: 0 <= i < |proof.votes| ==> Signed(scheme, s, proof.votes[i], proof.target))
    && Decisive(s, Voters(proof.votes))
  }

  /** What is wrong with the vote at position `i`, in the order of the checks. */
  ghost function VoteError(scheme: Scheme, s: ValidatorSet, proof: FinalityProof, i: nat): Outcome<FinalityError>
    requires i < |proof.votes|
  {
    var vote := proof.votes[i];
    if vote.voter in Voters(proof.votes[..i]) then Err(DuplicateVoter)
    else if vote.target != proof.target then Err(VoteTargetMismatch)
    else if vote.voter !in s.validators then Err(UnknownValidator)
    else
      match scheme(vote.round, vote.target, vote.signature, s.validators[vote.voter].publicKey)
      case Good => Ok
      case Bad => Err(InvalidVoteSignature)
      case Unreadable => Err(UnreadableSignature)
  }

  /** `i` is the first vote that is wrong. */
  ghost predicate FirstWrong(scheme: Scheme, s: ValidatorSet, proof: FinalityProof, i: nat) {
    && i < |proof.votes| && VoteError(scheme, s, proof, i).Err?
    && forall k :: 0 <= k < i ==> VoteError(scheme, s, proof, k).Ok?
  }

  lemma VotersGrow(votes: seq<FinalityVote>, i: nat)
    requires i < |votes|
    ensures Voters(votes[..i + 1]) == Voters(votes[..i]) + {votes[i].voter}
  {
    assert forall v :: v in Voters(votes[..i + 1]) ==> v in Voters(votes[..i]) + {votes[i].voter} by {
      forall v | v in Voters(votes[..i + 1]) ensures v in Voters(votes[..i]) + {votes[i].voter} {
        var k :| 0 <= k < i + 1 && votes[..i + 1][k].voter == v;
        if k < i { assert votes[..i][k].voter == v; }
      }
    }
    forall v | v in Voters(votes[..i]) ensures v in Voters(votes[..i + 1]) {
      var k :| 0 <= k < i && votes[..i][k].voter == v;
      assert votes[..i + 1][k].voter == v;
    }
    assert votes[..i + 1][i] == votes[i];
  }

  lemma DistinctIffNew(votes: seq<FinalityVote>)
    ensures DistinctVoters(votes) <==> forall j :: 0 <= j < |votes| ==> votes[j].voter !in Voters(votes[..j])
  {
    forall i, j | 0 <= i < j < |votes| && votes[i].voter == votes[j].voter
      ensures votes[j].voter in Voters(votes[..j])
    {
      assert votes[..j][i].voter == votes[j].voter;
    }
    forall j | 0 <= j < |votes| && votes[j].voter in Voters(votes[..j]) ensures !DistinctVoters(votes) {
      var i :| 0 <= i < j && votes[..j][i].voter == votes[j].voter;
      assert votes[i].voter == votes[j].voter;
    }
  }

  lemma NoneWrong(scheme: Scheme, s: ValidatorSet, proof: FinalityProof)
    ensures (forall k :: 0 <= k < |proof.votes| ==> VoteError(scheme, s, proof, k).Ok?) <==>
      && DistinctVoters(proof.votes)
      && forall i :: 0 <= i < |proof.votes| ==> Signed(scheme, s, proof.votes[i], proof.target)
  {
    hide Voters, DistinctVoters, CheckSignature;
    DistinctIffNew(proof.votes);
    assert forall k :: 0 <= k < |proof.votes| ==>
      (VoteError(scheme, s, proof, k).Ok? <==>
        proof.votes[k].voter !in Voters(proof.votes[..k]) && Signed(scheme, s, proof.votes[k], proof.target));
  }

  /** Accepts exactly the good proofs, and otherwise reports the first thing that is wrong. */
  method Verify(scheme: Scheme, s: ValidatorSet, proof: FinalityProof) returns (r: Outcome<FinalityError>)
    ensures r.Ok? <==> Accepts(scheme, s, proof)
    ensures r != Err(TargetNotInDag) && (r == Err(EpochMismatch) <==> s.epoch != proof.epoch)
    ensures r == Err(InsufficientVoteWeight) <==>
      && s.epoch == proof.epoch && (forall i :: 0 <= i < |proof.votes| ==> VoteError(scheme, s, proof, i).Ok?)
      && !(s.totalWeight > 0 && 3 * (s.totalWeight - Weight(s.validators, Voters(proof.votes))) < s.totalWeight)
    ensures r.Ok? ==> 3 * (s.totalWeight - Weight(s.validators, Voters(proof.votes))) < s.totalWeight
    ensures s.epoch == proof.epoch ==> forall i: nat :: FirstWrong(scheme, s, proof, i) ==>
      r == VoteError(scheme, s, proof, i)
  {
    if s.epoch != proof.epoch { return Err(EpochMismatch); }
    var weight := 0;
    var seen: set<ValidatorId> := {};
    assert proof.votes[..0] == [] && Voters([]) == {};
    NoneWrong(scheme, s, proof);
    hide Voters, DistinctVoters, HasSupermajority, VoteError, Signed, Weight, FirstWrong, CheckSignature;
    assert Weight(s.validators, {}) == 0 by { WeightOfNobody(s.validators); }
    for i := 0 to |proof.votes|
      invariant seen == Voters(proof.votes[..i]) && weight == Weight(s.validators, seen)
      invariant forall k :: 0 <= k < i ==> VoteError(scheme, s, proof, k).Ok?
    {
      var vote := proof.votes[i];
      r := CheckVote(scheme, s, proof, i, seen);
      if r.Err? {
        FirstIsOnly(scheme, s, proof, i);
        return;
      }
      VotersGrow(proof.votes, i);
      WeightTake(s.validators, seen + {vote.voter}, vote.voter);
      assert seen + {vote.voter} - {vote.voter} == seen;
      seen := seen + {vote.voter};
      weight := weight + s.validators[vote.voter].stake;
    }
    assert proof.votes[..|proof.votes|] == proof.votes;
    NoFirst(scheme, s, proof);
    SupermajorityIff(s, seen);
    if !HasSupermajority(s, weight) { return Err(InsufficientVoteWeight); }
    return Ok;
  }

  lemma FirstIsOnly(scheme: Scheme, s: ValidatorSet, proof: FinalityProof, i: nat)
    requires i < |proof.votes| && VoteError(scheme, s, proof, i).Err?
    requires forall k :: 0 <= k < i ==> VoteError(scheme, s, proof, k).Ok?
    ensures forall k: nat :: FirstWrong(scheme, s, proof, k) ==> k == i
  {
    hide VoteError;
  }

  lemma NoFirst(scheme: Scheme, s: ValidatorSet, proof: FinalityProof)
    requires forall k :: 0 <= k < |proof.votes| ==> VoteError(scheme, s, proof, k).Ok?
    ensures forall k: nat :: !FirstWrong(scheme, s, proof, k)
  {
    hide VoteError;
  }

  lemma WeightOfNobody(validators: map<ValidatorId, ValidatorInfo>)
    ensures Weight(validators, {}) == 0
  {
  }

  /** One vote of a proof; `seen` are the voters before it. */
  method CheckVote(scheme: Scheme, s: ValidatorSet, proof: FinalityProof, i: nat, seen: set<ValidatorId>)
    returns (r: Outcome<FinalityError>)
    requires i < |proof.votes| && seen == Voters(proof.votes[..i])
    ensures r == VoteError(scheme, s, proof, i)
    ensures r.Ok? ==> proof.votes[i].voter in s.validators && proof.votes[i].voter !in seen
    ensures r != Err(TargetNotInDag) && r != Err(EpochMismatch) && r != Err(InsufficientVoteWeight)
  {
    hide Voters;
    var vote := proof.votes[i];
    if vote.voter in seen { return Err(DuplicateVoter); }
    if vote.target != proof.target { return Err(VoteTargetMismatch); }
    if vote.voter !in s.validators { return Err(UnknownValidator); }
    return CheckSignature(scheme, vote, s.validators[vote.voter].publicKey);
  }

  ghost predicate SignedBy(scheme: Scheme, s: ValidatorSet, votes: seq<FinalityVote>, v: ValidatorId, target: Target) {
    exists i :: 0 <= i < |votes| && votes[i].voter == v && Signed(scheme, s, votes[i], target)
  }

  /** Of any two good proofs under one set, voters with over a third of the stake signed both targets. */
  lemma Accountability(scheme: Scheme, s: ValidatorSet, p: FinalityProof, q: FinalityProof)
    requires Proper(s) && Accepts(scheme, s, p) && Accepts(scheme, s, q)
    ensures 3 * Weight(s.validators, Voters(p.votes) * Voters(q.votes)) > s.totalWeight
    ensures Voters(p.votes) * Voters(q.votes) != {}
    ensures forall v :: v in Voters(p.votes) * Voters(q.votes) ==>
      SignedBy(scheme, s, p.votes, v, p.target) && SignedBy(scheme, s, q.votes, v, q.target)
  {
    VotersKnown(scheme, s, p);
    VotersKnown(scheme, s, q);
    SupermajorityIff(s, Voters(p.votes));
    SupermajorityIff(s, Voters(q.votes));
    QuorumsOverlap(s, Voters(p.votes), Voters(q.votes));
  }

  lemma VotersKnown(scheme: Scheme, s: ValidatorSet, p: FinalityProof)
    requires Accepts(scheme, s, p)
    ensures Voters(p.votes) <= s.validators.Keys
    ensures forall v :: v in Voters(p.votes) ==> SignedBy(scheme, s, p.votes, v, p.target)
  {
    forall v | v in Voters(p.votes) ensures SignedBy(scheme, s, p.votes, v, p.target) && v in s.validators {
      var i :| 0 <= i < |p.votes| && p.votes[i].voter == v;
      assert Signed(scheme, s, p.votes[i], p.target);
    }
  }

  // ---------------------------------------------------------------- the votes of a round

  type Votes = map<ValidatorId, FinalityVote>

  /** The voters for one target. */
  ghost function Backers(votes: Votes, target: Target): set<ValidatorId> {
    set v | v in votes && votes[v].target == target
  }

  ghost predicate VotesOk(scheme: Scheme, s: ValidatorSet, votes: Votes, round: nat) {
    forall v :: v in votes ==>
      votes[v].voter == v && votes[v].round >= round && Signed(scheme, s, votes[v], votes[v].target)
  }

  ghost predicate Quorum(s: ValidatorSet, votes: Votes, target: Target) {
    Decisive(s, Backers(votes, target))
  }

  /** Nothing above the finalized height has a quorum. */
  ghost predicate NoQuorumLeft(s: ValidatorSet, votes: Votes, finalizedHeight: nat) {
    forall t: Target :: t.height > finalizedHeight ==> !Quorum(s, votes, t)
  }

  /** Two targets never have a quorum at once, so that the order in which they are looked at cannot matter. */
  lemma OneQuorum(scheme: Scheme, s: ValidatorSet, votes: Votes, round: nat, a: Target, b: Target)
    requires Proper(s) && VotesOk(scheme, s, votes, round) && Quorum(s, votes, a) && Quorum(s, votes, b)
    ensures a == b
  {
    SupermajorityIff(s, Backers(votes, a));
    SupermajorityIff(s, Backers(votes, b));
    QuorumsOverlap(s, Backers(votes, a), Backers(votes, b));
    var v :| v in Backers(votes, a) * Backers(votes, b);
  }

  lemma NoVotesNoQuorum(s: ValidatorSet, finalizedHeight: nat)
    ensures NoQuorumLeft(s, map[], finalizedHeight)
  {
    forall t: Target ensures !Quorum(s, map[], t) {
      assert Backers(map[], t) == {};
    }
  }

  /** A new vote can complete a quorum for its own target only. */
  lemma OnlyItsTarget(s: ValidatorSet, votes: Votes, vote: FinalityVote, t: Target)
    requires !Quorum(s, votes, t) && t != vote.target
    ensures !Quorum(s, votes[vote.voter := vote], t)
  {
    var after := Backers(votes[vote.voter := vote], t);
    assert after <= Backers(votes, t);
    WeightMonotone(s.validators, after, Backers(votes, t));
  }

  /** The votes for one target, with their weight. */
  datatype Group = Group(weight: nat, votes: seq<FinalityVote>)

  ghost predicate GroupOk(s: ValidatorSet, votes: Votes, ids: set<ValidatorId>, t: Target, g: Group) {
    && g.weight == Weight(s.validators, ids) && Voters(g.votes) == ids && DistinctVoters(g.votes)
    && forall i :: 0 <= i < |g.votes| ==>
         g.votes[i].voter in votes && g.votes[i] == votes[g.votes[i].voter] && g.votes[i].target == t
  }

  lemma GroupGrows(s: ValidatorSet, votes: Votes, ids: set<ValidatorId>, t: Target, g: Group, v: ValidatorId)
    requires GroupOk(s, votes, ids, t, g) && v in votes && v !in ids && v in s.validators
    requires votes[v].voter == v && votes[v].target == t
    ensures GroupOk(s, votes, ids + {v}, t, Group(g.weight + s.validators[v].stake, g.votes + [votes[v]]))
  {
    hide Weight;
    var all := g.votes + [votes[v]];
    assert all[..|g.votes|] == g.votes && all[..|all|] == all;
    VotersGrow(all, |g.votes|);
    WeightTake(s.validators, ids + {v}, v);
    assert ids + {v} - {v} == ids;
    forall i | 0 <= i < |g.votes| ensures all[i].voter != v {
      assert g.votes[i].voter in Voters(g.votes);
    }
  }

  lemma GroupWeight(s: ValidatorSet, votes: Votes, t: Target, g: Group)
    requires GroupOk(s, votes, Backers(votes, t), t, g)
    ensures Quorum(s, votes, t) <==> HasSupermajority(s, g.weight)
  {
    SupermajorityIff(s, Backers(votes, t));
  }

  lemma BackersKnown(scheme: Scheme, s: ValidatorSet, votes: Votes, round: nat, t: Target)
    requires VotesOk(scheme, s, votes, round)
    ensures Backers(votes, t) <= s.validators.Keys
  {
  }

  /** A target has a quorum exactly if the stake of those who did not vote for it is less than a third. */
  lemma QuorumIs(s: ValidatorSet, votes: Votes, t: Target)
    requires Proper(s) && Backers(votes, t) <= s.validators.Keys
    ensures Quorum(s, votes, t) <==>
      3 * (s.totalWeight - Weight(s.validators, Backers(votes, t))) < s.totalWeight
  {
    WeightMonotone(s.validators, Backers(votes, t), s.validators.Keys);
  }

  lemma NobodyNoQuorum(s: ValidatorSet, votes: Votes, t: Target)
    requires Backers(votes, t) == {}
    ensures !Quorum(s, votes, t)
  {
  }

  /** The groups of all votes but those still to be sorted. */
  ghost predicate GroupsOk(s: ValidatorSet, votes: Votes, todo: set<ValidatorId>, groups: map<Target, Group>) {
    && (forall t :: t in groups <==> Backers(votes, t) - todo != {})
    && (forall t :: t in groups ==> GroupOk(s, votes, Backers(votes, t) - todo, t, groups[t]))
  }

  lemma NoneSorted(s: ValidatorSet, votes: Votes)
    ensures GroupsOk(s, votes, votes.Keys, map[])
  {
  }

  lemma AllSorted(s: ValidatorSet, votes: Votes, groups: map<Target, Group>)
    requires GroupsOk(s, votes, {}, groups)
    ensures forall t :: t in groups <==> Backers(votes, t) != {}
    ensures forall t :: t in groups ==> GroupOk(s, votes, Backers(votes, t), t, groups[t])
  {
    hide GroupOk;
    assert forall t :: Backers(votes, t) - {} == Backers(votes, t);
  }

  lemma VoteFacts(scheme: Scheme, s: ValidatorSet, votes: Votes, round: nat, v: ValidatorId)
    requires VotesOk(scheme, s, votes, round) && v in votes
    ensures votes[v].voter == v && v in s.validators
  {
  }

  /** Sorting one more vote. */
  lemma GroupsStep(s: ValidatorSet, votes: Votes, todo: set<ValidatorId>, groups: map<Target, Group>, v: ValidatorId)
    requires GroupsOk(s, votes, todo, groups) && v in todo && v in votes && v in s.validators && votes[v].voter == v
    ensures var t := votes[v].target;
      var g := if t in groups then groups[t] else Group(0, []);
      GroupsOk(s, votes, todo - {v}, groups[t := Group(g.weight + s.validators[v].stake, g.votes + [votes[v]])])
  {
    hide GroupOk;
    var t := votes[v].target;
    var g := if t in groups then groups[t] else Group(0, []);
    forall u ensures Backers(votes, u) - (todo - {v}) ==
      if u == t then Backers(votes, u) - todo + {v} else Backers(votes, u) - todo {
    }
    if t !in groups { EmptyGroup(s, votes, t); }
    GroupGrows(s, votes, Backers(votes, t) - todo, t, g, v);
  }

  lemma EmptyGroup(s: ValidatorSet, votes: Votes, t: Target)
    ensures GroupOk(s, votes, {}, t, Group(0, []))
  {
  }

  /** A group with a supermajority makes a good proof. */
  lemma GroupProves(scheme: Scheme, s: ValidatorSet, votes: Votes, round: nat, t: Target, g: Group)
    requires VotesOk(scheme, s, votes, round)
    requires GroupOk(s, votes, Backers(votes, t), t, g) && HasSupermajority(s, g.weight)
    ensures Accepts(scheme, s, FinalityProof(round, t, g.votes, g.weight, s.epoch))
  {
    SupermajorityIff(s, Backers(votes, t));
  }

  // ---------------------------------------------------------------- the record of finality

  /**
   * Every stored proof was good under the set in force when it was stored; heights strictly increase; the
   * last target is the finalized one.
   */
  ghost predicate ProofsOk(scheme: Scheme, inForce: seq<ValidatorSet>, proofs: seq<FinalityProof>, finalized: Target) {
    && |inForce| == |proofs|
    && (forall i :: 0 <= i < |proofs| ==> Proper(inForce[i]) && Accepts(scheme, inForce[i], proofs[i]))
    && (forall i, j :: 0 <= i < j < |proofs| ==> proofs[i].target.height < proofs[j].target.height)
    && (forall i :: 0 <= i < |proofs| ==> 0 < proofs[i].target.height <= finalized.height)
    && finalized == if proofs == [] then Target(ZERO_HASH, 0) else proofs[|proofs| - 1].target
  }

  lemma ProofsGrow(scheme: Scheme, inForce: seq<ValidatorSet>, proofs: seq<FinalityProof>, finalized: Target,
                   s: ValidatorSet, proof: FinalityProof)
    requires ProofsOk(scheme, inForce, proofs, finalized) && Proper(s) && Accepts(scheme, s, proof)
    requires proof.target.height > finalized.height
    ensures ProofsOk(scheme, inForce + [s], proofs + [proof], proof.target)
  {
    hide Accepts, Proper;
  }

  // ---------------------------------------------------------------- candidates

  ghost predicate CommonAncestor(dag: Dag, x: Hash)
    requires Graph(dag.vertices)
    reads dag
  {
    x in dag.vertices && forall t :: t in dag.tips ==> Ancestor(dag.vertices, x, t)
  }

  method IsCommonAncestor(dag: Dag, x: Hash) returns (r: bool)
    requires dag.Valid() && x in dag.vertices
    ensures r <==> CommonAncestor(dag, x)
  {
    hide Inv, Ancestor;
    dag.GraphOf();
    var todo := dag.tips;
    while todo != {}
      invariant todo <= dag.tips
      invariant forall t :: t in dag.tips - todo ==> Ancestor(dag.vertices, x, t)
    {
      var t :| t in todo;
      var below := dag.IsAncestor(x, t);
      if !below && t != x { return false; }
      if t == x { SelfAncestor(dag.vertices, x); }
      todo := todo - {t};
    }
    return true;
  }

  class FinalityGadget {
    const scheme: Scheme
    var round: nat
    var finalized: Target
    var votes: Votes
    var validatorSet: ValidatorSet
    var proofs: seq<FinalityProof>

    /** For each stored proof, the validator set that was in force when it was stored. */
    ghost var inForce: seq<ValidatorSet>

    ghost predicate Valid()
      reads this
    {
      && Proper(validatorSet)
      && ProofsOk(scheme, inForce, proofs, finalized)
      && VotesOk(scheme, validatorSet, votes, round)
      && NoQuorumLeft(validatorSet, votes, finalized.height)
    }

    constructor (scheme: Scheme, validators: seq<ValidatorInfo>)
      ensures Valid() && this.scheme == scheme && votes == map[] && proofs == [] && round == 0
      ensures finalized == Target(0, 0) && validatorSet.epoch == 0
      ensures validatorSet.totalWeight == TotalStake(validators)
      ensures forall x :: x in validatorSet.validators <==>
        exists i: nat :: IsLast(validators, i) && validators[i].id == x
      ensures forall i: nat :: IsLast(validators, i) ==>
        validators[i].id in validatorSet.validators && validatorSet.validators[validators[i].id] == validators[i]
    {
      var s := NewValidatorSet(validators, 0);
      this.scheme := scheme;
      round, finalized, votes, validatorSet, proofs, inForce := 0, Target(ZERO_HASH, 0), map[], s, [], [];
      NoVotesNoQuorum(s, 0);
    }

    /**
     * Takes a vote. It is refused when it is for a past round, from a stranger or badly signed. Otherwise it
     * replaces the voter's earlier vote, and if its target now has a quorum above the finalized height, that
     * target is finalized on the spot with a proof made of exactly the votes for it.
     */
    method AddVote(vote: FinalityVote) returns (r: Result<Option<FinalityProof>, FinalityError>)
      requires Valid()
      modifies this
      ensures Valid() && validatorSet == old(validatorSet)
      ensures r.Success? <==> vote.round >= old(round) && Signed(scheme, validatorSet, vote, vote.target)
      ensures r.Failure? ==> unchanged(this)
      ensures r.Failure? ==> (r.error ==
        if vote.round < old(round) then VoteForPastRound
        else if vote.voter !in validatorSet.validators then UnknownValidator
        else if scheme(vote.round, vote.target, vote.signature, validatorSet.validators[vote.voter].publicKey) == Bad
        then InvalidVoteSignature else UnreadableSignature)
      ensures r.Success? ==>
        var cast := old(votes)[vote.voter := vote];
        var left := validatorSet.totalWeight - Weight(validatorSet.validators, Backers(cast, vote.target));
        if vote.target.height > old(finalized).height && 3 * left < validatorSet.totalWeight then
          && r.value.Some? && Finalizes(old(round), validatorSet, cast, vote.target, r.value.value)
          && finalized == vote.target && votes == map[] && round == old(round) + 1
          && proofs == old(proofs) + [r.value.value] && inForce == old(inForce) + [validatorSet]
        else
          && r.value.None? && votes == cast && round == old(round) && finalized == old(finalized)
          && proofs == old(proofs) && inForce == old(inForce)
    {
      if vote.round < round { return Failure(VoteForPastRound); }
      if vote.voter !in validatorSet.validators { return Failure(UnknownValidator); }
      var signature := CheckSignature(scheme, vote, validatorSet.validators[vote.voter].publicKey);
      if signature.Err? { return Failure(signature.error); }
      forall t: Target | t.height > finalized.height && t != vote.target
        ensures !Quorum(validatorSet, votes[vote.voter := vote], t)
      {
        OnlyItsTarget(validatorSet, votes, vote, t);
      }
      votes := votes[vote.voter := vote];
      BackersKnown(scheme, validatorSet, votes, round, vote.target);
      QuorumIs(validatorSet, votes, vote.target);
      var proof := TryFinalize(vote.target);
      r := Success(proof);
    }

    /** A proof in the current round made of all the votes for the target and no others. */
    static ghost predicate Finalizes(round: nat, s: ValidatorSet, votes: Votes, t: Target, proof: FinalityProof) {
      && proof.round == round && proof.target == t && proof.epoch == s.epoch
      && GroupOk(s, votes, Backers(votes, t), t, Group(proof.totalWeight, proof.votes))
    }

    /** Sorts the votes by target; each group has the weight of its voters. */
    method GroupVotes() returns (groups: map<Target, Group>)
      requires VotesOk(scheme, validatorSet, votes, round)
      ensures forall t :: t in groups <==> Backers(votes, t) != {}
      ensures forall t :: t in groups ==> GroupOk(validatorSet, votes, Backers(votes, t), t, groups[t])
    {
      hide GroupsOk, GroupOk, VotesOk, CheckSignature, Weight;
      groups := map[];
      var todo := votes.Keys;
      NoneSorted(validatorSet, votes);
      while todo != {}
        invariant todo <= votes.Keys && GroupsOk(validatorSet, votes, todo, groups)
      {
        var v :| v in todo;
        VoteFacts(scheme, validatorSet, votes, round, v);
        var t := votes[v].target;
        var g := if t in groups then groups[t] else Group(0, []);
        GroupsStep(validatorSet, votes, todo, groups, v);
        groups := groups[t := Group(g.weight + validatorSet.validators[v].stake, g.votes + [votes[v]])];
        todo := todo - {v};
      }
      AllSorted(validatorSet, votes, groups);
    }

    /** Looks at the groups in an arbitrary order and finalizes the first that has a quorum and is high enough. */
    method TryFinalize(ghost newest: Target) returns (r: Option<FinalityProof>)
      requires Proper(validatorSet) && ProofsOk(scheme, inForce, proofs, finalized)
      requires VotesOk(scheme, validatorSet, votes, round)
      requires forall t: Target :: t.height > finalized.height && t != newest ==> !Quorum(validatorSet, votes, t)
      modifies `round, `finalized, `votes, `proofs, `inForce
      ensures Valid()
      ensures var left := validatorSet.totalWeight - Weight(validatorSet.validators, Backers(old(votes), newest));
        if newest.height > old(finalized).height && 3 * left < validatorSet.totalWeight then
          && r.Some? && Finalizes(old(round), validatorSet, old(votes), newest, r.value)
          && finalized == newest && votes == map[] && round == old(round) + 1
          && proofs == old(proofs) + [r.value] && inForce == old(inForce) + [validatorSet]
        else
          && r.None? && votes == old(votes) && round == old(round) && finalized == old(finalized)
          && proofs == old(proofs) && inForce == old(inForce)
    {
      hide ProofsOk, GroupOk, Accepts, HasSupermajority, Backers, Quorum, Weight, Decisive;
      BackersKnown(scheme, validatorSet, votes, round, newest);
      QuorumIs(validatorSet, votes, newest);
      var groups := GroupVotes();
      var todo := groups.Keys;
      while todo != {}
        invariant todo <= groups.Keys && unchanged(this)
        invariant forall t :: t in groups && t !in todo ==>
          !(Quorum(validatorSet, votes, t) && t.height > finalized.height)
      {
        var t :| t in todo;
        todo := todo - {t};
        var g := groups[t];
        GroupWeight(validatorSet, votes, t, g);
        if HasSupermajority(validatorSet, g.weight) && t.height > finalized.height {
          var proof := FinalityProof(round, t, g.votes, g.weight, validatorSet.epoch);
          GroupProves(scheme, validatorSet, votes, round, t, g);
          ProofsGrow(scheme, inForce, proofs, finalized, validatorSet, proof);
          finalized := t;
          round := round + 1;
          votes := map[];
          proofs, inForce := proofs + [proof], inForce + [validatorSet];
          NoVotesNoQuorum(validatorSet, finalized.height);
          return Some(proof);
        }
      }
      forall t: Target | t.height > finalized.height ensures !Quorum(validatorSet, votes, t) {
        if t !in groups { NobodyNoQuorum(validatorSet, votes, t); }
      }
      return None;
    }

    /** Whenever two targets were finalized under one set, voters with over a third of its stake signed both. */
    lemma StoredProofsOverlap(i: nat, j: nat)
      requires Valid() && i < j < |proofs| && inForce[i] == inForce[j]
      ensures var common := Voters(proofs[i].votes) * Voters(proofs[j].votes);
        && 3 * Weight(inForce[i].validators, common) > inForce[i].totalWeight
        && forall v :: v in common ==>
             && SignedBy(scheme, inForce[i], proofs[i].votes, v, proofs[i].target)
             && SignedBy(scheme, inForce[i], proofs[j].votes, v, proofs[j].target)
    {
      Accountability(scheme, inForce[i], proofs[i], proofs[j]);
    }

    /** Replaces the validator set; the votes collected under the old one are dropped. */
    method UpdateValidatorSet(validators: seq<ValidatorInfo>, epoch: nat)
      requires Valid()
      modifies `validatorSet, `votes
      ensures Valid() && validatorSet.epoch == epoch && votes == map[]
      ensures validatorSet.totalWeight == TotalStake(validators)
      ensures forall x :: x in validatorSet.validators <==>
        exists i: nat :: IsLast(validators, i) && validators[i].id == x
      ensures forall i: nat :: IsLast(validators, i) ==>
        validators[i].id in validatorSet.validators && validatorSet.validators[validators[i].id] == validators[i]
    {
      validatorSet := NewValidatorSet(validators, epoch);
      votes := map[];
      NoVotesNoQuorum(validatorSet, finalized.height);
    }

    /** Takes over a proof made elsewhere, if it is good, its target is known and it is news. */
    method ApplyProof(proof: FinalityProof, dag: Dag) returns (r: Outcome<FinalityError>)
      requires Valid() && dag.Valid()
      modifies this, dag
      ensures Valid() && dag.Valid() && validatorSet == old(validatorSet) && votes == old(votes) && round == old(round)
      ensures r.Ok? <==> Accepts(scheme, validatorSet, proof) && proof.target.hash in dag.vertices
      ensures r == Err(TargetNotInDag) <==>
        Accepts(scheme, validatorSet, proof) && proof.target.hash !in dag.vertices
      ensures dag.State() == old(dag.State()).(status := dag.status, finalizedHeight := dag.finalizedHeight)
      ensures if r.Ok? && proof.target.height > old(finalized).height then
          && finalized == proof.target && proofs == old(proofs) + [proof] && inForce == old(inForce) + [validatorSet]
          && dag.finalizedHeight == (if proof.target.height > old(dag.finalizedHeight) then proof.target.height
                                     else old(dag.finalizedHeight))
          && dag.status == (if proof.target.height > old(dag.finalizedHeight)
            then old(dag.status) + dag.Marked(DepsOf(dag.byHeight, proof.target.height)) else old(dag.status))
        else unchanged(this) && dag.State() == old(dag.State())
    {
      hide Inv, BindsContents, ProofsOk, Accepts, Proper, Quorum;
      r := Verify(scheme, validatorSet, proof);
      if r.Err? { return; }
      if proof.target.hash !in dag.vertices { return Err(TargetNotInDag); }
      if proof.target.height > finalized.height {
        ProofsGrow(scheme, inForce, proofs, finalized, validatorSet, proof);
        finalized := proof.target;
        dag.SetFinalizedHeight(proof.target.height);
        proofs, inForce := proofs + [proof], inForce + [validatorSet];
      }
    }

    /**
     * The highest vertex above the finalized height that is an ancestor of every tip; `None` only when
     * there is no such vertex.
     */
    method FindBestCandidate(dag: Dag) returns (r: Option<Target>)
      requires dag.Valid()
      ensures r.Some? ==>
        CommonAncestor(dag, r.value.hash) && dag.vertices[r.value.hash].height == r.value.height > finalized.height
      ensures forall x :: CommonAncestor(dag, x) && dag.vertices[x].height > finalized.height ==>
        r.Some? && dag.vertices[x].height <= r.value.height
    {
      hide Inv, BindsContents, Graph, Ancestor;
      dag.GraphOf();
      LevelsOf(dag);
      var height := dag.LatestHeight();
      if dag.tips == {} {
        NoTips(dag);
        return None;
      }
      while height > finalized.height
        invariant forall x :: CommonAncestor(dag, x) && dag.vertices[x].height > finalized.height ==>
          dag.vertices[x].height <= height
      {
        var todo := if height in dag.byHeight then dag.byHeight[height] else {};
        ghost var level := todo;
        assert forall x :: x in level <==> Listed(dag.byHeight, height, x);
        while todo != {}
          invariant todo <= level
          invariant forall x :: x in level - todo ==> !CommonAncestor(dag, x)
        {
          var x :| x in todo;
          todo := todo - {x};
          assert Listed(dag.byHeight, height, x);
          var common := IsCommonAncestor(dag, x);
          if common { return Some(Target(x, height)); }
        }
        height := height - 1;
      }
      return None;
    }

    lemma LevelsOf(dag: Dag)
      requires dag.Valid()
      ensures forall n, h :: Listed(dag.byHeight, n, h) <==> h in dag.vertices && dag.vertices[h].height == n
    {
    }

    lemma NoTips(dag: Dag)
      requires dag.Valid() && dag.tips == {}
      ensures dag.vertices == map[]
    {
      if h :| h in dag.vertices {
        var t := TipAbove(dag.vertices, h);
      }
    }
  }
}

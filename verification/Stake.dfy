/** Sums of stake over sets of validators, and the quorum arithmetic of finality. */
module Stake {
  import opened Primitives

  type ValidatorId = nat

  datatype ValidatorInfo = ValidatorInfo(id: ValidatorId, publicKey: Bytes, stake: nat)

  datatype ValidatorSet = ValidatorSet(validators: map<ValidatorId, ValidatorInfo>, totalWeight: nat, epoch: nat)

  /** The stake of the members of `ids` that are validators. */
  ghost function Weight(validators: map<ValidatorId, ValidatorInfo>, ids: set<ValidatorId>): nat {
    if ids == {} then 0
    else
      var x :| x in ids;
      StakeOf(validators, x) + Weight(validators, ids - {x})
  }

  function StakeOf(validators: map<ValidatorId, ValidatorInfo>, x: ValidatorId): nat {
    if x in validators then validators[x].stake else 0
  }

  lemma {:induction false} WeightTake(validators: map<ValidatorId, ValidatorInfo>, ids: set<ValidatorId>,
      x: ValidatorId)
    requires x in ids
    ensures Weight(validators, ids) == StakeOf(validators, x) + Weight(validators, ids - {x})
    decreases ids
  {
    var y :| y in ids && Weight(validators, ids) == StakeOf(validators, y) + Weight(validators, ids - {y});
    if y != x {
      WeightTake(validators, ids - {y}, x);
      WeightTake(validators, ids - {x}, y);
      assert ids - {y} - {x} == ids - {x} - {y};
    }
  }

  lemma {:induction false} WeightSplit(validators: map<ValidatorId, ValidatorInfo>, a: set<ValidatorId>,
      b: set<ValidatorId>)
    ensures Weight(validators, a) + Weight(validators, b) == Weight(validators, a + b) + Weight(validators, a * b)
    decreases a
  {
    if a == {} {
      assert a + b == b && a * b == {};
    } else {
      var x :| x in a;
      WeightTake(validators, a, x);
      WeightSplit(validators, a - {x}, b);
      WeightTake(validators, a + b, x);
      if x in b {
        WeightTake(validators, a * b, x);
        assert a * b - {x} == (a - {x}) * b;
        assert a - {x} + b == a + b;
      } else {
        assert a * b == (a - {x}) * b;
        assert a + b - {x} == a - {x} + b;
      }
    }
  }

  lemma {:induction false} WeightMonotone(validators: map<ValidatorId, ValidatorInfo>, a: set<ValidatorId>,
      b: set<ValidatorId>)
    requires a <= b
    ensures Weight(validators, a) <= Weight(validators, b)
  {
    WeightSplit(validators, a, b - a);
    assert a + (b - a) == b;
    assert a * (b - a) == {};
  }

  lemma {:induction false} WeightAgrees(v: map<ValidatorId, ValidatorInfo>, w: map<ValidatorId, ValidatorInfo>,
      ids: set<ValidatorId>)
    requires forall x :: x in ids ==> StakeOf(v, x) == StakeOf(w, x)
    ensures Weight(v, ids) == Weight(w, ids)
    decreases ids
  {
    if ids != {} {
      var x :| x in ids;
      WeightTake(v, ids, x);
      WeightTake(w, ids, x);
      WeightAgrees(v, w, ids - {x});
    }
  }

  // ---------------------------------------------------------------- validator sets

  /** The stakes of distinct validators add up to no more than the recorded total. */
  ghost predicate Proper(s: ValidatorSet) {
    && (forall x :: x in s.validators ==> s.validators[x].id == x)
    && Weight(s.validators, s.validators.Keys) <= s.totalWeight
  }

  function TotalStake(infos: seq<ValidatorInfo>): nat {
    if infos == [] then 0 else TotalStake(infos[..|infos| - 1]) + infos[|infos| - 1].stake
  }

  /** The entries by id; of entries with one id, the last. */
  function ById(infos: seq<ValidatorInfo>): map<ValidatorId, ValidatorInfo> {
    if infos == [] then map[]
    else
      var last := infos[|infos| - 1];
      ById(infos[..|infos| - 1])[last.id := last]
  }

  /** No later entry has the id of the one at `i`. */
  ghost predicate IsLast(infos: seq<ValidatorInfo>, i: nat) {
    i < |infos| && forall k :: i < k < |infos| ==> infos[k].id != infos[i].id
  }

  ghost predicate DistinctIds(infos: seq<ValidatorInfo>) {
    forall i, j :: 0 <= i < j < |infos| ==> infos[i].id != infos[j].id
  }

  lemma {:induction false} ByIdHolds(infos: seq<ValidatorInfo>, x: ValidatorId)
    ensures x in ById(infos) <==> exists i: nat :: IsLast(infos, i) && infos[i].id == x
    ensures forall i: nat :: IsLast(infos, i) && infos[i].id == x ==> x in ById(infos) && ById(infos)[x] == infos[i]
  {
    if infos != [] {
      var n := |infos| - 1;
      ByIdHolds(infos[..n], x);
      assert IsLast(infos, n);
      assert ById(infos) == ById(infos[..n])[infos[n].id := infos[n]];
      hide ById;
      forall i: nat | infos[n].id != x
        ensures IsLast(infos, i) && infos[i].id == x <==> IsLast(infos[..n], i) && infos[..n][i].id == x
      {
      }
    }
  }

  lemma {:induction false} ByIdProper(infos: seq<ValidatorInfo>)
    ensures forall x :: x in ById(infos) ==> ById(infos)[x].id == x
    ensures Weight(ById(infos), ById(infos).Keys) <= TotalStake(infos)
    ensures DistinctIds(infos) ==> Weight(ById(infos), ById(infos).Keys) == TotalStake(infos)
    ensures forall x :: x in ById(infos) ==> exists i :: 0 <= i < |infos| && infos[i].id == x
  {
    if infos != [] {
      hide Weight;
      var n := |infos| - 1;
      ByIdProper(infos[..n]);
      AddWeight(ById(infos[..n]), infos[n]);
    }
  }

  /** The total counts every entry of the list; of entries with one id, the map keeps the last. */
  method NewValidatorSet(infos: seq<ValidatorInfo>, epoch: nat) returns (s: ValidatorSet)
    ensures Proper(s) && s.epoch == epoch && s.totalWeight == TotalStake(infos)
    ensures forall x :: x in s.validators <==> exists i: nat :: IsLast(infos, i) && infos[i].id == x
    ensures forall i: nat :: IsLast(infos, i) ==>
      infos[i].id in s.validators && s.validators[infos[i].id] == infos[i]
    ensures DistinctIds(infos) ==> s.totalWeight == Weight(s.validators, s.validators.Keys)
  {
    hide Weight;
    var total := 0;
    var validators: map<ValidatorId, ValidatorInfo> := map[];
    for i := 0 to |infos|
      invariant validators == ById(infos[..i]) && total == TotalStake(infos[..i])
    {
      var info := infos[i];
      assert infos[..i + 1][..i] == infos[..i];
      total := total + info.stake;
      validators := validators[info.id := info];
    }
    assert infos[..|infos|] == infos;
    s := ValidatorSet(validators, total, epoch);
    hide ById, TotalStake;
    ByIdProper(infos);
    forall x { ByIdHolds(infos, x); }
  }

  lemma AddWeight(validators: map<ValidatorId, ValidatorInfo>, info: ValidatorInfo)
    ensures var w := validators[info.id := info];
      && Weight(w, w.Keys) <= Weight(validators, validators.Keys) + info.stake
      && (info.id !in validators ==> Weight(w, w.Keys) == Weight(validators, validators.Keys) + info.stake)
  {
    var w := validators[info.id := info];
    var rest := w.Keys - {info.id};
    WeightTake(w, w.Keys, info.id);
    WeightAgrees(validators, w, rest);
    WeightMonotone(validators, rest, validators.Keys);
    if info.id !in validators {
      assert rest == validators.Keys;
    }
  }

  /** More than two thirds of the total. */
  predicate HasSupermajority(s: ValidatorSet, weight: nat) {
    s.totalWeight != 0 && weight * 3 > s.totalWeight * 2
  }

  /** What the members of `ids` leave of the total is less than a third of it. */
  ghost predicate Decisive(s: ValidatorSet, ids: set<ValidatorId>) {
    s.totalWeight > 0 && 3 * (s.totalWeight - Weight(s.validators, ids)) < s.totalWeight
  }

  /** Nobody weighs nothing; one more validator adds its stake, and someone who is none adds nothing. */
  lemma WeightAdds(validators: map<ValidatorId, ValidatorInfo>, ids: set<ValidatorId>, x: ValidatorId)
    requires x !in ids
    ensures Weight(validators, {}) == 0
    ensures x in validators ==> Weight(validators, ids + {x}) == Weight(validators, ids) + validators[x].stake
    ensures x !in validators ==> Weight(validators, ids + {x}) == Weight(validators, ids)
  {
    WeightTake(validators, ids + {x}, x);
    assert ids + {x} - {x} == ids;
  }

  /** The test decides whether what is left is less than a third. */
  lemma SupermajorityIff(s: ValidatorSet, ids: set<ValidatorId>)
    ensures HasSupermajority(s, Weight(s.validators, ids)) <==>
      s.totalWeight > 0 && 3 * (s.totalWeight - Weight(s.validators, ids)) < s.totalWeight
  {
  }

  lemma {:induction false} WeightEqual(validators: map<ValidatorId, ValidatorInfo>, ids: set<ValidatorId>, stake: nat)
    requires ids <= validators.Keys && forall x :: x in ids ==> validators[x].stake == stake
    ensures Weight(validators, ids) == stake * |ids|
    decreases ids
  {
    if ids != {} {
      var x :| x in ids;
      WeightTake(validators, ids, x);
      WeightEqual(validators, ids - {x}, stake);
      assert stake * |ids| == stake * (|ids| - 1) + stake;
    }
  }

  /** Among n validators with equal stakes, k of them are enough exactly if 3k > 2n. */
  lemma EqualStakes(s: ValidatorSet, ids: set<ValidatorId>, stake: nat)
    requires s.totalWeight == Weight(s.validators, s.validators.Keys) && ids <= s.validators.Keys && stake > 0
    requires forall x :: x in s.validators ==> s.validators[x].stake == stake
    ensures HasSupermajority(s, Weight(s.validators, ids)) <==> 3 * |ids| > 2 * |s.validators|
  {
    WeightEqual(s.validators, ids, stake);
    WeightEqual(s.validators, s.validators.Keys, stake);
    var k, n := |ids|, |s.validators|;
    assert |s.validators.Keys| == n;
    hide Weight;
    EqualShares(stake, k, n);
  }

  lemma EqualShares(stake: nat, k: nat, n: nat)
    requires stake > 0
    ensures stake * n != 0 && (stake * k) * 3 > (stake * n) * 2 <==> 3 * k > 2 * n && n != 0
  {
    Positive(stake, n);
    var diff: int := 3 * k - 2 * n as int;
    assert (stake * k) * 3 - (stake * n) * 2 == stake * diff by {
      assert (stake * k) * 3 == stake * (3 * k);
      assert (stake * n) * 2 == stake * (2 * n);
    }
    SignOfProduct(stake, diff);
  }

  lemma Positive(stake: nat, n: nat)
    requires stake > 0
    ensures stake * n != 0 <==> n != 0
  {
  }

  lemma SignOfProduct(stake: nat, diff: int)
    requires stake > 0
    ensures stake * diff > 0 <==> diff > 0
  {
  }

  /** Two supermajorities share validators with more than a third of the total stake. */
  lemma QuorumsOverlap(s: ValidatorSet, a: set<ValidatorId>, b: set<ValidatorId>)
    requires Proper(s) && a <= s.validators.Keys && b <= s.validators.Keys
    requires HasSupermajority(s, Weight(s.validators, a)) && HasSupermajority(s, Weight(s.validators, b))
    ensures 3 * Weight(s.validators, a * b) > s.totalWeight
    ensures a * b != {}
  {
    WeightSplit(s.validators, a, b);
    WeightMonotone(s.validators, a + b, s.validators.Keys);
  }

  /** No weight that is ever compared exceeds the total, so that tripling it stays within 128 bits. */
  lemma WeightsFit(s: ValidatorSet, a: set<ValidatorId>)
    requires Proper(s) && a <= s.validators.Keys && 3 * s.totalWeight < 0x1_0000_0000_0000_0000_0000_0000_0000_0000
    ensures Weight(s.validators, a) * 3 < 0x1_0000_0000_0000_0000_0000_0000_0000_0000
  {
    WeightMonotone(s.validators, a, s.validators.Keys);
  }
}

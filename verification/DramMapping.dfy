/** The recovered map from physical addresses to bank classes. */
module DramMapping {
  import opened Gf2Vectors
  import opened Gf2Space
  import opened Words

  const MAX_MASKS: nat := 32
  const MASK_SET_ID_MAX: nat := 65

  datatype CalibrationResult = CalibrationResult(
    statusSuccess: bool, acceptancePassed: bool, bankMasks: seq<Vec>, maskSetId: string)

  datatype MappingRc = Ok | NotReady | CalibrationRejected | MaskCount | MaskSetId | ZeroMask | DuplicateMask

  // ----- The class of an address

  /** Class bit `i` is the parity of the address under mask `i`. */
  function ClassOf(masks: seq<Vec>, address: Vec): Vec {
    set i | 0 <= i < |masks| && Dot(address, masks[i])
  }

  /** The calibrator's prediction that two addresses with this difference conflict. */
  predicate PredictSameBank(diff: Vec, masks: seq<Vec>) {
    masks != [] && forall i :: 0 <= i < |masks| ==> !Dot(diff, masks[i])
  }

  /** The class map is linear: the class of a bitwise difference is the difference of the classes. */
  lemma ClassLinear(masks: seq<Vec>, a: Vec, b: Vec)
    ensures ClassOf(masks, Xor(a, b)) == Xor(ClassOf(masks, a), ClassOf(masks, b))
  {
    forall i | 0 <= i < |masks|
      ensures i in ClassOf(masks, Xor(a, b)) <==> i in Xor(ClassOf(masks, a), ClassOf(masks, b))
    {
      DotXor(a, b, masks[i]);
    }
  }

  /** Comparing two addresses through their difference is comparing their classes, which is what the
      calibrator's predicate decides. */
  lemma SameClassIffPredicted(masks: seq<Vec>, a: Vec, b: Vec)
    requires masks != []
    ensures PredictSameBank(Xor(a, b), masks) <==> ClassOf(masks, a) == ClassOf(masks, b)
  {
    ClassLinear(masks, a, b);
    if PredictSameBank(Xor(a, b), masks) {
      assert ClassOf(masks, Xor(a, b)) == {};
      forall i
        ensures i in ClassOf(masks, a) <==> i in ClassOf(masks, b)
      {
        assert i !in Xor(ClassOf(masks, a), ClassOf(masks, b));
      }
    }
    if ClassOf(masks, a) == ClassOf(masks, b) {
      assert ClassOf(masks, Xor(a, b)) == {};
      forall i | 0 <= i < |masks|
        ensures !Dot(Xor(a, b), masks[i])
      {
        assert i !in ClassOf(masks, Xor(a, b));
      }
    }
  }

  lemma ClassBelow(masks: seq<Vec>, address: Vec)
    ensures Below(ClassOf(masks, address), |masks|)
    ensures Value(ClassOf(masks, address)) < Pow2(|masks|)
  {
    ValueBelow(ClassOf(masks, address), |masks|);
  }

  // ----- Which classes occur

  lemma ClassOfFront(masks: seq<Vec>, address: Vec)
    requires masks != []
    ensures var n := |masks| - 1;
            ClassOf(masks, address) == ClassOf(masks[..n], address) + if Dot(address, masks[n]) then {n} else {}
  {
  }

  /** Some change of the address flips the last class bit alone. */
  lemma FlipLast(masks: seq<Vec>, address: Vec, width: nat) returns (flipped: Vec)
    requires masks != [] && masks[|masks| - 1] !in Span(masks[..|masks| - 1])
    requires Below(address, width) && forall i :: 0 <= i < |masks| ==> Below(masks[i], width)
    ensures Below(flipped, width)
    ensures ClassOf(masks[..|masks| - 1], flipped) == ClassOf(masks[..|masks| - 1], address)
    ensures Dot(flipped, masks[|masks| - 1]) != Dot(address, masks[|masks| - 1])
  {
    var front, last := masks[..|masks| - 1], masks[|masks| - 1];
    var flip := Separation(front, last, width);
    flipped := Xor(address, flip);
    DotXor(address, flip, last);
    ClassLinear(front, address, flip);
    assert ClassOf(front, flip) == {};
  }

  /** With independent masks every class has an address: fix one class bit after another. */
  lemma {:induction false} Preimage(masks: seq<Vec>, bankClass: Vec, width: nat) returns (address: Vec)
    requires Independent(masks)
    requires forall i :: 0 <= i < |masks| ==> Below(masks[i], width)
    requires Below(bankClass, |masks|)
    ensures Below(address, width) && ClassOf(masks, address) == bankClass
  {
    if masks == [] {
      address := {};
      assert bankClass == {} by {
        assert forall i :: i !in bankClass;
      }
    } else {
      var n := |masks| - 1;
      address := Preimage(masks[..n], bankClass - {n}, width);
      if Dot(address, masks[n]) != (n in bankClass) {
        address := FlipLast(masks, address, width);
      }
      ClassOfFront(masks, address);
      assert bankClass == (bankClass - {n}) + if n in bankClass then {n} else {};
    }
  }

  /** A mask that is a combination of earlier ones leaves a class without addresses. */
  lemma {:induction false} DependentMask(masks: seq<Vec>) returns (j: nat)
    requires !Independent(masks)
    ensures j < |masks| && masks[j] in Span(masks[..j])
  {
    var n := |masks| - 1;
    if Independent(masks[..n]) {
      j := n;
    } else {
      j := DependentMask(masks[..n]);
      assert masks[..n][..j] == masks[..j];
    }
  }

  ghost predicate HasAddress(masks: seq<Vec>, bankClass: Vec, width: nat) {
    exists address :: Below(address, width) && ClassOf(masks, address) == bankClass
  }

  /** The map is onto all classes exactly when the masks are linearly independent. */
  lemma ClassesOntoIffIndependent(masks: seq<Vec>, width: nat)
    requires forall i :: 0 <= i < |masks| ==> Below(masks[i], width)
    ensures Independent(masks) <==> forall c :: Below(c, |masks|) ==> HasAddress(masks, c, width)
  {
    if Independent(masks) {
      forall c | Below(c, |masks|)
        ensures HasAddress(masks, c, width)
      {
        var address := Preimage(masks, c, width);
      }
    } else {
      var j := DependentMask(masks);
      assert Below({j}, |masks|);
      if HasAddress(masks, {j}, width) {
        var address :| Below(address, width) && ClassOf(masks, address) == {j};
        forall i | 0 <= i < j
          ensures !Dot(address, masks[..j][i])
        {
          assert i !in ClassOf(masks, address);
        }
        AnnihilatesSpan(address, masks[..j], masks[j]);
      }
    }
  }

  // ----- Independent masks pass validation

  lemma {:induction false} IndependentDistinct(masks: seq<Vec>, i: nat, j: nat)
    requires Independent(masks) && i <= j < |masks|
    ensures masks[j] != {}
    ensures i < j ==> masks[i] != masks[j]
  {
    var n := |masks| - 1;
    if j == n {
      SpanZero(masks[..n]);
      if i < j {
        SpanRow(masks[..n], i);
      }
    } else {
      IndependentDistinct(masks[..n], i, j);
    }
  }

  predicate NonzeroDistinct(masks: seq<Vec>) {
    && (forall i :: 0 <= i < |masks| ==> masks[i] != {})
    && (forall i, j :: 0 <= i < j < |masks| ==> masks[i] != masks[j])
  }

  lemma IndependentMasksValid(masks: seq<Vec>)
    requires Independent(masks)
    ensures NonzeroDistinct(masks)
  {
    forall i, j | 0 <= i <= j < |masks|
      ensures masks[j] != {} && (i < j ==> masks[i] != masks[j])
    {
      IndependentDistinct(masks, i, j);
    }
  }

  // ----- The mapping object

  /** The first check the result fails, in the order the daemon makes them. */
  function Verdict(result: CalibrationResult): MappingRc {
    if !result.statusSuccess || !result.acceptancePassed then CalibrationRejected
    else if |result.bankMasks| == 0 || |result.bankMasks| > MAX_MASKS then MaskCount
    else if |result.maskSetId| == 0 || |result.maskSetId| >= MASK_SET_ID_MAX then MaskSetId
    else MaskVerdict(result.bankMasks)
  }

  /** What the daemon accepts: a successful calibration that passed its acceptance, with 1 to 32 masks, all nonzero and
      different, and a name of 1 to 64 characters. */
  lemma VerdictMeans(result: CalibrationResult)
    ensures Verdict(result) == Ok <==>
            && result.statusSuccess && result.acceptancePassed
            && 1 <= |result.bankMasks| <= 32 && 1 <= |result.maskSetId| <= 64
            && (forall i :: 0 <= i < |result.bankMasks| ==> result.bankMasks[i] != {})
            && (forall i, j :: 0 <= i < j < |result.bankMasks| ==> result.bankMasks[i] != result.bankMasks[j])
    ensures Verdict(result) == CalibrationRejected <==> !(result.statusSuccess && result.acceptancePassed)
    ensures result.statusSuccess && result.acceptancePassed ==>
              && (Verdict(result) == MaskCount <==> result.bankMasks == [] || |result.bankMasks| > 32)
              && (Verdict(result) == MaskSetId <==>
                    1 <= |result.bankMasks| <= 32 && (result.maskSetId == "" || |result.maskSetId| > 64))
  {
    MaskVerdictOk(result.bankMasks);
  }

  /** The earliest mask that is zero or repeats an earlier one decides. */
  function MaskVerdict(masks: seq<Vec>): MappingRc {
    if masks == [] then Ok
    else
      var front := MaskVerdict(masks[..|masks| - 1]);
      if front != Ok then front
      else if masks[|masks| - 1] == {} then ZeroMask
      else if masks[|masks| - 1] in masks[..|masks| - 1] then DuplicateMask
      else Ok
  }

  lemma {:induction false} MaskVerdictOk(masks: seq<Vec>)
    ensures MaskVerdict(masks) in {Ok, ZeroMask, DuplicateMask}
    ensures MaskVerdict(masks) == Ok <==> NonzeroDistinct(masks)
  {
    if masks != [] {
      var n := |masks| - 1;
      MaskVerdictOk(masks[..n]);
      assert NonzeroDistinct(masks) ==> NonzeroDistinct(masks[..n]);
      assert masks == masks[..n] + [masks[n]];
    }
  }

  /** A mask is blamed for being zero, or for repeating an earlier one, when all before it are nonzero and different. */
  lemma {:induction false} MaskVerdictMeans(masks: seq<Vec>)
    ensures MaskVerdict(masks) == ZeroMask <==>
            exists i :: 0 <= i < |masks| && NonzeroDistinct(masks[..i]) && masks[i] == {}
    ensures MaskVerdict(masks) == DuplicateMask <==>
            exists i :: 0 <= i < |masks| && NonzeroDistinct(masks[..i]) && masks[i] != {} && masks[i] in masks[..i]
  {
    if masks != [] {
      var n := |masks| - 1;
      MaskVerdictMeans(masks[..n]);
      MaskVerdictOk(masks[..n]);
      forall i | 0 <= i < n
        ensures masks[..n][..i] == masks[..i] && masks[..n][i] == masks[i]
      {
      }
      if exists i :: 0 <= i < n && NonzeroDistinct(masks[..i]) && (masks[i] == {} || masks[i] in masks[..i]) {
        var i :| 0 <= i < n && NonzeroDistinct(masks[..i]) && (masks[i] == {} || masks[i] in masks[..i]);
        assert masks[..n][..i] == masks[..i];
      }
    }
  }

  lemma {:induction false} MaskVerdictPrefix(masks: seq<Vec>, n: nat)
    requires n <= |masks| && MaskVerdict(masks[..n]) != Ok
    ensures MaskVerdict(masks) == MaskVerdict(masks[..n])
  {
    if n < |masks| {
      assert masks[..|masks| - 1][..n] == masks[..n];
      MaskVerdictPrefix(masks[..|masks| - 1], n);
    } else {
      assert masks[..n] == masks;
    }
  }

  /** Three masks of which the last is the XOR of the others. */
  function DependentMasks(): seq<Vec> {
    [{0}, {1}, {0, 1}]
  }

  lemma DependentMasksValid()
    ensures NonzeroDistinct(DependentMasks())
  {
    var masks := DependentMasks();
    assert 1 in masks[1] && 1 !in masks[0] && 1 in masks[2] && 0 in masks[2] && 0 !in masks[1];
  }

  lemma DependentMasksSpan()
    ensures DependentMasks()[2] in Span(DependentMasks()[..2]) && !Independent(DependentMasks())
  {
    var front := DependentMasks()[..2];
    SpanRow(front, 0);
    SpanRow(front, 1);
    SpanXor(front, front[0], front[1]);
    assert Xor(front[0], front[1]) == DependentMasks()[2];
  }

  lemma DependentMasksMiss(address: Vec)
    ensures ClassOf(DependentMasks(), address) != {2}
  {
    var masks := DependentMasks();
    if ClassOf(masks, address) == {2} {
      assert 0 !in ClassOf(masks, address) && 1 !in ClassOf(masks, address);
      DependentMasksSpan();
      AnnihilatesSpan(address, masks[..2], masks[2]);
    }
  }

  /** The daemon accepts dependent masks: with `1`, `2` and `3` no address is in the class whose only bit is the
      third. */
  lemma DependentMasksAccepted() returns (result: CalibrationResult)
    ensures result.bankMasks == DependentMasks() && Verdict(result) == Ok && !Independent(result.bankMasks)
    ensures Below({2}, |result.bankMasks|) && forall width: nat :: !HasAddress(result.bankMasks, {2}, width)
  {
    result := CalibrationResult(true, true, DependentMasks(), "m");
    DependentMasksValid();
    MaskVerdictOk(DependentMasks());
    DependentMasksSpan();
    forall width: nat
      ensures !HasAddress(DependentMasks(), {2}, width)
    {
      if HasAddress(DependentMasks(), {2}, width) {
        var address :| Below(address, width) && ClassOf(DependentMasks(), address) == {2};
        DependentMasksMiss(address);
      }
    }
  }

  method ValidateMasks(masks: seq<Vec>) returns (rc: MappingRc)
    ensures rc == MaskVerdict(masks)
  {
    for i := 0 to |masks|
      invariant MaskVerdict(masks[..i]) == Ok
    {
      var seen := masks[..i + 1];
      assert seen[..i] == masks[..i] && seen[i] == masks[i];
      if masks[i] == {} {
        MaskVerdictPrefix(masks, i + 1);
        return ZeroMask;
      }
      for j := 0 to i
        invariant masks[i] !in masks[..j]
      {
        if masks[i] == masks[j] {
          assert masks[..i][j] == masks[j];
          MaskVerdictPrefix(masks, i + 1);
          return DuplicateMask;
        }
      }
    }
    assert masks[..|masks|] == masks;
    return Ok;
  }

  /** The parity of an address under a mask, by folding. */
  method MaskParity(address: Vec, mask: Vec) returns (odd: bool)
    requires Below(address, WIDTH)
    ensures odd == Dot(address, mask)
  {
    FoldedParityCorrect(address * mask);
    odd := FoldedParity(address * mask);
  }

  class Mapping {
    var masks: seq<Vec>
    var maskSetId: string
    var ready: bool

    constructor ()
      ensures masks == [] && maskSetId == "" && !ready
    {
      masks, maskSetId, ready := [], "", false;
    }

    /** What holds of every mapping made by the operations below from 64-bit masks. */
    ghost predicate Valid()
      reads this
    {
      && (forall i :: 0 <= i < |masks| ==> Below(masks[i], WIDTH))
      && (ready ==> 0 < |masks| <= MAX_MASKS && NonzeroDistinct(masks))
    }

    predicate IsReady()
      reads this
    {
      ready && |masks| > 0
    }

    method Reset()
      modifies this
      ensures masks == [] && maskSetId == "" && !ready
    {
      masks, maskSetId, ready := [], "", false;
    }

    /** Fails closed: a rejected result leaves an empty mapping that is not ready. */
    method InitFromCalibration(result: CalibrationResult) returns (rc: MappingRc)
      requires forall i :: 0 <= i < |result.bankMasks| ==> Below(result.bankMasks[i], WIDTH)
      modifies this
      ensures rc == Verdict(result)
      ensures Valid() && (IsReady() <==> rc == Ok)
      ensures rc == Ok ==> masks == result.bankMasks && maskSetId == result.maskSetId
      ensures rc != Ok ==> masks == [] && maskSetId == ""
    {
      Reset();
      if !result.statusSuccess || !result.acceptancePassed {
        return CalibrationRejected;
      }
      if |result.bankMasks| == 0 || |result.bankMasks| > MAX_MASKS {
        return MaskCount;
      }
      if |result.maskSetId| == 0 || |result.maskSetId| >= MASK_SET_ID_MAX {
        return MaskSetId;
      }
      rc := ValidateMasks(result.bankMasks);
      MaskVerdictOk(result.bankMasks);
      if rc != Ok {
        return;
      }
      masks := result.bankMasks;
      maskSetId := result.maskSetId;
      ready := true;
    }

    method BankClassFast(address: Vec) returns (bankClass: Vec)
      requires Valid() && Below(address, WIDTH)
      ensures bankClass == ClassOf(masks, address)
    {
      bankClass := {};
      for i := 0 to |masks|
        invariant bankClass == ClassOf(masks[..i], address)
      {
        var odd := MaskParity(address, masks[i]);
        ClassOfFront(masks[..i + 1], address);
        assert masks[..i + 1][..i] == masks[..i];
        if odd {
          bankClass := bankClass + {i};
        }
        assert bankClass == ClassOf(masks[..i + 1], address);
      }
      assert masks[..|masks|] == masks;
    }

    method BankClass(address: Vec) returns (rc: MappingRc, bankClass: Vec)
      requires Valid() && Below(address, WIDTH)
      ensures rc == if IsReady() then Ok else NotReady
      ensures rc == Ok ==> bankClass == ClassOf(masks, address)
    {
      bankClass := {};
      if !IsReady() {
        return NotReady, bankClass;
      }
      rc := Ok;
      bankClass := BankClassFast(address);
    }

    /** Decides equality of classes without building them. */
    method SameBankClass(pa1: Vec, pa2: Vec) returns (rc: MappingRc, same: bool)
      requires Valid() && Below(pa1, WIDTH) && Below(pa2, WIDTH)
      ensures rc == if IsReady() then Ok else NotReady
      ensures rc == Ok ==> same == (ClassOf(masks, pa1) == ClassOf(masks, pa2)) == PredictSameBank(Xor(pa1, pa2), masks)
    {
      same := false;
      if !IsReady() {
        return NotReady, same;
      }
      SameClassIffPredicted(masks, pa1, pa2);
      var diff := Xor(pa1, pa2);
      for i := 0 to |masks|
        invariant forall k :: 0 <= k < i ==> !Dot(diff, masks[k])
      {
        var odd := MaskParity(diff, masks[i]);
        if odd {
          return Ok, false;
        }
      }
      return Ok, true;
    }
  }
}

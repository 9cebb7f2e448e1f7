/** The library design of design.py: a template whose digits mark the
    randomised positions, and the parent peptide. */
module Design {
  import opened Wrappers
  import opened Indexing

  /** str.isdigit, for the ASCII digits '0' to '9'. */
  predicate IsDigit(c: char)
  {
    '0' <= c <= '9'
  }

  /** vr_mask: one entry per template position, true at the digits. */
  function VariableMask(template: string): (m: seq<bool>)
    ensures |m| == |template|
  {
    seq(|template|, i requires 0 <= i < |template| => IsDigit(template[i]))
  }

  /** cr_mask: one entry per template position, true at the non-digits. */
  function ConstantMask(template: string): (m: seq<bool>)
    ensures |m| == |template|
  {
    seq(|template|, i requires 0 <= i < |template| => !IsDigit(template[i]))
  }

  /** The two masks are complementary at every position, and the variable
      mask holds exactly at the digits of the template. */
  lemma MasksComplementary(template: string)
    ensures |VariableMask(template)| == |ConstantMask(template)| == |template|
    ensures forall i :: 0 <= i < |template| ==>
      (VariableMask(template)[i] <==> IsDigit(template[i])) &&
      ConstantMask(template)[i] == !VariableMask(template)[i]
  {
  }

  /** Every position is counted by exactly one of the two masks. */
  lemma {:induction false} MaskCountsPartition(template: string)
    ensures CountTrue(VariableMask(template)) + CountTrue(ConstantMask(template)) == |template|
  {
    if |template| > 0 {
      var init := template[..|template| - 1];
      assert VariableMask(template)[..|template| - 1] == VariableMask(init);
      assert ConstantMask(template)[..|template| - 1] == ConstantMask(init);
      MaskCountsPartition(init);
    }
  }

  /** The variable region vr and the constant region cr split the template:
      their lengths add up to L, vr holds exactly the digits and cr none, and
      each keeps the template order. */
  lemma RegionsPartition(template: string)
    ensures MaskIndex(template, VariableMask(template)).Ok?
    ensures MaskIndex(template, ConstantMask(template)).Ok?
    ensures var vr := MaskIndex(template, VariableMask(template)).value;
      var cr := MaskIndex(template, ConstantMask(template)).value;
      var vi := TrueIndices(VariableMask(template));
      var ci := TrueIndices(ConstantMask(template));
      && |vr| + |cr| == |template|
      && (forall k :: 0 <= k < |vr| ==> IsDigit(vr[k]) && vr[k] == template[vi[k]])
      && (forall k :: 0 <= k < |cr| ==> !IsDigit(cr[k]) && cr[k] == template[ci[k]])
      && (forall k, l :: 0 <= k < l < |vi| ==> vi[k] < vi[l])
      && (forall k, l :: 0 <= k < l < |ci| ==> ci[k] < ci[l])
  {
    MaskCountsPartition(template);
  }

  /** wt = wt_full[vr_mask] is defined exactly when the template is empty or
      the parent is as long as the template; it then holds the parent's
      letters at the digit positions, in order, one per digit. */
  lemma ParentVariableRegion(template: string, parent: string)
    ensures MaskIndex(parent, VariableMask(template)).Err? <==> |template| > 0 && |parent| != |template|
    ensures MaskIndex(parent, VariableMask(template)).Ok? ==>
      var wt := MaskIndex(parent, VariableMask(template)).value;
      var vi := TrueIndices(VariableMask(template));
      && |wt| == |vi| == CountTrue(VariableMask(template))
      && (forall k :: 0 <= k < |wt| ==> vi[k] < |parent| && IsDigit(template[vi[k]]) && wt[k] == parent[vi[k]])
  {
  }

  /** PepDesign: the template (design), the parent (wt_full) and the fields
      that _setup_params derives from them once, at construction. */
  class PepDesign {
    var design: string
    var wtFull: string
    var L: nat
    var vrMask: seq<bool>
    var crMask: seq<bool>
    var vr: string
    var cr: string
    var wt: string

    /** The derived fields agree with design and wt_full. */
    ghost predicate Valid()
      reads this
    {
      && L == |design|
      && vrMask == VariableMask(design)
      && crMask == ConstantMask(design)
      && MaskIndex(design, vrMask) == Ok(vr)
      && MaskIndex(design, crMask) == Ok(cr)
      && MaskIndex(wtFull, vrMask) == Ok(wt)
    }

    /** __init__: store the template and the parent, then _setup_params.
        The parent must pass the boolean index of line 58. */
    constructor (pepSequence: string, wtSeq: string)
      requires |pepSequence| == 0 || |wtSeq| == |pepSequence|
      ensures Valid() && design == pepSequence && wtFull == wtSeq
      ensures L == |pepSequence| && |vrMask| == |crMask| == L
      ensures forall i :: 0 <= i < L ==> (vrMask[i] <==> IsDigit(design[i])) && crMask[i] == !vrMask[i]
      ensures |vr| + |cr| == L && |wt| == |vr| == CountTrue(vrMask)
      ensures forall k :: 0 <= k < |vr| ==> IsDigit(vr[k])
      ensures forall k :: 0 <= k < |cr| ==> !IsDigit(cr[k])
      ensures forall k :: 0 <= k < |wt| ==> wt[k] == wtSeq[TrueIndices(vrMask)[k]]
    {
      design := pepSequence;
      wtFull := wtSeq;
      new;
      ParentVariableRegion(pepSequence, wtSeq);
      SetupParams();
      RegionsPartition(pepSequence);
    }

    /** _setup_params: derive L, the masks, the regions and wt. */
    method SetupParams()
      requires MaskIndex(wtFull, VariableMask(design)).Ok?
      modifies this
      ensures design == old(design) && wtFull == old(wtFull)
      ensures Valid()
    {
      L := |design|;
      vrMask := VariableMask(design);
      crMask := ConstantMask(design);
      vr := MaskIndex(design, vrMask).value;
      cr := MaskIndex(design, crMask).value;
      wt := MaskIndex(wtFull, vrMask).value;
    }
  }
}

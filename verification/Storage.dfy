/** The constraints of a program by their ids: circom_algebra/src/constraint_storage/mod.rs.
    The compression of coefficients is not modelled. */
module Storage {
  import opened Wrappers
  import opened Constraints

  class ConstraintStorage {
    var constraints: seq<Constraint>

    constructor ()
      ensures constraints == []
    {
      constraints := [];
    }

    method AddConstraint(constraint: Constraint) returns (id: nat)
      modifies this
      ensures id == |old(constraints)| && constraints == old(constraints) + [constraint]
    {
      id := |constraints|;
      constraints := constraints + [constraint];
    }

    method ReadConstraint(id: nat) returns (r: Option<Constraint>)
      ensures r == if id < |constraints| then Some(constraints[id]) else None
    {
      r := if id < |constraints| then Some(constraints[id]) else None;
    }

    method Replace(id: nat, constraint: Constraint)
      modifies this
      ensures constraints == if id < |old(constraints)| then old(constraints)[id := constraint] else old(constraints)
    {
      if id < |constraints| {
        constraints := constraints[id := constraint];
      }
    }

    /** Takes the empty constraints out; the others keep their order. */
    method ExtractEmpty() returns (removed: nat)
      modifies this
      ensures constraints == WithoutEmpty(old(constraints))
      ensures removed + |constraints| == |old(constraints)|
    {
      var before := constraints;
      constraints, removed := [], 0;
      for i := 0 to |before|
        invariant constraints == WithoutEmpty(before[..i])
        invariant removed + |constraints| == i
      {
        assert before[..i + 1][..i] == before[..i];
        if IsEmpty(before[i]) {
          removed := removed + 1;
        } else {
          constraints := constraints + [before[i]];
        }
      }
      assert before[..|before|] == before;
    }
  }

  function WithoutEmpty(cs: seq<Constraint>): seq<Constraint> {
    if cs == [] then []
    else
      var last := |cs| - 1;
      WithoutEmpty(cs[..last]) + if IsEmpty(cs[last]) then [] else [cs[last]]
  }
}

/**
 * `EnumTools.ParseFromValue<TEnum>(value)`: keeps the bits of a `long` that
 * some member of the enum uses.  The member values, which the source reads
 * by reflection, are an input here.  A `long` is represented by the set of
 * positions (0 for the least significant, 63 for the sign) of its 1-bits, so
 * that C#'s `|` is set union and `&` is set intersection.
 */
module EnumTools {

  /** The 1-bits of a 64-bit value. */
  type Bits = s: set<nat> | forall k :: k in s ==> k < 64

  /** The bits of all member values together, OR-ed from the first. */
  function OrAll(members: seq<Bits>): (mask: Bits)
  {
    if members == [] then {} else OrAll(members[..|members| - 1]) + members[|members| - 1]
  }

  /** One more member ORs its bits in. */
  lemma OrAllStep(members: seq<Bits>, i: nat)
    requires i < |members|
    ensures OrAll(members[..i + 1]) == OrAll(members[..i]) + members[i]
  {
    assert members[..i + 1][..i] == members[..i];
  }

  /** The loop over the members: `bitMask |= member` for each, then `value & bitMask`. */
  method ParseFromValue(value: Bits, members: seq<Bits>) returns (r: Bits)
    ensures r == value * OrAll(members)
  {
    var bitMask: Bits := {};
    var i := 0;
    while i < |members|
      invariant 0 <= i <= |members|
      invariant bitMask == OrAll(members[..i])
    {
      OrAllStep(members, i);
      bitMask := bitMask + members[i];
      i := i + 1;
    }
    assert members[..i] == members;
    r := value * bitMask;
  }

  /** Exactly the bits some member has are in the mask. */
  lemma {:induction false} MaskIsUnion(members: seq<Bits>, k: nat)
    ensures k in OrAll(members) <==> exists i :: 0 <= i < |members| && k in members[i]
  {
    if members != [] {
      var init := members[..|members| - 1];
      MaskIsUnion(init, k);
      if k in OrAll(init) {
        var i :| 0 <= i < |init| && k in init[i];
        assert members[i] == init[i];
      }
      forall i | 0 <= i < |init| ensures init[i] == members[i] {}
    }
  }

  /** A declared member's value comes back unchanged. */
  lemma MemberComesBack(members: seq<Bits>, i: nat)
    requires i < |members|
    ensures members[i] * OrAll(members) == members[i]
  {
    forall k | k in members[i] ensures k in OrAll(members) {
      MaskIsUnion(members, k);
    }
  }

  /** The result has no bit outside the mask and none outside the value; feeding it back in gives it again. */
  lemma ResultWithinMask(value: Bits, members: seq<Bits>)
    ensures value * OrAll(members) <= OrAll(members) && value * OrAll(members) <= value
    ensures (value * OrAll(members)) * OrAll(members) == value * OrAll(members)
  {
  }

  /** A value sharing no bit with any member gives the empty set of bits, the default 0. */
  lemma DisjointGivesDefault(value: Bits, members: seq<Bits>)
    requires forall i :: 0 <= i < |members| ==> value * members[i] == {}
    ensures value * OrAll(members) == {}
  {
    forall k | k in value ensures k !in OrAll(members) {
      forall i | 0 <= i < |members| ensures k !in members[i] {
        assert k !in value * members[i];
      }
      MaskIsUnion(members, k);
    }
  }

  /** A value made only of members' bits comes back unchanged. */
  lemma UnionOfMembersComesBack(value: Bits, members: seq<Bits>)
    requires forall k :: k in value ==> exists i :: 0 <= i < |members| && k in members[i]
    ensures value * OrAll(members) == value
  {
    forall k | k in value ensures k in OrAll(members) {
      MaskIsUnion(members, k);
    }
  }
}

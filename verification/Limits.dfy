/** The limits and codes as the contracts write them. */
module Limits {
  import Blob
  import ChargedIce
  import Dimers
  import Energy
  import IceCandidates
  import IceFamily
  import IceFields
  import IceTypes
  import Instance
  import opened Machine
  import ParamTypes
  import opened Words

  /** A payload takes at most 64 MiB, and a parameter string 4 KiB. */
  lemma ByteLimits()
    ensures Blob.MAX_PAYLOAD == 64 * 1024 * 1024 && ParamTypes.MAX_PARAMS_LEN == 4 * 1024
  {
  }

  /** A stored lattice has a size from 1 to 32 and a tile size from 1 to 8. */
  lemma LatticeLimits(m: nat, t: nat)
    ensures Blob.SizesFit(m, t) <==> 0 < m < 33 && 0 < t < 9
  {
  }

  lemma PowersOfTwo()
    ensures Power2(17) == 131072 && Power2(21) == 2097152 && Power2(24) == 0x100_0000 && Power2(26) == 0x400_0000
    ensures Power2(30) == 0x4000_0000 && Power2(56) == 0x100_0000_0000_0000
  {
    assert Power2(12) == 4096 && Power2(17) == 32 * Power2(12) && Power2(21) == 16 * Power2(17);
    assert Power2(24) == 8 * Power2(21) && Power2(26) == 4 * Power2(24) && Power2(30) == 16 * Power2(26);
    assert Power2(36) == 64 * Power2(30) && Power2(42) == 64 * Power2(36);
    assert Power2(48) == 64 * Power2(42) && Power2(56) == 256 * Power2(48);
  }

  /** Every instance stays within 2^24 nodes, 2^26 edges, 2^30 and 2^56 milli, and 2^26 bytes of metadata. */
  lemma InstanceLimits()
    ensures Instance.FAM_37 == Instance.Limits(Power2(24), Power2(26), Power2(30), Power2(56), Power2(26))
  {
    PowersOfTwo();
  }

  /** The ice families take 2^17 nodes, 2^21 edges, and 32 edges at a node, and 1000 milli for a coefficient. */
  lemma FamilyLimits()
    ensures IceFields.MAX_NODES == Power2(17) && IceFields.MAX_EDGES == Power2(21) && IceCandidates.MAX_DEGREE == Power2(5)
    ensures ChargedIce.COEFFICIENT_BOUND == IceFamily.STRONG_MILLI == -Dimers.PAIR_MILLI == 1000
  {
    PowersOfTwo();
  }

  /** Sums are held in 128 bits and coefficients in 64. */
  lemma SumLimits()
    ensures Energy.I128_MAX + 1 == (I64_MAX + 1) * (I64_MAX + 1) * 2 && 2 * (I64_MAX + 1) == U64 == U32 * U32
  {
  }

  /** Topology incompatible, bounds exceeded, and no instance follow one another. */
  lemma Codes()
    ensures IceFields.CODE_TOPOLOGY_INCOMPATIBLE == 12 && IceFields.CODE_BOUNDS_EXCEEDED == 12 + 1 && IceTypes.CODE_NO_INSTANCE == 12 + 2
  {
  }
}

/** `Pattern`: the symmetry of the final image, chosen from the entropy stream. */
module Patterns {
  import opened Basics
  import opened BitStream

  /** Mirror around the central axes, rotate around the centre, or identity. */
  datatype Pattern = Snowflake | Pinwheel | Fiducial

  predicate IsFiducialVersion(version: Version)
  {
    version == Version.Fiducial || version == GrayscaleFiducial
  }

  /** The number of entropy bits `selectPattern` reads. */
  function PatternBits(version: Version): (n: nat)
    ensures n <= 1
  {
    if IsFiducialVersion(version) then 0 else 1
  }

  /** The pattern chosen by the bits at position pos. */
  function PatternAt(data: seq<Byte>, pos: nat, version: Version): Pattern
    requires pos + PatternBits(version) <= 8 * |data|
  {
    if IsFiducialVersion(version) then Pattern.Fiducial
    else if BitAt(data, pos) then Snowflake
    else Pinwheel
  }

  /** `selectPattern`: the fiducial versions read nothing; the others read one bit. */
  method SelectPattern(entropy: BitEnumerator, version: Version) returns (r: Result<Pattern>)
    requires entropy.Valid()
    modifies entropy
    ensures entropy.Valid()
    ensures old(entropy.Consumed()) + PatternBits(version) <= 8 * |entropy.data| ==>
      r == Success(PatternAt(entropy.data, old(entropy.Consumed()), version)) &&
      entropy.Consumed() == old(entropy.Consumed()) + PatternBits(version)
    ensures old(entropy.Consumed()) + PatternBits(version) > 8 * |entropy.data| ==> r.Failure?
  {
    if version == Version.Fiducial || version == GrayscaleFiducial {
      return Success(Pattern.Fiducial);
    } else {
      var bit :- entropy.Next();
      if bit {
        return Success(Snowflake);
      } else {
        return Success(Pinwheel);
      }
    }
  }

  /** The fiducial versions always get the fiducial pattern; the others get
      snowflake for a set bit and pinwheel for a clear one, never fiducial. */
  lemma PatternChoice(data: seq<Byte>, pos: nat, version: Version)
    requires pos + 1 <= 8 * |data|
    ensures IsFiducialVersion(version) <==> PatternAt(data, pos, version) == Pattern.Fiducial
    ensures !IsFiducialVersion(version) ==> (PatternAt(data, pos, version) == Snowflake <==> BitAt(data, pos))
  {
  }
}

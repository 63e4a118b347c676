/** Target: the (game, version) pair that every layout decision is keyed on. */
module Targets {
  import opened Bytes

  datatype Game = FinalFantasyXII | TacticsOgrePSP | TacticsOgreReborn

  datatype Target = Target(game: Game, version: byte)

  /** Game.cs is not part of this model; its members are taken to be numbered
      in declaration order, which only matters for the hash code. */
  function GameValue(g: Game): int {
    match g
    case FinalFantasyXII => 0
    case TacticsOgrePSP => 1
    case TacticsOgreReborn => 2
  }

  predicate Is64Bit(t: Target) {
    t.game == TacticsOgreReborn
  }

  /** `Equals(Target other)`. */
  predicate Equals(a: Target, b: Target) {
    a.game == b.game && a.version == b.version
  }

  /** `operator ==` and `operator !=`, both defined through `Equals`. */
  predicate OpEqual(a: Target, b: Target) {
    Equals(a, b) == true
  }

  predicate OpNotEqual(a: Target, b: Target) {
    Equals(a, b) == false
  }

  /** `GetHashCode`, with C#'s wrapping 32-bit multiply and add; an enum and a
      byte hash to their numeric value. */
  function HashCode(t: Target): s32 {
    var h := WrapS32(-1957140106 * -1521134295 + GameValue(t.game));
    WrapS32(h * -1521134295 + t.version)
  }

  lemma EqualsIsStructural(a: Target, b: Target)
    ensures Equals(a, b) <==> a == b
    ensures OpEqual(a, b) <==> Equals(a, b)
    ensures OpNotEqual(a, b) <==> !OpEqual(a, b)
  {
  }

  lemma EqualTargetsHashEqual(a: Target, b: Target)
    requires Equals(a, b)
    ensures HashCode(a) == HashCode(b)
  {
  }

  /** The hash is the plain polynomial in the fields, reduced once to a C#
      int: the wrap after each step is ordinary arithmetic modulo 2^32. */
  lemma HashIsPolynomial(t: Target)
    ensures HashCode(t) == WrapS32((-1957140106 * -1521134295 + GameValue(t.game)) * -1521134295 + t.version)
  {
    WrapMulAdd(-1957140106 * -1521134295 + GameValue(t.game), -1521134295, t.version);
  }

  /** A hash value worked out independently with 32-bit arithmetic; both
      steps of it wrap. */
  lemma HashExamples()
    ensures HashCode(Target(TacticsOgreReborn, 11)) == 865068595
  {
    HashExample(TacticsOgreReborn, 11, -1101327896, 865068595);
  }

  /** One hash worked through its two wrapped steps. */
  lemma HashExample(g: Game, v: byte, h0: int, h: int)
    requires WrapS32(-1957140106 * -1521134295 + GameValue(g)) == h0
    requires WrapS32(h0 * -1521134295 + v) == h
    ensures HashCode(Target(g, v)) == h
  {
  }

  lemma Is64BitOnlyReborn(t: Target)
    ensures Is64Bit(t) <==> t.game == TacticsOgreReborn
  {
  }
}

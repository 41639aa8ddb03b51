/**
 * The `[Flags]` enum `PreserveMetadata`. A value of the enum is any 32-bit pattern;
 * the named members are single bits, and `None` is the lowest bit rather than zero.
 */
module PreserveMetadata {

  /** The bits of a `PreserveMetadata` value (the enum's underlying Int32). */
  type Bits = bv32

  datatype Flag = None | Copyright | Creation | Location

  /** The value of each member: `None = 1 << 0`, `Copyright = 1 << 1`, `Creation = 1 << 2`, `Location = 1 << 3`. */
  function Value(f: Flag): (b: Bits)
    ensures b != 0 && b & (b - 1) == 0
    ensures b <= 8
  {
    match f
    case None => 1 << 0
    case Copyright => 1 << 1
    case Creation => 1 << 2
    case Location => 1 << 3
  }

  /** `Enum.HasFlag`: every bit of the flag is set in the value. */
  predicate HasFlag(value: Bits, flag: Flag)
  {
    value & Value(flag) == Value(flag)
  }

  /** The OR of a list of members, as `A | B | ...` writes it. */
  function Combine(flags: seq<Flag>): Bits
  {
    if flags == [] then 0 else Value(flags[0]) | Combine(flags[1..])
  }

  /** Distinct members share no bit. */
  lemma ValuesDisjoint(f: Flag, g: Flag)
    requires f != g
    ensures Value(f) & Value(g) == 0 && Value(f) != Value(g)
  {
  }

  /** Every OR-combination of members lies in 0..15. */
  lemma {:induction false} CombineWithinFourBits(flags: seq<Flag>)
    ensures Combine(flags) <= 15
  {
    if flags != [] {
      CombineWithinFourBits(flags[1..]);
      var v, rest := Value(flags[0]), Combine(flags[1..]);
      assert v <= 15;
      assert v | rest <= 15 by {
        assert v & 0xFFFF_FFF0 == 0 && rest & 0xFFFF_FFF0 == 0;
      }
    }
  }

  /** Testing a combination for a member is true exactly when the member was OR-ed in. */
  lemma {:induction false} HasFlagOfCombine(flags: seq<Flag>, f: Flag)
    ensures HasFlag(Combine(flags), f) <==> f in flags
  {
    if flags != [] {
      HasFlagOfCombine(flags[1..], f);
      assert flags == [flags[0]] + flags[1..];
      if flags[0] != f {
        ValuesDisjoint(flags[0], f);
      }
    }
  }

  /** The zero value has no name and carries no flag; `None` itself is a flag that can be combined. */
  lemma ZeroCarriesNoFlag(f: Flag)
    ensures Value(f) != 0 && !HasFlag(0, f)
    ensures HasFlag(Combine([None, f]), None) && HasFlag(Combine([None, f]), f)
  {
    HasFlagOfCombine([None, f], None);
    HasFlagOfCombine([None, f], f);
  }
}

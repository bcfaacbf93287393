/** Utils.kt: `StringWrapper`, the base of the string-valued identifiers `Policy`
    (sim/Electorate.kt) and `ElectoralSystemName` (sim/ElectionSim.kt). */
module Utils {
  /** The concrete subclass a wrapper was built as. `equals` does not look at it. */
  datatype Kind = PolicyKind | ElectoralSystemNameKind

  datatype StringWrapper = StringWrapper(kind: Kind, s: string)

  /** The `other: Any?` argument of `equals`: a wrapper, or anything else (including null). */
  datatype Object = Wrapper(w: StringWrapper) | NotAWrapper

  const Int32Modulus: int := 0x1_0000_0000

  /** Two's-complement wrap-around of Kotlin `Int` arithmetic. */
  function Wrap32(x: int): (r: int)
    ensures -0x8000_0000 <= r < 0x8000_0000
    ensures (r - x) % Int32Modulus == 0
  {
    (x + 0x8000_0000) % Int32Modulus - 0x8000_0000
  }

  /** The UTF-16 code units of one character: itself below 0x10000, otherwise a high
      and a low surrogate. */
  function CodeUnits(c: char): (r: seq<int>)
    ensures (c as int) < 0x1_0000 ==> r == [c as int]
    ensures (c as int) >= 0x1_0000 ==> |r| == 2 && 0xD800 <= r[0] < 0xDC00 <= r[1] < 0xE000
    ensures (c as int) >= 0x1_0000 ==> (r[0] - 0xD800) * 0x400 + (r[1] - 0xDC00) + 0x1_0000 == c as int
  {
    var n := c as int;
    if n < 0x1_0000 then [n]
    else [0xD800 + (n - 0x1_0000) / 0x400, 0xDC00 + (n - 0x1_0000) % 0x400]
  }

  /** A Kotlin `String`: the UTF-16 code units of the text, in order. */
  function Utf16(s: string): (r: seq<int>)
    ensures |r| >= |s|
    ensures forall i :: 0 <= i < |r| ==> 0 <= r[i] < 0x1_0000
  {
    if s == [] then [] else Utf16(s[..|s| - 1]) + CodeUnits(s[|s| - 1])
  }

  /** h = 31 * h + unit over the code units, in 32-bit arithmetic. */
  function UnitsHash(units: seq<int>): (h: int)
    ensures -0x8000_0000 <= h < 0x8000_0000
  {
    if units == [] then 0 else Wrap32(31 * UnitsHash(units[..|units| - 1]) + units[|units| - 1])
  }

  /** `String.hashCode`: the hash of the text's UTF-16 code units. */
  function StringHash(s: string): (h: int)
    ensures -0x8000_0000 <= h < 0x8000_0000
  {
    UnitsHash(Utf16(s))
  }

  /** Text without characters beyond 0x10000 has one code unit per character. */
  lemma {:induction false} Utf16OfBasicPlane(s: string)
    requires forall i :: 0 <= i < |s| ==> (s[i] as int) < 0x1_0000
    ensures Utf16(s) == seq(|s|, i requires 0 <= i < |s| => s[i] as int)
  {
    if s != [] {
      Utf16OfBasicPlane(s[..|s| - 1]);
    }
  }

  function HashCode(w: StringWrapper): (h: int)
    ensures -0x8000_0000 <= h < 0x8000_0000
  {
    StringHash(w.s)
  }

  /** `equals`: the other object is some string wrapper holding the same text. */
  function Equals(w: StringWrapper, other: Object): (r: bool)
  {
    other.Wrapper? && other.w.s == w.s
  }

  /** `toString` prints the wrapped text unchanged, whatever the wrapper's kind. */
  function ToString(w: StringWrapper): (r: string)
    ensures r == w.s
  {
    w.s
  }

  /** Equal wrappers are exactly those that print the same, whatever their kinds. */
  lemma EqualsIffSameText(a: StringWrapper, b: StringWrapper)
    ensures Equals(a, Wrapper(b)) <==> ToString(a) == ToString(b)
  {
  }

  /** A wrapper never equals a non-wrapper. */
  lemma NeverEqualsOther(a: StringWrapper)
    ensures !Equals(a, NotAWrapper)
  {
  }

  /** `equals` is an equivalence relation on wrappers. */
  lemma EqualsIsEquivalence(a: StringWrapper, b: StringWrapper, c: StringWrapper)
    ensures Equals(a, Wrapper(a))
    ensures Equals(a, Wrapper(b)) ==> Equals(b, Wrapper(a))
    ensures Equals(a, Wrapper(b)) && Equals(b, Wrapper(c)) ==> Equals(a, Wrapper(c))
  {
  }

  /** `hashCode` is consistent with `equals`. */
  lemma HashConsistentWithEquals(a: StringWrapper, b: StringWrapper)
    requires Equals(a, Wrapper(b))
    ensures HashCode(a) == HashCode(b)
  {
  }

  /** A policy and an electoral-system name with the same text are equal. */
  lemma KindIsIgnored(s: string)
    ensures Equals(StringWrapper(PolicyKind, s), Wrapper(StringWrapper(ElectoralSystemNameKind, s)))
  {
  }

  /** Concrete values of the 32-bit string hash. */
  lemma StringHashExamples()
    ensures StringHash("") == 0
    ensures StringHash("a") == 97
    ensures StringHash("ab") == 3105
  {
    assert "a"[..0] == "";
    assert "ab"[..1] == "a";
  }

  /** A character beyond 0x10000 hashes as its two surrogates. */
  lemma SurrogatePairHash()
    ensures StringHash("\U{1F600}") == 31 * 0xD83D + 0xDE00
  {
    var s := "\U{1F600}";
    assert s[..0] == "";
    assert CodeUnits(s[0]) == [0xD83D, 0xDE00];
    var units := [0xD83D, 0xDE00];
    assert Utf16(s) == units;
    assert units[..1] == [0xD83D];
    assert [0xD83D][..0] == [];
    assert UnitsHash([0xD83D]) == 0xD83D;
  }
}

/** The java.lang facts the entities rely on: 32-bit string hashing and quoted fields in toString. */
module JavaText {

  const TwoTo31: int := 0x8000_0000
  const TwoTo32: int := 0x1_0000_0000

  /** A 32-bit pattern read as a two's-complement Java `int`. */
  function ToInt32(bits: nat): (v: int)
    requires bits < TwoTo32
    ensures -TwoTo31 <= v < TwoTo31
    ensures (v - bits) % TwoTo32 == 0
  {
    if bits < TwoTo31 then bits else bits - TwoTo32
  }

  /**
   * `String.hashCode()` as a bit pattern: `h = 31 * h + c` over the characters,
   * wrapping around at 32 bits.
   */
  function StringHashBits(s: string): (h: nat)
    ensures h < TwoTo32
    decreases |s|
  {
    if s == [] then 0
    else (31 * StringHashBits(s[..|s| - 1]) + s[|s| - 1] as int) % TwoTo32
  }

  /** `Objects.hash(e0, e1, ...)` over the elements' hash bits: `r = 31 * r + h`, starting from 1. */
  function ObjectsHashBits(hs: seq<nat>): (h: nat)
    ensures h < TwoTo32
    decreases |hs|
  {
    if hs == [] then 1
    else (31 * ObjectsHashBits(hs[..|hs| - 1]) + hs[|hs| - 1]) % TwoTo32
  }

  /** Position of the first apostrophe in `u`, or `|u|` when there is none. */
  function FirstQuote(u: string): (i: nat)
    ensures i <= |u|
    ensures forall j :: 0 <= j < i ==> u[j] != '\''
    ensures i < |u| ==> u[i] == '\''
  {
    if u == [] || u[0] == '\'' then 0 else 1 + FirstQuote(u[1..])
  }

  /** A quote-free field followed by a text opening with a quote ends at the first quote. */
  lemma {:induction false} FieldEndsAtQuote(x: string, s: string)
    requires '\'' !in x && |s| > 0 && s[0] == '\''
    ensures FirstQuote(x + s) == |x|
  {
    if x != [] {
      assert (x + s)[1..] == x[1..] + s;
      FieldEndsAtQuote(x[1..], s);
    }
  }

  /**
   * Two concatenations that each put a quote-free field before a text
   * opening with a quote agree only if the fields agree and the texts agree.
   */
  lemma SplitAtQuote(x: string, s: string, y: string, t: string)
    requires '\'' !in x && '\'' !in y
    requires |s| > 0 && s[0] == '\'' && |t| > 0 && t[0] == '\''
    requires x + s == y + t
    ensures x == y && s == t
  {
    FieldEndsAtQuote(x, s);
    FieldEndsAtQuote(y, t);
    assert x == (x + s)[..|x|];
    assert y == (y + t)[..|y|];
    assert s == (x + s)[|x|..];
    assert t == (y + t)[|y|..];
  }

  /** A fixed prefix can be cancelled. */
  lemma CancelPrefix(p: string, x: string, y: string)
    requires p + x == p + y
    ensures x == y
  {
    assert x == (p + x)[|p|..];
    assert y == (p + y)[|p|..];
  }
}

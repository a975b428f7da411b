/** Names the translator gives to MIR locals and basic blocks: the debug
    rendering `_N` of local `N` and `bbN` of block `N`. Both are injective,
    so distinct locals get distinct Boogie variables and distinct blocks
    distinct labels. */
module Names {

  /** The decimal digit character of `d`. */
  function DigitChar(d: nat): char
    requires d < 10
  {
    (48 + d) as char
  }

  /** The decimal rendering of `n`, without leading zeros. */
  function Decimal(n: nat): (s: string)
    ensures |s| >= 1
    ensures n < 10 <==> |s| == 1
    ensures forall i :: 0 <= i < |s| ==> '0' <= s[i] <= '9'
  {
    if n < 10 then [DigitChar(n)] else Decimal(n / 10) + [DigitChar(n % 10)]
  }

  lemma DigitCharInjective(a: nat, b: nat)
    requires a < 10 && b < 10
    ensures DigitChar(a) == DigitChar(b) ==> a == b
  {
    assert DigitChar(a) as int == 48 + a;
    assert DigitChar(b) as int == 48 + b;
  }

  /** Distinct numbers have distinct decimal renderings. */
  lemma {:induction false} DecimalInjective(a: nat, b: nat)
    ensures Decimal(a) == Decimal(b) ==> a == b
    decreases a
  {
    if Decimal(a) == Decimal(b) {
      if a < 10 {
        DigitCharInjective(a, b);
      } else {
        var sa, sb := Decimal(a), Decimal(b);
        assert sa[|sa| - 1] == DigitChar(a % 10);
        assert sb[|sb| - 1] == DigitChar(b % 10);
        DigitCharInjective(a % 10, b % 10);
        assert sa[..|sa| - 1] == Decimal(a / 10);
        assert sb[..|sb| - 1] == Decimal(b / 10);
        DecimalInjective(a / 10, b / 10);
      }
    }
  }

  /** The Boogie variable name of MIR local `l` (its debug form `_l`). */
  function LocalName(l: nat): string {
    "_" + Decimal(l)
  }

  /** The Boogie label of basic block `b` (its debug form `bbb`). */
  function BlockLabel(b: nat): string {
    "bb" + Decimal(b)
  }

  lemma LocalNameInjective(a: nat, b: nat)
    ensures LocalName(a) == LocalName(b) ==> a == b
  {
    if LocalName(a) == LocalName(b) {
      assert Decimal(a) == LocalName(a)[1..];
      assert Decimal(b) == LocalName(b)[1..];
      DecimalInjective(a, b);
    }
  }

  lemma BlockLabelInjective(a: nat, b: nat)
    ensures BlockLabel(a) == BlockLabel(b) ==> a == b
  {
    if BlockLabel(a) == BlockLabel(b) {
      assert Decimal(a) == BlockLabel(a)[2..];
      assert Decimal(b) == BlockLabel(b)[2..];
      DecimalInjective(a, b);
    }
  }
}

/**
 * Unique display names.
 *
 * A requested name that is already taken is replaced by the first of
 * `base_1`, `base_2`, ... that is free, the suffix written in decimal.
 */
module Naming {

  function DigitChar(d: nat): char
    requires d < 10
  {
    ('0' as int + d) as char
  }

  /** Decimal notation without leading zeros, as Python's `str` writes a non-negative int. */
  function NatToString(n: nat): (s: string)
    ensures |s| >= 1
    ensures n >= 10 ==> |s| >= 2
    ensures s[|s| - 1] == DigitChar(n % 10)
  {
    if n < 10 then [DigitChar(n)] else NatToString(n / 10) + [DigitChar(n % 10)]
  }

  /** Different numbers are written differently. */
  lemma {:induction false} NatToStringInjective(m: nat, n: nat)
    requires NatToString(m) == NatToString(n)
    ensures m == n
  {
    var s := NatToString(m);
    assert m % 10 == n % 10 by {
      assert DigitChar(m % 10) == s[|s| - 1] == DigitChar(n % 10);
    }
    if m >= 10 {
      assert n >= 10;
      assert NatToString(m / 10) == s[..|s| - 1] == NatToString(n / 10);
      NatToStringInjective(m / 10, n / 10);
    } else {
      assert n < 10;
    }
  }

  /** `base_i`. */
  function Suffixed(base: string, i: nat): string
  {
    base + "_" + NatToString(i)
  }

  /** The k-th name tried for `base`: the base itself, then `base_1`, `base_2`, .... */
  function Candidate(base: string, k: nat): string
  {
    if k == 0 then base else Suffixed(base, k)
  }

  /** No name is tried twice. */
  lemma CandidateInjective(base: string, j: nat, k: nat)
    requires j != k
    ensures Candidate(base, j) != Candidate(base, k)
  {
    if j != 0 && k != 0 && Candidate(base, j) == Candidate(base, k) {
      var p := |base| + 1;
      assert NatToString(j) == Suffixed(base, j)[p..] == Suffixed(base, k)[p..] == NatToString(k);
      NatToStringInjective(j, k);
    }
  }

  /** The names tried before the k-th. */
  ghost function Tried(base: string, k: nat): set<string>
  {
    set j | 0 <= j < k :: Candidate(base, j)
  }

  /** `name` is the first candidate for `base` that is not in `taken`. */
  ghost predicate IsResolution(name: string, base: string, taken: set<string>)
  {
    name !in taken &&
    exists k: nat :: name == Candidate(base, k) && forall j :: 0 <= j < k ==> Candidate(base, j) in taken
  }

  /** The resolution is determined by the base and the taken names. */
  lemma ResolutionIsUnique(a: string, b: string, base: string, taken: set<string>)
    requires IsResolution(a, base, taken) && IsResolution(b, base, taken)
    ensures a == b
  {
    var ka: nat :| a == Candidate(base, ka) && forall j :: 0 <= j < ka ==> Candidate(base, j) in taken;
    var kb: nat :| b == Candidate(base, kb) && forall j :: 0 <= j < kb ==> Candidate(base, j) in taken;
  }

  /** A free base is kept as it is. */
  lemma ResolutionOfFreeBase(name: string, base: string, taken: set<string>)
    requires IsResolution(name, base, taken) && base !in taken
    ensures name == base
  {
    assert IsResolution(base, base, taken) by {
      assert base == Candidate(base, 0);
    }
    ResolutionIsUnique(name, base, base, taken);
  }

  /** With `base` taken and `base_1` free, `base_1` is chosen. */
  lemma ResolutionOfFirstSuffix(name: string, base: string, taken: set<string>)
    requires IsResolution(name, base, taken) && base in taken && Suffixed(base, 1) !in taken
    ensures name == Suffixed(base, 1)
  {
    assert IsResolution(Suffixed(base, 1), base, taken) by {
      assert Candidate(base, 1) == Suffixed(base, 1);
    }
    ResolutionIsUnique(name, Suffixed(base, 1), base, taken);
  }

  /**
   * Probes `base`, `base_1`, `base_2`, ... until a name outside `taken` turns
   * up. The loop ends because every probe that fails uses up one more of the
   * finitely many taken names.
   */
  method ResolveName(base: string, taken: set<string>) returns (name: string)
    ensures IsResolution(name, base, taken)
    ensures base !in taken ==> name == base
  {
    name := base;
    var i := 1;
    while name in taken
      invariant i >= 1
      invariant name == Candidate(base, i - 1)
      invariant forall j :: 0 <= j < i - 1 ==> Candidate(base, j) in taken
      decreases |taken - Tried(base, i - 1)|
    {
      ghost var before := taken - Tried(base, i - 1);
      assert Tried(base, i) == Tried(base, i - 1) + {name};
      assert name !in Tried(base, i - 1) by {
        forall j | 0 <= j < i - 1 ensures Candidate(base, j) != name {
          CandidateInjective(base, j, i - 1);
        }
      }
      assert before == (taken - Tried(base, i)) + {name};
      name := Suffixed(base, i);
      i := i + 1;
    }
  }
}

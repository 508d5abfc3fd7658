/**
 * Catalog codes generated as a prefix followed by a zero-padded counter
 * (`generate_unique_code`): the first counter, from 1 up, whose code is not taken.
 */
module Codes {
  import opened Numerals

  /** `f"{prefix}{counter:03d}"` */
  function CodeFor(prefix: string, counter: nat): string
  {
    prefix + PadZeros(counter, 3)
  }

  /** Different counters give different codes. */
  lemma CodeForInjective(prefix: string, m: nat, n: nat)
    requires CodeFor(prefix, m) == CodeFor(prefix, n)
    ensures m == n
  {
    assert PadZeros(m, 3) == CodeFor(prefix, m)[|prefix|..];
    assert PadZeros(n, 3) == CodeFor(prefix, n)[|prefix|..];
    PadZerosInjective(m, n, 3);
  }

  /** The codes of counters 1 .. c-1. */
  ghost function CodesBelow(prefix: string, c: nat): set<string>
  {
    set k | 1 <= k < c :: CodeFor(prefix, k)
  }

  /** There are exactly c-1 codes below counter c, since no two counters share a code. */
  lemma {:induction false} CodesBelowSize(prefix: string, c: nat)
    requires c >= 1
    ensures |CodesBelow(prefix, c)| == c - 1
  {
    if c > 1 {
      var below := CodesBelow(prefix, c - 1);
      var last := CodeFor(prefix, c - 1);
      CodesBelowSize(prefix, c - 1);
      assert CodesBelow(prefix, c) == below + {last} by {
        forall y | y in CodesBelow(prefix, c) ensures y in below + {last} {
          var k :| 1 <= k < c && y == CodeFor(prefix, k);
          if k < c - 1 {
            assert y in below;
          }
        }
      }
      if last in below {
        var k :| 1 <= k < c - 1 && CodeFor(prefix, k) == last;
        CodeForInjective(prefix, k, c - 1);
      }
    } else {
      assert CodesBelow(prefix, c) == {};
    }
  }

  lemma {:induction false} SubsetSize<T>(a: set<T>, b: set<T>)
    requires a <= b
    ensures |a| <= |b|
  {
    if a != {} {
      var x :| x in a;
      SubsetSize(a - {x}, b - {x});
    }
  }

  /**
   * `generate_unique_code(prefix, existing_codes)`: the result is `prefix` and a counter of at
   * least three digits, is not among the existing codes, and every smaller counter from 1 up
   * is taken. The loop ends because at most `|existing|` counters can be taken.
   */
  method GenerateUniqueCode(prefix: string, existing: set<string>) returns (code: string, ghost counter: nat)
    ensures counter >= 1 && code == CodeFor(prefix, counter)
    ensures code !in existing
    ensures forall k :: 1 <= k < counter ==> CodeFor(prefix, k) in existing
  {
    var n: nat := 1;
    code := CodeFor(prefix, n);
    while code in existing
      invariant n >= 1 && code == CodeFor(prefix, n)
      invariant forall k :: 1 <= k < n ==> CodeFor(prefix, k) in existing
      invariant n - 1 <= |existing|
      decreases |existing| - (n - 1)
    {
      assert CodesBelow(prefix, n + 1) <= existing;
      CodesBelowSize(prefix, n + 1);
      SubsetSize(CodesBelow(prefix, n + 1), existing);
      n := n + 1;
      code := CodeFor(prefix, n);
    }
    counter := n;
  }

  /** With no codes taken, the first code is the prefix and "001". */
  lemma FirstCode(prefix: string)
    ensures CodeFor(prefix, 1) == prefix + "001"
  {
    assert NatToDigits(1) == "1";
  }
}

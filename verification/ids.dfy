/** Record identifiers: a role prefix followed by a sequence number written with at
    least three digits (`STU001`, `FAC012`, `ADM1000`). */
module Ids {
  import opened Wrappers
  import Decimal

  /** The identifier of the n-th record of a role, `f"{prefix}{n:03d}"`. */
  function FormatId(prefix: string, n: nat): (id: string)
  {
    prefix + Decimal.FormatPadded(n, 3)
  }

  /** Reads back the sequence number of an identifier: the prefix, then nothing but digits. */
  function ParseId(prefix: string, id: string): (r: Option<nat>)
    ensures r.Some? ==> |prefix| < |id| && id[..|prefix|] == prefix
  {
    if |prefix| < |id| && id[..|prefix|] == prefix && Decimal.AllDigits(id[|prefix|..])
    then Some(Decimal.ToNat(id[|prefix|..]))
    else None
  }

  /** An identifier is the prefix followed by at least three digits, exactly three
      below 1000, and reading back its number gives `n`. */
  lemma FormatIdRoundTrip(prefix: string, n: nat)
    ensures |prefix| + 3 <= |FormatId(prefix, n)| && FormatId(prefix, n)[..|prefix|] == prefix
    ensures n < 1000 ==> |FormatId(prefix, n)| == |prefix| + 3
    ensures ParseId(prefix, FormatId(prefix, n)) == Some(n)
  {
    var digits := Decimal.FormatPadded(n, 3);
    var id := prefix + digits;
    Decimal.FormatPaddedRoundTrip(n, 3);
    assert id[..|prefix|] == prefix && id[|prefix|..] == digits;
    assert Decimal.Pow10(3) == 1000;
  }

  /** Distinct sequence numbers give distinct identifiers, and only they do. */
  lemma FormatIdInjective(prefix: string, n: nat, m: nat)
    ensures FormatId(prefix, n) == FormatId(prefix, m) <==> n == m
  {
    FormatIdRoundTrip(prefix, n);
    FormatIdRoundTrip(prefix, m);
    if FormatId(prefix, n) == FormatId(prefix, m) {
      assert ParseId(prefix, FormatId(prefix, n)) == ParseId(prefix, FormatId(prefix, m));
    }
  }

  /** The identifiers of the first n records of a role, in registration order. */
  function Issued(prefix: string, n: nat): (ids: seq<string>)
    ensures |ids| == n
  {
    if n == 0 then [] else Issued(prefix, n - 1) + [FormatId(prefix, n)]
  }

  /** The k-th issued identifier carries sequence number k + 1. */
  lemma {:induction false} IssuedAt(prefix: string, n: nat, k: nat)
    requires k < n
    ensures Issued(prefix, n)[k] == FormatId(prefix, k + 1)
  {
    if k < n - 1 {
      IssuedAt(prefix, n - 1, k);
    }
  }

  /** The identifier issued next, from the current count, is not yet in use: every
      issued identifier reads back to a smaller sequence number. */
  lemma {:induction false} NextIdFresh(prefix: string, n: nat)
    ensures FormatId(prefix, n + 1) !in Issued(prefix, n)
    ensures forall id :: id in Issued(prefix, n) ==> ParseId(prefix, id).Some? && ParseId(prefix, id).value <= n
  {
    if n > 0 {
      NextIdFresh(prefix, n - 1);
      FormatIdRoundTrip(prefix, n);
      FormatIdRoundTrip(prefix, n + 1);
    }
  }
}

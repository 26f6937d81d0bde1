/** Campaign keys as text: the election's name directly followed by the lease in base16. */
module CampaignKeys {
  import opened Numerals

  /** The digits of the %x verb are lower case. */
  predicate IsHex(c: char) {
    '0' <= c <= '9' || 'a' <= c <= 'f'
  }

  function DigitValue(c: char): (d: int)
    requires IsHex(c)
    ensures 0 <= d < 16 && HexDigit(d) == c
  {
    HexValue(c).value
  }

  lemma DigitOfValue(d: int)
    requires 0 <= d < 16
    ensures IsHex(HexDigit(d)) && DigitValue(HexDigit(d)) == d
  {}

  /** The %x verb. */
  function HexText(n: nat): (s: string)
    ensures |s| > 0 && forall i :: 0 <= i < |s| ==> IsHex(s[i])
  {
    DigitOfValue(n % 16);
    if n < 16 then [HexDigit(n)] else HexText(n / 16) + [HexDigit(n % 16)]
  }

  function HexNumber(s: string): nat
    requires forall i :: 0 <= i < |s| ==> IsHex(s[i])
  {
    if s == "" then 0 else 16 * HexNumber(s[..|s| - 1]) + DigitValue(s[|s| - 1])
  }

  /** No leading zero, unless the number is zero. */
  predicate IsNumeral(s: string) {
    s != "" && (forall i :: 0 <= i < |s| ==> IsHex(s[i])) && (s[0] != '0' || |s| == 1)
  }

  lemma {:induction false} NumberOfText(n: nat)
    ensures HexNumber(HexText(n)) == n && IsNumeral(HexText(n)) && (n > 0 ==> HexText(n)[0] != '0')
  {
    var s := HexText(n);
    DigitOfValue(n % 16);
    if n >= 16 {
      NumberOfText(n / 16);
      assert s[..|s| - 1] == HexText(n / 16);
    } else {
      assert s[..0] == "";
    }
  }

  lemma {:induction false} TextOfNumber(s: string)
    requires IsNumeral(s)
    ensures HexText(HexNumber(s)) == s && (s[0] != '0' ==> HexNumber(s) > 0)
  {
    var front, d := s[..|s| - 1], DigitValue(s[|s| - 1]);
    assert s == front + [HexDigit(d)];
    if front != "" {
      TextOfNumber(front);
      var a := HexNumber(front);
      assert front[0] == s[0] != '0' && a > 0;
      assert (16 * a + d) / 16 == a && (16 * a + d) % 16 == d;
    }
  }

  function Key(election: string, lease: nat): string {
    election + HexText(lease)
  }

  function Pow16(k: nat): nat {
    if k == 0 then 1 else 16 * Pow16(k - 1)
  }

  /** The text is in base 16: it has as many digits as the number needs, and the last is the remainder. */
  lemma {:induction false} TextLength(n: nat)
    ensures n < Pow16(|HexText(n)|) && (|HexText(n)| > 1 ==> Pow16(|HexText(n)| - 1) <= n)
    ensures HexText(n)[|HexText(n)| - 1] == HexDigit(n % 16)
  {
    if n >= 16 { TextLength(n / 16); }
  }

  /** Within one election different leases have different keys. */
  lemma KeyInjective(election: string, a: nat, b: nat)
    ensures Key(election, a) == Key(election, b) <==> a == b
  {
    assert Key(election, a)[|election|..] == HexText(a) && Key(election, b)[|election|..] == HexText(b);
    NumberOfText(a);
    NumberOfText(b);
  }

  /** etcd.LeaseID: a positive 64-bit integer. */
  predicate IsLease(n: nat) {
    0 < n < 0x8000_0000_0000_0000
  }

  lemma {:induction false} PrefixIsNoLarger(s: string, n: nat)
    requires n <= |s| && forall i :: 0 <= i < |s| ==> IsHex(s[i])
    ensures HexNumber(s[..n]) <= HexNumber(s)
  {
    if n < |s| {
      PrefixIsNoLarger(s[..|s| - 1], n);
      assert s[..|s| - 1][..n] == s[..n];
    } else {
      assert s[..n] == s;
    }
  }

  /** A proper prefix of a lease's text is the text of a lease. */
  lemma PrefixIsLease(lease: nat, rest: string)
    requires IsLease(lease) && rest != "" && rest <= HexText(lease)
    ensures IsNumeral(rest) && IsLease(HexNumber(rest))
  {
    var s := HexText(lease);
    NumberOfText(lease);
    assert rest == s[..|rest|] && rest[0] == s[0];
    PrefixIsNoLarger(s, |rest|);
    assert IsNumeral(rest);
    TextOfNumber(rest);
  }

  lemma TailOfKey(election: string, other: string, lease: nat)
    requires election <= Key(other, lease) && |election| > |other|
    ensures other <= election && election[|other|..] <= HexText(lease)
  {
    assert Key(other, lease)[..|election|] == election && Key(other, lease)[|other|..] == HexText(lease);
    assert election[..|other|] == Key(other, lease)[..|other|] == other;
  }

  /**
  Since nothing separates name and lease, another election's keys can fall under this election's prefix: exactly when
  its name extends this one's, or this one's name is the other's followed by the text of a lease.
  */
  lemma KeysMixExactly(election: string, other: string)
    ensures (exists lease: nat :: IsLease(lease) && election <= Key(other, lease)) <==>
      election <= other ||
      (other <= election && IsNumeral(election[|other|..]) && IsLease(HexNumber(election[|other|..])))
  {
    if lease: nat :| IsLease(lease) && election <= Key(other, lease) {
      if |election| > |other| {
        TailOfKey(election, other, lease);
        PrefixIsLease(lease, election[|other|..]);
      } else {
        assert election == Key(other, lease)[..|election|] == other[..|election|];
      }
    }
    if election <= other {
      assert IsLease(1) && election <= Key(other, 1);
    } else if other <= election && IsNumeral(election[|other|..]) && IsLease(HexNumber(election[|other|..])) {
      TextOfNumber(election[|other|..]);
      assert Key(other, HexNumber(election[|other|..])) == election;
    }
  }
}

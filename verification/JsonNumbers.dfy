/** Numbers as section 6 of RFC 8259 spells them, and what the parser makes of them. */
module JsonNumbers {
  import opened Numbers
  import opened JsonString
  import opened JsonText
  import opened JsonGrammar

  predicate Digits(t: seq<byte>) {
    t != [] && forall i | 0 <= i < |t| :: 48 <= t[i] <= 57
  }

  predicate Fraction(t: seq<byte>) {
    t == [] || (t[0] == 46 && Digits(t[1..]))
  }

  predicate Exponent(t: seq<byte>) {
    || t == []
    || ((t[0] == 69 || t[0] == 101)
        && (Digits(t[1..]) || (|t| > 1 && (t[1] == 43 || t[1] == 45) && Digits(t[2..]))))
  }

  /** A number whose integer part ends at m and whose fraction ends at n. */
  predicate Spelled(t: seq<byte>, m: nat, n: nat) {
    && t != [] && m <= n <= |t|
    && var s := if t[0] == 45 then 1 else 0;
    && s <= m && Digits(t[s..m]) && (m > s + 1 ==> t[s] != 48)
    && Fraction(t[m..n]) && Exponent(t[n..])
  }

  lemma Characters(t: seq<byte>, m: nat, n: nat)
    requires Spelled(t, m, n)
    ensures forall i | 0 <= i < |t| :: NumberChar(t[i])
    ensures t[0] == 45 || Digit(t[0])
  {
    var s := if t[0] == 45 then 1 else 0;
    forall i | 0 <= i < |t| ensures NumberChar(t[i]) {
      if s <= i < m {
        assert t[i] == t[s..m][i - s];
      } else if m <= i < n {
        assert t[i] == t[m..n][i - m];
        assert i > m ==> t[i] == t[m..n][1..][i - m - 1];
      } else if n <= i {
        assert t[i] == t[n..][i - n];
        assert i > n ==> t[i] == t[n..][1..][i - n - 1];
        assert i > n + 1 ==> t[i] == t[n..][2..][i - n - 2];
      }
    }
    assert s < m ==> t[s] == t[s..m][0];
  }

  lemma {:induction false} RunCollects(c: seq<byte>, i: nat, n: nat, max: nat)
    requires i + n <= |c| && n <= max && forall k | i <= k < i + n :: NumberChar(c[k])
    requires n == max || i + n == |c| || !NumberChar(c[i + n])
    ensures RunLength(c, i, max) == n
    decreases n
  {
    if n > 0 {
      RunCollects(c, i + 1, n - 1, max - 1);
    }
  }

  /** Every number of up to 63 characters that stands by itself is read whole, if the C library takes it
      whole. */
  lemma NumberRead(c: seq<byte>, strtod: seq<byte> -> nat, i: nat, t: seq<byte>, m: nat, n: nat)
    requires Spelled(t, m, n) && |t| <= 63 && At(c, i, t)
    requires i + |t| == |c| || !NumberChar(c[i + |t|])
    ensures RunLength(c, i, MAX_NUMBER) == |t| && c[i..i + |t|] == t
    ensures strtod(t) == |t| ==> ReadsNumber(c, strtod, i, t, i + |t|)
  {
    Characters(t, m, n);
    forall k | i <= k < i + |t| ensures NumberChar(c[k]) {
      AtIndex(c, i, t, k - i);
    }
    RunCollects(c, i, |t|, MAX_NUMBER);
    AtIndex(c, i, t, 0);
  }
}

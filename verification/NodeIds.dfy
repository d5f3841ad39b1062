/**
 Node ids: `prefix:count`, where the prefix may be any text, colons included.
 */
module NodeIds {

  function Digit(n: nat): char
    requires n < 10
  {
    "0123456789"[n]
  }

  function Decimal(n: nat): string {
    if n < 10 then [Digit(n)] else Decimal(n / 10) + [Digit(n % 10)]
  }

  predicate IsDigit(c: char) {
    '0' <= c <= '9'
  }

  function Label(prefix: string, count: nat): string {
    prefix + ":" + Decimal(count)
  }

  lemma {:induction false} DecimalIsDigits(n: nat)
    ensures Decimal(n) != "" && forall i | 0 <= i < |Decimal(n)| :: IsDigit(Decimal(n)[i])
  {
    if n >= 10 { DecimalIsDigits(n / 10); }
  }

  lemma {:induction false} DecimalIdentifies(m: nat, n: nat)
    requires Decimal(m) == Decimal(n)
    ensures m == n
  {
    if m >= 10 {
      var a, b := Decimal(m / 10), Decimal(n / 10);
      assert (a + [Digit(m % 10)])[..|a|] == a && (b + [Digit(n % 10)])[..|b|] == b;
      assert (a + [Digit(m % 10)])[|a|] == (b + [Digit(n % 10)])[|b|];
      DecimalIdentifies(m / 10, n / 10);
    }
  }

  /** What follows the last colon is determined by the text. */
  lemma {:induction false} LastColon(a: string, s: string, b: string, t: string)
    requires ':' !in s && ':' !in t && a + ":" + s == b + ":" + t
    ensures a == b && s == t
  {
    var all := a + ":" + s;
    assert all[|a|] == ':' && all[|b|] == ':';
    assert forall i | |a| < i < |all| :: all[i] == s[i - |a| - 1];
    assert forall i | |b| < i < |all| :: all[i] == t[i - |b| - 1];
    assert |a| == |b|;
    assert all[..|a|] == a && all[..|b|] == b && all[|a| + 1..] == s && all[|b| + 1..] == t;
  }

  /** Two ids are equal only with the same prefix and the same count. */
  lemma {:induction false} LabelIdentifies(p: string, m: nat, q: string, n: nat)
    requires Label(p, m) == Label(q, n)
    ensures p == q && m == n
  {
    DecimalIsDigits(m);
    DecimalIsDigits(n);
    LastColon(p, Decimal(m), q, Decimal(n));
    DecimalIdentifies(m, n);
  }

  predicate IsWord(word: string) {
    word != "" && forall i | 0 <= i < |word| :: 'a' <= word[i] <= 'z'
  }

  /** The id of a part of a node is no node's id, and tells the node and the part. */
  lemma {:induction false} PartIsNoLabel(id: string, part: string, p: string, n: nat)
    requires IsWord(part)
    ensures id + ":" + part != Label(p, n)
  {
    DecimalIsDigits(n);
    assert part[0] != Decimal(n)[0];
    if id + ":" + part == Label(p, n) {
      LastColon(id, part, p, Decimal(n));
      assert false;
    }
  }

  lemma {:induction false} PartIdentifies(id: string, part: string, other: string, another: string)
    requires IsWord(part) && IsWord(another) && id + ":" + part == other + ":" + another
    ensures id == other && part == another
  {
    LastColon(id, part, other, another);
  }

  // ----- what a count reads as -------------------------------------------------

  function Number(digits: string): nat
    requires forall i | 0 <= i < |digits| :: IsDigit(digits[i])
  {
    if digits == "" then 0
    else
      var n := |digits| - 1;
      assert IsDigit(digits[n]);
      10 * Number(digits[..n]) + (digits[n] - '0') as nat
  }

  /** An id is its prefix, a colon and its count in decimal digits without a leading zero. */
  lemma {:induction false} LabelReads(prefix: string, count: nat)
    ensures prefix + ":" <= Label(prefix, count)
    ensures var digits := Label(prefix, count)[|prefix| + 1..];
            && digits != "" && (forall i | 0 <= i < |digits| :: IsDigit(digits[i])) && Number(digits) == count
            && (count > 0 ==> digits[0] != '0')
  {
    assert Label(prefix, count)[|prefix| + 1..] == Decimal(count);
    DecimalReads(count);
  }

  lemma {:induction false} DecimalReads(n: nat)
    ensures Decimal(n) != "" && (forall i | 0 <= i < |Decimal(n)| :: IsDigit(Decimal(n)[i])) && Number(Decimal(n)) == n
    ensures n > 0 ==> Decimal(n)[0] != '0'
  {
    DecimalIsDigits(n);
    if n >= 10 {
      DecimalReads(n / 10);
      assert (Decimal(n / 10) + [Digit(n % 10)])[..|Decimal(n / 10)|] == Decimal(n / 10);
    }
  }
}

/** Decimal printing and reading of natural numbers, with zero padding. */
module Decimals {
  import opened JsText

  predicate AllDigits(s: string) {
    forall k | 0 <= k < |s| :: IsDigit(s[k])
  }

  /** String(n). */
  function Print(n: nat): (s: string)
    ensures s != "" && AllDigits(s)
    ensures n > 0 ==> s[0] != '0'
  {
    if n < 10 then [('0' as int + n) as char]
    else Print(n / 10) + [('0' as int + n % 10) as char]
  }

  /** Number(s) for a string of digits. */
  function Read(s: string): nat
    requires AllDigits(s)
  {
    if s == "" then 0 else Read(s[..|s| - 1]) * 10 + (s[|s| - 1] as int - '0' as int)
  }

  lemma {:induction false} ReadPrint(n: nat)
    ensures Read(Print(n)) == n
  {
    if n >= 10 {
      ReadPrint(n / 10);
      var s := Print(n);
      assert s[..|s| - 1] == Print(n / 10);
    } else {
      assert Print(n)[..0] == "";
    }
  }

  /** Different numbers print differently. */
  lemma PrintInjective(m: nat, n: nat)
    ensures Print(m) == Print(n) <==> m == n
  {
    ReadPrint(m);
    ReadPrint(n);
  }

  /** s.padStart(width, '0'). */
  function PadStart(s: string, width: nat): (r: string)
    ensures AllDigits(s) ==> AllDigits(r)
    ensures |r| == if |s| >= width then |s| else width
    decreases width - |s|
  {
    if |s| >= width then s else PadStart("0" + s, width)
  }

  lemma {:induction false} LeadingZero(s: string)
    requires AllDigits(s)
    ensures AllDigits("0" + s) && Read("0" + s) == Read(s)
  {
    var z := "0" + s;
    if s == "" {
      assert z[..0] == "";
    } else {
      LeadingZero(s[..|s| - 1]);
      assert z[..|z| - 1] == "0" + s[..|s| - 1];
    }
  }

  /** Padding does not change the number. */
  lemma {:induction false} ReadPadded(s: string, width: nat)
    requires AllDigits(s)
    ensures Read(PadStart(s, width)) == Read(s)
    decreases width - |s|
  {
    if |s| < width {
      LeadingZero(s);
      ReadPadded("0" + s, width);
    }
  }

  /** A number below 10^k has at most k digits. */
  lemma {:induction false} PrintShort(n: nat, k: nat)
    requires k >= 1 && n < Power10(k)
    ensures |Print(n)| <= k
  {
    if n >= 10 { PrintShort(n / 10, k - 1); }
  }

  function Power10(k: nat): nat {
    if k == 0 then 1 else 10 * Power10(k - 1)
  }
}

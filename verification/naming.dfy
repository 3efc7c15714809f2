/** Folder names of the course tree: `'{number:02}- '.format(number=n) + title`. */
module Naming {

  predicate IsDigit(c: char)
  {
    '0' <= c <= '9'
  }

  predicate AllDigits(s: string)
  {
    forall i :: 0 <= i < |s| ==> IsDigit(s[i])
  }

  function DigitChar(d: nat): (c: char)
    requires d < 10
    ensures IsDigit(c)
  {
    ('0' as int + d) as char
  }

  /** The decimal notation of `n`, most significant digit first, without leading zeros. */
  function Digits(n: nat): (r: string)
    ensures 1 <= |r| && AllDigits(r)
    ensures |r| == 1 <==> n < 10
    ensures n > 0 ==> r[0] != '0'
    decreases n
  {
    if n < 10 then [DigitChar(n)] else Digits(n / 10) + [DigitChar(n % 10)]
  }

  /** The number a string of decimal digits denotes (the reading direction of `Digits`). */
  function Value(ds: string): nat
    requires AllDigits(ds)
  {
    if ds == [] then 0 else Value(ds[..|ds| - 1]) * 10 + (ds[|ds| - 1] as int - '0' as int)
  }

  /** Reading back the digits of `n` gives `n`. */
  lemma {:induction false} ValueOfDigits(n: nat)
    ensures Value(Digits(n)) == n
  {
    if n >= 10 {
      var ds := Digits(n);
      assert ds[..|ds| - 1] == Digits(n / 10);
      ValueOfDigits(n / 10);
    }
  }

  /** A leading zero does not change the value of a digit string. */
  lemma {:induction false} ValueLeadingZero(ds: string)
    requires AllDigits(ds)
    ensures AllDigits("0" + ds) && Value("0" + ds) == Value(ds)
  {
    if ds != [] {
      assert ("0" + ds)[..|ds|] == "0" + ds[..|ds| - 1];
      ValueLeadingZero(ds[..|ds| - 1]);
    }
  }

  /** The format spec `02`: decimal, left-padded with zeros to at least two characters.
      The padded text is all digits, at least two long, and still denotes `n`. */
  function Pad2(n: nat): (r: string)
    ensures 2 <= |r| && AllDigits(r)
    ensures Value(r) == n
    ensures n < 10 ==> |r| == 2
    ensures n >= 10 ==> r == Digits(n)
  {
    ValueOfDigits(n);
    if n < 10 then
      ValueLeadingZero(Digits(n));
      "0" + Digits(n)
    else
      Digits(n)
  }

  /** The name of the folder of the `n`-th section or item, titled `title`: a run of digits
      that denotes `n`, then `- `, then the title. */
  function FolderName(n: nat, title: string): (r: string)
    ensures |r| >= |title| + 4
    ensures r[..|r| - |title| - 2] == Pad2(n)
    ensures AllDigits(r[..|r| - |title| - 2]) && Value(r[..|r| - |title| - 2]) == n
    ensures r[|r| - |title| - 2..] == "- " + title
  {
    var p := Pad2(n);
    var r := p + "- " + title;
    assert r[..|p|] == p && r[|p|..] == "- " + title;
    r
  }

  /** Example from the folder-naming rule: the third entry titled "Intro". */
  lemma FolderNameExample()
    ensures FolderName(3, "Intro") == "03- Intro"
  {
  }

  /** A folder name determines both its index and its title: the digit run ends at the
      `-`, so two different indices (or titles) never give the same folder name. */
  lemma FolderNameInjective(i: nat, t: string, j: nat, u: string)
    requires FolderName(i, t) == FolderName(j, u)
    ensures i == j && t == u
  {
    var p, q, name := Pad2(i), Pad2(j), FolderName(i, t);
    assert name[|p|] == '-' && name[|q|] == '-';
    assert |p| == |q|;
    assert p == name[..|p|] == q;
    assert t == name[|p| + 2..] == u;
  }
}

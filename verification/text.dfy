/** The two string operations the script applies: the substring test `sub in s`
    and `str.strip()`. */
module Text {

  /** Python's `sub in s` on strings: `sub` occurs as a contiguous run of `s`. */
  predicate Contains(s: string, sub: string)
    decreases |s|
  {
    |sub| <= |s| && (s[..|sub|] == sub || (0 < |s| && Contains(s[1..], sub)))
  }

  /** `sub` occurs in `s` starting at index `i`. */
  predicate OccursAt(s: string, sub: string, i: int)
  {
    0 <= i <= |s| - |sub| && s[i..i + |sub|] == sub
  }

  /** `Contains` holds exactly when `sub` occurs at some index of `s`. */
  lemma {:induction false} ContainsAt(s: string, sub: string)
    ensures Contains(s, sub) <==> exists i :: OccursAt(s, sub, i)
  {
    if |sub| <= |s| && s[..|sub|] == sub {
      assert OccursAt(s, sub, 0);
    } else if |sub| <= |s| && 0 < |s| {
      ContainsAt(s[1..], sub);
      if Contains(s[1..], sub) {
        var i :| OccursAt(s[1..], sub, i);
        assert s[1..][i..i + |sub|] == s[i + 1..i + 1 + |sub|];
        assert OccursAt(s, sub, i + 1);
      }
      if exists i :: OccursAt(s, sub, i) {
        var i :| OccursAt(s, sub, i);
        assert i != 0;
        assert s[1..][i - 1..i - 1 + |sub|] == s[i..i + |sub|];
        assert OccursAt(s[1..], sub, i - 1);
      }
    } else {
      assert forall i :: !OccursAt(s, sub, i);
    }
  }

  /** The characters Python's `str.isspace` accepts, which `str.strip()` removes. */
  predicate IsSpace(c: char)
  {
    c == ' ' || ('\t' <= c <= '\r') || ('\U{1C}' <= c <= '\U{1F}') || c == '\U{85}' ||
    c == '\U{A0}' || c == '\U{1680}' || ('\U{2000}' <= c <= '\U{200A}') || c == '\U{2028}' ||
    c == '\U{2029}' || c == '\U{202F}' || c == '\U{205F}' || c == '\U{3000}'
  }

  /** Removes leading whitespace. */
  function StripLeft(s: string): (r: string)
    ensures |r| <= |s|
  {
    if s != [] && IsSpace(s[0]) then StripLeft(s[1..]) else s
  }

  /** The result of `StripLeft` is a suffix of `s`, everything cut off is whitespace, and
      the result does not start with whitespace. */
  lemma {:induction false} StripLeftSpec(s: string)
    ensures var r := StripLeft(s);
      && |r| <= |s| && r == s[|s| - |r|..]
      && AllSpace(s[..|s| - |r|])
      && (r == [] || !IsSpace(r[0]))
  {
    if s != [] && IsSpace(s[0]) {
      StripLeftSpec(s[1..]);
      var r := StripLeft(s);
      assert s[..|s| - |r|] == [s[0]] + s[1..][..|s| - 1 - |r|];
    }
  }

  /** Removes trailing whitespace. */
  function StripRight(s: string): (r: string)
    ensures |r| <= |s|
  {
    if s != [] && IsSpace(s[|s| - 1]) then StripRight(s[..|s| - 1]) else s
  }

  /** The result of `StripRight` is a prefix of `s`, everything cut off is whitespace, and
      the result does not end with whitespace. */
  lemma {:induction false} StripRightSpec(s: string)
    ensures var r := StripRight(s);
      && |r| <= |s| && r == s[..|r|]
      && AllSpace(s[|r|..])
      && (r == [] || !IsSpace(r[|r| - 1]))
  {
    if s != [] && IsSpace(s[|s| - 1]) {
      var init := s[..|s| - 1];
      StripRightSpec(init);
      var r := StripRight(s);
      assert r == init[..|r|];
      assert s[|r|..] == init[|r|..] + [s[|s| - 1]];
    }
  }

  /** Every character of `t` is whitespace. */
  predicate AllSpace(t: string)
  {
    forall k :: 0 <= k < |t| ==> IsSpace(t[k])
  }

  /** `s` is `i` whitespace characters, then `r`, then only whitespace. */
  predicate Surrounds(s: string, r: string, i: int)
  {
    0 <= i <= |s| - |r| && r == s[i..i + |r|] && AllSpace(s[..i]) && AllSpace(s[i + |r|..])
  }

  /** Python's `str.strip()`: removes leading and trailing whitespace, so the result is
      never longer than `s`. */
  function Strip(s: string): (r: string)
    ensures |r| <= |s|
  {
    StripRight(StripLeft(s))
  }

  /** `s` is whitespace, then `Strip(s)`, then whitespace, and `Strip(s)` neither starts nor
      ends with whitespace. */
  lemma StripSpec(s: string)
    ensures var r := Strip(s);
      && (r == [] || (!IsSpace(r[0]) && !IsSpace(r[|r| - 1])))
      && exists i :: Surrounds(s, r, i)
  {
    var l := StripLeft(s);
    var r := StripRight(l);
    StripLeftSpec(s);
    StripRightSpec(l);
    var i := |s| - |l|;
    assert r == s[i..i + |r|];
    assert s[i + |r|..] == l[|r|..];
    assert Surrounds(s, r, i);
  }

  /** Stripping a stripped string changes nothing. */
  lemma StripIdempotent(s: string)
    ensures Strip(Strip(s)) == Strip(s)
  {
    StripSpec(s);
  }
}

/**
  The string methods the phonebook relies on: `str.strip()`, `str.lower()`,
  `str.title()` and `str.isdigit()`, plus the substring test that SQL's
  `LIKE '%kw%'` performs.

  All of them are given for ASCII only. Python's versions work on the whole of
  Unicode: `strip` also removes U+0085, U+00A0 and the other Unicode spaces,
  `lower`/`title` fold non-ASCII letters, and `isdigit` accepts every character
  with a decimal or digit property (superscripts, Arabic-Indic digits, ...).
  On ASCII input the definitions below agree with Python's.
*/
module Text {

  /** ASCII whitespace as `str.isspace` sees it: TAB, LF, VT, FF, CR, the four
      separators 0x1C..0x1F, and SPACE. */
  predicate IsSpace(c: char) {
    c == ' ' || (9 <= c as int <= 13) || (28 <= c as int <= 31)
  }

  predicate IsUpper(c: char) { 'A' <= c <= 'Z' }

  predicate IsLowerLetter(c: char) { 'a' <= c <= 'z' }

  /** A "cased" character in Python's sense, restricted to ASCII. */
  predicate IsLetter(c: char) { IsUpper(c) || IsLowerLetter(c) }

  predicate IsDigitChar(c: char) { '0' <= c <= '9' }

  function LowerChar(c: char): (d: char)
    ensures !IsUpper(d)
    ensures IsLetter(c) <==> IsLetter(d)
    ensures !IsLetter(c) ==> d == c
    ensures IsLowerLetter(c) ==> d == c
  {
    if IsUpper(c) then (c as int + 32) as char else c
  }

  function UpperChar(c: char): (d: char)
    ensures !IsLowerLetter(d)
    ensures IsLetter(c) <==> IsLetter(d)
    ensures !IsLetter(c) ==> d == c
    ensures LowerChar(d) == LowerChar(c)
  {
    if IsLowerLetter(c) then (c as int - 32) as char else c
  }

  /** `str.lower()`: every upper-case letter replaced by its lower-case form. */
  function Lower(s: string): (r: string)
    ensures |r| == |s|
  {
    if s == [] then [] else [LowerChar(s[0])] + Lower(s[1..])
  }

  /** `str.isdigit()`: non-empty and made of the digits '0'..'9' only.
      Note that Python answers False for the empty string. */
  predicate IsDigits(s: string) {
    |s| > 0 && forall i :: 0 <= i < |s| ==> IsDigitChar(s[i])
  }

  /** `str.lstrip()`: the suffix left after dropping leading whitespace. */
  function TrimLeft(s: string): (r: string)
    ensures |r| <= |s|
  {
    if s != [] && IsSpace(s[0]) then TrimLeft(s[1..]) else s
  }

  /** `str.rstrip()`: the prefix left after dropping trailing whitespace. */
  function TrimRight(s: string): (r: string)
    ensures |r| <= |s|
  {
    if s != [] && IsSpace(s[|s| - 1]) then TrimRight(s[..|s| - 1]) else s
  }

  /** `str.strip()`: `lstrip` then `rstrip`. */
  function Strip(s: string): (r: string)
    ensures |r| <= |s|
  {
    TrimRight(TrimLeft(s))
  }

  /** The character Python's `str.title()` puts at position `i` of `s`, where
      `cased` tells whether the character before position 0 counts as a letter:
      a letter is upper-cased when it starts a run of letters and lower-cased
      otherwise; every other character is kept. */
  function TitleAt(s: string, i: nat, cased: bool): char
    requires i < |s|
  {
    var before := if i == 0 then cased else IsLetter(s[i - 1]);
    if !IsLetter(s[i]) then s[i]
    else if before then LowerChar(s[i])
    else UpperChar(s[i])
  }

  /** Python's title-casing loop, with `cased` the flag it carries from one
      character to the next. */
  function TitleFrom(s: string, cased: bool): (r: string)
    ensures |r| == |s|
  {
    if s == [] then []
    else
      var c := s[0];
      var head := if !IsLetter(c) then c else if cased then LowerChar(c) else UpperChar(c);
      [head] + TitleFrom(s[1..], IsLetter(c))
  }

  /** `str.title()`: each run of letters starts upper-case and continues lower-case. */
  function Title(s: string): (r: string)
    ensures |r| == |s|
  {
    TitleFrom(s, false)
  }

  /** `sub in s`: `sub` is a prefix of `s` or of one of its suffixes. This is
      what `s LIKE '%sub%'` decides when `sub` holds no wildcard character. */
  predicate Contains(s: string, sub: string)
    decreases |s|
  {
    sub <= s || (s != [] && Contains(s[1..], sub))
  }

  /** `sub` occurs in `s` starting at position `i`. */
  predicate OccursAt(s: string, sub: string, i: int) {
    0 <= i <= |s| - |sub| && s[i..i + |sub|] == sub
  }

  // ----- what the definitions compute -----

  /** `Lower` maps every character on its own. */
  lemma {:induction false} LowerSpec(s: string)
    ensures forall i :: 0 <= i < |s| ==> Lower(s)[i] == LowerChar(s[i])
    decreases |s|
  {
    if s != [] {
      LowerSpec(s[1..]);
    }
  }

  lemma {:induction false} TrimLeftSpec(s: string)
    ensures TrimLeft(s) == s[|s| - |TrimLeft(s)|..]
    ensures forall k :: 0 <= k < |s| - |TrimLeft(s)| ==> IsSpace(s[k])
    ensures TrimLeft(s) != [] ==> !IsSpace(TrimLeft(s)[0])
    decreases |s|
  {
    if s != [] && IsSpace(s[0]) {
      TrimLeftSpec(s[1..]);
    }
  }

  lemma {:induction false} TrimRightSpec(s: string)
    ensures TrimRight(s) == s[..|TrimRight(s)|]
    ensures forall k :: |TrimRight(s)| <= k < |s| ==> IsSpace(s[k])
    ensures TrimRight(s) != [] ==> !IsSpace(TrimRight(s)[|TrimRight(s)| - 1])
    decreases |s|
  {
    if s != [] && IsSpace(s[|s| - 1]) {
      TrimRightSpec(s[..|s| - 1]);
    }
  }

  /** `r` sits in `s` at offset `i` with nothing but whitespace around it. */
  predicate Padded(s: string, i: int, r: string) {
    && 0 <= i <= |s| - |r|
    && s[i..i + |r|] == r
    && (forall k :: 0 <= k < i ==> IsSpace(s[k]))
    && (forall k :: i + |r| <= k < |s| ==> IsSpace(s[k]))
  }

  /** What `strip` returns: the infix of `s` that neither starts nor ends with
      whitespace, with only whitespace cut off on either side; it is empty
      exactly when `s` is all whitespace. */
  lemma StripSpec(s: string)
    ensures exists i :: Padded(s, i, Strip(s))
    ensures Strip(s) != [] ==> !IsSpace(Strip(s)[0]) && !IsSpace(Strip(s)[|Strip(s)| - 1])
    ensures Strip(s) == [] <==> forall k :: 0 <= k < |s| ==> IsSpace(s[k])
  {
    var left := TrimLeft(s);
    var r := TrimRight(left);
    TrimLeftSpec(s);
    TrimRightSpec(left);
    assert Strip(s) == r;
    assert r == s[|s| - |left|..][..|r|];
    assert r == s[|s| - |left|..|s| - |left| + |r|];
    assert forall k :: |s| - |left| + |r| <= k < |s| ==> s[k] == left[k - (|s| - |left|)];
    assert Padded(s, |s| - |left|, r);
  }

  /** Title-casing position by position, `cased` standing for the character
      before the first. */
  lemma {:induction false} TitleFromSpec(s: string, cased: bool)
    ensures forall i :: 0 <= i < |s| ==> TitleFrom(s, cased)[i] == TitleAt(s, i, cased)
    decreases |s|
  {
    if s != [] {
      TitleFromSpec(s[1..], IsLetter(s[0]));
      assert forall i :: 1 <= i < |s| ==> TitleAt(s[1..], i - 1, IsLetter(s[0])) == TitleAt(s, i, cased);
    }
  }

  lemma TitleSpec(s: string)
    ensures forall i :: 0 <= i < |s| ==> Title(s)[i] == TitleAt(s, i, false)
  {
    TitleFromSpec(s, false);
  }

  // ----- laws relating the operations -----

  lemma LowerIdempotent(s: string)
    ensures Lower(Lower(s)) == Lower(s)
  {
    LowerSpec(s);
    LowerSpec(Lower(s));
  }

  /** Title-casing changes letter case only, so lower-casing forgets it. */
  lemma LowerOfTitle(s: string)
    ensures Lower(Title(s)) == Lower(s)
  {
    TitleSpec(s);
    LowerSpec(s);
    LowerSpec(Title(s));
  }

  /** Title-casing ignores the case the letters came in. */
  lemma TitleOfLower(s: string)
    ensures Title(Lower(s)) == Title(s)
  {
    var l := Lower(s);
    LowerSpec(s);
    TitleSpec(s);
    TitleSpec(l);
    forall i | 0 <= i < |s|
      ensures TitleAt(l, i, false) == TitleAt(s, i, false)
    {
      if i > 0 {
        assert IsLetter(l[i - 1]) == IsLetter(s[i - 1]);
      }
    }
  }

  /** Lower-casing keeps whitespace where it is, so it commutes with `lstrip`. */
  lemma {:induction false} TrimLeftOfLower(s: string)
    ensures TrimLeft(Lower(s)) == Lower(TrimLeft(s))
    decreases |s|
  {
    if s != [] {
      var l := Lower(s);
      LowerSpec(s);
      assert l[1..] == Lower(s[1..]);
      if IsSpace(s[0]) {
        TrimLeftOfLower(s[1..]);
      }
    }
  }

  lemma {:induction false} TrimRightOfLower(s: string)
    ensures TrimRight(Lower(s)) == Lower(TrimRight(s))
    decreases |s|
  {
    if s != [] {
      var l := Lower(s);
      LowerSpec(s);
      LowerSpec(s[..|s| - 1]);
      assert l[..|s| - 1] == Lower(s[..|s| - 1]);
      if IsSpace(s[|s| - 1]) {
        TrimRightOfLower(s[..|s| - 1]);
      }
    }
  }

  lemma StripOfLower(s: string)
    ensures Strip(Lower(s)) == Lower(Strip(s))
  {
    TrimLeftOfLower(s);
    TrimRightOfLower(TrimLeft(s));
  }

  /** A stripped string has nothing left to strip. */
  lemma StripIdempotent(s: string)
    ensures Strip(Strip(s)) == Strip(s)
  {
    var r := Strip(s);
    StripSpec(s);
    assert TrimLeft(r) == r;
    assert TrimRight(r) == r;
  }

  /** Lower-casing turns no character into a digit and no digit into anything else. */
  lemma DigitsOfLower(s: string)
    ensures IsDigits(Lower(s)) <==> IsDigits(s)
  {
    var l := Lower(s);
    LowerSpec(s);
    assert forall i :: 0 <= i < |s| ==> (IsDigitChar(l[i]) <==> IsDigitChar(s[i]));
  }

  /** `Contains` finds exactly the occurrences of `sub` in `s`. */
  lemma {:induction false} ContainsSpec(s: string, sub: string)
    ensures Contains(s, sub) <==> exists i :: OccursAt(s, sub, i)
    decreases |s|
  {
    if sub <= s {
      assert OccursAt(s, sub, 0);
    } else if s == [] {
      assert forall i :: !OccursAt(s, sub, i);
    } else {
      ContainsSpec(s[1..], sub);
      if exists i :: OccursAt(s[1..], sub, i) {
        var i :| OccursAt(s[1..], sub, i);
        assert s[1..][i..i + |sub|] == s[i + 1..i + 1 + |sub|];
        assert OccursAt(s, sub, i + 1);
      }
      if exists i :: OccursAt(s, sub, i) {
        var i :| OccursAt(s, sub, i);
        if i > 0 {
          assert s[1..][i - 1..i - 1 + |sub|] == s[i..i + |sub|];
          assert OccursAt(s[1..], sub, i - 1);
        }
      }
    }
  }
}

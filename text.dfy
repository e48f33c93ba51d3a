/** Text normalisation of modules/core.py: `normalize_tel`, `str.strip` and
    the Mexican E.164 normaliser `_to_e164_mx`. */
module Text {
  import opened Common

  /** Python's whitespace (`str.isspace`, which is also what `\s` matches in a
      `str` regular expression and what `str.strip()` removes). */
  predicate IsSpace(c: char)
  {
    || c == ' ' || ('\t' <= c <= '\r') || ('\U{1C}' <= c <= '\U{1F}')
    || c == '\U{85}' || c == '\U{A0}' || c == '\U{1680}' || ('\U{2000}' <= c <= '\U{200A}')
    || c == '\U{2028}' || c == '\U{2029}' || c == '\U{202F}' || c == '\U{205F}' || c == '\U{3000}'
  }

  /** A character the pattern `[-\s]+` of `normalize_tel` removes. */
  predicate IsSeparator(c: char)
  {
    c == '-' || IsSpace(c)
  }

  predicate IsUpper(c: char)
  {
    'A' <= c <= 'Z'
  }

  predicate IsDigit(c: char)
  {
    '0' <= c <= '9'
  }

  function LowerChar(c: char): (l: char)
    ensures !IsUpper(l)
    ensures !IsUpper(c) ==> l == c
    ensures IsSeparator(l) <==> IsSeparator(c)
  {
    if IsUpper(c) then (c as int + 32) as char else c
  }

  /** `str.lower()` on ASCII letters. */
  function Lower(s: string): (r: string)
    ensures |r| == |s|
    ensures forall i :: 0 <= i < |s| ==> r[i] == LowerChar(s[i])
  {
    if s == [] then [] else [LowerChar(s[0])] + Lower(s[1..])
  }

  /** `str.lstrip()`: a suffix of the input whose dropped prefix is all
      whitespace. */
  function TrimStart(s: string): (r: string)
    ensures r == [] || !IsSpace(r[0])
    ensures |r| <= |s| && r == s[|s| - |r|..]
    ensures forall i :: 0 <= i < |s| - |r| ==> IsSpace(s[i])
  {
    if s != [] && IsSpace(s[0]) then TrimStart(s[1..]) else s
  }

  /** `str.rstrip()`: a prefix of the input whose dropped suffix is all
      whitespace. */
  function TrimEnd(s: string): (r: string)
    ensures r == [] || !IsSpace(r[|r| - 1])
    ensures |r| <= |s| && r == s[..|r|]
    ensures forall i :: |r| <= i < |s| ==> IsSpace(s[i])
  {
    if s != [] && IsSpace(s[|s| - 1]) then TrimEnd(s[..|s| - 1]) else s
  }

  /** `str.strip()`: the input without its leading and trailing whitespace.
      The result is a slice of the input with only whitespace outside it, and
      it neither starts nor ends with whitespace, which fixes it uniquely. */
  function Strip(s: string): (r: string)
    ensures r == [] || (!IsSpace(r[0]) && !IsSpace(r[|r| - 1]))
    ensures exists i, j :: 0 <= i <= j <= |s| && r == s[i..j] && SpaceOutside(s, i, j)
  {
    var t := TrimStart(s);
    var r := TrimEnd(t);
    assert r != [] ==> r[0] == t[0];
    TrimmedSlice(s, |s| - |t|, t, r);
    r
  }

  /** A prefix `r` of the suffix `t` of `s` from `i` is the slice of `s` from
      `i`, and what follows it in `t` is what follows it in `s`. */
  lemma TrimmedSlice(s: string, i: int, t: string, r: string)
    requires 0 <= i <= |s| && t == s[i..] && |r| <= |t| && r == t[..|r|]
    requires forall k :: 0 <= k < i ==> IsSpace(s[k])
    requires forall k :: |r| <= k < |t| ==> IsSpace(t[k])
    ensures r == s[i..i + |r|] && SpaceOutside(s, i, i + |r|)
  {
    var pre, post := s[..i], s[i + |r|..];
    forall k | 0 <= k < |pre| ensures IsSpace(pre[k]) {
      assert pre[k] == s[k];
    }
    forall k | 0 <= k < |post| ensures IsSpace(post[k]) {
      assert post[k] == t[|r| + k];
    }
  }

  /** Every character of `s` before position `i` or from position `j` on is
      whitespace. */
  predicate SpaceOutside(s: string, i: int, j: int)
    requires 0 <= i <= j <= |s|
  {
    AllSpace(s[..i]) && AllSpace(s[j..])
  }

  predicate AllSpace(w: string)
  {
    forall k :: 0 <= k < |w| ==> IsSpace(w[k])
  }

  /** `re.sub(r'[-\s]+', '', s)`: every separator removed, everything else kept in
      order. */
  function RemoveSeparators(s: string): (r: string)
    ensures forall i :: 0 <= i < |r| ==> !IsSeparator(r[i])
    ensures forall c :: c in r ==> c in s
    ensures |r| <= |s|
  {
    if s == [] then []
    else if IsSeparator(s[0]) then RemoveSeparators(s[1..])
    else [s[0]] + RemoveSeparators(s[1..])
  }

  /** Removing separators works piece by piece, so what is kept keeps its
      order. */
  lemma {:induction false} RemoveSeparatorsAppend(a: string, b: string)
    ensures RemoveSeparators(a + b) == RemoveSeparators(a) + RemoveSeparators(b)
  {
    if a != [] {
      assert (a + b)[0] == a[0];
      assert (a + b)[1..] == a[1..] + b;
      RemoveSeparatorsAppend(a[1..], b);
    } else {
      assert a + b == b;
    }
  }

  /** Every character that is not a separator is kept, as often as it occurs. */
  lemma {:induction false} RemoveSeparatorsKeeps(s: string)
    ensures forall c :: !IsSeparator(c) ==> multiset(RemoveSeparators(s))[c] == multiset(s)[c]
  {
    if s != [] {
      RemoveSeparatorsKeeps(s[1..]);
      assert s == [s[0]] + s[1..];
    }
  }

  /** A string of separators only disappears. */
  lemma {:induction false} RemoveSeparatorsAllSeparators(s: string)
    requires forall i :: 0 <= i < |s| ==> IsSeparator(s[i])
    ensures RemoveSeparators(s) == []
  {
    if s != [] {
      RemoveSeparatorsAllSeparators(s[1..]);
    }
  }

  /** `normalize_tel`: strip, lower-case, and remove every '-' and whitespace
      character. */
  function NormalizeTel(t: string): (r: string)
    ensures r == RemoveSeparators(Lower(t))
    ensures forall i :: 0 <= i < |r| ==> !IsSeparator(r[i]) && !IsUpper(r[i])
    ensures |r| <= |t|
  {
    var l := Lower(Strip(t));
    var r := RemoveSeparators(l);
    assert forall c :: c in l ==> !IsUpper(c);
    StripIsRedundant(t);
    r
  }

  /** Stripping before removing every whitespace character changes nothing:
      the phone is the lower-cased input with its separators removed. */
  lemma StripIsRedundant(t: string)
    ensures RemoveSeparators(Lower(Strip(t))) == RemoveSeparators(Lower(t))
  {
    var i, j :| 0 <= i <= j <= |t| && Strip(t) == t[i..j] && SpaceOutside(t, i, j);
    SpaceAroundVanishes(t, i, j);
  }

  /** Removing the whitespace around a slice before normalising changes
      nothing. */
  lemma SpaceAroundVanishes(t: string, i: int, j: int)
    requires 0 <= i <= j <= |t| && SpaceOutside(t, i, j)
    ensures RemoveSeparators(Lower(t[i..j])) == RemoveSeparators(Lower(t))
  {
    var a, m, z := t[..i], t[i..j], t[j..];
    Split3(t, i, j);
    SpacesBefore(a, m);
    SpacesAfter(a + m, z);
  }

  lemma Split3(t: string, i: int, j: int)
    requires 0 <= i <= j <= |t|
    ensures t == (t[..i] + t[i..j]) + t[j..]
  {
    assert t[..j] == t[..i] + t[i..j];
  }

  lemma SpacesBefore(a: string, m: string)
    requires AllSpace(a)
    ensures RemoveSeparators(Lower(a + m)) == RemoveSeparators(Lower(m))
  {
    LowerAppend(a, m);
    RemoveSeparatorsAppend(Lower(a), Lower(m));
    SpacesVanish(a);
  }

  lemma SpacesAfter(m: string, z: string)
    requires AllSpace(z)
    ensures RemoveSeparators(Lower(m + z)) == RemoveSeparators(Lower(m))
  {
    LowerAppend(m, z);
    RemoveSeparatorsAppend(Lower(m), Lower(z));
    SpacesVanish(z);
  }

  /** Whitespace lower-cases to whitespace, which is then removed. */
  lemma SpacesVanish(w: string)
    requires AllSpace(w)
    ensures RemoveSeparators(Lower(w)) == []
  {
    var l := Lower(w);
    assert forall k :: 0 <= k < |l| ==> IsSeparator(l[k]) by {
      forall k | 0 <= k < |l| ensures IsSeparator(l[k]) {
        assert l[k] == LowerChar(w[k]) && IsSpace(w[k]);
      }
    }
    RemoveSeparatorsAllSeparators(l);
  }

  lemma {:induction false} LowerAppend(a: string, b: string)
    ensures Lower(a + b) == Lower(a) + Lower(b)
  {
    if a != [] {
      assert (a + b)[0] == a[0];
      assert (a + b)[1..] == a[1..] + b;
      LowerAppend(a[1..], b);
    } else {
      assert a + b == b;
    }
  }

  lemma {:induction false} TrimStartClean(s: string)
    requires s == [] || !IsSpace(s[0])
    ensures TrimStart(s) == s
  {
  }

  lemma {:induction false} LowerClean(s: string)
    requires forall i :: 0 <= i < |s| ==> !IsUpper(s[i])
    ensures Lower(s) == s
  {
  }

  lemma {:induction false} RemoveSeparatorsClean(s: string)
    requires forall i :: 0 <= i < |s| ==> !IsSeparator(s[i])
    ensures RemoveSeparators(s) == s
  {
    if s != [] {
      RemoveSeparatorsClean(s[1..]);
    }
  }

  /** `normalize_tel` is idempotent: a normalised phone normalises to itself. */
  lemma {:induction false} NormalizeTelIdempotent(t: string)
    ensures NormalizeTel(NormalizeTel(t)) == NormalizeTel(t)
  {
    var n := NormalizeTel(t);
    assert n == [] || (!IsSpace(n[0]) && !IsSpace(n[|n| - 1]));
    TrimStartClean(n);
    assert TrimEnd(n) == n;
    assert Strip(n) == n;
    LowerClean(n);
    RemoveSeparatorsClean(n);
  }

  /** `re.sub(r"\D+", "", s)`: the digits of `s`, in order. */
  function Digits(s: string): (r: string)
    ensures forall i :: 0 <= i < |r| ==> IsDigit(r[i])
  {
    if s == [] then []
    else if IsDigit(s[0]) then [s[0]] + Digits(s[1..])
    else Digits(s[1..])
  }

  lemma {:induction false} DigitsAppend(a: string, b: string)
    ensures Digits(a + b) == Digits(a) + Digits(b)
  {
    if a != [] {
      assert (a + b)[0] == a[0];
      assert (a + b)[1..] == a[1..] + b;
      DigitsAppend(a[1..], b);
    } else {
      assert a + b == b;
    }
  }

  /** Every digit is kept, as often as it occurs. */
  lemma {:induction false} DigitsKeeps(s: string)
    ensures forall c :: IsDigit(c) ==> multiset(Digits(s))[c] == multiset(s)[c]
  {
    if s != [] {
      DigitsKeeps(s[1..]);
      assert s == [s[0]] + s[1..];
    }
  }

  lemma {:induction false} DigitsOfDigits(s: string)
    requires forall i :: 0 <= i < |s| ==> IsDigit(s[i])
    ensures Digits(s) == s
  {
    if s != [] {
      DigitsOfDigits(s[1..]);
    }
  }

  /** `_to_e164_mx`. */
  function ToE164Mx(tel: string): (r: Option<string>)
    ensures tel == [] || Digits(tel) == [] ==> r == None
    ensures tel != [] && tel[0] == '+' && Digits(tel) != [] ==> r == Some(tel)
    ensures r.Some? ==> |r.value| > 0 && r.value[0] == '+' && Digits(r.value) != []
    ensures r.Some? && tel[0] != '+' ==>
              && |r.value| >= 3 && r.value[..3] == "+52"
              && r.value == "+" + Digits(r.value)
              && (Digits(r.value) == Digits(tel) || Digits(r.value) == "52" + Digits(tel))
    ensures tel != [] && tel[0] != '+' && |Digits(tel)| >= 2 && Digits(tel)[..2] == "52" ==>
              r == Some("+" + Digits(tel))
    ensures tel != [] && tel[0] != '+' && !(|Digits(tel)| >= 2 && Digits(tel)[..2] == "52") && |Digits(tel)| == 10 ==>
              r == Some("+52" + Digits(tel))
  {
    if tel == [] then None
    else
      var t := Digits(tel);
      if t == [] then None
      else if tel[0] == '+' then Some(tel)
      else if |t| >= 2 && t[..2] == "52" then
        DigitsPlus(t);
        Some("+" + t)
      else if |t| == 10 then
        DigitsPlus("52" + t);
        assert "+52" + t == "+" + ("52" + t);
        Some("+52" + t)
      else None
  }

  lemma DigitsPlus(t: string)
    requires forall i :: 0 <= i < |t| ==> IsDigit(t[i])
    ensures Digits("+" + t) == t
  {
    DigitsAppend("+", t);
    DigitsOfDigits(t);
  }

  /** Which inputs are accepted: a leading '+' with at least one digit, or digits
      that start with the country code 52, or exactly ten digits. */
  lemma ToE164MxAccepts(tel: string)
    ensures ToE164Mx(tel).Some? <==>
              var t := Digits(tel);
              tel != [] && t != [] && (tel[0] == '+' || (|t| >= 2 && t[..2] == "52") || |t| == 10)
  {
  }

  /** A normalised number normalises to itself: its output starts with '+' and
      still has its digits, so it is returned unchanged. */
  lemma ToE164MxIdempotent(tel: string)
    requires ToE164Mx(tel).Some?
    ensures ToE164Mx(ToE164Mx(tel).value) == ToE164Mx(tel)
  {
  }
}

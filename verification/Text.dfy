/** Character and string functions of the C and boost libraries, in the C locale. */
module Text {
  predicate IsSpace(c: char)
  {
    c == ' ' || c == '\t' || c == '\n' || c == 11 as char || c == 12 as char || c == '\r'
  }

  function RTrim(s: string): (r: string)
    ensures |r| <= |s| && r == s[..|r|]
    ensures r != "" ==> !IsSpace(r[|r| - 1])
  {
    if s != "" && IsSpace(s[|s| - 1]) then RTrim(s[..|s| - 1]) else s
  }

  function LTrim(s: string): (r: string)
    ensures |r| <= |s| && r == s[|s| - |r|..]
    ensures r != "" ==> !IsSpace(r[0])
  {
    if s != "" && IsSpace(s[0]) then LTrim(s[1..]) else s
  }

  function Trim(s: string): string
  {
    LTrim(RTrim(s))
  }

  /** Nothing to trim. */
  predicate Trimmed(s: string)
  {
    s == "" || (!IsSpace(s[0]) && !IsSpace(s[|s| - 1]))
  }

  predicate AllSpace(s: string)
  {
    forall i :: 0 <= i < |s| ==> IsSpace(s[i])
  }

  function LowerChar(c: char): char
  {
    if 'A' <= c <= 'Z' then (c as int + 32) as char else c
  }

  function Lower(s: string): (r: string)
    ensures |r| == |s| && forall i :: 0 <= i < |s| ==> r[i] == LowerChar(s[i])
  {
    seq(|s|, i requires 0 <= i < |s| => LowerChar(s[i]))
  }

  /** The white space of the C locale, by its codes. */
  lemma SpaceCodes(c: char)
    ensures IsSpace(c) <==> c as int in [9, 10, 11, 12, 13, 32]
  {
  }

  const UPPER_LETTERS := "ABCDEFGHIJKLMNOPQRSTUVWXYZ"
  const LOWER_LETTERS := "abcdefghijklmnopqrstuvwxyz"

  /** Equal, or the same letter in upper and in lower case. */
  ghost predicate SameLetter(c: char, d: char)
  {
    c == d || exists i :: 0 <= i < 26 && {c, d} == {UPPER_LETTERS[i], LOWER_LETTERS[i]}
  }

  /** The same name but for the case of its letters. */
  ghost predicate SameName(m: string, n: string)
  {
    |m| == |n| && forall i :: 0 <= i < |m| ==> SameLetter(m[i], n[i])
  }

  lemma LetterAt(i: nat)
    requires i < 26
    ensures UPPER_LETTERS[i] as int == 65 + i && LOWER_LETTERS[i] as int == 97 + i
  {
  }

  predicate IsUpper(c: char)
  {
    exists i :: 0 <= i < 26 && UPPER_LETTERS[i] == c
  }

  predicate IsLower(c: char)
  {
    exists i :: 0 <= i < 26 && LOWER_LETTERS[i] == c
  }

  lemma LetterCodes(c: char)
    ensures IsUpper(c) <==> 65 <= c as int <= 90
    ensures IsLower(c) <==> 97 <= c as int <= 122
  {
    if i :| 0 <= i < 26 && UPPER_LETTERS[i] == c {
      LetterAt(i);
    }
    if i :| 0 <= i < 26 && LOWER_LETTERS[i] == c {
      LetterAt(i);
    }
    if 65 <= c as int <= 90 {
      LetterAt(c as int - 65);
    }
    if 97 <= c as int <= 122 {
      LetterAt(c as int - 97);
    }
  }

  lemma LowerSameLetter(c: char, d: char)
    ensures LowerChar(c) == LowerChar(d) <==> SameLetter(c, d)
  {
    if SameLetter(c, d) && c != d {
      var i :| 0 <= i < 26 && {c, d} == {UPPER_LETTERS[i], LOWER_LETTERS[i]};
      LetterAt(i);
      assert c in {c, d} && d in {c, d};
    }
    if LowerChar(c) == LowerChar(d) && c != d {
      var i := LowerChar(c) as int - 97;
      LetterAt(i);
      assert {c, d} == {UPPER_LETTERS[i], LOWER_LETTERS[i]};
    }
  }

  /** Names have the same lower-case form exactly if they are the same but for the case of letters. */
  lemma LowerSameName(m: string, n: string)
    ensures Lower(m) == Lower(n) <==> SameName(m, n)
  {
    hide LowerChar, SameLetter;
    forall i | 0 <= i < |m| && i < |n| ensures LowerChar(m[i]) == LowerChar(n[i]) <==> SameLetter(m[i], n[i]) {
      LowerSameLetter(m[i], n[i]);
    }
    if Lower(m) == Lower(n) {
      assert forall i :: 0 <= i < |m| ==> Lower(m)[i] == Lower(n)[i];
    }
  }

  lemma LowerKeeps(s: string)
    ensures Lower(Lower(s)) == Lower(s)
    ensures Trimmed(s) ==> Trimmed(Lower(s))
    ensures forall c :: c in {':', '\n'} && c !in s ==> c !in Lower(s)
  {
    assert forall i :: 0 <= i < |s| ==> IsSpace(Lower(s)[i]) == IsSpace(s[i]);
  }

  lemma TrimKeepsOut(s: string, c: char)
    requires c !in s
    ensures c !in Trim(s) && c !in RTrim(s)
  {
    hide RTrim, LTrim;
    var r := RTrim(s);
    var t := LTrim(r);
    forall i | 0 <= i < |t| ensures t[i] != c {
      assert t[i] == r[|r| - |t| + i] == s[|r| - |t| + i];
    }
  }

  lemma TrimTrims(s: string)
    ensures Trimmed(Trim(s))
  {
    var r := RTrim(s);
    var t := LTrim(r);
    if t != "" {
      assert t[|t| - 1] == r[|r| - 1];
    }
  }

  lemma TrimmedStays(s: string)
    requires Trimmed(s)
    ensures Trim(s) == s
  {
  }

  lemma {:induction false} RTrimSpaces(s: string, w: string)
    requires AllSpace(w)
    ensures RTrim(s + w) == RTrim(s)
  {
    if w == "" {
      assert s + w == s;
    } else {
      var t := w[..|w| - 1];
      assert (s + w)[..|s + w| - 1] == s + t;
      RTrimSpaces(s, t);
    }
  }

  lemma {:induction false} LTrimSpaces(w: string, s: string)
    requires AllSpace(w)
    ensures LTrim(w + s) == LTrim(s)
  {
    if w == "" {
      assert w + s == s;
    } else {
      assert (w + s)[1..] == w[1..] + s;
      LTrimSpaces(w[1..], s);
    }
  }

  /** Trimming the end does not reach what ends in no space. */
  lemma {:induction false} RTrimAfter(a: string, x: string)
    requires a != "" && !IsSpace(a[|a| - 1])
    ensures RTrim(a + x) == a + RTrim(x)
  {
    if x == "" {
      assert a + x == a;
    } else if IsSpace(x[|x| - 1]) {
      assert (a + x)[..|a + x| - 1] == a + x[..|x| - 1];
      RTrimAfter(a, x[..|x| - 1]);
    }
  }

  lemma TrimLead(w: string, v: string)
    requires AllSpace(w)
    ensures Trim(w + v) == Trim(v)
  {
    hide RTrim, LTrim, Trim, IsSpace, AllSpace;
    if AllSpace(v) {
      AllSpaceBoth(w, v);
      TrimAll(w + v);
      TrimAll(v);
    } else {
      TrimLeadAt(w, v, LastInk(v));
    }
  }

  lemma TrimAll(s: string)
    requires AllSpace(s)
    ensures Trim(s) == ""
  {
    hide AllSpace;
    RTrimAll(s);
  }

  lemma TrimLeadAt(w: string, v: string, i: nat)
    requires AllSpace(w) && i < |v| && !IsSpace(v[i])
    ensures Trim(w + v) == Trim(v)
  {
    hide Trim, AllSpace, IsSpace;
    assert v == v[..i + 1] + v[i + 1..];
    TrimLeadInk(w, v[..i + 1], v[i + 1..]);
  }

  lemma AllSpaceBoth(w: string, v: string)
    requires AllSpace(w) && AllSpace(v)
    ensures AllSpace(w + v)
  {
  }

  lemma TrimLeadInk(w: string, a: string, x: string)
    requires AllSpace(w) && a != "" && !IsSpace(a[|a| - 1])
    ensures Trim(w + (a + x)) == Trim(a + x)
  {
    hide RTrim, LTrim, AllSpace, IsSpace;
    RTrimAfter(a, x);
    assert w + (a + x) == (w + a) + x;
    RTrimAfter(w + a, x);
    assert (w + a) + RTrim(x) == w + (a + RTrim(x));
    LTrimSpaces(w, a + RTrim(x));
  }

  /** Spaces on either side do not matter, and it does not matter if the end is trimmed before. */
  lemma TrimSpaces(v: string, w: string, z: string)
    requires AllSpace(w) && AllSpace(z)
    ensures Trim(w + v + z) == Trim(v) && Trim(RTrim(w + v + z)) == Trim(v)
  {
    hide RTrim, LTrim, AllSpace;
    RTrimSpaces(w + v, z);
    RTrimOnce(w + v + z);
    TrimLead(w, v);
  }

  lemma RTrimOnce(s: string)
    ensures RTrim(RTrim(s)) == RTrim(s)
  {
  }

  lemma {:induction false} RTrimAll(s: string)
    requires AllSpace(s)
    ensures RTrim(s) == ""
  {
    if s != "" {
      RTrimAll(s[..|s| - 1]);
    }
  }

  lemma {:induction false} LTrimAll(s: string)
    requires AllSpace(s)
    ensures LTrim(s) == ""
  {
    if s != "" {
      LTrimAll(s[1..]);
    }
  }

  ghost function LastInk(s: string): (i: nat)
    requires !AllSpace(s)
    ensures i < |s| && !IsSpace(s[i])
  {
    if !IsSpace(s[|s| - 1]) then |s| - 1 else LastInk(s[..|s| - 1])
  }
}

/** The part common to both name normalisers: keep the letters and digits, in upper case. */
module AlgorithmNames {

  /** `std::isalnum` in the C locale. */
  predicate IsAlnum(c: char) {
    '0' <= c <= '9' || 'A' <= c <= 'Z' || 'a' <= c <= 'z'
  }

  function ToUpper(c: char): char {
    if 'a' <= c <= 'z' then c - 'a' + 'A' else c
  }

  function ToLower(c: char): char {
    if 'A' <= c <= 'Z' then c - 'A' + 'a' else c
  }

  function Lower(s: string): (l: string)
    ensures |l| == |s| && forall i :: 0 <= i < |s| ==> l[i] == ToLower(s[i])
  {
    seq(|s|, i requires 0 <= i < |s| => ToLower(s[i]))
  }

  lemma LowerAppend(s: string, t: string)
    ensures Lower(s + t) == Lower(s) + Lower(t)
  {
  }

  function Upper(s: string): (u: string)
    ensures |u| == |s| && forall i :: 0 <= i < |s| ==> u[i] == ToUpper(s[i])
  {
    seq(|s|, i requires 0 <= i < |s| => ToUpper(s[i]))
  }

  lemma LowerOfUpper(s: string)
    ensures Lower(Upper(s)) == Lower(s)
  {
  }

  function Squash(s: string): (out: string)
    ensures IsSquashed(out)
  {
    if s == "" then ""
    else
      var n := |s| - 1;
      Squash(s[..n]) + if IsAlnum(s[n]) then [ToUpper(s[n])] else ""
  }

  predicate IsSquashedChar(c: char) {
    '0' <= c <= '9' || 'A' <= c <= 'Z'
  }

  predicate IsSquashed(s: string) {
    forall i :: 0 <= i < |s| ==> IsSquashedChar(s[i])
  }

  lemma {:induction false} SquashAppend(s: string, t: string)
    ensures Squash(s + t) == Squash(s) + Squash(t)
  {
    if t == "" {
      assert s + t == s && Squash(s) + "" == Squash(s);
    } else {
      var n := |t| - 1;
      var front, last := t[..n], if IsAlnum(t[n]) then [ToUpper(t[n])] else "";
      SquashAppend(s, front);
      assert (s + t)[..|s| + n] == s + front;
      assert Squash(s + t) == Squash(s + front) + last;
      assert (Squash(s) + Squash(front)) + last == Squash(s) + (Squash(front) + last);
    }
  }

  lemma {:induction false} SquashFixes(s: string)
    requires IsSquashed(s)
    ensures Squash(s) == s
  {
    if s != "" {
      var n := |s| - 1;
      SquashFixes(s[..n]);
      assert IsSquashedChar(s[n]);
      assert s == s[..n] + [s[n]];
    }
  }

  lemma {:induction false} SquashAlnum(w: string)
    requires forall j :: 0 <= j < |w| ==> IsAlnum(w[j])
    ensures Squash(w) == Upper(w)
  {
    if w != "" {
      SquashAlnum(w[..|w| - 1]);
      assert Upper(w) == Upper(w[..|w| - 1]) + [ToUpper(w[|w| - 1])];
    }
  }

  /** Adjacent letters and digits stay adjacent. */
  lemma SquashWindow(s: string, i: nat, k: nat)
    requires i + k <= |s|
    requires forall j :: i <= j < i + k ==> IsAlnum(s[j])
    ensures var a := |Squash(s[..i])|;
            a + k <= |Squash(s)| && Squash(s)[a..a + k] == Upper(s[i..i + k])
  {
    var front, w, back := s[..i], s[i..i + k], s[i + k..];
    assert s == (front + w) + back;
    SquashAppend(front + w, back);
    SquashAppend(front, w);
    SquashAlnum(w);
    MiddlePart(Squash(front), Upper(w), Squash(back));
  }

  lemma MiddlePart(a: string, u: string, b: string)
    ensures ((a + u) + b)[|a|..|a| + |u|] == u
  {
  }

  /** Of one character, a digit or a capital letter stays, a small letter is made a capital one,
      and anything else goes.  With `SquashAppend` this is all there is to squashing. */
  lemma SquashChar(c: char)
    ensures Squash([c]) == if '0' <= c <= '9' || 'A' <= c <= 'Z' then [c]
                           else if 'a' <= c <= 'z' then [c - 'a' + 'A']
                           else ""
  {
    assert [c][..0] == "";
  }

  lemma SquashIgnores(s: string, c: char)
    requires !IsAlnum(c)
    ensures Squash(s + [c]) == Squash(s)
  {
    assert (s + [c])[..|s|] == s && Squash(s) + "" == Squash(s);
  }

  /** A dash put into a squashed text disappears again. */
  lemma SquashDashed(out: string, k: nat, dashed: string)
    requires IsSquashed(out) && k <= |out|
    requires dashed == out[..k] + "-" + out[k..]
    ensures Squash(dashed) == out
  {
    var a, b := out[..k], out[k..];
    SquashIgnores(a, '-');
    SquashAppend(a + "-", b);
    SquashFixes(a);
    SquashFixes(b);
    assert a + b == out;
  }

  /** Names are read in either case. */
  lemma {:induction false} SquashIgnoresCase(s: string)
    ensures Squash(Lower(s)) == Squash(s)
  {
    if s != "" {
      var n := |s| - 1;
      SquashIgnoresCase(s[..n]);
      assert Lower(s)[..n] == Lower(s[..n]);
    }
  }

  /** The loop of both normalisers. */
  method SquashName(s: string) returns (out: string)
    ensures out == Squash(s)
  {
    out := "";
    for i := 0 to |s|
      invariant out == Squash(s[..i])
    {
      assert s[..i + 1][..i] == s[..i];
      if IsAlnum(s[i]) {
        out := out + [ToUpper(s[i])];
      }
    }
    assert s[..|s|] == s;
  }
}

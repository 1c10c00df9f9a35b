/**
 * The string helpers the filters rely on: commons-lang `StringUtils.isBlank`
 * and `StringUtils.trim`, Guava `Strings.isNullOrEmpty` and `Strings.repeat`,
 * and `String.replaceAll` restricted to a literal pattern.
 */
module JavaStrings {
  import opened Wrappers

  /** `Character.isWhitespace`: the Unicode space, line and paragraph
      separators except the non-breaking ones, plus the ASCII controls
      U+0009..U+000D and U+001C..U+001F. */
  predicate IsWhitespace(c: char) {
    var n := c as int;
    || 0x09 <= n <= 0x0D
    || 0x1C <= n <= 0x20
    || n == 0x1680
    || 0x2000 <= n <= 0x2006
    || 0x2008 <= n <= 0x200A
    || n == 0x2028 || n == 0x2029 || n == 0x205F || n == 0x3000
  }

  /** `StringUtils.isBlank` on a non-null string: empty or whitespace only. */
  predicate IsBlank(s: string) {
    forall i :: 0 <= i < |s| ==> IsWhitespace(s[i])
  }

  /** `Strings.isNullOrEmpty`, with null modelled as `None`. */
  predicate IsNullOrEmpty(s: Option<string>) {
    s.None? || s.value == []
  }

  /** `String.trim` (what `StringUtils.trim` calls): drops every leading and
      trailing character whose code is at most U+0020. */
  function TrimLeft(s: string): string {
    if s != [] && s[0] <= ' ' then TrimLeft(s[1..]) else s
  }

  function TrimRight(s: string): string {
    if s != [] && s[|s| - 1] <= ' ' then TrimRight(s[..|s| - 1]) else s
  }

  function Trim(s: string): string {
    TrimRight(TrimLeft(s))
  }

  /** `w` occurs in `t` at position `i`. */
  predicate OccursAt(t: string, w: string, i: int) {
    0 <= i && i + |w| <= |t| && t[i..i + |w|] == w
  }

  /** `w` is a substring of `t`. */
  predicate Occurs(w: string, t: string) {
    exists i :: 0 <= i <= |t| && OccursAt(t, w, i)
  }

  lemma {:induction false} TrimLeftIsSuffix(s: string)
    ensures |TrimLeft(s)| <= |s| && TrimLeft(s) == s[|s| - |TrimLeft(s)|..]
    ensures TrimLeft(s) != [] ==> TrimLeft(s)[0] > ' '
    decreases |s|
  {
    if s != [] && s[0] <= ' ' {
      TrimLeftIsSuffix(s[1..]);
    }
  }

  lemma {:induction false} TrimRightIsPrefix(s: string)
    ensures |TrimRight(s)| <= |s| && TrimRight(s) == s[..|TrimRight(s)|]
    ensures TrimRight(s) != [] ==> TrimRight(s)[|TrimRight(s)| - 1] > ' '
    decreases |s|
  {
    if s != [] && s[|s| - 1] <= ' ' {
      TrimRightIsPrefix(s[..|s| - 1]);
    }
  }

  /** The trimmed string is a slice of the original whose two ends are not
      control or space characters. */
  lemma TrimIsSlice(s: string)
    ensures exists lo :: OccursAt(s, Trim(s), lo)
    ensures Trim(s) != [] ==> Trim(s)[0] > ' ' && Trim(s)[|Trim(s)| - 1] > ' '
  {
    var l := TrimLeft(s);
    TrimLeftIsSuffix(s);
    TrimRightIsPrefix(l);
    var lo := |s| - |l|;
    assert Trim(s) == s[lo..lo + |Trim(s)|];
    assert OccursAt(s, Trim(s), lo);
    if Trim(s) != [] {
      assert Trim(s)[0] == l[0];
    }
  }

  /** A substring of a slice of `s` is a substring of `s`. */
  lemma OccursTransitive(w: string, t: string, s: string)
    requires Occurs(w, t) && Occurs(t, s)
    ensures Occurs(w, s)
  {
    var i :| 0 <= i <= |t| && OccursAt(t, w, i);
    var j :| 0 <= j <= |s| && OccursAt(s, t, j);
    forall k | 0 <= k < |w| ensures s[j + i + k] == w[k] {
      assert w[k] == t[i + k] == s[j + i + k];
    }
    assert s[j + i..j + i + |w|] == w;
    assert OccursAt(s, w, j + i);
  }

  /** `Strings.repeat(String.valueOf(c), n)`. */
  function Repeat(c: char, n: nat): (r: string)
    ensures |r| == n && forall i :: 0 <= i < n ==> r[i] == c
  {
    seq(n, _ => c)
  }

  /** `s.replaceAll(w, r)` for a pattern and a replacement without regular
      expression metacharacters: occurrences are found left to right and do
      not overlap. */
  function ReplaceAll(s: string, w: string, r: string): string
    requires w != []
    decreases |s|
  {
    if |s| < |w| then s
    else if s[..|w|] == w then r + ReplaceAll(s[|w|..], w, r)
    else [s[0]] + ReplaceAll(s[1..], w, r)
  }

  /** The number of occurrences `ReplaceAll` rewrites. */
  function Count(s: string, w: string): nat
    requires w != []
    decreases |s|
  {
    if |s| < |w| then 0
    else if s[..|w|] == w then 1 + Count(s[|w|..], w)
    else Count(s[1..], w)
  }

  /** Each rewritten occurrence changes the length by |r| - |w|. */
  lemma {:induction false} ReplaceAllLength(s: string, w: string, r: string)
    requires w != []
    ensures |ReplaceAll(s, w, r)| == |s| + Count(s, w) * (|r| - |w|)
    decreases |s|
  {
    if |s| < |w| {
    } else if s[..|w|] == w {
      var rest := s[|w|..];
      ReplaceAllLength(rest, w, r);
      assert |ReplaceAll(s, w, r)| == |r| + |ReplaceAll(rest, w, r)|;
      assert Count(s, w) == 1 + Count(rest, w);
      OneMore(Count(rest, w), |r| - |w|);
    } else {
      ReplaceAllLength(s[1..], w, r);
      assert |ReplaceAll(s, w, r)| == 1 + |ReplaceAll(s[1..], w, r)|;
    }
  }

  /** One more rewrite adds one more change of length. */
  lemma OneMore(c: int, d: int)
    ensures (1 + c) * d == d + c * d
  {
  }

  /** Something is rewritten exactly when the pattern occurs. */
  lemma {:induction false} CountPositive(s: string, w: string)
    requires w != []
    ensures Count(s, w) > 0 <==> Occurs(w, s)
    decreases |s|
  {
    if |s| < |w| {
    } else if s[..|w|] == w {
      assert OccursAt(s, w, 0);
    } else {
      CountPositive(s[1..], w);
      OccursTail(s, w);
    }
  }

  /** Where `w` does not occur at the start of `s`, it occurs in `s` exactly
      when it occurs in the rest. */
  lemma OccursTail(s: string, w: string)
    requires |s| >= 1 && !OccursAt(s, w, 0)
    ensures Occurs(w, s) <==> Occurs(w, s[1..])
  {
    if Occurs(w, s) {
      var i :| 0 <= i <= |s| && OccursAt(s, w, i);
      assert s[1..][i - 1..i - 1 + |w|] == s[i..i + |w|];
      assert OccursAt(s[1..], w, i - 1);
    }
    if Occurs(w, s[1..]) {
      var j :| 0 <= j <= |s[1..]| && OccursAt(s[1..], w, j);
      assert s[1..][j..j + |w|] == s[j + 1..j + 1 + |w|];
      assert OccursAt(s, w, j + 1);
    }
  }

  /** Without an occurrence the text is returned unchanged. */
  lemma ReplaceAbsent(s: string, w: string, r: string)
    requires w != [] && !Occurs(w, s)
    ensures ReplaceAll(s, w, r) == s
  {
    CountPositive(s, w);
    ReplaceCountZero(s, w, r);
  }

  lemma {:induction false} ReplaceCountZero(s: string, w: string, r: string)
    requires w != [] && Count(s, w) == 0
    ensures ReplaceAll(s, w, r) == s
    decreases |s|
  {
    if |s| >= |w| {
      ReplaceCountZero(s[1..], w, r);
      assert [s[0]] + s[1..] == s;
    }
  }

  /** Masking with `Repeat(m, |w|)` keeps the length and changes characters
      only into the mask character. */
  lemma {:induction false} MaskShape(s: string, w: string, m: char)
    requires w != []
    ensures |ReplaceAll(s, w, Repeat(m, |w|))| == |s|
    ensures forall k :: 0 <= k < |s| ==> ReplaceAll(s, w, Repeat(m, |w|))[k] in {s[k], m}
    decreases |s|
  {
    var mask := Repeat(m, |w|);
    if |s| < |w| {
    } else if s[..|w|] == w {
      MaskShape(s[|w|..], w, m);
      var out := ReplaceAll(s, w, mask);
      forall k | 0 <= k < |s| ensures out[k] in {s[k], m} {
        if k >= |w| {
          assert out[k] == ReplaceAll(s[|w|..], w, mask)[k - |w|];
        }
      }
    } else {
      MaskShape(s[1..], w, m);
      var out := ReplaceAll(s, w, mask);
      forall k | 0 <= k < |s| ensures out[k] in {s[k], m} {
        if k >= 1 {
          assert out[k] == ReplaceAll(s[1..], w, mask)[k - 1];
        }
      }
    }
  }

  /** When the mask character does not appear in the word, no occurrence of
      the word survives the masking. */
  lemma {:induction false} MaskRemovesWord(s: string, w: string, m: char)
    requires w != [] && m !in w
    ensures !Occurs(w, ReplaceAll(s, w, Repeat(m, |w|)))
    decreases |s|
  {
    var mask := Repeat(m, |w|);
    var out := ReplaceAll(s, w, mask);
    forall p | 0 <= p <= |out| ensures !OccursAt(out, w, p) {
      MaskRemovesAt(s, w, m, p);
    }
  }

  lemma {:induction false} MaskRemovesAt(s: string, w: string, m: char, p: int)
    requires w != [] && m !in w && 0 <= p
    ensures !OccursAt(ReplaceAll(s, w, Repeat(m, |w|)), w, p)
    decreases |s|
  {
    var mask := Repeat(m, |w|);
    var out := ReplaceAll(s, w, mask);
    if |s| < |w| {
    } else if s[..|w|] == w {
      var rest := ReplaceAll(s[|w|..], w, mask);
      assert out == mask + rest;
      if p < |w| {
        if p + |w| <= |out| {
          assert out[p] == m;
          assert out[p..p + |w|][0] == m;
        }
      } else {
        MaskRemovesAt(s[|w|..], w, m, p - |w|);
        ShiftedWindow(out, mask, rest, w, p);
      }
    } else {
      var rest := ReplaceAll(s[1..], w, mask);
      assert out == [s[0]] + rest;
      if p == 0 {
        MaskShape(s, w, m);
        var k :| 0 <= k < |w| && s[k] != w[k];
        assert out[k] in {s[k], m};
        assert out[k] != w[k];
      } else {
        MaskRemovesAt(s[1..], w, m, p - 1);
        ShiftedWindow(out, [s[0]], rest, w, p);
      }
    }
  }

  /** A window of `a + b` that starts after `a` is a window of `b`. */
  lemma ShiftedWindow(out: string, a: string, b: string, w: string, p: int)
    requires out == a + b && |a| <= p
    ensures OccursAt(out, w, p) <==> OccursAt(b, w, p - |a|)
  {
    if p + |w| <= |out| {
      assert b[p - |a|..p - |a| + |w|] == out[p..p + |w|];
    }
  }
}

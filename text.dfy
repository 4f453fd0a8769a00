/** The Python `str` operations the modelled code relies on: `strip`, `lower`,
    `upper`, the `in` substring test, `startswith` and `replace`. */
module Text {

  /** Python's `str.isspace()`: the characters `str.strip()` removes. */
  predicate IsSpace(c: char) {
    c == ' ' || ('\t' <= c <= '\r') || ('\U{1C}' <= c <= '\U{1F}')
    || c == '\U{85}' || c == '\U{A0}' || c == '\U{1680}'
    || ('\U{2000}' <= c <= '\U{200A}') || c == '\U{2028}' || c == '\U{2029}'
    || c == '\U{202F}' || c == '\U{205F}' || c == '\U{3000}'
  }

  predicate AllSpace(s: string) {
    forall i :: 0 <= i < |s| ==> IsSpace(s[i])
  }

  /** Neither the first nor the last character is whitespace. */
  predicate Trimmed(s: string) {
    s == [] || (!IsSpace(s[0]) && !IsSpace(s[|s| - 1]))
  }

  /** `s.lstrip()`: the suffix left after dropping the leading whitespace. */
  function LStrip(s: string): (r: string)
    ensures |r| <= |s| && r == s[|s| - |r|..]
    ensures AllSpace(s[..|s| - |r|])
    ensures r == [] || !IsSpace(r[0])
  {
    if |s| > 0 && IsSpace(s[0]) then
      var r := LStrip(s[1..]);
      DropFirst(s, r);
      r
    else
      s
  }

  /** What `lstrip` leaves of `s[1..]`, when `s[0]` is whitespace, is
      also a suffix of `s` after nothing but whitespace. */
  lemma DropFirst(s: string, r: string)
    requires |s| > 0 && IsSpace(s[0])
    requires |r| <= |s| - 1 && r == s[1..][|s| - 1 - |r|..]
    requires AllSpace(s[1..][..|s| - 1 - |r|])
    ensures r == s[|s| - |r|..] && AllSpace(s[..|s| - |r|])
  {
    var t := s[1..];
    var k := |s| - |r|;
    assert r == s[k..] by {
      forall i | 0 <= i < |r|
        ensures r[i] == s[k + i]
      {
        assert r[i] == t[k - 1 + i];
      }
    }
    forall i | 0 <= i < k
      ensures IsSpace(s[i])
    {
      if i > 0 {
        assert s[i] == t[..k - 1][i - 1];
      }
    }
  }

  /** `s.rstrip()`: the prefix left after dropping the trailing whitespace. */
  function RStrip(s: string): (r: string)
    ensures |r| <= |s| && r == s[..|r|]
    ensures AllSpace(s[|r|..])
    ensures r == [] || !IsSpace(r[|r| - 1])
    ensures forall j :: 0 <= j < |s| && !IsSpace(s[j]) ==> j < |r|
  {
    if |s| > 0 && IsSpace(s[|s| - 1]) then RStrip(s[..|s| - 1]) else s
  }

  /** `s.strip()`: `s` without its leading and trailing whitespace. */
  function Strip(s: string): (r: string)
    ensures Trimmed(r)
    ensures |r| <= |s|
  {
    RStrip(LStrip(s))
  }

  /** Whitespace `lead`, then `r`, then whitespace `trail`, read off the
      two cuts that give `l` from `s` and `r` from `l`. */
  lemma Cuts(s: string, l: string, r: string)
    requires |l| <= |s| && l == s[|s| - |l|..] && |r| <= |l| && r == l[..|r|]
    ensures s == s[..|s| - |l|] + r + l[|r|..]
  {
    assert s == s[..|s| - |l|] + l;
    assert l == r + l[|r|..];
  }

  /** `strip` keeps what lies between a leading and a trailing run of
      whitespace: `s` is whitespace, then `s.strip()`, then whitespace. */
  lemma StripIsSlice(s: string)
    ensures exists lead, trail :: s == lead + Strip(s) + trail && AllSpace(lead) && AllSpace(trail)
  {
    var l := LStrip(s);
    var r := RStrip(l);
    Cuts(s, l, r);
    Between(s, s[..|s| - |l|], r, l[|r|..]);
  }

  /** Names the witnesses of `StripIsSlice`. */
  lemma Between(s: string, lead: string, r: string, trail: string)
    requires s == lead + r + trail && AllSpace(lead) && AllSpace(trail)
    ensures exists lead', trail' :: s == lead' + r + trail' && AllSpace(lead') && AllSpace(trail')
  {
  }

  /** Stripping an already stripped string changes nothing. */
  lemma StripTrimmed(s: string)
    requires Trimmed(s)
    ensures Strip(s) == s
  {
  }

  /** `str.lower()` on one character, for ASCII and the Latin-1 capitals
      (the letters of Portuguese); other scripts are outside the model. */
  function LowerChar(c: char): char {
    if 'A' <= c <= 'Z' || ('\U{C0}' <= c <= '\U{DE}' && c != '\U{D7}')
    then (c as int + 32) as char
    else c
  }

  /** `str.upper()` on one character, for ASCII letters. */
  function UpperChar(c: char): char {
    if 'a' <= c <= 'z' then (c as int - 32) as char else c
  }

  function Lower(s: string): (r: string)
    ensures |r| == |s|
    ensures forall i :: 0 <= i < |s| ==> r[i] == LowerChar(s[i])
  {
    seq(|s|, i requires 0 <= i < |s| => LowerChar(s[i]))
  }

  function Upper(s: string): (r: string)
    ensures |r| == |s|
    ensures forall i :: 0 <= i < |s| ==> r[i] == UpperChar(s[i])
  {
    seq(|s|, i requires 0 <= i < |s| => UpperChar(s[i]))
  }

  /** Lower-casing keeps a trimmed text trimmed, and a second lower-casing
      changes nothing. */
  lemma LowerKeepsTrimmed(s: string)
    ensures Trimmed(s) ==> Trimmed(Lower(s))
    ensures Lower(Lower(s)) == Lower(s)
  {
    var r := Lower(s);
    if |s| > 0 {
      assert r[0] == LowerChar(s[0]) && r[|r| - 1] == LowerChar(s[|s| - 1]);
    }
    forall i | 0 <= i < |s| ensures LowerChar(r[i]) == r[i] {
      assert r[i] == LowerChar(s[i]);
    }
  }

  /** `s.startswith(p)`. */
  predicate StartsWith(s: string, p: string) {
    |p| <= |s| && s[..|p|] == p
  }

  /** Python's `w in s`: `w` occurs in `s` as a contiguous substring. */
  predicate Contains(s: string, w: string)
    decreases |s|
  {
    StartsWith(s, w) || (|s| > 0 && Contains(s[1..], w))
  }

  /** `w` occurs in `s` at offset `i`. */
  predicate OccursAt(s: string, w: string, i: int) {
    0 <= i <= |s| - |w| && s[i..i + |w|] == w
  }

  /** `Contains` holds exactly when `w` occurs at some offset of `s`. */
  lemma {:induction false} ContainsAt(s: string, w: string)
    ensures Contains(s, w) <==> exists i :: OccursAt(s, w, i)
    decreases |s|
  {
    if StartsWith(s, w) {
      assert OccursAt(s, w, 0);
    }
    if |s| > 0 {
      ContainsAt(s[1..], w);
      if Contains(s[1..], w) {
        var i :| OccursAt(s[1..], w, i);
        assert OccursAt(s, w, i + 1) by {
          assert s[i + 1..i + 1 + |w|] == s[1..][i..i + |w|];
        }
      }
      if i :| OccursAt(s, w, i) {
        if i > 0 {
          assert OccursAt(s[1..], w, i - 1) by {
            assert s[1..][i - 1..i - 1 + |w|] == s[i..i + |w|];
          }
        }
      }
    } else {
      if i :| OccursAt(s, w, i) {
        assert i == 0;
      }
    }
  }

  /** A word whose first character appears at no offset where the word
      could start does not occur. */
  lemma AbsentByFirstChar(s: string, w: string)
    requires |w| > 0
    requires forall j :: 0 <= j <= |s| - |w| ==> s[j] != w[0]
    ensures !Contains(s, w)
  {
    ContainsAt(s, w);
    forall j | OccursAt(s, w, j) ensures s[j] == w[0] {
      assert s[j..j + |w|][0] == s[j];
    }
  }

  /** Python's `s.replace(p, t)`: every occurrence of `p`, found from the left
      and not overlapping, replaced by `t`, in a single pass. */
  function ReplaceAll(s: string, p: string, t: string): string
    requires |p| > 0
    decreases |s|
  {
    if StartsWith(s, p) then t + ReplaceAll(s[|p|..], p, t)
    else if |s| == 0 then s
    else [s[0]] + ReplaceAll(s[1..], p, t)
  }

  /** Replacing a pattern that does not occur changes nothing. */
  lemma {:induction false} ReplaceAbsent(s: string, p: string, t: string)
    requires |p| > 0 && !Contains(s, p)
    ensures ReplaceAll(s, p, t) == s
    decreases |s|
  {
    if |s| > 0 {
      ReplaceAbsent(s[1..], p, t);
      assert [s[0]] + s[1..] == s;
    }
  }

  /** Replacing a single character `c` by a text without `c` leaves no `c`. */
  lemma {:induction false} ReplaceCharRemovesIt(s: string, c: char, t: string)
    requires c !in t
    ensures c !in ReplaceAll(s, [c], t)
    decreases |s|
  {
    if |s| > 0 {
      ReplaceCharRemovesIt(s[1..], c, t);
    }
  }

  /** Replacing a character that does not occur changes nothing. */
  lemma {:induction false} ReplaceCharAbsent(s: string, c: char, t: string)
    requires c !in s
    ensures ReplaceAll(s, [c], t) == s
    decreases |s|
  {
    if |s| > 0 {
      ReplaceCharAbsent(s[1..], c, t);
      assert [s[0]] + s[1..] == s;
    }
  }

  /** A single-character replacement works on each part of a concatenation
      separately. */
  lemma {:induction false} ReplaceCharConcat(a: string, b: string, c: char, t: string)
    ensures ReplaceAll(a + b, [c], t) == ReplaceAll(a, [c], t) + ReplaceAll(b, [c], t)
    decreases |a|
  {
    if |a| > 0 {
      ReplaceCharConcat(a[1..], b, c, t);
      assert (a + b)[1..] == a[1..] + b;
      assert (a + b)[..1] == a[..1];
    } else {
      assert a + b == b;
    }
  }

  /** A replacement whose text does not contain `c` introduces no `c`. */
  lemma {:induction false} ReplaceKeepsCharOut(s: string, p: string, t: string, c: char)
    requires |p| > 0 && c !in s && c !in t
    ensures c !in ReplaceAll(s, p, t)
    decreases |s|
  {
    if StartsWith(s, p) {
      ReplaceKeepsCharOut(s[|p|..], p, t, c);
    } else if |s| > 0 {
      ReplaceKeepsCharOut(s[1..], p, t, c);
    }
  }

  /** Deleting occurrences never makes a text longer. */
  lemma {:induction false} DeleteShortens(s: string, p: string)
    requires |p| > 0
    ensures |ReplaceAll(s, p, "")| <= |s|
    ensures Contains(s, p) ==> |ReplaceAll(s, p, "")| < |s|
    decreases |s|
  {
    if StartsWith(s, p) {
      DeleteShortens(s[|p|..], p);
    } else if |s| > 0 {
      DeleteShortens(s[1..], p);
    }
  }
}

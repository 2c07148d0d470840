/** The string operations the inventory engine relies on: Java's
    `String.trim`, SQL `LOWER`, substring containment and the SQL `LIKE`
    pattern match. */
module Text {

  /** `String.trim` treats every code point up to U+0020 as removable. */
  predicate IsSpace(c: char) {
    c <= ' '
  }

  /** Nothing but removable characters: what `trim()` maps to "". */
  predicate IsBlank(s: string) {
    forall k :: 0 <= k < |s| ==> IsSpace(s[k])
  }

  /** The first index at or after `i` that holds a non-space character. */
  function SkipSpaces(s: string, i: nat): (j: nat)
    requires i <= |s|
    ensures i <= j <= |s|
    ensures forall k :: i <= k < j ==> IsSpace(s[k])
    ensures j < |s| ==> !IsSpace(s[j])
    decreases |s| - i
  {
    if i < |s| && IsSpace(s[i]) then SkipSpaces(s, i + 1) else i
  }

  /** The end of `s[lo..j]` once trailing spaces are dropped. */
  function DropTrailingSpaces(s: string, lo: nat, j: nat): (e: nat)
    requires lo <= j <= |s|
    ensures lo <= e <= j
    ensures forall k :: e <= k < j ==> IsSpace(s[k])
    ensures e > lo ==> !IsSpace(s[e - 1])
    decreases j
  {
    if j > lo && IsSpace(s[j - 1]) then DropTrailingSpaces(s, lo, j - 1) else j
  }

  /** `String.trim`: the infix of `s` left after removing leading and
      trailing spaces. */
  function Trim(s: string): (r: string)
    ensures |r| <= |s|
    ensures r == [] <==> IsBlank(s)
    ensures r != [] ==> !IsSpace(r[0]) && !IsSpace(r[|r| - 1])
    ensures exists i :: 0 <= i <= |s| - |r| && s[i..i + |r|] == r
                        && IsBlank(s[..i]) && IsBlank(s[i + |r|..])
  {
    var i := SkipSpaces(s, 0);
    var e := DropTrailingSpaces(s, i, |s|);
    var r := s[i..e];
    assert IsBlank(s[..i]) && IsBlank(s[e..]);
    assert r == [] ==> IsBlank(s) by {
      if r == [] {
        assert i == |s|;
      }
    }
    assert s[i..i + |r|] == r;
    r
  }

  /** Trimming an already trimmed string changes nothing. */
  lemma TrimIdempotent(s: string)
    ensures Trim(Trim(s)) == Trim(s)
  {
  }

  /** SQL `LOWER` on one character; case mapping beyond ASCII is not
      modelled. */
  function LowerChar(c: char): (d: char)
    ensures 'A' <= c <= 'Z' ==> d as int == c as int + 32
    ensures !('A' <= c <= 'Z') ==> d == c
  {
    if 'A' <= c <= 'Z' then (c as int + 32) as char else c
  }

  /** SQL `LOWER` on a string. */
  function Lower(s: string): (r: string)
    ensures |r| == |s|
    ensures forall k :: 0 <= k < |s| ==> r[k] == LowerChar(s[k])
  {
    seq(|s|, k requires 0 <= k < |s| => LowerChar(s[k]))
  }

  /** The first code point beyond the Basic Multilingual Plane. */
  const SupplementaryStart: int := 0x1_0000

  /** `String.length()`: the number of UTF-16 code units, two for each
      character beyond the Basic Multilingual Plane and one for any other. */
  function Utf16Length(s: string): (n: nat)
    ensures |s| <= n <= 2 * |s|
  {
    if s == [] then 0
    else (if s[0] as int < SupplementaryStart then 1 else 2) + Utf16Length(s[1..])
  }

  /** Inside the Basic Multilingual Plane every character is one code unit;
      beyond it every character is two. */
  lemma {:induction false} Utf16LengthUniform(s: string)
    ensures (forall k :: 0 <= k < |s| ==> s[k] as int < SupplementaryStart) ==> Utf16Length(s) == |s|
    ensures (forall k :: 0 <= k < |s| ==> s[k] as int >= SupplementaryStart) ==> Utf16Length(s) == 2 * |s|
  {
    if s != [] {
      Utf16LengthUniform(s[1..]);
      assert forall k :: 0 <= k < |s[1..]| ==> s[1..][k] == s[k + 1];
    }
  }

  /** Code units add up over concatenation. */
  lemma {:induction false} Utf16LengthAppend(a: string, b: string)
    ensures Utf16Length(a + b) == Utf16Length(a) + Utf16Length(b)
  {
    if a != [] {
      assert (a + b)[0] == a[0];
      assert (a + b)[1..] == a[1..] + b;
      Utf16LengthAppend(a[1..], b);
    } else {
      assert a + b == b;
    }
  }

  /** `p` occurs in `s` starting at index `i`. */
  predicate OccursAt(s: string, p: string, i: int) {
    0 <= i && i + |p| <= |s| && s[i..i + |p|] == p
  }

  /** `p` occurs in `s` at some position. */
  predicate Contains(s: string, p: string) {
    exists i :: 0 <= i <= |s| && OccursAt(s, p, i)
  }

  /** A string contains each of its suffixes. */
  lemma ContainsSuffix(s: string, p: string)
    ensures Contains(s + p, p)
  {
    assert (s + p)[|s|..|s| + |p|] == p;
    assert OccursAt(s + p, p, |s|);
  }

  /** Lower-casing both sides keeps an occurrence where it was, so a name
      holding the fragment literally is also found ignoring case. */
  lemma LowerKeepsContains(s: string, p: string)
    requires Contains(s, p)
    ensures Contains(Lower(s), Lower(p))
  {
    var i :| 0 <= i <= |s| && OccursAt(s, p, i);
    forall k | 0 <= k < |p|
      ensures Lower(s)[i..i + |p|][k] == Lower(p)[k]
    {
      assert s[i..i + |p|][k] == p[k];
    }
    assert OccursAt(Lower(s), Lower(p), i);
  }

  /** `p` is a prefix of `s`. */
  predicate IsPrefix(p: string, s: string) {
    |p| <= |s| && s[..|p|] == p
  }

  /** The characters SQL `LIKE` treats specially: `%` matches any run, `_`
      any one character, and `\` makes the character after it literal.
      `\` is the escape character MySQL, PostgreSQL and H2 apply when the
      query names no `ESCAPE` clause. */
  const AnyRun: char := '%'
  const AnyOne: char := '_'
  const Escape: char := '\\'

  /** `p` holds none of the characters `LIKE` treats specially. */
  predicate HasNoSpecials(p: string) {
    forall k :: 0 <= k < |p| ==> p[k] != AnyRun && p[k] != AnyOne && p[k] != Escape
  }

  /** `s LIKE p` with `\` as escape character. An escape at the very end of
      the pattern stands for itself, as in MySQL. */
  predicate Like(s: string, p: string)
    decreases |s| + |p|
  {
    if p == [] then s == []
    else if p[0] == Escape && |p| >= 2 then s != [] && s[0] == p[1] && Like(s[1..], p[2..])
    else if p[0] == AnyRun then Like(s, p[1..]) || (s != [] && Like(s[1..], p))
    else s != [] && (p[0] == AnyOne || s[0] == p[0]) && Like(s[1..], p[1..])
  }

  /** A trailing `%` matches every string. */
  lemma {:induction false} LikeAnyRunMatchesAll(s: string)
    ensures Like(s, [AnyRun])
  {
    if s != [] {
      LikeAnyRunMatchesAll(s[1..]);
    }
  }

  /** A leading `%` lets the rest of the pattern match any suffix. */
  lemma {:induction false} LikeLeadingAnyRun(s: string, q: string)
    ensures Like(s, [AnyRun] + q) <==> exists i :: 0 <= i <= |s| && Like(s[i..], q)
    decreases |s|
  {
    var p := [AnyRun] + q;
    assert p[0] == AnyRun && p[1..] == q;
    assert s[0..] == s;
    if s != [] {
      LikeLeadingAnyRun(s[1..], q);
      if Like(s[1..], p) {
        var i :| 0 <= i <= |s[1..]| && Like(s[1..][i..], q);
        assert s[1..][i..] == s[i + 1..];
      }
      if exists i :: 0 <= i <= |s| && Like(s[i..], q) {
        var i :| 0 <= i <= |s| && Like(s[i..], q);
        if i > 0 {
          assert s[1..][i - 1..] == s[i..];
        }
      }
    }
  }

  /** A pattern free of special characters followed by `%` matches exactly the strings it
      is a prefix of. */
  lemma {:induction false} LikeLiteralPrefix(s: string, p: string)
    requires HasNoSpecials(p)
    ensures Like(s, p + [AnyRun]) <==> IsPrefix(p, s)
    decreases |p|
  {
    if p == [] {
      assert p + [AnyRun] == [AnyRun];
      LikeAnyRunMatchesAll(s);
    } else {
      var pat := p + [AnyRun];
      assert pat[0] == p[0] && pat[1..] == p[1..] + [AnyRun];
      assert p[0] != AnyRun && p[0] != AnyOne && p[0] != Escape;
      if s != [] {
        LikeLiteralPrefix(s[1..], p[1..]);
        if IsPrefix(p, s) {
          assert s[1..][..|p| - 1] == p[1..];
        }
        if s[0] == p[0] && IsPrefix(p[1..], s[1..]) {
          assert s[..|p|] == [s[0]] + s[1..][..|p| - 1];
          assert p == [p[0]] + p[1..];
        }
      }
    }
  }

  /** The query `LIKE '%' || p || '%'` agrees with substring containment
      whenever `p` holds no special character. */
  lemma SurroundedLikeIsContains(s: string, p: string)
    requires HasNoSpecials(p)
    ensures Like(s, [AnyRun] + p + [AnyRun]) <==> Contains(s, p)
  {
    assert [AnyRun] + p + [AnyRun] == [AnyRun] + (p + [AnyRun]);
    LikeLeadingAnyRun(s, p + [AnyRun]);
    if Contains(s, p) {
      var i :| 0 <= i <= |s| && OccursAt(s, p, i);
      LikeLiteralPrefix(s[i..], p);
      assert s[i..][..|p|] == s[i..i + |p|];
    }
    if exists i :: 0 <= i <= |s| && Like(s[i..], p + [AnyRun]) {
      var i :| 0 <= i <= |s| && Like(s[i..], p + [AnyRun]);
      LikeLiteralPrefix(s[i..], p);
      if IsPrefix(p, s[i..]) {
        assert s[i..][..|p|] == s[i..i + |p|];
        assert OccursAt(s, p, i);
      }
    }
  }

  /** The decimal digits of a natural number. */
  function NatText(n: nat): string
    decreases n
  {
    var d := ['0' + (n % 10) as char];
    if n < 10 then d else NatText(n / 10) + d
  }

  /** `Long.toString`: decimal, with a leading minus sign when negative. */
  function DecimalText(n: int): string {
    if n < 0 then "-" + NatText(-n) else NatText(n)
  }
}

/** Orders and normalisation of strings.  A `char` stands for one byte of a Go string. */
module Texts {
  /** Byte-wise lexicographic order, as `sort.Strings` and SQL text comparison use it. */
  predicate LexLeq(a: string, b: string) {
    a == [] || (b != [] && (a[0] < b[0] || (a[0] == b[0] && LexLeq(a[1..], b[1..]))))
  }

  lemma {:induction false} LexReflexive(a: string)
    ensures LexLeq(a, a)
  {
    if a != [] { LexReflexive(a[1..]); }
  }

  lemma {:induction false} LexTotal(a: string, b: string)
    ensures LexLeq(a, b) || LexLeq(b, a)
  {
    if a != [] && b != [] && a[0] == b[0] { LexTotal(a[1..], b[1..]); }
  }

  lemma {:induction false} LexAntisymmetric(a: string, b: string)
    requires LexLeq(a, b) && LexLeq(b, a)
    ensures a == b
  {
    if a != [] && b != [] {
      LexAntisymmetric(a[1..], b[1..]);
      assert a == [a[0]] + a[1..] && b == [b[0]] + b[1..];
    }
  }

  lemma {:induction false} LexTransitive(a: string, b: string, c: string)
    requires LexLeq(a, b) && LexLeq(b, c)
    ensures LexLeq(a, c)
  {
    if a != [] && a[0] == b[0] == c[0] { LexTransitive(a[1..], b[1..], c[1..]); }
  }

  /** The order in terms of positions: a prefix comes first, and otherwise the first difference decides. */
  lemma {:induction false} LexIs(a: string, b: string)
    ensures LexLeq(a, b) <==> a <= b || exists i :: 0 <= i < |a| && i < |b| && a[..i] == b[..i] && a[i] < b[i]
  {
    if a != [] && b != [] {
      if a[0] == b[0] {
        LexIs(a[1..], b[1..]);
        LexOfRest(a, b);
      } else {
        assert a[..0] == b[..0];
        assert forall i :: 0 < i < |a| && i < |b| ==> a[..i][0] != b[..i][0];
      }
    }
  }

  lemma LexOfRest(a: string, b: string)
    requires a != [] && b != [] && a[0] == b[0]
    ensures a <= b <==> a[1..] <= b[1..]
    ensures (exists i :: 0 <= i < |a| && i < |b| && a[..i] == b[..i] && a[i] < b[i]) <==>
      exists i :: 0 <= i < |a[1..]| && i < |b[1..]| && a[1..][..i] == b[1..][..i] && a[1..][i] < b[1..][i]
  {
    assert a == [a[0]] + a[1..] && b == [b[0]] + b[1..];
    if i :| 0 <= i < |a| && i < |b| && a[..i] == b[..i] && a[i] < b[i] {
      assert a[1..][..i - 1] == a[..i][1..] && b[1..][..i - 1] == b[..i][1..];
      assert a[1..][i - 1] < b[1..][i - 1];
    }
    if i :| 0 <= i < |a[1..]| && i < |b[1..]| && a[1..][..i] == b[1..][..i] && a[1..][i] < b[1..][i] {
      assert a[..i + 1] == [a[0]] + a[1..][..i] && b[..i + 1] == [b[0]] + b[1..][..i];
      assert a[i + 1] < b[i + 1];
    }
  }

  predicate FreeOf(s: string, c: char) {
    forall i :: 0 <= i < |s| ==> s[i] != c
  }

  /** `strings.Contains` */
  predicate Contains(s: string, sub: string) {
    sub <= s || (s != [] && Contains(s[1..], sub))
  }

  /** Containing is occurring somewhere. */
  lemma {:induction false} ContainsIs(s: string, sub: string)
    ensures Contains(s, sub) <==> exists i :: 0 <= i <= |s| && sub <= s[i..]
  {
    assert s[0..] == s;
    if s != [] {
      ContainsIs(s[1..], sub);
      if i :| 0 <= i <= |s[1..]| && sub <= s[1..][i..] { assert s[1..][i..] == s[i + 1..]; }
      if i :| 0 <= i <= |s| && sub <= s[i..] {
        if i > 0 { assert s[1..][i - 1..] == s[i..]; }
      }
    }
  }

  function LowerChar(c: char): char {
    if 'A' <= c <= 'Z' then (c as int + 32) as char else c
  }

  function ToLower(s: string): string {
    seq(|s|, i requires 0 <= i < |s| => LowerChar(s[i]))
  }

  lemma ToLowerIdempotent(s: string)
    ensures ToLower(ToLower(s)) == ToLower(s)
  {}

  /** Capitals move to the small letters, 32 further on, and nothing else changes. */
  lemma ToLowerIs(s: string)
    ensures |ToLower(s)| == |s|
    ensures forall i :: 0 <= i < |s| ==>
      ToLower(s)[i] as int == if 'A' <= s[i] <= 'Z' then s[i] as int + 32 else s[i] as int
    ensures forall i :: 0 <= i < |s| ==> !('A' <= ToLower(s)[i] <= 'Z')
  {}

  /** `strings.ReplaceAll(s, " ", "__")` */
  function EscapeSpaces(s: string): string {
    if s == [] then []
    else (if s[0] == ' ' then "__" else [s[0]]) + EscapeSpaces(s[1..])
  }

  /** The column name that a source name is normalised to. */
  function EscapeName(name: string): string {
    EscapeSpaces(ToLower(name))
  }

  lemma Associative(a: string, b: string, c: string)
    ensures (a + b) + c == a + (b + c)
  {}

  lemma {:induction false} EscapeConcat(a: string, b: string)
    ensures EscapeSpaces(a + b) == EscapeSpaces(a) + EscapeSpaces(b)
  {
    if a == [] {
      assert a + b == b;
    } else {
      EscapeConcat(a[1..], b);
      var first := if a[0] == ' ' then "__" else [a[0]];
      assert (a + b)[0] == a[0] && (a + b)[1..] == a[1..] + b;
      Associative(first, EscapeSpaces(a[1..]), EscapeSpaces(b));
    }
  }

  /** A name in small letters without spaces stays as it is. */
  lemma {:induction false} PlainNameStays(s: string)
    requires forall c :: c in s ==> c != ' ' && !('A' <= c <= 'Z')
    ensures EscapeName(s) == s
  {
    if s != [] {
      assert forall c :: c in s[1..] ==> c in s;
      PlainNameStays(s[1..]);
      assert s[0] in s && ToLower(s) == [s[0]] + ToLower(s[1..]);
      assert ToLower(s)[1..] == ToLower(s[1..]);
    }
  }

  /** Each space becomes two underscores and each capital its small letter, wherever they stand. */
  lemma EscapeNameIs(a: string, c: char, b: string)
    ensures EscapeName(a + [c] + b) ==
      EscapeName(a) + (if c == ' ' then "__" else if 'A' <= c <= 'Z' then [(c as int + 32) as char] else [c])
        + EscapeName(b)
  {
    assert ToLower(a + [c] + b) == ToLower(a) + ToLower([c]) + ToLower(b);
    EscapeConcat(ToLower(a) + ToLower([c]), ToLower(b));
    EscapeConcat(ToLower(a), ToLower([c]));
    assert ToLower([c]) == [LowerChar(c)] && EscapeSpaces([]) == [];
    assert [LowerChar(c)][1..] == [];
  }
}

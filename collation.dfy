/** SQLite's NOCASE collation, the order of `ORDER BY username COLLATE NOCASE`.
    The 26 ASCII upper-case letters are folded to lower case. The folded
    UTF-8 texts are then compared byte by byte over their common length.
    That scan also stops, with a tie, where both texts hold a NUL byte
    (U+0000) at the same place. When the scan ends in a tie, the text with
    fewer bytes sorts first. */
module Collation {

  /** Folds an ASCII upper-case letter to its lower-case letter; any other
      character (including non-ASCII letters) is kept as it is. */
  function FoldChar(c: char): (d: char)
    ensures !('A' <= d <= 'Z')
    ensures 'a' <= d <= 'z' ==> d == c || d as int == c as int + 32
    ensures d == '\0' <==> c == '\0'
  {
    if 'A' <= c <= 'Z' then (c as int + 32) as char else c
  }

  function Fold(s: string): (r: string)
    ensures |r| == |s|
    ensures forall i :: 0 <= i < |r| ==> !('A' <= r[i] <= 'Z')
    ensures '\0' in r <==> '\0' in s
  {
    var r := seq(|s|, i requires 0 <= i < |s| => FoldChar(s[i]));
    assert '\0' in r ==> '\0' in s by {
      if '\0' in r {
        var i :| 0 <= i < |r| && r[i] == '\0';
        assert s[i] == '\0';
      }
    }
    assert '\0' in s ==> '\0' in r by {
      if '\0' in s {
        var i :| 0 <= i < |s| && s[i] == '\0';
        assert r[i] == '\0';
      }
    }
    r
  }

  /** The number of bytes of the UTF-8 encoding of `c`. */
  function Utf8Width(c: char): (n: nat)
    ensures 1 <= n <= 4
    ensures n == 1 <==> c as int < 0x80
  {
    if c as int < 0x80 then 1
    else if c as int < 0x800 then 2
    else if c as int < 0x1_0000 then 3
    else 4
  }

  /** The number of bytes of the UTF-8 encoding of `s`: the key length that
      SQLite compares after a tie. */
  function Utf8Length(s: string): (n: nat)
    ensures |s| <= n <= 4 * |s|
  {
    if s == [] then 0 else Utf8Width(s[0]) + Utf8Length(s[1..])
  }

  /** `a` sorts no later than `b`, both already folded. Characters are
      compared in order; code point order is the order of their UTF-8 bytes.
      The comparison is settled by byte length when one text runs out or when
      both reach U+0000 at the same place (what follows that NUL is not looked
      at). Comparing the lengths of the remaining parts gives the same result
      as comparing whole lengths, because the parts already read are equal. */
  predicate LexLe(a: string, b: string)
  {
    if |a| == 0 || |b| == 0 || (a[0] == '\0' && b[0] == '\0') then
      Utf8Length(a) <= Utf8Length(b)
    else
      a[0] < b[0] || (a[0] == b[0] && LexLe(a[1..], b[1..]))
  }

  /** The NOCASE order on usernames. */
  predicate NoCaseLe(a: string, b: string)
  {
    LexLe(Fold(a), Fold(b))
  }

  lemma {:induction false} LexLeTotal(a: string, b: string)
    ensures LexLe(a, b) || LexLe(b, a)
  {
    if |a| > 0 && |b| > 0 && !(a[0] == '\0' && b[0] == '\0') && a[0] == b[0] {
      LexLeTotal(a[1..], b[1..]);
    }
  }

  lemma {:induction false} LexLeTransitive(a: string, b: string, c: string)
    requires LexLe(a, b) && LexLe(b, c)
    ensures LexLe(a, c)
  {
    if |a| > 0 && |b| > 0 && |c| > 0 && a[0] == b[0] == c[0] && a[0] != '\0' {
      LexLeTransitive(a[1..], b[1..], c[1..]);
    }
  }

  /** Without NUL characters, two texts tie only when they are equal. */
  lemma {:induction false} LexLeAntisymmetric(a: string, b: string)
    requires '\0' !in a && '\0' !in b
    requires LexLe(a, b) && LexLe(b, a)
    ensures a == b
  {
    if |a| > 0 && |b| > 0 {
      assert a[0] != '\0' && b[0] != '\0';
      LexLeAntisymmetric(a[1..], b[1..]);
      assert a == [a[0]] + a[1..] && b == [b[0]] + b[1..];
    }
  }

  lemma {:induction false} LexLeReflexive(a: string)
    ensures LexLe(a, a)
  {
    if |a| > 0 && a[0] != '\0' {
      LexLeReflexive(a[1..]);
    }
  }

  /** Any two usernames are comparable. */
  lemma NoCaseTotal(a: string, b: string)
    ensures NoCaseLe(a, b) || NoCaseLe(b, a)
  {
    LexLeTotal(Fold(a), Fold(b));
  }

  lemma NoCaseTransitive(a: string, b: string, c: string)
    requires NoCaseLe(a, b) && NoCaseLe(b, c)
    ensures NoCaseLe(a, c)
  {
    LexLeTransitive(Fold(a), Fold(b), Fold(c));
  }

  /** Names that are equal after folding ASCII case ("Bob" and "bob") tie.
      For names without U+0000 these are the only ties. The collation
      therefore does not fix the relative order of such names. */
  lemma NoCaseTie(a: string, b: string)
    ensures Fold(a) == Fold(b) ==> NoCaseLe(a, b) && NoCaseLe(b, a)
    ensures '\0' !in a && '\0' !in b ==>
      (NoCaseLe(a, b) && NoCaseLe(b, a) <==> Fold(a) == Fold(b))
  {
    LexLeReflexive(Fold(a));
    if '\0' !in a && '\0' !in b && NoCaseLe(a, b) && NoCaseLe(b, a) {
      LexLeAntisymmetric(Fold(a), Fold(b));
    }
  }

  /** Folding works character by character. */
  lemma FoldAppend(x: string, y: string)
    ensures Fold(x + y) == Fold(x) + Fold(y)
  {
  }

  /** Folding keeps the UTF-8 byte length: it only maps ASCII letters to
      ASCII letters. */
  lemma {:induction false} FoldKeepsUtf8Length(x: string)
    ensures Utf8Length(Fold(x)) == Utf8Length(x)
  {
    if x != [] {
      assert Fold(x)[1..] == Fold(x[1..]);
      FoldKeepsUtf8Length(x[1..]);
    }
  }

  /** Behind a common NUL-free prefix, a NUL reached by both texts settles
      the comparison by the byte length of what is left. */
  lemma {:induction false} LexLeAfterNul(p: string, x: string, y: string)
    requires '\0' !in p
    ensures LexLe(p + ['\0'] + x, p + ['\0'] + y) <==>
      Utf8Length(['\0'] + x) <= Utf8Length(['\0'] + y)
  {
    if p != [] {
      assert (p + ['\0'] + x)[1..] == p[1..] + ['\0'] + x;
      assert (p + ['\0'] + y)[1..] == p[1..] + ['\0'] + y;
      LexLeAfterNul(p[1..], x, y);
    }
  }

  /** After a NUL that both names reach at the same place, only the byte
      length of the rest counts, whatever characters it holds. */
  lemma NulEndsComparisonLaw(p: string, x: string, y: string)
    requires '\0' !in p
    ensures NoCaseLe(p + ['\0'] + x, p + ['\0'] + y) <==> Utf8Length(x) <= Utf8Length(y)
  {
    FoldAppend(p + ['\0'], x);
    FoldAppend(p + ['\0'], y);
    FoldAppend(p, ['\0']);
    assert Fold(['\0']) == ['\0'];
    assert '\0' !in Fold(p);
    LexLeAfterNul(Fold(p), Fold(x), Fold(y));
    assert (['\0'] + Fold(x))[1..] == Fold(x);
    assert (['\0'] + Fold(y))[1..] == Fold(y);
    FoldKeepsUtf8Length(x);
    FoldKeepsUtf8Length(y);
  }

  /** An instance of the law above: "x\0z" (3 bytes) sorts before "x\0ab"
      (4 bytes), although 'z' sorts after 'a'. */
  lemma NulEndsComparison()
    ensures NoCaseLe("x\0z", "x\0ab") && !NoCaseLe("x\0ab", "x\0z")
  {
  }
}

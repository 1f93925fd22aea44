/** The JavaScript string operations the core relies on: `toLowerCase` (restricted to ASCII
    letters), `includes`, and the `<` ordering that `Array.prototype.sort` uses by default. */
module Text {

  predicate IsUpper(c: char) { 'A' <= c <= 'Z' }

  function LowerChar(c: char): char
  {
    if IsUpper(c) then (c as int + 32) as char else c
  }

  /** `s.toLowerCase()` on ASCII letters: every upper-case letter is folded, every other
      character is kept. */
  function Lower(s: string): (r: string)
    ensures |r| == |s|
    ensures forall i :: 0 <= i < |r| ==> !IsUpper(r[i])
  {
    seq(|s|, i requires 0 <= i < |s| => LowerChar(s[i]))
  }

  /** Folding case twice is folding it once. */
  lemma LowerIdempotent(s: string)
    ensures Lower(Lower(s)) == Lower(s)
  {
  }

  /** Lower distributes over concatenation. */
  lemma LowerConcat(a: string, b: string)
    ensures Lower(a + b) == Lower(a) + Lower(b)
  {
  }

  /** A text with no upper-case letter is its own lower-case form. */
  lemma LowerWithoutUpper(s: string)
    requires forall i :: 0 <= i < |s| ==> !IsUpper(s[i])
    ensures Lower(s) == s
  {
  }

  /** k occurs in s starting at index i. */
  predicate OccursAt(s: string, k: string, i: int)
  {
    0 <= i <= |s| - |k| && s[i..i + |k|] == k
  }

  /** `s.includes(k)`: k occurs in s at some position. Only a k no longer than s can
      occur, and a text contains what it starts with, so the empty string is in every text. */
  predicate Contains(s: string, k: string)
    ensures Contains(s, k) ==> |k| <= |s|
    ensures |k| <= |s| && s[..|k|] == k ==> Contains(s, k)
  {
    PrefixOccurs(s, k);
    exists i | 0 <= i <= |s| - |k| :: OccursAt(s, k, i)
  }

  lemma PrefixOccurs(s: string, k: string)
    ensures |k| <= |s| && s[..|k|] == k ==> OccursAt(s, k, 0)
  {
  }

  /** An occurrence at a known index proves `Contains`. */
  lemma ContainsAt(s: string, k: string, i: int)
    requires 0 <= i <= |s| - |k| && s[i..i + |k|] == k
    ensures Contains(s, k)
  {
    assert OccursAt(s, k, i);
  }

  /** A character of k that s lacks rules out every occurrence of k. */
  lemma MissingChar(s: string, k: string, j: int)
    requires 0 <= j < |k| && k[j] !in s
    ensures !Contains(s, k)
  {
  }

  /** An occurrence of k that straddles the seam of x + y would contain y[0]; when k lacks
      that character, k occurs in x + y only if it occurs in x or in y. */
  lemma NotAcrossSeam(x: string, y: string, k: string)
    requires !Contains(x, k) && !Contains(y, k)
    requires |y| > 0 && y[0] !in k
    ensures !Contains(x + y, k)
  {
    var s := x + y;
    forall i | 0 <= i <= |s| - |k|
      ensures !OccursAt(s, k, i)
    {
      if i + |k| <= |x| {
        assert s[i..i + |k|] == x[i..i + |k|];
        assert !OccursAt(x, k, i);
      } else if |x| <= i {
        assert s[i..i + |k|] == y[i - |x|..i - |x| + |k|];
        assert !OccursAt(y, k, i - |x|);
      } else {
        assert s[i..i + |k|][|x| - i] == y[0];
        assert k[|x| - i] != y[0];
      }
    }
  }

  /** The pieces of ws written one after another. */
  function Concat(ws: seq<string>): string
  {
    if ws == [] then [] else ws[0] + Concat(ws[1..])
  }

  /** Lower-casing a text piece by piece. */
  lemma {:induction false} LowerConcatAll(ws: seq<string>)
    ensures Lower(Concat(ws)) == Concat(seq(|ws|, i requires 0 <= i < |ws| => Lower(ws[i])))
  {
    if ws != [] {
      LowerConcatAll(ws[1..]);
      LowerConcat(ws[0], Concat(ws[1..]));
      var lowered := seq(|ws|, i requires 0 <= i < |ws| => Lower(ws[i]));
      assert lowered[1..] == seq(|ws| - 1, i requires 0 <= i < |ws| - 1 => Lower(ws[1..][i]));
    }
  }

  /** JavaScript's `a < b` on strings: lexicographic on characters, a proper prefix first.
      No string is below itself. */
  predicate Below(a: string, b: string)
    ensures a < b ==> Below(a, b)
    ensures Below(a, b) ==> a != b
    decreases |a|
  {
    if a == [] then b != []
    else if b == [] then false
    else if a[0] != b[0] then a[0] < b[0]
    else Below(a[1..], b[1..])
  }

  lemma {:induction false} BelowTransitive(a: string, b: string, c: string)
    requires Below(a, b) && Below(b, c)
    ensures Below(a, c)
    decreases |a|
  {
    if a != [] && a[0] == b[0] && b[0] == c[0] {
      BelowTransitive(a[1..], b[1..], c[1..]);
    }
  }

  lemma {:induction false} BelowTotal(a: string, b: string)
    ensures a == b || Below(a, b) || Below(b, a)
    decreases |a|
  {
    if a != [] && b != [] && a[0] == b[0] {
      BelowTotal(a[1..], b[1..]);
      if a[1..] == b[1..] {
        assert a == [a[0]] + a[1..] && b == [b[0]] + b[1..];
      }
    }
  }
}

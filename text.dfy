/** String operations the task list relies on: JavaScript's String.prototype.trim,
    which addTodo applies to the input field, and the relational `>` on strings,
    which the due-date sort key applies. Strings are sequences of characters. */
module Text {

  /** The characters String.prototype.trim strips from both ends: the WhiteSpace
      and LineTerminator code points of ECMA-262 (tab, vertical tab, form feed,
      no-break space, the byte order mark, every space separator, line feed,
      carriage return, line separator and paragraph separator). */
  predicate IsWhitespace(c: char) {
    || c == '\t' || c == '\n' || c == '\U{000B}' || c == '\U{000C}' || c == '\r'
    || c == ' ' || c == '\U{00A0}' || c == '\U{1680}'
    || ('\U{2000}' <= c <= '\U{200A}')
    || c == '\U{2028}' || c == '\U{2029}' || c == '\U{202F}' || c == '\U{205F}'
    || c == '\U{3000}' || c == '\U{FEFF}'
  }

  predicate AllWhitespace(s: string) {
    forall i :: 0 <= i < |s| ==> IsWhitespace(s[i])
  }

  /** A string trim leaves alone: empty, or starting and ending with a non-blank character. */
  predicate IsTrimmed(s: string) {
    s == [] || (!IsWhitespace(s[0]) && !IsWhitespace(s[|s| - 1]))
  }

  /** How many blanks the string starts with. */
  function LeadingBlanks(s: string): (n: nat)
    ensures n <= |s|
    ensures forall i :: 0 <= i < n ==> IsWhitespace(s[i])
    ensures n < |s| ==> !IsWhitespace(s[n])
  {
    if s != [] && IsWhitespace(s[0]) then
      var m := LeadingBlanks(s[1..]);
      assert forall i :: 0 < i <= m ==> s[i] == s[1..][i - 1];
      1 + m
    else
      0
  }

  /** How many blanks the string ends with. */
  function TrailingBlanks(s: string): (n: nat)
    ensures n <= |s|
    ensures forall i :: |s| - n <= i < |s| ==> IsWhitespace(s[i])
    ensures n < |s| ==> !IsWhitespace(s[|s| - n - 1])
  {
    if s != [] && IsWhitespace(s[|s| - 1]) then 1 + TrailingBlanks(s[..|s| - 1]) else 0
  }

  /** String.prototype.trim: the result has no blank at either end, and it is
      empty exactly when the input is blank throughout. */
  function Trim(s: string): (r: string)
    ensures |r| <= |s|
    ensures IsTrimmed(r)
    ensures r == [] <==> AllWhitespace(s)
  {
    var a := LeadingBlanks(s);
    if a == |s| then []
    else
      var b := TrailingBlanks(s);
      assert a < |s| - b;
      s[a..|s| - b]
  }

  /** `s` is `core` with the blanks `pre` in front and the blanks `post` behind. */
  predicate IsBlankPadded(s: string, core: string, pre: string, post: string) {
    AllWhitespace(pre) && AllWhitespace(post) && s == pre + core + post
  }

  /** Trim removes blank padding and nothing else. */
  lemma TrimSplits(s: string)
    ensures exists pre, post :: IsBlankPadded(s, Trim(s), pre, post)
  {
    var a := LeadingBlanks(s);
    if a == |s| {
      assert s == s + [] + [];
      assert IsBlankPadded(s, Trim(s), s, []);
    } else {
      var b := TrailingBlanks(s);
      var pre, r, post := s[..a], s[a..|s| - b], s[|s| - b..];
      assert AllWhitespace(pre) by {
        forall k | 0 <= k < |pre| ensures IsWhitespace(pre[k]) {
          assert pre[k] == s[k];
        }
      }
      assert AllWhitespace(post) by {
        forall k | 0 <= k < |post| ensures IsWhitespace(post[k]) {
          assert post[k] == s[|s| - b + k];
        }
      }
      SplitThree(s, a, |s| - b);
      assert IsBlankPadded(s, Trim(s), pre, post);
    }
  }

  lemma SplitThree(s: string, i: nat, j: nat)
    requires i <= j <= |s|
    ensures s == s[..i] + s[i..j] + s[j..]
  {
    assert s[..j] == s[..i] + s[i..j];
    assert s == s[..j] + s[j..];
  }

  /** Trimming twice is trimming once. */
  lemma TrimIdempotent(s: string)
    ensures Trim(Trim(s)) == Trim(s)
  {
    TrimOfTrimmed(Trim(s));
  }

  /** A string with no blank at either end is its own trim. */
  lemma TrimOfTrimmed(s: string)
    requires IsTrimmed(s)
    ensures Trim(s) == s
  {
    if s != [] {
      assert LeadingBlanks(s) == 0 && TrailingBlanks(s) == 0;
      assert s[0..|s|] == s;
    }
  }

  /** The ordering JavaScript's `<` gives two strings: lexicographic, a proper
      prefix coming first. Characters compare by their code point. */
  predicate StrLess(a: string, b: string)
    ensures a < b ==> StrLess(a, b)
    ensures b < a ==> !StrLess(a, b)
  {
    if a == [] then b != []
    else if b == [] then false
    else if a[0] != b[0] then a[0] < b[0]
    else StrLess(a[1..], b[1..])
  }

  lemma {:induction false} StrLessIrreflexive(a: string)
    ensures !StrLess(a, a)
  {
    if a != [] {
      StrLessIrreflexive(a[1..]);
    }
  }

  /** StrLess is a strict total order: any two different strings are ordered one way... */
  lemma {:induction false} StrLessTotal(a: string, b: string)
    requires a != b
    ensures StrLess(a, b) || StrLess(b, a)
  {
    if a != [] && b != [] && a[0] == b[0] {
      assert a == [a[0]] + a[1..] && b == [b[0]] + b[1..];
      StrLessTotal(a[1..], b[1..]);
    }
  }

  /** ...and never both ways... */
  lemma {:induction false} StrLessAsymmetric(a: string, b: string)
    requires StrLess(a, b)
    ensures !StrLess(b, a)
  {
    if a != [] && b != [] && a[0] == b[0] {
      StrLessAsymmetric(a[1..], b[1..]);
    }
  }

  /** Two strings are equal or ordered one way, and exactly one of these holds. */
  lemma StrLessTrichotomy(a: string, b: string)
    ensures a == b || StrLess(a, b) || StrLess(b, a)
    ensures a == b ==> !StrLess(a, b) && !StrLess(b, a)
    ensures !(StrLess(a, b) && StrLess(b, a))
  {
    if a == b {
      StrLessIrreflexive(a);
    } else {
      StrLessTotal(a, b);
      if StrLess(a, b) {
        StrLessAsymmetric(a, b);
      } else {
        StrLessAsymmetric(b, a);
      }
    }
  }

  /** ...and transitively. */
  lemma {:induction false} StrLessTransitive(a: string, b: string, c: string)
    requires StrLess(a, b) && StrLess(b, c)
    ensures StrLess(a, c)
  {
    if a != [] && a[0] == b[0] && b[0] == c[0] {
      StrLessTransitive(a[1..], b[1..], c[1..]);
    }
  }
}

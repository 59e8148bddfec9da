/**
  The string rewrite applied to a formula before it is parsed: every caret
  `^` (the power sign users type) becomes Python's power operator `**`.
 */
module Caret {

  /** Number of occurrences of `c` in `s`. */
  function Count(s: string, c: char): nat
  {
    if |s| == 0 then 0 else (if s[0] == c then 1 else 0) + Count(s[1..], c)
  }

  /** The characters of `s` other than `^` and `*`, in order. */
  function Plain(s: string): string
  {
    if |s| == 0 then ""
    else (if s[0] == '^' || s[0] == '*' then "" else [s[0]]) + Plain(s[1..])
  }

  /** What one input character becomes under the rewrite. */
  function Expand(c: char): string
  {
    if c == '^' then "**" else [c]
  }

  /**
    Every caret replaced by two stars: no caret survives, each caret adds one character,
    each caret contributes two stars, and every other character is kept in order.
   */
  function ReplaceCaret(s: string): (r: string)
    ensures '^' !in r
    ensures |r| == |s| + Count(s, '^')
    ensures Count(r, '*') == Count(s, '*') + 2 * Count(s, '^')
    ensures Plain(r) == Plain(s)
  {
    if |s| == 0 then ""
    else
      var rest := ReplaceCaret(s[1..]);
      CountAppend(Expand(s[0]), rest, '*');
      CountAppend(Expand(s[0]), rest, '^');
      PlainAppend(Expand(s[0]), rest);
      Expand(s[0]) + rest
  }

  lemma {:induction false} CountAppend(a: string, b: string, c: char)
    ensures Count(a + b, c) == Count(a, c) + Count(b, c)
  {
    if |a| > 0 {
      assert (a + b)[1..] == a[1..] + b;
      CountAppend(a[1..], b, c);
    } else {
      assert a + b == b;
    }
  }

  lemma {:induction false} PlainAppend(a: string, b: string)
    ensures Plain(a + b) == Plain(a) + Plain(b)
  {
    if |a| > 0 {
      assert (a + b)[1..] == a[1..] + b;
      PlainAppend(a[1..], b);
    } else {
      assert a + b == b;
    }
  }

  /** The rewrite works character by character, so it distributes over concatenation. */
  lemma {:induction false} ReplaceCaretAppend(a: string, b: string)
    ensures ReplaceCaret(a + b) == ReplaceCaret(a) + ReplaceCaret(b)
  {
    if |a| > 0 {
      assert (a + b)[1..] == a[1..] + b;
      ReplaceCaretAppend(a[1..], b);
    } else {
      assert a + b == b;
    }
  }

  /** A formula without a caret is left exactly as it is, and only such a formula is. */
  lemma {:induction false} ReplaceCaretFixedPoint(s: string)
    ensures ReplaceCaret(s) == s <==> '^' !in s
  {
    if |s| > 0 {
      ReplaceCaretFixedPoint(s[1..]);
      if s[0] == '^' {
        assert '^' in s;
        assert |ReplaceCaret(s)| > |s|;
      } else {
        assert ReplaceCaret(s) == [s[0]] + ReplaceCaret(s[1..]);
        assert '^' in s <==> '^' in s[1..];
        if ReplaceCaret(s[1..]) == s[1..] {
          assert [s[0]] + s[1..] == s;
        } else {
          assert ReplaceCaret(s) != s by {
            assert ReplaceCaret(s)[1..] == ReplaceCaret(s[1..]);
          }
        }
      }
    }
  }

  /** Applying the rewrite twice gives the same formula as applying it once. */
  lemma ReplaceCaretIdempotent(s: string)
    ensures ReplaceCaret(ReplaceCaret(s)) == ReplaceCaret(s)
  {
    ReplaceCaretFixedPoint(ReplaceCaret(s));
  }

  /**
    Position by position: the character at index `i` of the input lands at index
    `i + Count(s[..i], '^')` of the output, unchanged unless it was a caret, which
    becomes the two characters `**` there.
   */
  lemma {:induction false} ReplaceCaretPositions(s: string, i: nat)
    requires i < |s|
    ensures i + Count(s[..i], '^') + |Expand(s[i])| <= |ReplaceCaret(s)|
    ensures s[i] != '^' ==> ReplaceCaret(s)[i + Count(s[..i], '^')] == s[i]
    ensures s[i] == '^' ==>
      ReplaceCaret(s)[i + Count(s[..i], '^')] == '*' && ReplaceCaret(s)[i + Count(s[..i], '^') + 1] == '*'
  {
    assert s == s[..i] + [s[i]] + s[i + 1..];
    ReplaceCaretAppend(s[..i] + [s[i]], s[i + 1..]);
    ReplaceCaretAppend(s[..i], [s[i]]);
    assert ReplaceCaret([s[i]]) == Expand(s[i]) by {
      assert [s[i]][1..] == "";
    }
    var pre := ReplaceCaret(s[..i]);
    assert |pre| == i + Count(s[..i], '^');
    assert ReplaceCaret(s) == pre + Expand(s[i]) + ReplaceCaret(s[i + 1..]);
  }

  /** Extending the input prefix by one character extends the output by that character's replacement. */
  lemma ReplaceCaretPrefix(s: string, i: nat)
    requires i < |s|
    ensures ReplaceCaret(s[..i + 1]) == ReplaceCaret(s[..i]) + Expand(s[i])
  {
    assert s[..i + 1] == s[..i] + [s[i]];
    ReplaceCaretAppend(s[..i], [s[i]]);
    ReplaceCaretSingle(s[i]);
  }

  /** A one-character formula is rewritten to that character's replacement. */
  lemma ReplaceCaretSingle(c: char)
    ensures ReplaceCaret([c]) == Expand(c)
  {
    assert [c][1..] == "";
  }

  /**
    A reference implementation of the library's replace-all: scan left to
    right and append each character's replacement to the output.
   */
  method ReplaceCaretLoop(s: string) returns (r: string)
    ensures r == ReplaceCaret(s)
    ensures '^' !in r && |r| == |s| + Count(s, '^')
  {
    r := "";
    var i := 0;
    while i < |s|
      invariant 0 <= i <= |s|
      invariant r == ReplaceCaret(s[..i])
    {
      ReplaceCaretPrefix(s, i);
      r := r + Expand(s[i]);
      i := i + 1;
    }
    assert s[..i] == s;
  }
}

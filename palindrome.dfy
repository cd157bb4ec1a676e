/**
 * Palindrome test over a double-ended queue: keep the alphanumeric characters
 * of the input, lower-cased and in order, then repeatedly take one character
 * from each end and compare them until at most one character is left.
 */
module Palindrome {
  import Sequences

  /**
   * How characters are classified and folded.  Python's `str.isalnum` and
   * `str.lower` follow the Unicode tables; the model takes both as parameters.
   */
  datatype Folding = Folding(alnum: char -> bool, lower: char -> char)

  /** The characters the deque starts with: the alphanumeric ones of `s`, lower-cased, in their order. */
  function Filtered(s: string, f: Folding): (r: string)
    ensures |r| <= |s|
  {
    if s == [] then []
    else
      var rest := Filtered(s[1..], f);
      (if f.alnum(s[0]) then [f.lower(s[0])] else []) + rest
  }

  /** What the test decides: the filtered characters read the same in both directions. */
  ghost predicate ReadsSameBothWays(s: string, f: Folding) {
    Filtered(s, f) == Sequences.Reverse(Filtered(s, f))
  }

  /** Position `t` of `s` holds the same character as its mirror position. */
  ghost predicate Mirrored(s: string, t: int)
    requires 0 <= t < |s|
  {
    s[t] == s[|s| - 1 - t]
  }

  /**
   * The deque loop: while more than one character remains, pop the left end
   * and the right end and answer false as soon as they differ.
   */
  method IsPalindrome(s: string, f: Folding) returns (r: bool)
    ensures r <==> ReadsSameBothWays(s, f)
  {
    var d := Filtered(s, f);
    ghost var full := d;
    EndsMatchIffReversed(full);
    while |d| > 1
      invariant EndsMatch(d) == EndsMatch(full)
      decreases |d|
    {
      var front, back := d[0], d[|d| - 1];
      d := d[1..|d| - 1];
      if front != back {
        return false;
      }
    }
    return true;
  }

  /** A mismatched pair of mirror positions means the sequence differs from its reverse. */
  lemma MismatchNotReversed(s: string, k: nat)
    requires k < |s| && s[k] != s[|s| - 1 - k]
    ensures s != Sequences.Reverse(s)
  {
    assert s[k] != Sequences.Reverse(s)[k];
  }

  /** When every position up to the middle is mirrored, the sequence is its own reverse. */
  lemma MirroredReversed(s: string, k: nat)
    requires 2 * k <= |s| <= 2 * k + 1
    requires forall t | 0 <= t < k :: Mirrored(s, t)
    ensures s == Sequences.Reverse(s)
  {
    var r := Sequences.Reverse(s);
    forall t | 0 <= t < |s|
      ensures s[t] == r[t]
    {
      var u := |s| - 1 - t;
      assert r[t] == s[u];
      if t < k {
        assert Mirrored(s, t);
      } else if u < k {
        assert Mirrored(s, u) && |s| - 1 - u == t;
      } else {
        assert u == t;
      }
    }
  }

  /** Filtering works character by character, so it distributes over concatenation. */
  lemma {:induction false} FilteredAppend(a: string, b: string, f: Folding)
    ensures Filtered(a + b, f) == Filtered(a, f) + Filtered(b, f)
    decreases |a|
  {
    if a == [] {
      assert a + b == b;
    } else {
      assert (a + b)[1..] == a[1..] + b;
      FilteredAppend(a[1..], b, f);
    }
  }

  /** A character that is not alphanumeric is ignored wherever it stands. */
  lemma IgnoresOthers(a: string, c: char, b: string, f: Folding)
    requires !f.alnum(c)
    ensures Filtered(a + [c] + b, f) == Filtered(a + b, f)
    ensures ReadsSameBothWays(a + [c] + b, f) <==> ReadsSameBothWays(a + b, f)
  {
    FilteredAppend(a + [c], b, f);
    FilteredAppend(a, [c], f);
    FilteredAppend(a, b, f);
    assert [c][1..] == [];
  }

  /** Two alphanumeric characters with the same lower-case form are interchangeable, so case is ignored. */
  lemma IgnoresCase(a: string, c: char, c': char, b: string, f: Folding)
    requires f.alnum(c) && f.alnum(c') && f.lower(c) == f.lower(c')
    ensures Filtered(a + [c] + b, f) == Filtered(a + [c'] + b, f)
  {
    FilteredAppend(a + [c], b, f);
    FilteredAppend(a, [c], f);
    FilteredAppend(a + [c'], b, f);
    FilteredAppend(a, [c'], f);
    assert [c][1..] == [] && [c'][1..] == [];
  }

  /** Comparing the two ends and recursing on the middle: the reference the deque loop follows. */
  ghost predicate EndsMatch(d: string)
    decreases |d|
  {
    |d| <= 1 || (d[0] == d[|d| - 1] && EndsMatch(d[1..|d| - 1]))
  }

  /** Matching ends all the way in is the same as every position up to the middle being mirrored. */
  lemma {:induction false} EndsMatchIffMirrored(d: string)
    ensures EndsMatch(d) <==> forall t | 0 <= t < |d| / 2 :: Mirrored(d, t)
    decreases |d|
  {
    if |d| > 1 {
      var m := d[1..|d| - 1];
      EndsMatchIffMirrored(m);
      if forall t | 0 <= t < |d| / 2 :: Mirrored(d, t) {
        forall u | 0 <= u < |m| / 2
          ensures Mirrored(m, u)
        {
          MirroredInner(d, u);
        }
      }
      if EndsMatch(d) {
        forall t | 0 < t < |d| / 2
          ensures Mirrored(d, t)
        {
          MirroredInner(d, t - 1);
        }
      }
      assert Mirrored(d, 0) == (d[0] == d[|d| - 1]);
    }
  }

  /** A position of the middle part is mirrored exactly when the next position out is. */
  lemma MirroredInner(d: string, u: nat)
    requires 2 * u + 2 < |d|
    ensures Mirrored(d[1..|d| - 1], u) == Mirrored(d, u + 1)
  {
    var m := d[1..|d| - 1];
    assert m[u] == d[u + 1] && m[|m| - 1 - u] == d[|d| - 1 - (u + 1)];
  }

  /** Matching ends all the way in is the same as reading the same reversed. */
  lemma EndsMatchIffReversed(d: string)
    ensures EndsMatch(d) <==> d == Sequences.Reverse(d)
  {
    EndsMatchIffMirrored(d);
    if EndsMatch(d) {
      MirroredReversed(d, |d| / 2);
    } else {
      var t :| 0 <= t < |d| / 2 && !Mirrored(d, t);
      MismatchNotReversed(d, t);
    }
  }

  /** With at most one alphanumeric character, every string is a palindrome. */
  lemma ShortIsPalindrome(s: string, f: Folding)
    requires |Filtered(s, f)| <= 1
    ensures ReadsSameBothWays(s, f)
  {
    MirroredReversed(Filtered(s, f), 0);
  }

  /** ASCII letters and digits. */
  predicate AsciiAlnum(c: char) {
    'a' <= c <= 'z' || 'A' <= c <= 'Z' || '0' <= c <= '9'
  }

  /** ASCII lower-casing; other characters are left as they are. */
  function AsciiLower(c: char): (r: char)
    ensures 'A' <= c <= 'Z' ==> 'a' <= r <= 'z'
    ensures !('A' <= c <= 'Z') ==> r == c
  {
    if 'A' <= c <= 'Z' then (c as int + 32) as char else c
  }

  /** The folding of ASCII text. */
  const Ascii := Folding(AsciiAlnum, AsciiLower)

  /** One step of filtering ASCII text. */
  lemma AsciiCons(c: char, s: string)
    ensures Filtered([c] + s, Ascii) == (if AsciiAlnum(c) then [AsciiLower(c)] else []) + Filtered(s, Ascii)
  {
    assert ([c] + s)[1..] == s;
  }

  /** `w` holds only lower-case ASCII letters and digits. */
  predicate PlainWord(w: string) {
    w == [] || (('a' <= w[0] <= 'z' || '0' <= w[0] <= '9') && PlainWord(w[1..]))
  }

  /** A word of lower-case ASCII letters and digits passes through the filter unchanged. */
  lemma {:induction false} AsciiWord(w: string)
    requires PlainWord(w)
    ensures Filtered(w, Ascii) == w
    decreases |w|
  {
    if w != [] {
      AsciiCons(w[0], w[1..]);
      AsciiWord(w[1..]);
      assert [w[0]] + w[1..] == w;
    }
  }

  /** A blank before a word is dropped. */
  lemma SpacedWord(w: string)
    requires PlainWord(w)
    ensures Filtered(" " + w, Ascii) == w
  {
    AsciiCons(' ', w);
    AsciiWord(w);
  }

  /** The module's number example is a palindrome. */
  lemma NumberExample()
    ensures ReadsSameBothWays("12321", Ascii)
  {
    var w := "12321";
    AsciiWord(w);
    assert Mirrored(w, 0) && Mirrored(w, 1);
    MirroredReversed(w, 2);
  }

  /** The module's sentence example is a palindrome once blanks and case are ignored. */
  lemma SentenceExample()
    ensures ReadsSameBothWays("Step on no pets", Ascii)
  {
    SentenceFiltered();
    var w := "steponnopets";
    assert Mirrored(w, 0) && Mirrored(w, 1) && Mirrored(w, 2);
    assert Mirrored(w, 3) && Mirrored(w, 4) && Mirrored(w, 5);
    MirroredReversed(w, 6);
  }

  /** The module's word example is not a palindrome. */
  lemma WordExample()
    ensures !ReadsSameBothWays("palindrome", Ascii)
  {
    var mid := "alindrom";
    assert "palindrome" == "p" + mid + "e";
    FilteredAppend("p" + mid, "e", Ascii);
    FilteredAppend("p", mid, Ascii);
    AsciiCons('p', "");
    AsciiCons('e', "");
    assert ['p'] + "" == "p" && ['e'] + "" == "e";
    var r := Filtered("palindrome", Ascii);
    assert r == "p" + Filtered(mid, Ascii) + "e";
    MismatchNotReversed(r, 0);
  }

  /** The sentence example keeps its twelve letters, lower-cased. */
  lemma SentenceFiltered()
    ensures Filtered("Step on no pets", Ascii) == "steponnopets"
  {
    assert "Step on no pets" == "Step" + " on no pets";
    FilteredAppend("Step", " on no pets", Ascii);
    CapitalWord();
    SpacedWords();
    assert "step" + "onnopets" == "steponnopets";
  }

  /** The capital letter of the sentence is lower-cased. */
  lemma CapitalWord()
    ensures Filtered("Step", Ascii) == "step"
  {
    AsciiCons('S', "tep");
    AsciiWord("tep");
    assert "Step" == ['S'] + "tep";
  }

  /** The blanks of the sentence are dropped. */
  lemma SpacedWords()
    ensures Filtered(" on no pets", Ascii) == "onnopets"
  {
    assert " on no pets" == " on" + (" no" + " pets");
    FilteredAppend(" on", " no" + " pets", Ascii);
    FilteredAppend(" no", " pets", Ascii);
    SpacedWord("on");
    SpacedWord("no");
    SpacedWord("pets");
    assert "on" + "no" + "pets" == "onnopets";
  }
}

/**
 * The integer-list readers of the command-line front ends.  A line is blank
 * when it holds only whitespace, and then reads as the empty list; otherwise
 * it is cut into tokens at commas and whitespace, and every token must be a
 * decimal integer with an optional sign, else the token is reported.
 */
module NumberParsing {
  import opened Wrappers

  /**
   * The whitespace characters as `str.split()`, `str.strip()` and the pattern
   * `\s` see them: general category Zs, or bidirectional class WS, B or S.
   * That is tab through carriage return, the information separators
   * U+001C to U+001F, the space, U+0085, the no-break space, U+1680, the
   * spaces U+2000 to U+200A, the line and paragraph separators, U+202F,
   * U+205F and the ideographic space.
   */
  predicate IsSpace(c: char) {
    var n := c as int;
    9 <= n <= 13 || 28 <= n <= 32 || n == 0x85 || n == 0xA0 || n == 0x1680 ||
    0x2000 <= n <= 0x200A || n == 0x2028 || n == 0x2029 || n == 0x202F || n == 0x205F || n == 0x3000
  }

  /** Commas and whitespace both separate numbers. */
  predicate IsSeparator(c: char) {
    c == ',' || IsSpace(c)
  }

  /** A line that is empty once surrounding whitespace is stripped. */
  predicate Blank(s: string) {
    forall i | 0 <= i < |s| :: IsSpace(s[i])
  }

  /** The length of the run of non-separator characters that starts `s`. */
  function TokenLength(s: string, sep: char -> bool): (n: nat)
    ensures n <= |s|
    ensures forall i | 0 <= i < n :: !sep(s[i])
    ensures n < |s| ==> sep(s[n])
  {
    if s == [] || sep(s[0]) then 0 else 1 + TokenLength(s[1..], sep)
  }

  /** The maximal runs of non-separator characters of `s`, in order; empty pieces are dropped. */
  function Tokens(s: string, sep: char -> bool): (ts: seq<string>)
    ensures forall i | 0 <= i < |ts| :: ts[i] != [] && forall j | 0 <= j < |ts[i]| :: !sep(ts[i][j])
    decreases |s|
  {
    if s == [] then []
    else if sep(s[0]) then Tokens(s[1..], sep)
    else
      var n := TokenLength(s, sep);
      [s[..n]] + Tokens(s[n..], sep)
  }

  /** An ASCII decimal digit. */
  predicate IsDigit(c: char) {
    '0' <= c <= '9'
  }

  /** A non-empty run of decimal digits. */
  predicate AllDigits(ds: string) {
    ds != [] && forall i | 0 <= i < |ds| :: IsDigit(ds[i])
  }

  /** The number a run of decimal digits denotes, most significant digit first. */
  function DigitsValue(ds: string): (v: nat)
    requires forall i | 0 <= i < |ds| :: IsDigit(ds[i])
    ensures ds == [] ==> v == 0
    decreases |ds|
  {
    if ds == [] then 0
    else
      assert IsDigit(ds[|ds| - 1]);
      DigitsValue(ds[..|ds| - 1]) * 10 + (ds[|ds| - 1] as int - '0' as int)
  }

  /** Python's `int` on one token: an optional `+` or `-`, then decimal digits. */
  function ParseInt(t: string): (r: Option<int>)
    ensures r.Some? ==> t != [] && (IsDigit(t[0]) || t[0] == '+' || t[0] == '-')
    ensures r.Some? && t[0] == '-' ==> r.value <= 0
    ensures r.Some? && t[0] != '-' ==> r.value >= 0
  {
    if t != [] && (t[0] == '+' || t[0] == '-') then
      if AllDigits(t[1..]) then
        var v: int := DigitsValue(t[1..]);
        Some(if t[0] == '-' then -v else v)
      else None
    else if AllDigits(t) then Some(DigitsValue(t))
    else None
  }

  /** Converts the tokens in order; the first token that is not an integer is the error. */
  function ParseAll(ts: seq<string>): (r: Result<seq<int>, string>)
    ensures r.Ok? ==> |r.value| == |ts| && forall i | 0 <= i < |ts| :: ParseInt(ts[i]) == Some(r.value[i])
    ensures r.Err? ==> exists i | 0 <= i < |ts| ::
      (ts[i] == r.error && ParseInt(ts[i]).None? && forall j | 0 <= j < i :: ParseInt(ts[j]).Some?)
  {
    if ts == [] then Ok([])
    else match ParseInt(ts[0])
      case None => Err(ts[0])
      case Some(v) =>
        match ParseAll(ts[1..])
        case Ok(vs) => Ok([v] + vs)
        case Err(e) =>
          ghost var i :| 0 <= i < |ts[1..]| && ts[1..][i] == e && ParseInt(ts[1..][i]).None?
            && forall j | 0 <= j < i :: ParseInt(ts[1..][j]).Some?;
          assert ts[i + 1] == e && forall j | 1 <= j < i + 1 :: ts[j] == ts[1..][j - 1];
          Err(e)
  }

  /**
   * The reader of the search-tree and cable front ends: a blank line is the
   * empty list; otherwise split at runs of commas and whitespace, drop empty
   * pieces and convert each.
   */
  function ParseNumbers(s: string): (r: Result<seq<int>, string>)
    ensures Blank(s) ==> r == Ok([])
    ensures r.Ok? ==> |r.value| == |Tokens(s, IsSeparator)|
    ensures r.Err? ==> r.error in Tokens(s, IsSeparator) && ParseInt(r.error).None?
  {
    BlankTokens(s);
    if Blank(s) then Ok([]) else ParseAll(Tokens(s, IsSeparator))
  }

  /** The unit separator U+001F splits numbers like a space, and U+3000 around them is stripped. */
  lemma UnitSeparatorExample()
    ensures ParseNumbers("\U{3000}1\U{1F}2") == Ok([1, 2])
  {
    var s := "\U{3000}1\U{1F}2";
    assert IsSeparator(s[0]) && !IsSeparator(s[1]) && IsSeparator(s[2]) && !IsSeparator(s[3]);
    var two := s[3..];
    assert TokenLength(two, IsSeparator) == 1 && two[..1] == two && two[1..] == [];
    assert Tokens(two, IsSeparator) == [two];
    assert Tokens(s[2..], IsSeparator) == [two] by {
      assert s[2..][1..] == two;
    }
    var rest := s[1..];
    assert TokenLength(rest, IsSeparator) == 1 && rest[..1] == "1" && rest[1..] == s[2..];
    assert Tokens(rest, IsSeparator) == ["1", two];
    assert Tokens(s, IsSeparator) == ["1", "2"];
    assert ParseInt("1") == Some(1) && ParseInt(two) == Some(2);
    var last: seq<string> := [two];
    assert ParseAll(last) == Ok([2]) by {
      assert last[0] == two && last[1..] == [];
      assert ParseAll(last[1..]) == Ok([]);
      assert [2] + [] == [2];
    }
    var both: seq<string> := ["1", two];
    assert ParseAll(both) == Ok([1, 2]) by {
      assert both[0] == "1" && both[1..] == last;
      assert [1] + [2] == [1, 2];
    }
    assert !Blank(s);
  }

  /** A blank line has no tokens. */
  lemma {:induction false} BlankTokens(s: string)
    ensures Blank(s) ==> Tokens(s, IsSeparator) == []
    decreases |s|
  {
    if s != [] && Blank(s) {
      BlankTokens(s[1..]);
    }
  }

  /** The outcome of converting more tokens after `vals` have been converted already. */
  function Prepend(vals: seq<int>, r: Result<seq<int>, string>): Result<seq<int>, string> {
    if r.Ok? then Ok(vals + r.value) else r
  }

  /** Every comma of `s` replaced by a blank. */
  function ReplaceCommas(s: string): (r: string)
    ensures |r| == |s|
    ensures forall i | 0 <= i < |s| :: r[i] == (if s[i] == ',' then ' ' else s[i])
  {
    seq(|s|, i requires 0 <= i < |s| => if s[i] == ',' then ' ' else s[i])
  }

  /**
   * The reader of the linked-list menu: strip the line, answer the empty list
   * if nothing is left, turn commas into blanks, split at whitespace and
   * convert the pieces one by one, stopping at the first that is not an
   * integer.  It reads every line exactly as `ParseNumbers` does.
   */
  method ParseValues(line: string) returns (r: Result<seq<int>, string>)
    ensures r == ParseNumbers(line)
    ensures r.Ok? ==> |r.value| == |Tokens(line, IsSeparator)|
  {
    if Blank(line) {
      return Ok([]);
    }
    var parts := Tokens(ReplaceCommas(line), IsSpace);
    SplitAfterReplace(line);
    var vals: seq<int> := [];
    ConvertStart(parts);
    for k := 0 to |parts|
      invariant ParseAll(parts) == Prepend(vals, ParseAll(parts[k..]))
    {
      match ParseInt(parts[k]) {
        case None =>
          ConvertStop(parts, k);
          return Err(parts[k]);
        case Some(v) =>
          ConvertStep(parts, k, vals, v);
          vals := vals + [v];
      }
    }
    ConvertDone(parts, vals);
    r := Ok(vals);
  }

  /** Before any token is converted, the outcome is that of converting them all. */
  lemma ConvertStart(parts: seq<string>)
    ensures ParseAll(parts) == Prepend([], ParseAll(parts[0..]))
  {
    assert parts[0..] == parts;
    if ParseAll(parts).Ok? {
      assert [] + ParseAll(parts).value == ParseAll(parts).value;
    }
  }

  /** Converting token `k` to `v` moves `v` from the outcome of the rest to the values so far. */
  lemma ConvertStep(parts: seq<string>, k: nat, vals: seq<int>, v: int)
    requires k < |parts| && ParseInt(parts[k]) == Some(v)
    ensures Prepend(vals, ParseAll(parts[k..])) == Prepend(vals + [v], ParseAll(parts[k + 1..]))
  {
    assert parts[k..][0] == parts[k] && parts[k..][1..] == parts[k + 1..];
    var rest := ParseAll(parts[k + 1..]);
    if rest.Ok? {
      assert vals + ([v] + rest.value) == (vals + [v]) + rest.value;
    }
  }

  /** A token that is not an integer stops the conversion with that token as the error. */
  lemma ConvertStop(parts: seq<string>, k: nat)
    requires k < |parts| && ParseInt(parts[k]).None?
    ensures ParseAll(parts[k..]) == Err(parts[k])
  {
    assert parts[k..][0] == parts[k];
  }

  /** After the last token the values so far are the outcome. */
  lemma ConvertDone(parts: seq<string>, vals: seq<int>)
    ensures Prepend(vals, ParseAll(parts[|parts|..])) == Ok(vals)
  {
    assert parts[|parts|..] == [] && vals + [] == vals;
  }

  /** Splitting at commas and whitespace is splitting at whitespace once commas have become blanks. */
  lemma {:induction false} SplitAfterReplace(s: string)
    ensures Tokens(ReplaceCommas(s), IsSpace) == Tokens(s, IsSeparator)
    decreases |s|
  {
    if s != [] {
      var r := ReplaceCommas(s);
      assert r[1..] == ReplaceCommas(s[1..]);
      if IsSeparator(s[0]) {
        SplitAfterReplace(s[1..]);
      } else {
        TokenLengthAfterReplace(s);
        var n := TokenLength(s, IsSeparator);
        assert r[..n] == s[..n];
        assert r[n..] == ReplaceCommas(s[n..]);
        SplitAfterReplace(s[n..]);
      }
    }
  }

  /** Replacing commas does not move the end of the first token. */
  lemma {:induction false} TokenLengthAfterReplace(s: string)
    ensures TokenLength(ReplaceCommas(s), IsSpace) == TokenLength(s, IsSeparator)
    decreases |s|
  {
    if s != [] {
      assert ReplaceCommas(s)[1..] == ReplaceCommas(s[1..]);
      TokenLengthAfterReplace(s[1..]);
    }
  }

  /** The decimal digits of `n`, most significant first, without leading zeros. */
  function ShowNat(n: nat): (ds: string)
    ensures ds != [] && forall i | 0 <= i < |ds| :: IsDigit(ds[i])
  {
    var last := ['0' + (n % 10) as char];
    if n < 10 then last else ShowNat(n / 10) + last
  }

  /** `n` written in decimal, with a leading `-` when negative. */
  function Show(n: int): (t: string)
    ensures t != [] && forall i | 0 <= i < |t| :: !IsSeparator(t[i])
  {
    if n < 0 then "-" + ShowNat(-n) else ShowNat(n)
  }

  /** The numbers of `xs` written out, separated by a comma and a blank. */
  function Join(xs: seq<int>): string {
    if xs == [] then ""
    else if |xs| == 1 then Show(xs[0])
    else Show(xs[0]) + ", " + Join(xs[1..])
  }

  /** Reading the digits of `n` gives back `n`. */
  lemma {:induction false} ShowNatValue(n: nat)
    ensures DigitsValue(ShowNat(n)) == n
  {
    var ds := ShowNat(n);
    if n >= 10 {
      ShowNatValue(n / 10);
      assert ds[..|ds| - 1] == ShowNat(n / 10);
    }
  }

  /** Reading a written number gives back the number. */
  lemma ParseShow(n: int)
    ensures ParseInt(Show(n)) == Some(n)
  {
    if n < 0 {
      ShowNatValue(-n);
      assert Show(n)[1..] == ShowNat(-n);
    } else {
      ShowNatValue(n);
    }
  }

  /** A token followed by separators and more text reads as that token, then the rest. */
  lemma TokensAfterWord(t: string, gap: string, rest: string)
    requires t != [] && forall i | 0 <= i < |t| :: !IsSeparator(t[i])
    requires gap != [] && forall i | 0 <= i < |gap| :: IsSeparator(gap[i])
    ensures Tokens(t + gap + rest, IsSeparator) == [t] + Tokens(rest, IsSeparator)
  {
    var s := t + gap + rest;
    var n := TokenLength(s, IsSeparator);
    assert n == |t| by {
      assert s[|t|] == gap[0];
    }
    assert s[..n] == t && s[n..] == gap + rest;
    SkipSeparators(gap, rest);
  }

  /** Leading separators are skipped. */
  lemma {:induction false} SkipSeparators(gap: string, rest: string)
    requires forall i | 0 <= i < |gap| :: IsSeparator(gap[i])
    ensures Tokens(gap + rest, IsSeparator) == Tokens(rest, IsSeparator)
    decreases |gap|
  {
    if gap == [] {
      assert gap + rest == rest;
    } else {
      assert (gap + rest)[1..] == gap[1..] + rest;
      SkipSeparators(gap[1..], rest);
    }
  }

  /** A single written number is one token. */
  lemma TokensOfWord(t: string)
    requires t != [] && forall i | 0 <= i < |t| :: !IsSeparator(t[i])
    ensures Tokens(t, IsSeparator) == [t]
  {
    assert TokenLength(t, IsSeparator) == |t|;
    assert t[..|t|] == t && t[|t|..] == [];
  }

  /** Writing a list of numbers out and reading it back gives the same list. */
  lemma {:induction false} ParseJoin(xs: seq<int>)
    ensures ParseNumbers(Join(xs)) == Ok(xs)
    decreases |xs|
  {
    if xs == [] {
    } else {
      JoinTokens(xs);
      var t := Show(xs[0]);
      assert !Blank(Join(xs)) by {
        assert Join(xs)[0] == t[0];
      }
      ParseAllShown(xs);
    }
  }

  /** The tokens of a written list are the written numbers. */
  lemma {:induction false} JoinTokens(xs: seq<int>)
    ensures |Tokens(Join(xs), IsSeparator)| == |xs|
    ensures forall i | 0 <= i < |xs| :: Tokens(Join(xs), IsSeparator)[i] == Show(xs[i])
    decreases |xs|
  {
    if |xs| == 1 {
      TokensOfWord(Show(xs[0]));
    } else if |xs| > 1 {
      JoinTokens(xs[1..]);
      TokensAfterWord(Show(xs[0]), ", ", Join(xs[1..]));
    }
  }

  /** Converting the written numbers gives the numbers. */
  lemma {:induction false} ParseAllShown(xs: seq<int>)
    ensures ParseAll(Tokens(Join(xs), IsSeparator)) == Ok(xs)
    decreases |xs|
  {
    JoinTokens(xs);
    var ts := Tokens(Join(xs), IsSeparator);
    ParseAllOfShown(ts, xs);
  }

  /** A list of tokens that are the written forms of `xs` converts to `xs`. */
  lemma {:induction false} ParseAllOfShown(ts: seq<string>, xs: seq<int>)
    requires |ts| == |xs| && forall i | 0 <= i < |xs| :: ts[i] == Show(xs[i])
    ensures ParseAll(ts) == Ok(xs)
    decreases |xs|
  {
    if xs != [] {
      ParseShow(xs[0]);
      ParseAllOfShown(ts[1..], xs[1..]);
      assert xs == [xs[0]] + xs[1..];
    }
  }
}

/** The Python string built-ins the game engine relies on: `str.split()` without
  * arguments, `int()` on a token, `str()` of an integer, the `{v:2}` width
  * format, `str * int` and `str.join`. */
module PyText {
  import opened Wrappers

  /** The characters `str.split()` without arguments treats as separators. */
  predicate IsSpace(c: char) {
    c == ' ' || '\U{9}' <= c <= '\U{d}' || '\U{1c}' <= c <= '\U{1f}'
    || c == '\U{85}' || c == '\U{a0}' || c == '\U{1680}' || '\U{2000}' <= c <= '\U{200a}'
    || c == '\U{2028}' || c == '\U{2029}' || c == '\U{202f}' || c == '\U{205f}' || c == '\U{3000}'
  }

  predicate NoSpace(t: string) {
    forall i :: 0 <= i < |t| ==> !IsSpace(t[i])
  }

  /** Length of the run of non-separators at the front of `s`. */
  function TokenLength(s: string): (k: nat)
    ensures k <= |s|
    ensures NoSpace(s[..k])
    ensures k < |s| ==> IsSpace(s[k])
  {
    if s == [] || IsSpace(s[0]) then 0 else 1 + TokenLength(s[1..])
  }

  /** `s.split()`: the maximal runs of non-separators, in order. */
  function Split(s: string): (tokens: seq<string>)
    ensures forall t | t in tokens :: t != [] && NoSpace(t)
    decreases |s|
  {
    if s == [] then []
    else if IsSpace(s[0]) then Split(s[1..])
    else
      var k := TokenLength(s);
      [s[..k]] + Split(s[k..])
  }

  /** `sep.join(parts)`. */
  function Join(parts: seq<string>, sep: string): string
    decreases |parts|
  {
    if |parts| == 0 then ""
    else if |parts| == 1 then parts[0]
    else parts[0] + sep + Join(parts[1..], sep)
  }

  /** `"".join(parts)`, built left to right as `row_str += part` builds it. */
  function Concat(parts: seq<string>): string
    decreases |parts|
  {
    if parts == [] then "" else Concat(parts[..|parts| - 1]) + parts[|parts| - 1]
  }

  /** `s * n`: `n` copies of `s`, and the empty string when `n <= 0`. */
  function Repeat(s: string, n: int): (r: string)
    decreases n
  {
    if n <= 0 then "" else s + Repeat(s, n - 1)
  }

  lemma {:induction false} RepeatLength(s: string, n: int)
    ensures |Repeat(s, n)| == if n <= 0 then 0 else |s| * n
    decreases n
  {
    if n > 0 {
      RepeatLength(s, n - 1);
    }
  }

  lemma {:induction false} RepeatSpaces(n: int)
    ensures forall i :: 0 <= i < |Repeat(" ", n)| ==> Repeat(" ", n)[i] == ' '
    decreases n
  {
    if n > 0 {
      RepeatSpaces(n - 1);
    }
  }

  predicate IsDigit(c: char) {
    '0' <= c <= '9'
  }

  predicate AllDigits(d: string) {
    forall i :: 0 <= i < |d| ==> IsDigit(d[i])
  }

  /** The number a run of decimal digits denotes (leading zeros allowed, as in `int()`). */
  function DigitsValue(d: string): nat
    requires AllDigits(d)
    decreases |d|
  {
    if d == [] then 0 else DigitsValue(d[..|d| - 1]) * 10 + (d[|d| - 1] as int - '0' as int)
  }

  /** `int(t)` for a token without separators: an optional sign and at least one
    * decimal digit; anything else is the `ValueError` that `int()` raises. */
  function ParseInt(t: string): (r: Option<int>)
    ensures r.Some? ==> t != [] && IsDigit(t[|t| - 1])
    ensures r.Some? && r.value < 0 ==> t[0] == '-'
  {
    var negative := |t| > 0 && t[0] == '-';
    var digits := if |t| > 0 && (t[0] == '-' || t[0] == '+') then t[1..] else t;
    if digits != [] && AllDigits(digits) then
      var magnitude: int := DigitsValue(digits);
      Some(if negative then -magnitude else magnitude)
    else
      None
  }

  /** `str(n)` for a non-negative integer: its decimal digits, no leading zero. */
  function NatToString(n: nat): (s: string)
    ensures s != [] && AllDigits(s)
    ensures |s| > 1 ==> s[0] != '0'
    decreases n
  {
    if n < 10 then [('0' as int + n) as char]
    else NatToString(n / 10) + [('0' as int + n % 10) as char]
  }

  /** `str(n)`. */
  function IntToString(n: int): string {
    if n < 0 then "-" + NatToString(-n) else NatToString(n)
  }

  /** `f"{n:w}"`: `str(n)` right-aligned in a field of at least `w` characters. */
  function FormatWidth(n: int, w: nat): string {
    var s := IntToString(n);
    Repeat(" ", w - |s|) + s
  }

  /** `str(n)` is never empty and ends with a digit. */
  lemma IntToStringEndsWithDigit(n: int)
    ensures var s := IntToString(n); s != [] && IsDigit(s[|s| - 1])
  {
  }

  /** `f"{n:w}"` is `str(n)` after as many spaces as make it `w` wide, and none
    * when `str(n)` is already that wide. */
  lemma FormatWidthLayout(n: int, w: nat)
    ensures var r, s := FormatWidth(n, w), IntToString(n);
            |r| == (if |s| < w then w else |s|)
            && r[|r| - |s|..] == s
            && forall i :: 0 <= i < |r| - |s| ==> r[i] == ' '
  {
    var s := IntToString(n);
    RepeatLength(" ", w - |s|);
    RepeatSpaces(w - |s|);
  }

  // ---------------------------------------------------------------------------
  // Round trips

  lemma {:induction false} DigitsValueOfNatToString(n: nat)
    ensures DigitsValue(NatToString(n)) == n
    decreases n
  {
    if n >= 10 {
      var s := NatToString(n);
      DigitsValueOfNatToString(n / 10);
      assert s[..|s| - 1] == NatToString(n / 10);
    }
  }

  lemma ParseIntOfDigits(d: string)
    requires d != [] && AllDigits(d)
    ensures ParseInt(d) == Some(DigitsValue(d))
    ensures ParseInt("-" + d) == Some(-(DigitsValue(d) as int))
  {
    assert IsDigit(d[0]);
    assert ("-" + d)[1..] == d;
  }

  /** `int(str(n)) == n`. */
  lemma ParseIntOfIntToString(n: int)
    ensures ParseInt(IntToString(n)) == Some(n)
  {
    if n < 0 {
      DigitsValueOfNatToString(-n);
      ParseIntOfDigits(NatToString(-n));
    } else {
      DigitsValueOfNatToString(n);
      ParseIntOfDigits(NatToString(n));
    }
  }

  lemma {:induction false} TokenLengthOfPrefix(t: string, u: string)
    requires NoSpace(t)
    requires u == [] || IsSpace(u[0])
    ensures TokenLength(t + u) == |t|
    decreases |t|
  {
    if t != [] {
      assert (t + u)[1..] == t[1..] + u;
      TokenLengthOfPrefix(t[1..], u);
    }
  }

  /** Joining non-empty separator-free tokens with single spaces and splitting
    * the result gives the tokens back. */
  lemma {:induction false} SplitOfJoin(tokens: seq<string>)
    requires forall t | t in tokens :: t != [] && NoSpace(t)
    ensures Split(Join(tokens, " ")) == tokens
    decreases |tokens|
  {
    if |tokens| == 1 {
      var t := tokens[0];
      TokenLengthOfPrefix(t, []);
      assert t + [] == t;
      assert t[..|t|] == t;
    } else if |tokens| > 1 {
      var t, rest := tokens[0], Join(tokens[1..], " ");
      var s := t + " " + rest;
      TokenLengthOfPrefix(t, " " + rest);
      assert s == t + (" " + rest);
      assert s[..|t|] == t;
      assert s[|t|..] == " " + rest;
      assert (" " + rest)[1..] == rest;
      assert forall u | u in tokens[1..] :: u in tokens;
      SplitOfJoin(tokens[1..]);
    }
  }

  lemma {:induction false} ConcatLength(parts: seq<string>, w: nat)
    requires forall i :: 0 <= i < |parts| ==> |parts[i]| == w
    ensures |Concat(parts)| == w * |parts|
    decreases |parts|
  {
    if parts != [] {
      var init := parts[..|parts| - 1];
      ConcatLength(init, w);
      assert w * |init| + w == w * |parts|;
    }
  }

  /** Appending the next part to `p` followed by the first `j` parts joined gives
    * `p` followed by the first `j + 1` parts joined. */
  lemma ConcatSnoc(p: string, parts: seq<string>, j: nat, acc: string)
    requires j < |parts| && acc == p + Concat(parts[..j])
    ensures acc + parts[j] == p + Concat(parts[..j + 1])
  {
    assert parts[..j + 1][..j] == parts[..j];
  }

  /** Joining parts of one width `w`, part `j` sits at positions `w * j` to `w * j + w`. */
  lemma {:induction false} ConcatAt(parts: seq<string>, w: nat, j: nat)
    requires forall i :: 0 <= i < |parts| ==> |parts[i]| == w
    requires j < |parts|
    ensures w * j + w <= |Concat(parts)|
    ensures Concat(parts)[w * j..w * j + w] == parts[j]
    decreases |parts|
  {
    var init, last := parts[..|parts| - 1], parts[|parts| - 1];
    ConcatLength(init, w);
    assert w * |init| + w == w * |parts|;
    if j < |init| {
      ConcatAt(init, w, j);
      assert w * j + w <= w * |init| by {
        assert w * |init| - (w * j + w) == w * (|init| - j - 1);
      }
      assert (Concat(init) + last)[w * j..w * j + w] == Concat(init)[w * j..w * j + w];
    } else {
      assert w * j == |Concat(init)|;
      assert (Concat(init) + last)[w * j..w * j + w] == last;
    }
  }

  lemma JoinFirst(parts: seq<string>, sep: string)
    requires |parts| > 0
    ensures |Join(parts, sep)| >= |parts[0]|
    ensures Join(parts, sep)[..|parts[0]|] == parts[0]
  {
  }

  /** `sep.join(parts)` ends with the last part. */
  lemma {:induction false} JoinLast(parts: seq<string>, sep: string)
    requires |parts| > 0
    ensures var j, last := Join(parts, sep), parts[|parts| - 1];
            |j| >= |last| && j[|j| - |last|..] == last
    decreases |parts|
  {
    if |parts| > 1 {
      JoinLast(parts[1..], sep);
    }
  }
}

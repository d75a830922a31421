/**
 * The handful of Python `str` operations the serving code relies on, stated
 * over Unicode code points: `isspace`, `strip()`, `strip(chars)`, `find`,
 * `rfind`, `replace` of one character, `splitlines`, the code-point ordering
 * used by `<` on strings, and decimal rendering of an `int`.
 */
module PyStr {

  /** The characters for which Python's `str.isspace()` holds. */
  predicate IsSpace(c: char) {
    var n := c as int;
    (9 <= n <= 13) || (28 <= n <= 32) || n == 0x85 || n == 0xA0 || n == 0x1680
    || (0x2000 <= n <= 0x200A) || n == 0x2028 || n == 0x2029 || n == 0x202F
    || n == 0x205F || n == 0x3000
  }

  /** The line boundaries recognised by Python's `str.splitlines()`. */
  predicate IsLineBreak(c: char) {
    var n := c as int;
    (10 <= n <= 13) || (28 <= n <= 30) || n == 0x85 || n == 0x2028 || n == 0x2029
  }

  /** Drops the longest prefix whose characters all satisfy `p`. */
  function DropWhile(s: string, p: char -> bool): (r: string)
    ensures |r| <= |s| && r == s[|s| - |r|..]
    ensures r == [] || !p(r[0])
    ensures forall i :: 0 <= i < |s| - |r| ==> p(s[i])
  {
    if |s| > 0 && p(s[0]) then
      var r := DropWhile(s[1..], p);
      assert forall i :: 1 <= i < |s| - |r| ==> s[i] == s[1..][i - 1];
      r
    else s
  }

  /** Drops the longest suffix whose characters all satisfy `p`. */
  function DropWhileEnd(s: string, p: char -> bool): (r: string)
    ensures |r| <= |s| && r == s[..|r|]
    ensures r == [] || !p(r[|r| - 1])
    ensures forall i :: |r| <= i < |s| ==> p(s[i])
  {
    if |s| > 0 && p(s[|s| - 1]) then DropWhileEnd(s[..|s| - 1], p) else s
  }

  /**
   * `r` is the slice of `s` starting at `a`, and every character of `s` before
   * it or after it satisfies `p`.
   */
  predicate TrimmedAt(s: string, p: char -> bool, a: nat, r: string) {
    a + |r| <= |s| && r == s[a..a + |r|]
    && (forall i :: 0 <= i < a ==> p(s[i]))
    && (forall i :: a + |r| <= i < |s| ==> p(s[i]))
  }

  /** Python `s.strip(chars)`: removes leading and trailing characters satisfying `p`. */
  function StripWhere(s: string, p: char -> bool): (r: string)
    ensures |r| <= |s|
    ensures r == [] || (!p(r[0]) && !p(r[|r| - 1]))
  {
    DropWhileEnd(DropWhile(s, p), p)
  }

  /**
   * What a strip removes is exactly what it is told to: its result is a slice
   * of `s`, and everything cut off before and after it satisfies `p`.
   */
  lemma StripWhereTrims(s: string, p: char -> bool)
    ensures exists a :: TrimmedAt(s, p, a, StripWhere(s, p))
  {
    var t := DropWhile(s, p);
    var r := DropWhileEnd(t, p);
    var a := |s| - |t|;
    assert r == s[a..a + |r|] by {
      assert t == s[a..] && r == t[..|r|];
    }
    forall i | a + |r| <= i < |s|
      ensures p(s[i])
    {
      assert s[i] == t[i - a];
    }
    assert TrimmedAt(s, p, a, r);
    assert StripWhere(s, p) == r;
  }

  /**
   * Only one string is a slice of `s` cut out of `p`-characters and has ends
   * that are not: with `StripWhereTrims` and the contract of `StripWhere`, this
   * says the strip's result is fully determined.
   */
  lemma TrimmedUnique(s: string, p: char -> bool, a: nat, r: string, b: nat, q: string)
    requires TrimmedAt(s, p, a, r) && (r == [] || (!p(r[0]) && !p(r[|r| - 1])))
    requires TrimmedAt(s, p, b, q) && (q == [] || (!p(q[0]) && !p(q[|q| - 1])))
    ensures r == q
  {
    if r != [] {
      assert !p(s[a]);
      assert q != [];
      assert !p(s[b]);
      assert a == b;
      assert a + |r| == b + |q| by {
        assert !p(s[a + |r| - 1]) && !p(s[b + |q| - 1]);
      }
    } else {
      assert forall i :: 0 <= i < |s| ==> p(s[i]);
      assert q == [];
    }
  }

  /** A strip keeps every character it is not told to remove. */
  lemma StripWhereKeeps(s: string, p: char -> bool, c: char)
    requires c in s && !p(c)
    ensures c in StripWhere(s, p)
  {
    var t := DropWhile(s, p);
    var r := DropWhileEnd(t, p);
    var i :| 0 <= i < |s| && s[i] == c;
    var off := |s| - |t|;
    assert i >= off;
    var j := i - off;
    assert t[j] == c;
    assert j < |r|;
    assert r[j] == c;
  }

  /** Python `s.strip()`. */
  function Strip(s: string): (r: string)
    ensures |r| <= |s|
    ensures r == [] || (!IsSpace(r[0]) && !IsSpace(r[|r| - 1]))
  {
    StripWhere(s, IsSpace)
  }

  /** Every character a strip keeps was in its argument. */
  lemma StripWhereFrom(s: string, p: char -> bool, c: char)
    requires c in StripWhere(s, p)
    ensures c in s
  {
    var t := DropWhile(s, p);
    var r := DropWhileEnd(t, p);
    var i :| 0 <= i < |r| && r[i] == c;
    assert t[i] == c;
    assert s[i + (|s| - |t|)] == c;
  }

  /** A strip whose argument already has no strippable end changes nothing. */
  lemma StripWhereNoop(s: string, p: char -> bool)
    requires s == [] || (!p(s[0]) && !p(s[|s| - 1]))
    ensures StripWhere(s, p) == s
  {
  }

  /** Stripping twice is stripping once. */
  lemma StripIdempotent(s: string)
    ensures Strip(Strip(s)) == Strip(s)
  {
    StripWhereNoop(Strip(s), IsSpace);
  }

  /** The predicate "is the character `c`". */
  function Is(c: char): char -> bool {
    x => x == c
  }

  /** Python `s.strip(c)` for a one-character argument. */
  function StripChar(s: string, c: char): (r: string)
    ensures |r| <= |s|
    ensures r == [] || (r[0] != c && r[|r| - 1] != c)
  {
    StripWhere(s, Is(c))
  }

  /** `strip(c)` removes exactly one enclosing pair of `c` around a string not itself ending in `c`. */
  lemma StripCharEnclosed(v: string, c: char)
    requires v == [] || (v[0] != c && v[|v| - 1] != c)
    ensures StripChar([c] + v + [c], c) == v
  {
    var s := [c] + v + [c];
    assert s[1..] == v + [c];
    if v == [] {
      assert DropWhile(s[1..], Is(c)) == [];
    } else {
      assert DropWhile(s[1..], Is(c)) == v + [c];
      assert (v + [c])[..|v|] == v;
    }
  }

  /** Python `s.startswith(p)`. */
  predicate StartsWith(s: string, p: string) {
    |p| <= |s| && s[..|p|] == p
  }

  /** Python `s.endswith(p)`. */
  predicate EndsWith(s: string, p: string) {
    |p| <= |s| && s[|s| - |p|..] == p
  }

  /** Python `s.find(c)` for a character known to occur. */
  function IndexOf(s: string, c: char): (i: nat)
    requires c in s
    ensures i < |s| && s[i] == c
    ensures forall k :: 0 <= k < i ==> s[k] != c
  {
    if s[0] == c then 0
    else
      var j := IndexOf(s[1..], c);
      assert forall k :: 1 <= k < j + 1 ==> s[k] == s[1..][k - 1];
      j + 1
  }

  /** Python `s.rfind(c)` for a character known to occur. */
  function LastIndexOf(s: string, c: char): (i: nat)
    requires c in s
    ensures i < |s| && s[i] == c
    ensures forall k :: i < k < |s| ==> s[k] != c
  {
    if s[|s| - 1] == c then |s| - 1
    else LastIndexOf(s[..|s| - 1], c)
  }

  /** The index of the first character satisfying `p`, or `|s|` when none does. */
  function FirstWhere(s: string, p: char -> bool): (i: nat)
    ensures i <= |s|
    ensures i < |s| ==> p(s[i])
    ensures forall k :: 0 <= k < i ==> !p(s[k])
  {
    if s == [] then 0
    else if p(s[0]) then 0
    else
      var j := FirstWhere(s[1..], p);
      assert forall k :: 1 <= k < j + 1 ==> s[k] == s[1..][k - 1];
      j + 1
  }

  /** `find` returns the first occurrence. */
  lemma IndexOfAt(s: string, c: char, i: nat)
    requires i < |s| && s[i] == c
    requires forall k :: 0 <= k < i ==> s[k] != c
    ensures c in s && IndexOf(s, c) == i
  {
  }

  /** `rfind` returns the last occurrence. */
  lemma LastIndexOfAt(s: string, c: char, i: nat)
    requires i < |s| && s[i] == c
    requires forall k :: i < k < |s| ==> s[k] != c
    ensures c in s && LastIndexOf(s, c) == i
  {
  }

  lemma FirstWhereAt(s: string, p: char -> bool, i: nat)
    requires i <= |s| && (i < |s| ==> p(s[i]))
    requires forall k :: 0 <= k < i ==> !p(s[k])
    ensures FirstWhere(s, p) == i
  {
  }

  /** Python `s.replace(a, b)` for one-character `a` and `b`. */
  function ReplaceChar(s: string, a: char, b: char): (r: string)
    ensures |r| == |s|
    ensures forall i :: 0 <= i < |s| ==> r[i] == (if s[i] == a then b else s[i])
  {
    seq(|s|, i requires 0 <= i < |s| => if s[i] == a then b else s[i])
  }

  /** Python `s.replace(c, "")`. */
  function RemoveChar(s: string, c: char): (r: string)
    ensures c !in r && |r| <= |s|
    ensures c !in s ==> r == s
  {
    if s == [] then []
    else
      var rest := RemoveChar(s[1..], c);
      assert c !in s ==> s == [s[0]] + s[1..];
      if s[0] == c then rest else [s[0]] + rest
  }

  /** Removing one character keeps every other character and adds none. */
  lemma {:induction false} RemoveCharMembers(s: string, c: char, x: char)
    ensures x in RemoveChar(s, c) <==> x in s && x != c
  {
    if s != [] {
      RemoveCharMembers(s[1..], c, x);
      assert x in s <==> x == s[0] || x in s[1..];
    }
  }

  /** Removal distributes over concatenation: `replace(c, "")` is a filter. */
  lemma {:induction false} RemoveCharAppend(a: string, b: string, c: char)
    ensures RemoveChar(a + b, c) == RemoveChar(a, c) + RemoveChar(b, c)
  {
    if a == [] {
      assert a + b == b;
    } else {
      assert (a + b)[1..] == a[1..] + b;
      RemoveCharAppend(a[1..], b, c);
    }
  }

  /** On one character: dropped when it is `c`, kept otherwise. */
  lemma RemoveCharSingle(x: char, c: char)
    ensures RemoveChar([x], c) == if x == c then [] else [x]
  {
    assert [x][1..] == [];
  }

  /** No line boundary occurs in `s`. */
  predicate NoLineBreak(s: string) {
    forall i :: 0 <= i < |s| ==> !IsLineBreak(s[i])
  }

  /**
   * Python `s.splitlines()`: a `\r\n` pair is one boundary, a final boundary
   * does not open an empty last line, and the empty string has no lines.
   */
  function SplitLines(s: string): (lines: seq<string>)
    ensures forall k :: 0 <= k < |lines| ==> NoLineBreak(lines[k])
    ensures s == [] <==> lines == []
    decreases |s|
  {
    if s == [] then []
    else
      var i := FirstWhere(s, IsLineBreak);
      if i == |s| then [s]
      else
        var next := if s[i] == '\r' && i + 1 < |s| && s[i + 1] == '\n' then i + 2 else i + 1;
        [s[..i]] + SplitLines(s[next..])
  }

  lemma InPrefix(s: string, n: nat, c: char)
    requires n <= |s| && c in s[..n]
    ensures c in s
  {
    var j :| 0 <= j < n && s[..n][j] == c;
    assert s[j] == c;
  }

  lemma InSuffix(s: string, n: nat, c: char)
    requires n <= |s| && c in s[n..]
    ensures c in s
  {
    var j :| 0 <= j < |s| - n && s[n..][j] == c;
    assert s[n + j] == c;
  }

  /** The text after the first line and its boundary, when there is a boundary. */
  function AfterFirstBreak(s: string): (r: string)
    requires FirstWhere(s, IsLineBreak) < |s|
    ensures |r| < |s|
    ensures forall c :: c in r ==> c in s
  {
    var i := FirstWhere(s, IsLineBreak);
    var next := if s[i] == '\r' && i + 1 < |s| && s[i + 1] == '\n' then i + 2 else i + 1;
    assert forall c :: c in s[next..] ==> c in s by {
      forall c | c in s[next..] ensures c in s {
        InSuffix(s, next, c);
      }
    }
    s[next..]
  }

  /** Every line after the first is a line of the text after the first boundary. */
  lemma SplitLinesTail(s: string)
    requires |SplitLines(s)| > 1
    ensures FirstWhere(s, IsLineBreak) < |s|
    ensures SplitLines(s)[1..] == SplitLines(AfterFirstBreak(s))
  {
  }

  /** Every character of the first line occurs in the text. */
  lemma FirstLineFrom(s: string, c: char)
    requires SplitLines(s) != [] && c in SplitLines(s)[0]
    ensures c in s
  {
    var i := FirstWhere(s, IsLineBreak);
    if i < |s| {
      assert SplitLines(s)[0] == s[..i];
      InPrefix(s, i, c);
    }
  }

  /** Every character of a line occurs in the text it was cut from. */
  lemma {:induction false} SplitLinesFrom(s: string, k: nat, c: char)
    requires k < |SplitLines(s)| && c in SplitLines(s)[k]
    ensures c in s
    decreases |s|
  {
    if k == 0 {
      FirstLineFrom(s, c);
    } else {
      SplitLinesTail(s);
      var r := AfterFirstBreak(s);
      assert SplitLines(s)[k] == SplitLines(r)[k - 1];
      SplitLinesFrom(r, k - 1, c);
    }
  }

  /**
   * A line followed by a single boundary character is cut off as one line;
   * a `\r` counts alone only when no `\n` follows it.
   */
  lemma SplitLinesBreak(line: string, b: char, rest: string)
    requires NoLineBreak(line) && IsLineBreak(b)
    requires b == '\r' ==> rest == [] || rest[0] != '\n'
    ensures SplitLines(line + [b] + rest) == [line] + SplitLines(rest)
  {
    var s := line + [b] + rest;
    FirstWhereAt(s, IsLineBreak, |line|);
    assert s[..|line|] == line;
    assert s[|line| + 1..] == rest;
  }

  /** A line followed by `\n` is cut off as one line. */
  lemma SplitLinesTerminated(line: string, rest: string)
    requires NoLineBreak(line)
    ensures SplitLines(line + "\n" + rest) == [line] + SplitLines(rest)
  {
    SplitLinesBreak(line, '\n', rest);
  }

  /** A `\r\n` pair is one boundary: it neither opens an empty line nor stays in one. */
  lemma SplitLinesCrLf(line: string, rest: string)
    requires NoLineBreak(line)
    ensures SplitLines(line + "\r\n" + rest) == [line] + SplitLines(rest)
  {
    var s := line + "\r\n" + rest;
    FirstWhereAt(s, IsLineBreak, |line|);
    assert s[..|line|] == line;
    assert s[|line| + 2..] == rest;
  }

  /** A non-empty text without boundaries is one line. */
  lemma SplitLinesLast(line: string)
    requires NoLineBreak(line) && line != []
    ensures SplitLines(line) == [line]
  {
    FirstWhereAt(line, IsLineBreak, |line|);
  }

  /** Python's `a <= b` on strings: lexicographic by code point. */
  predicate LexLe(a: string, b: string) {
    if a == [] then true
    else if b == [] then false
    else if a[0] != b[0] then a[0] < b[0]
    else LexLe(a[1..], b[1..])
  }

  lemma {:induction false} LexLeTotal(a: string, b: string)
    ensures LexLe(a, b) || LexLe(b, a)
  {
    if a != [] && b != [] && a[0] == b[0] {
      LexLeTotal(a[1..], b[1..]);
    }
  }

  lemma {:induction false} LexLeAntisymmetric(a: string, b: string)
    requires LexLe(a, b) && LexLe(b, a)
    ensures a == b
  {
    if a != [] && b != [] {
      LexLeAntisymmetric(a[1..], b[1..]);
      assert a == [a[0]] + a[1..] && b == [b[0]] + b[1..];
    }
  }

  lemma {:induction false} LexLeTransitive(a: string, b: string, c: string)
    requires LexLe(a, b) && LexLe(b, c)
    ensures LexLe(a, c)
  {
    if a != [] && b != [] && c != [] && a[0] == b[0] == c[0] {
      LexLeTransitive(a[1..], b[1..], c[1..]);
    }
  }

  function DigitChar(d: int): (c: char)
    requires 0 <= d < 10
    ensures '0' <= c <= '9' && c as int - '0' as int == d
  {
    ['0', '1', '2', '3', '4', '5', '6', '7', '8', '9'][d]
  }

  /** Python `str(n)` for a non-negative `int`. */
  function NatToDecimal(n: nat): (r: string)
    ensures |r| > 0 && forall i :: 0 <= i < |r| ==> '0' <= r[i] <= '9'
    ensures n > 0 ==> r[0] != '0'
  {
    if n < 10 then [DigitChar(n)] else NatToDecimal(n / 10) + [DigitChar(n % 10)]
  }

  /** The number a string of decimal digits denotes, most significant digit first. */
  function DecimalValue(r: string): nat
    requires forall i :: 0 <= i < |r| ==> '0' <= r[i] <= '9'
  {
    if r == [] then 0
    else DecimalValue(r[..|r| - 1]) * 10 + (r[|r| - 1] as int - '0' as int)
  }

  /**
   * `d` is how Python writes the non-negative number `v`: decimal digits,
   * without a leading zero unless `v` is 0, whose value is `v`.
   */
  predicate Denotes(d: string, v: nat) {
    && d != []
    && (forall i :: 0 <= i < |d| ==> '0' <= d[i] <= '9')
    && (v != 0 ==> d[0] != '0')
    && DecimalValue(d) == v
  }

  /** The digits of `str(n)` denote `n`. */
  lemma {:induction false} NatToDecimalValue(n: nat)
    ensures Denotes(NatToDecimal(n), n)
  {
    var r := NatToDecimal(n);
    if n >= 10 {
      NatToDecimalValue(n / 10);
      assert r[..|r| - 1] == NatToDecimal(n / 10);
    }
  }

  /** Python `str(n)` (and `f"{n}"`) for an `int`. */
  function IntToDecimal(n: int): (r: string)
    ensures |r| > 0
    ensures (r[0] == '-') <==> n < 0
  {
    if n < 0 then "-" + NatToDecimal(-n) else NatToDecimal(n)
  }

  /** `str(n)` is a minus sign exactly for negative `n`, then the digits of `|n|`. */
  lemma IntToDecimalValue(n: int)
    ensures n >= 0 ==> Denotes(IntToDecimal(n), n)
    ensures n < 0 ==> Denotes(IntToDecimal(n)[1..], -n)
  {
    var r := IntToDecimal(n);
    if n < 0 {
      var d := NatToDecimal(-n);
      assert r == "-" + d;
      assert r[1..] == d;
      NatToDecimalValue(-n);
    } else {
      assert r == NatToDecimal(n);
      NatToDecimalValue(n);
    }
  }
}

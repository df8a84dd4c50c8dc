/** The three JavaScript string built-ins the service relies on:
    `s.split(",")`, `s.replace(pattern, replacement)` with a string pattern,
    and `parseInt(s)` with no radix. */
module JsStrings {
  import opened Wrappers

  // ---------------------------------------------------------------------
  // s.split(",")
  // ---------------------------------------------------------------------

  /** `s.split(",")`: the pieces between commas, in order. Never empty:
      `"".split(",")` is `[""]`. */
  function Split(s: string): (r: seq<string>)
    ensures |r| >= 1
    ensures forall i :: 0 <= i < |r| ==> ',' !in r[i]
  {
    if s == [] then [""]
    else
      var rest := Split(s[1..]);
      if s[0] == ',' then [""] + rest
      else [[s[0]] + rest[0]] + rest[1..]
  }

  /** `ps.join(",")`, the inverse of `Split`. */
  function Join(ps: seq<string>): string
    requires |ps| >= 1
  {
    if |ps| == 1 then ps[0] else ps[0] + "," + Join(ps[1..])
  }

  /** `Join` of a first piece and the rest. */
  lemma JoinCons(p: string, tail: seq<string>)
    ensures Join([p] + tail) == if tail == [] then p else p + "," + Join(tail)
  {
    assert ([p] + tail)[0] == p && ([p] + tail)[1..] == tail;
  }

  lemma JoinPrepend(c: char, ps: seq<string>)
    requires |ps| >= 1
    ensures Join([[c] + ps[0]] + ps[1..]) == [c] + Join(ps)
  {
    var tail := ps[1..];
    assert ps == [ps[0]] + tail;
    JoinCons([c] + ps[0], tail);
    JoinCons(ps[0], tail);
    if tail != [] {
      PrependAssoc(c, ps[0], Join(tail));
    }
  }

  lemma PrependAssoc(c: char, p: string, rest: string)
    ensures ([c] + p) + "," + rest == [c] + (p + "," + rest)
  {
  }

  /** Joining the pieces back with commas gives the original string. */
  lemma {:induction false} JoinSplit(s: string)
    ensures Join(Split(s)) == s
  {
    if s != [] {
      JoinSplit(s[1..]);
      var rest := Split(s[1..]);
      if s[0] == ',' {
        assert ([""] + rest)[1..] == rest;
        assert s == [','] + s[1..];
      } else {
        JoinPrepend(s[0], rest);
        assert s == [s[0]] + s[1..];
      }
    }
  }

  lemma {:induction false} SplitAppend(x: string, t: string)
    requires ',' !in x
    ensures Split(x + t) == [x + Split(t)[0]] + Split(t)[1..]
  {
    var st := Split(t);
    if x != [] {
      var y := x + t;
      assert y != [] && y[0] == x[0] && y[0] != ',' && y[1..] == x[1..] + t;
      SplitAppend(x[1..], t);
      var rest := Split(y[1..]);
      assert rest == [x[1..] + st[0]] + st[1..];
      assert rest[0] == x[1..] + st[0] && rest[1..] == st[1..];
      assert Split(y) == [[x[0]] + rest[0]] + rest[1..];
      assert [x[0]] + (x[1..] + st[0]) == x + st[0];
    } else {
      assert x + t == t && x + st[0] == st[0];
      assert st == [st[0]] + st[1..];
    }
  }

  /** Splitting a comma-free list of pieces joined with commas gives the
      pieces back. */
  lemma {:induction false} SplitJoin(ps: seq<string>)
    requires |ps| >= 1
    requires forall i :: 0 <= i < |ps| ==> ',' !in ps[i]
    ensures Split(Join(ps)) == ps
  {
    if |ps| == 1 {
      SplitAppend(ps[0], "");
      assert ps[0] + "" == ps[0];
    } else {
      var tail := "," + Join(ps[1..]);
      SplitJoin(ps[1..]);
      assert tail[0] == ',' && tail[1..] == Join(ps[1..]);
      assert Split(tail) == [""] + ps[1..];
      SplitAppend(ps[0], tail);
      assert ps[0] + tail == Join(ps);
      assert ps[0] + "" == ps[0];
      assert ps == [ps[0]] + ps[1..];
    }
  }

  // ---------------------------------------------------------------------
  // s.replace(pattern, replacement) with a string pattern
  // ---------------------------------------------------------------------

  predicate OccursAt(s: string, pat: string, j: nat) {
    j + |pat| <= |s| && s[j..j + |pat|] == pat
  }

  /** `s.indexOf(pat, from)`: the first position at or after `from` where
      `pat` occurs. */
  function IndexOf(s: string, pat: string, from: nat): (r: Option<nat>)
    decreases |s| - from
    ensures r.Some? ==> from <= r.value && OccursAt(s, pat, r.value)
    ensures r.Some? ==> forall j :: from <= j < r.value ==> !OccursAt(s, pat, j)
    ensures r.None? ==> forall j :: from <= j ==> !OccursAt(s, pat, j)
  {
    if from + |pat| > |s| then None
    else if s[from..from + |pat|] == pat then Some(from)
    else IndexOf(s, pat, from + 1)
  }

  /** `s.replace(pat, rep)`: only the FIRST occurrence of `pat` is replaced;
      without an occurrence the string comes back unchanged. (The
      replacements this service uses contain no `$` patterns.) */
  function ReplaceFirst(s: string, pat: string, rep: string): (r: string)
    ensures (forall j :: !OccursAt(s, pat, j)) ==> r == s
    ensures forall i: nat ::
      OccursAt(s, pat, i) && (forall j: nat :: j < i ==> !OccursAt(s, pat, j)) ==>
      r == s[..i] + rep + s[i + |pat|..]
  {
    match IndexOf(s, pat, 0)
    case None => s
    case Some(i) => s[..i] + rep + s[i + |pat|..]
  }

  /** A string that starts with the pattern loses exactly that prefix. */
  lemma ReplacePrefix(pat: string, t: string, rep: string)
    ensures ReplaceFirst(pat + t, pat, rep) == rep + t
  {
    var s := pat + t;
    assert s[0..|pat|] == pat;
    assert IndexOf(s, pat, 0) == Some(0);
    assert s[..0] + rep + s[|pat|..] == rep + t;
  }

  /** Removing the first occurrence of a non-empty pattern leaves the empty
      string exactly when the string was empty or was the pattern itself. */
  lemma RemoveFirstEmptyIff(s: string, pat: string)
    requires pat != ""
    ensures ReplaceFirst(s, pat, "") == "" <==> s == "" || s == pat
  {
    match IndexOf(s, pat, 0)
    case None =>
      assert s[0..|s|] == s;
      assert !OccursAt(s, pat, 0);
    case Some(i) =>
      var r := s[..i] + s[i + |pat|..];
      assert |r| == |s| - |pat|;
      if r == "" {
        assert i == 0 && |s| == |pat|;
        assert s == s[0..|pat|];
      }
  }

  // ---------------------------------------------------------------------
  // parseInt(s) with no radix
  // ---------------------------------------------------------------------

  /** A JavaScript Number produced by `parseInt`: NaN or an integer.
      (`parseInt("-0")` is -0, which this model does not tell from 0; both
      index the same array slot and compare equal.) */
  datatype ParsedInt = NaN | Int(value: int)

  /** WhiteSpace and LineTerminator code points of ECMAScript, the characters
      `parseInt` skips before the number. */
  predicate IsJsSpace(c: char) {
    var n := c as int;
    n == 0x09 || n == 0x0A || n == 0x0B || n == 0x0C || n == 0x0D || n == 0x20
    || n == 0xA0 || n == 0x1680 || (0x2000 <= n <= 0x200A) || n == 0x2028
    || n == 0x2029 || n == 0x202F || n == 0x205F || n == 0x3000 || n == 0xFEFF
  }

  function TrimStart(s: string): (r: string)
    ensures r == [] || !IsJsSpace(r[0])
    ensures |r| <= |s|
  {
    if s != [] && IsJsSpace(s[0]) then TrimStart(s[1..]) else s
  }

  /** What `parseInt` skips is a prefix of blanks: the rest is a suffix of
      the input. */
  lemma {:induction false} TrimStartSuffix(s: string)
    ensures TrimStart(s) == s[|s| - |TrimStart(s)|..]
    ensures forall i :: 0 <= i < |s| - |TrimStart(s)| ==> IsJsSpace(s[i])
  {
    if s != [] && IsJsSpace(s[0]) {
      TrimStartSuffix(s[1..]);
      assert s[1..][|s| - 1 - |TrimStart(s)|..] == s[|s| - |TrimStart(s)|..];
    }
  }

  /** The value of a digit character in radix up to 36; 36 for a non-digit. */
  function DigitValue(c: char): nat {
    if '0' <= c <= '9' then c as int - '0' as int
    else if 'a' <= c <= 'z' then c as int - 'a' as int + 10
    else if 'A' <= c <= 'Z' then c as int - 'A' as int + 10
    else 36
  }

  predicate IsDigitIn(c: char, radix: nat) {
    DigitValue(c) < radix
  }

  /** The longest prefix of `s` made of digits of `radix`. */
  function DigitPrefix(s: string, radix: nat): (r: string)
    ensures |r| <= |s| && r == s[..|r|]
    ensures forall i :: 0 <= i < |r| ==> IsDigitIn(r[i], radix)
    ensures |r| < |s| ==> !IsDigitIn(s[|r|], radix)
  {
    if s == [] || !IsDigitIn(s[0], radix) then []
    else [s[0]] + DigitPrefix(s[1..], radix)
  }

  /** The integer a string of digits denotes in `radix`. */
  function DigitsValue(z: string, radix: nat): nat {
    if z == [] then 0
    else DigitsValue(z[..|z| - 1], radix) * radix + DigitValue(z[|z| - 1])
  }

  /** The number a run of digits of `radix` at the start of `v` denotes;
      NaN when `v` does not start with such a digit. */
  function ParseDigits(v: string, radix: nat): ParsedInt {
    var z := DigitPrefix(v, radix);
    if z == [] then NaN else Int(DigitsValue(z, radix))
  }

  predicate HasHexPrefix(u: string) {
    |u| >= 2 && u[0] == '0' && (u[1] == 'x' || u[1] == 'X')
  }

  /** An unsigned number: radix 16 after a `0x`/`0X` prefix, else radix 10. */
  function ParseMagnitude(u: string): ParsedInt {
    if HasHexPrefix(u) then ParseDigits(u[2..], 16) else ParseDigits(u, 10)
  }

  function Negate(p: ParsedInt): ParsedInt {
    match p
    case NaN => NaN
    case Int(v) => Int(-v)
  }

  /** `parseInt(s)`: skip leading white space, read an optional sign, then
      an unsigned number; no digits gives NaN. */
  function ParseInt(s: string): ParsedInt {
    var t := TrimStart(s);
    if |t| > 0 && t[0] == '-' then Negate(ParseMagnitude(t[1..]))
    else if |t| > 0 && t[0] == '+' then ParseMagnitude(t[1..])
    else ParseMagnitude(t)
  }

  // ---- the decimal notation a caller writes, and parseInt as its inverse ----

  function DigitChar(d: nat): (c: char)
    requires d < 10
    ensures '0' <= c <= '9' && DigitValue(c) == d
  {
    (('0' as int) + d) as char
  }

  /** The decimal digits of `n`, most significant first. */
  function NatDigits(n: nat): (r: string)
    ensures |r| >= 1
    ensures forall i :: 0 <= i < |r| ==> '0' <= r[i] <= '9'
  {
    if n < 10 then [DigitChar(n)] else NatDigits(n / 10) + [DigitChar(n % 10)]
  }

  /** The positional decimal rendering of an integer `n`: an optional "-"
      and its digits, with no exponent. */
  function Decimal(n: int): string {
    if n < 0 then "-" + NatDigits(-n) else NatDigits(n)
  }

  lemma {:induction false} NatDigitsValue(n: nat)
    ensures DigitsValue(NatDigits(n), 10) == n
  {
    if n >= 10 {
      var d := NatDigits(n);
      NatDigitsValue(n / 10);
      assert d[..|d| - 1] == NatDigits(n / 10);
    }
  }

  lemma {:induction false} DigitPrefixAll(s: string, radix: nat)
    requires forall i :: 0 <= i < |s| ==> IsDigitIn(s[i], radix)
    ensures DigitPrefix(s, radix) == s
  {
    if s != [] {
      DigitPrefixAll(s[1..], radix);
      assert s == [s[0]] + s[1..];
    }
  }

  lemma NatDigitsParse(m: nat)
    ensures ParseMagnitude(NatDigits(m)) == Int(m)
  {
    var digits := NatDigits(m);
    assert !HasHexPrefix(digits);
    forall i | 0 <= i < |digits| ensures IsDigitIn(digits[i], 10) {
    }
    DigitPrefixAll(digits, 10);
    NatDigitsValue(m);
  }

  /** A string that starts with neither blank nor sign is read as an
      unsigned number. */
  lemma ParseIntUnsigned(s: string)
    requires s != [] && !IsJsSpace(s[0]) && s[0] != '-' && s[0] != '+'
    ensures ParseInt(s) == ParseMagnitude(s)
  {
  }

  /** A sign right at the start: "-" negates the unsigned number after it,
      "+" leaves it as it is. */
  lemma ParseIntSign(u: string)
    ensures ParseInt("-" + u) == Negate(ParseMagnitude(u))
    ensures ParseInt("+" + u) == ParseMagnitude(u)
  {
  }

  /** `parseInt(String(n)) == n`: the week numbers a caller writes in decimal
      are read back exactly. */
  lemma ParseIntDecimal(n: int)
    ensures ParseInt(Decimal(n)) == Int(n)
  {
    if n < 0 {
      var u := NatDigits(-n);
      assert Decimal(n) == "-" + u;
      ParseIntSign(u);
      NatDigitsParse(-n);
      assert Negate(Int(-n)) == Int(n);
    } else {
      var d := NatDigits(n);
      assert '0' <= d[0] <= '9';
      ParseIntUnsigned(d);
      NatDigitsParse(n);
    }
  }

  /** Tokens with no digit to read give NaN: the empty string, a word, and
      a bare `0x` prefix. */
  lemma ParseIntNoDigits()
    ensures ParseInt("") == NaN && ParseInt("abc") == NaN && ParseInt("0x") == NaN
  {
    assert TrimStart("") == "" && DigitPrefix("", 10) == [];
    ParseIntUnsigned("abc");
    assert !HasHexPrefix("abc") && !IsDigitIn('a', 10);
    ParseIntUnsigned("0x");
    assert HasHexPrefix("0x") && "0x"[2..] == [];
    assert DigitPrefix([], 16) == [];
  }

  /** Blanks in front of a string are all skipped, and nothing after them. */
  lemma {:induction false} TrimStartBlanks(w: string, s: string)
    requires forall i :: 0 <= i < |w| ==> IsJsSpace(w[i])
    requires s == [] || !IsJsSpace(s[0])
    ensures TrimStart(w + s) == s
  {
    if w == [] {
      assert w + s == s;
    } else {
      TrimStartBlanks(w[1..], s);
      assert (w + s)[0] == w[0];
      assert (w + s)[1..] == w[1..] + s;
    }
  }

  /** Leading white space does not change what `parseInt` reads. */
  lemma ParseIntSkipsBlanks(w: string, s: string)
    requires forall i :: 0 <= i < |w| ==> IsJsSpace(w[i])
    requires s == [] || !IsJsSpace(s[0])
    ensures ParseInt(w + s) == ParseInt(s)
  {
    TrimStartBlanks(w, s);
    assert TrimStart(s) == s;
  }

  /** A run of digits followed by a non-digit yields a prefix of digits. */
  lemma {:induction false} DigitPrefixStops(d: string, t: string, radix: nat)
    requires forall i :: 0 <= i < |d| ==> IsDigitIn(d[i], radix)
    requires t == [] || !IsDigitIn(t[0], radix)
    ensures DigitPrefix(d + t, radix) == d
  {
    if d == [] {
      assert d + t == t;
    } else {
      DigitPrefixStops(d[1..], t, radix);
      assert (d + t)[0] == d[0];
      assert (d + t)[1..] == d[1..] + t;
      assert d == [d[0]] + d[1..];
    }
  }

  /** Reading stops at the first character that is not a decimal digit:
      the digits before it are the number, whatever follows. */
  lemma ParseIntStopsAtNonDigit(d: string, t: string)
    requires d != [] && forall i :: 0 <= i < |d| ==> IsDigitIn(d[i], 10)
    requires t == [] || !IsDigitIn(t[0], 10)
    requires !HasHexPrefix(d + t)
    ensures ParseInt(d + t) == Int(DigitsValue(d, 10))
  {
    var s := d + t;
    assert s[0] == d[0] && IsDigitIn(s[0], 10);
    ParseIntUnsigned(s);
    DigitPrefixStops(d, t, 10);
  }

  /** A `0x` or `0X` prefix switches to radix 16 for what follows it. */
  lemma ParseIntHex(d: string)
    ensures ParseInt("0x" + d) == ParseDigits(d, 16)
    ensures ParseInt("0X" + d) == ParseDigits(d, 16)
  {
  }

}

/** The Python built-ins the core leans on, stated over Dafny strings:
    optional values, `str.isspace`, `str.strip`, `str.split`, `str.join`,
    `int(str)` and `str(int)`.  Strings are sequences of code points, as in Python 3. */
module PyRuntime {

  /** Python's `None` or a value. */
  datatype Option<T> = None | Some(value: T)

  /** `c.isspace()`: the characters Python's argument-less `split()` and `strip()` treat as whitespace. */
  predicate IsSpace(c: char) {
    || c == ' '
    || ('\t' <= c <= '\r')
    || ('\U{1C}' <= c <= '\U{1F}')
    || c == '\U{85}' || c == '\U{A0}' || c == '\U{1680}'
    || ('\U{2000}' <= c <= '\U{200A}')
    || c == '\U{2028}' || c == '\U{2029}' || c == '\U{202F}' || c == '\U{205F}' || c == '\U{3000}'
  }

  predicate NoSpace(s: string) {
    forall i :: 0 <= i < |s| ==> !IsSpace(s[i])
  }

  /** `s.lstrip()` */
  function StripLeft(s: string): (r: string)
    ensures |r| <= |s| && r == s[|s| - |r|..]
    ensures forall i :: 0 <= i < |s| - |r| ==> IsSpace(s[i])
    ensures r != [] ==> !IsSpace(r[0])
  {
    if s != [] && IsSpace(s[0]) then StripLeft(s[1..]) else s
  }

  /** `s.rstrip()` */
  function StripRight(s: string): (r: string)
    ensures |r| <= |s| && r == s[..|r|]
    ensures forall i :: |r| <= i < |s| ==> IsSpace(s[i])
    ensures r != [] ==> !IsSpace(r[|r| - 1])
  {
    if s != [] && IsSpace(s[|s| - 1]) then StripRight(s[..|s| - 1]) else s
  }

  /** `s.strip()`: the slice of `s` left once whitespace is removed from both ends. */
  function Strip(s: string): (r: string)
    ensures |r| <= |s|
    ensures r != [] ==> !IsSpace(r[0]) && !IsSpace(r[|r| - 1])
    ensures r == [] <==> forall i :: 0 <= i < |s| ==> IsSpace(s[i])
  {
    StripRight(StripLeft(s))
  }

  /** `strip` removes whitespace only: every other character survives, in order. */
  lemma StripKeepsText(s: string)
    ensures Squeeze(Strip(s)) == Squeeze(s)
  {
    StripLeftKeepsText(s);
    StripRightKeepsText(StripLeft(s));
  }

  lemma {:induction false} StripLeftKeepsText(s: string)
    ensures Squeeze(StripLeft(s)) == Squeeze(s)
  {
    if s != [] && IsSpace(s[0]) {
      StripLeftKeepsText(s[1..]);
    }
  }

  lemma {:induction false} StripRightKeepsText(s: string)
    ensures Squeeze(StripRight(s)) == Squeeze(s)
  {
    if s != [] && IsSpace(s[|s| - 1]) {
      var init := s[..|s| - 1];
      StripRightKeepsText(init);
      assert s == init + [s[|s| - 1]];
      SqueezeAppend(init, [s[|s| - 1]]);
    }
  }

  /** Stripping a string that neither starts nor ends with whitespace leaves it unchanged; so `strip` is idempotent. */
  lemma StripFixed(s: string)
    requires s != [] ==> !IsSpace(s[0]) && !IsSpace(s[|s| - 1])
    ensures Strip(s) == s
  {
  }

  lemma StripIdempotent(s: string)
    ensures Strip(Strip(s)) == Strip(s)
  {
    StripFixed(Strip(s));
  }

  /** `s.split(c)` for a one-character separator: the pieces between occurrences of `c`, always at least one. */
  function SplitOn(s: string, c: char): (parts: seq<string>)
    ensures |parts| >= 1
    ensures |parts| > 1 <==> c in s
    ensures forall i :: 0 <= i < |parts| ==> c !in parts[i]
  {
    if s == [] then [""]
    else
      var rest := SplitOn(s[1..], c);
      if s[0] == c then [""] + rest
      else [[s[0]] + rest[0]] + rest[1..]
  }

  /** `sep.join(parts)` */
  function Join(parts: seq<string>, sep: string): string
  {
    if |parts| == 0 then ""
    else if |parts| == 1 then parts[0]
    else parts[0] + sep + Join(parts[1..], sep)
  }

  /** Joining the pieces of a split with the same separator gives back the original string. */
  lemma {:induction false} JoinSplitOn(s: string, c: char)
    ensures Join(SplitOn(s, c), [c]) == s
  {
    if s != [] {
      var rest := SplitOn(s[1..], c);
      JoinSplitOn(s[1..], c);
      if s[0] != c {
        if |rest| > 1 {
          assert Join(rest, [c]) == rest[0] + [c] + Join(rest[1..], [c]);
        }
      }
    }
  }

  /** Splitting a join of separator-free pieces gives back the pieces. */
  lemma {:induction false} SplitOnJoin(parts: seq<string>, c: char)
    requires |parts| >= 1
    requires forall i :: 0 <= i < |parts| ==> c !in parts[i]
    ensures SplitOn(Join(parts, [c]), c) == parts
  {
    if |parts| == 1 {
      SplitOnPlain(parts[0], c);
    } else {
      SplitOnJoin(parts[1..], c);
      SplitOnPrefix(parts[0], Join(parts[1..], [c]), c);
      assert Join(parts, [c]) == parts[0] + [c] + Join(parts[1..], [c]);
      assert [parts[0]] + parts[1..] == parts;
    }
  }

  lemma {:induction false} SplitOnPlain(s: string, c: char)
    requires c !in s
    ensures SplitOn(s, c) == [s]
  {
    if s != [] {
      SplitOnPlain(s[1..], c);
      assert [s[0]] + s[1..] == s;
    }
  }

  lemma {:induction false} SplitOnPrefix(p: string, t: string, c: char)
    requires c !in p
    ensures SplitOn(p + [c] + t, c) == [p] + SplitOn(t, c)
  {
    if p == [] {
      assert p + [c] + t == [c] + t;
      assert ([c] + t)[1..] == t;
    } else {
      SplitOnPrefix(p[1..], t, c);
      assert (p + [c] + t)[1..] == p[1..] + [c] + t;
      assert [p[0]] + p[1..] == p;
    }
  }

  /** Two separator-free pieces around one separator split back into those two pieces. */
  lemma SplitOnPair(a: string, b: string, c: char)
    requires c !in a && c !in b
    ensures SplitOn(a + [c] + b, c) == [a, b]
  {
    SplitOnPrefix(a, b, c);
    SplitOnPlain(b, c);
  }

  /** Splitting text that starts with a separator-free `t` glues `t` onto the first piece. */
  lemma {:induction false} SplitOnPrepend(t: string, x: string, c: char)
    requires c !in t
    ensures var ps := SplitOn(x, c); SplitOn(t + x, c) == [t + ps[0]] + ps[1..]
  {
    var ps := SplitOn(x, c);
    if t == [] {
      assert t + x == x && t + ps[0] == ps[0];
      assert [ps[0]] + ps[1..] == ps;
    } else {
      SplitOnPrepend(t[1..], x, c);
      assert (t + x)[1..] == t[1..] + x;
      assert [t[0]] + (t[1..] + ps[0]) == t + ps[0];
    }
  }

  /** Each of `ps` behind a copy of `t`. */
  function Behind(t: string, ps: seq<string>): (r: seq<string>)
    ensures |r| == |ps| && forall i :: 0 <= i < |ps| ==> r[i] == t + ps[i]
  {
    if ps == [] then [] else [t + ps[0]] + Behind(t, ps[1..])
  }

  /** A join with separator `c` followed by `t` (as in `", ".join(parts)`) splits at `c` into the first
      part and every later part behind a copy of `t`: the parts can be read back when none holds `c`. */
  lemma {:induction false} SplitOnJoinSep(parts: seq<string>, c: char, t: string)
    requires |parts| >= 1 && c !in t
    requires forall i :: 0 <= i < |parts| ==> c !in parts[i]
    ensures SplitOn(Join(parts, [c] + t), c) == [parts[0]] + Behind(t, parts[1..])
  {
    var sep := [c] + t;
    if |parts| == 1 {
      SplitOnPlain(parts[0], c);
    } else {
      var rest := parts[1..];
      var tail := Join(rest, sep);
      SplitOnJoinSep(rest, c, t);
      assert rest[1..] == parts[2..];
      assert Join(parts, sep) == parts[0] + [c] + (t + tail);
      SplitOnPrefix(parts[0], t + tail, c);
      SplitOnPrepend(t, tail, c);
      assert Behind(t, rest) == [t + rest[0]] + Behind(t, rest[1..]);
    }
  }

  /** A string that ends in `c` followed by `c`-free text splits there in only one way. */
  lemma LastSeparatorUnique(x1: string, t1: string, x2: string, t2: string, c: char)
    requires x1 + [c] + t1 == x2 + [c] + t2
    requires c !in t1 && c !in t2
    ensures x1 == x2 && t1 == t2
  {
    var s := x1 + [c] + t1;
    LastSeparator(x1, t1, c);
    LastSeparator(x2, t2, c);
    assert |x1| == |x2|;
    assert t1 == s[|x1| + 1..] == t2;
    assert x1 == s[..|x1|] == x2;
  }

  lemma LastSeparator(x: string, t: string, c: char)
    requires c !in t
    ensures var s := x + [c] + t; s[|x|] == c && forall k :: |x| < k < |s| ==> s[k] != c
  {
    var s := x + [c] + t;
    assert forall k :: |x| < k < |s| ==> s[k] == t[k - |x| - 1];
  }

  /** Index of the first `c` in `s`, or `|s|` when there is none. */
  function IndexOf(s: string, c: char): (k: nat)
    ensures k <= |s| && c !in s[..k]
    ensures k < |s| ==> s[k] == c
    ensures k == |s| <==> c !in s
  {
    if s == [] then 0
    else if s[0] == c then 0
    else
      var k := IndexOf(s[1..], c);
      assert s[..k + 1] == [s[0]] + s[1..][..k];
      k + 1
  }

  /** `s.split(c, 1)` when `c` occurs in `s`: the text before the first `c` and everything after it. */
  function SplitFirst(s: string, c: char): (r: (string, string))
    requires c in s
    ensures s == r.0 + [c] + r.1 && c !in r.0
  {
    var k := IndexOf(s, c);
    assert s == s[..k] + [c] + s[k + 1..];
    (s[..k], s[k + 1..])
  }

  /** `s.split(c)[-1]`: the text after the last `c` (all of `s` when there is none). */
  function AfterLast(s: string, c: char): (r: string)
    ensures c !in r
    ensures c in s ==> exists p :: s == p + [c] + r
    ensures c !in s ==> r == s
  {
    var parts := SplitOn(s, c);
    var last := parts[|parts| - 1];
    LastPieceIsSuffix(s, c);
    if c !in s then
      SplitOnPlain(s, c);
      last
    else
      var p := s[..|s| - |last| - 1];
      assert s == p + [c] + last;
      last
  }

  /** The last piece of a split is a suffix of the text, right behind a `c` when there is one. */
  lemma {:induction false} LastPieceIsSuffix(s: string, c: char)
    ensures var parts := SplitOn(s, c); var last := parts[|parts| - 1];
      |last| <= |s| && s[|s| - |last|..] == last && (c in s ==> |last| < |s| && s[|s| - |last| - 1] == c)
  {
    if s != [] {
      var rest := SplitOn(s[1..], c);
      var last := rest[|rest| - 1];
      LastPieceIsSuffix(s[1..], c);
      if s[0] == c || c in s[1..] {
        assert SplitOn(s, c)[|SplitOn(s, c)| - 1] == last;
        assert s[|s| - |last|..] == s[1..][|s| - 1 - |last|..];
        if c !in s[1..] {
          SplitOnPlain(s[1..], c);
        }
      } else {
        SplitOnPlain(s, c);
      }
    }
  }

  /** The longest prefix of `s` without whitespace. */
  function Token(s: string): (w: string)
    ensures |w| <= |s| && w == s[..|w|] && NoSpace(w)
    ensures s != [] && !IsSpace(s[0]) ==> |w| > 0
    ensures |w| < |s| ==> IsSpace(s[|w|])
  {
    if s == [] || IsSpace(s[0]) then ""
    else
      var w := Token(s[1..]);
      assert [s[0]] + w == s[..|w| + 1];
      [s[0]] + w
  }

  /** `s.split()`: the maximal runs of non-whitespace characters, in order. */
  function Words(s: string): seq<string>
    decreases |s|
  {
    var t := StripLeft(s);
    if t == [] then []
    else
      var w := Token(t);
      [w] + Words(t[|w|..])
  }

  /** Every word is non-empty and holds no whitespace. */
  lemma {:induction false} WordsAreWords(s: string)
    ensures forall x :: x in Words(s) ==> x != [] && NoSpace(x)
    decreases |s|
  {
    var t := StripLeft(s);
    if t != [] {
      var w := Token(t);
      WordsAreWords(t[|w|..]);
      assert Words(s) == [w] + Words(t[|w|..]);
    }
  }

  /** Concatenation of a sequence of strings. */
  function Concat(ws: seq<string>): string
  {
    if ws == [] then "" else ws[0] + Concat(ws[1..])
  }

  /** `s` with every whitespace character removed. */
  function Squeeze(s: string): string
  {
    if s == [] then "" else (if IsSpace(s[0]) then "" else [s[0]]) + Squeeze(s[1..])
  }

  lemma {:induction false} SqueezeAppend(a: string, b: string)
    ensures Squeeze(a + b) == Squeeze(a) + Squeeze(b)
  {
    if a != [] {
      SqueezeAppend(a[1..], b);
      assert (a + b)[1..] == a[1..] + b;
    } else {
      assert a + b == b;
    }
  }

  lemma {:induction false} SqueezeNoSpace(s: string)
    requires NoSpace(s)
    ensures Squeeze(s) == s
  {
    if s != [] { SqueezeNoSpace(s[1..]); }
  }

  /** `split()` loses exactly the whitespace: the words, glued together, are the input with its whitespace removed. */
  lemma {:induction false} WordsKeepText(s: string)
    ensures Concat(Words(s)) == Squeeze(s)
    decreases |s|
  {
    var t := StripLeft(s);
    StripLeftKeepsText(s);
    if t != [] {
      var w := Token(t);
      var rest := t[|w|..];
      WordsKeepText(rest);
      ConcatWordsStep(s);
      SqueezeTokenStep(t);
    }
  }

  lemma ConcatWordsStep(s: string)
    requires StripLeft(s) != []
    ensures var t := StripLeft(s); var w := Token(t);
      Concat(Words(s)) == w + Concat(Words(t[|w|..]))
  {
    var t := StripLeft(s);
    var ws := Words(t[|Token(t)|..]);
    assert Words(s) == [Token(t)] + ws;
    assert ([Token(t)] + ws)[1..] == ws;
  }

  lemma SqueezeTokenStep(t: string)
    ensures var w := Token(t); Squeeze(t) == w + Squeeze(t[|w|..])
  {
    var w := Token(t);
    assert t == w + t[|w|..];
    SqueezeAppend(w, t[|w|..]);
    SqueezeNoSpace(w);
  }

  predicate IsDigit(c: char) { '0' <= c <= '9' }

  function DigitValue(c: char): nat
    requires IsDigit(c)
  {
    c as int - '0' as int
  }

  function DigitChar(d: nat): (c: char)
    requires d < 10
    ensures IsDigit(c) && DigitValue(c) == d
  {
    ('0' as int + d) as char
  }

  /** Python's grammar for the digits of a decimal `int()` argument: ASCII digits, single underscores only between digits. */
  predicate DigitBody(s: string) {
    && |s| > 0 && IsDigit(s[0]) && IsDigit(s[|s| - 1])
    && (forall i :: 0 <= i < |s| ==> IsDigit(s[i]) || s[i] == '_')
    && (forall i :: 0 <= i < |s| - 1 ==> s[i] == '_' ==> s[i + 1] != '_')
  }

  /** The value of a digit string, underscores skipped. */
  function DigitsValue(s: string): nat
    requires forall i :: 0 <= i < |s| ==> IsDigit(s[i]) || s[i] == '_'
  {
    if s == [] then 0
    else if s[|s| - 1] == '_' then DigitsValue(s[..|s| - 1])
    else 10 * DigitsValue(s[..|s| - 1]) + DigitValue(s[|s| - 1])
  }

  /** `int(s)` in base 10: surrounding whitespace is ignored, one optional sign, then the digits;
      `None` is the `ValueError` Python raises for anything else. */
  function ParseInt(s: string): (r: Option<int>)
    ensures r.Some? ==> Strip(s) != []
  {
    var t := Strip(s);
    if t == [] then None
    else
      var body := if t[0] == '-' || t[0] == '+' then t[1..] else t;
      if DigitBody(body) then
        var v: int := DigitsValue(body);
        Some(if t[0] == '-' then -v else v)
      else None
  }

  /** `str(n)` for `n >= 0` */
  function NatToString(n: nat): (s: string)
    ensures |s| > 0 && forall i :: 0 <= i < |s| ==> IsDigit(s[i])
  {
    if n < 10 then [DigitChar(n)] else NatToString(n / 10) + [DigitChar(n % 10)]
  }

  /** `str(n)` */
  function IntToString(n: int): (s: string)
    ensures |s| > 0 && '_' !in s && NoSpace(s)
  {
    if n < 0 then "-" + NatToString(-n) else NatToString(n)
  }

  lemma {:induction false} NatToStringValue(n: nat)
    ensures DigitBody(NatToString(n)) && DigitsValue(NatToString(n)) == n
  {
    var s := NatToString(n);
    if n >= 10 {
      NatToStringValue(n / 10);
      assert s[..|s| - 1] == NatToString(n / 10);
    }
  }

  /** `int(str(n)) == n`: printing an integer and parsing it back is the identity. */
  lemma IntRoundTrip(n: int)
    ensures ParseInt(IntToString(n)) == Some(n)
  {
    var s := IntToString(n);
    StripFixed(s);
    if n < 0 {
      NatToStringValue(-n);
      assert s[1..] == NatToString(-n);
    } else {
      NatToStringValue(n);
    }
  }

  /** `str` is injective on integers. */
  lemma IntToStringInjective(a: int, b: int)
    requires IntToString(a) == IntToString(b)
    ensures a == b
  {
    IntRoundTrip(a);
    IntRoundTrip(b);
  }
}

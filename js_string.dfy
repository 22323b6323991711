/**
 * The few JavaScript string primitives the core relies on:
 * `String.prototype.trim`, `String.prototype.split` on a one-character
 * separator with its inverse `Array.prototype.join`, `padStart` with a
 * one-character filler, and `Number.prototype.toString(radix)` on
 * non-negative integers.
 */
module JsString {

  // ---------------------------------------------------------------------
  // trim
  // ---------------------------------------------------------------------

  /** The characters `trim` removes: ECMAScript WhiteSpace and LineTerminator. */
  predicate IsWhitespace(c: char) {
    c == '\t' || c == '\n' || c == '\U{000B}' || c == '\U{000C}' || c == '\r'
    || c == ' ' || c == '\U{00A0}' || c == '\U{1680}'
    || ('\U{2000}' <= c <= '\U{200A}')
    || c == '\U{2028}' || c == '\U{2029}' || c == '\U{202F}' || c == '\U{205F}'
    || c == '\U{3000}' || c == '\U{FEFF}'
  }

  predicate AllWhitespace(s: string) {
    forall i :: 0 <= i < |s| ==> IsWhitespace(s[i])
  }

  /** Neither starts nor ends with whitespace. */
  predicate Trimmed(s: string) {
    s == [] || (!IsWhitespace(s[0]) && !IsWhitespace(s[|s| - 1]))
  }

  /** The first offset at or after `i` that is not whitespace (or `|s|`). */
  function SkipWhitespace(s: string, i: nat): (j: nat)
    requires i <= |s|
    ensures i <= j <= |s|
    ensures forall k :: i <= k < j ==> IsWhitespace(s[k])
    ensures j == |s| || !IsWhitespace(s[j])
    decreases |s| - i
  {
    if i < |s| && IsWhitespace(s[i]) then SkipWhitespace(s, i + 1) else i
  }

  /** The end of `s[lo..hi]` once its trailing whitespace is cut off. */
  function CutTrailing(s: string, lo: nat, hi: nat): (e: nat)
    requires lo <= hi <= |s|
    ensures lo <= e <= hi
    ensures forall k :: e <= k < hi ==> IsWhitespace(s[k])
    ensures e == lo || !IsWhitespace(s[e - 1])
    decreases hi
  {
    if lo < hi && IsWhitespace(s[hi - 1]) then CutTrailing(s, lo, hi - 1) else hi
  }

  /**
   * `s.trim()`: the infix of `s` left after removing whitespace from both
   * ends. It starts at the first non-whitespace offset, everything before
   * and after it is whitespace, and it neither starts nor ends with
   * whitespace.
   */
  function Trim(s: string): (r: string)
    ensures Trimmed(r)
    ensures var lead := SkipWhitespace(s, 0);
      lead + |r| <= |s| && r == s[lead..lead + |r|]
      && (forall i :: 0 <= i < lead ==> IsWhitespace(s[i]))
      && (forall i :: lead + |r| <= i < |s| ==> IsWhitespace(s[i]))
  {
    var lead := SkipWhitespace(s, 0);
    s[lead..CutTrailing(s, lead, |s|)]
  }

  /** The trim is empty exactly when the string is all whitespace. */
  lemma TrimEmpty(s: string)
    ensures Trim(s) == [] <==> AllWhitespace(s)
  {
  }

  /** A string that is already trimmed is its own trim. */
  lemma TrimOfTrimmed(s: string)
    requires Trimmed(s)
    ensures Trim(s) == s
  {
  }

  /** Trimming keeps only characters of the input. */
  lemma TrimChars(s: string, c: char)
    requires c in Trim(s)
    ensures c in s
  {
    var lead := SkipWhitespace(s, 0);
    var r := Trim(s);
    var k :| 0 <= k < |r| && r[k] == c;
    assert s[lead + k] == c;
  }

  // ---------------------------------------------------------------------
  // split / join on a one-character separator
  // ---------------------------------------------------------------------

  /** Number of occurrences of `c` in `s`. */
  function Count(s: string, c: char): nat {
    if s == [] then 0 else (if s[0] == c then 1 else 0) + Count(s[1..], c)
  }

  /**
   * `s.split(sep)` for a one-character `sep`: the pieces between
   * separators, empty pieces included; `"".split(",")` is `[""]`.
   */
  function Split(s: string, sep: char): (r: seq<string>)
    ensures |r| == Count(s, sep) + 1
    ensures forall k :: 0 <= k < |r| ==> sep !in r[k]
  {
    if s == [] then [[]]
    else
      var rest := Split(s[1..], sep);
      if s[0] == sep then [[]] + rest
      else [[s[0]] + rest[0]] + rest[1..]
  }

  /** `pieces.join(sep)`. */
  function Join(pieces: seq<string>, sep: char): string {
    if pieces == [] then []
    else if |pieces| == 1 then pieces[0]
    else pieces[0] + [sep] + Join(pieces[1..], sep)
  }

  /** Joining the pieces of a split gives back the string. */
  lemma {:induction false} JoinSplit(s: string, sep: char)
    ensures Join(Split(s, sep), sep) == s
  {
    if s != [] {
      var rest := Split(s[1..], sep);
      JoinSplit(s[1..], sep);
      if s[0] == sep {
        var empty: string := [];
        assert Join([empty] + rest, sep) == empty + [sep] + Join(rest, sep);
      } else {
        var r := [[s[0]] + rest[0]] + rest[1..];
        if |rest| == 1 {
          assert Join(r, sep) == [s[0]] + rest[0];
        } else {
          assert r[1..] == rest[1..];
          assert Join(rest, sep) == rest[0] + [sep] + Join(rest[1..], sep);
          assert Join(r, sep) == ([s[0]] + rest[0]) + [sep] + Join(rest[1..], sep);
        }
      }
    }
  }

  /** A separator-free prefix extends the first piece of the split. */
  lemma {:induction false} SplitPrefix(x: string, t: string, sep: char)
    requires sep !in x
    ensures Split(x + t, sep) == [x + Split(t, sep)[0]] + Split(t, sep)[1..]
  {
    var st := Split(t, sep);
    if x == [] {
      assert x + t == t;
      assert x + st[0] == st[0];
      assert st == [st[0]] + st[1..];
    } else {
      assert x[0] in x;
      assert sep !in x[1..] by {
        forall c | c in x[1..] ensures c in x { }
      }
      assert (x + t)[1..] == x[1..] + t;
      SplitPrefix(x[1..], t, sep);
      var rest := Split(x[1..] + t, sep);
      assert rest[0] == x[1..] + st[0];
      assert rest[1..] == st[1..];
      assert [x[0]] + rest[0] == x + st[0];
    }
  }

  /** Splitting at a separator splits the two sides independently. */
  lemma {:induction false} SplitAppend(a: string, b: string, sep: char)
    ensures Split(a + [sep] + b, sep) == Split(a, sep) + Split(b, sep)
  {
    if a == [] {
      assert a + [sep] + b == [sep] + b;
      SplitCons(sep, b, sep);
    } else {
      SplitAppend(a[1..], b, sep);
      SplitAppendStep(a[0], a[1..], b, sep);
      assert [a[0]] + a[1..] == a;
    }
  }

  /** The inductive step of `SplitAppend`: putting one character in front. */
  lemma SplitAppendStep(c: char, t: string, b: string, sep: char)
    requires Split(t + [sep] + b, sep) == Split(t, sep) + Split(b, sep)
    ensures Split([c] + t + [sep] + b, sep) == Split([c] + t, sep) + Split(b, sep)
  {
    var u := t + [sep] + b;
    assert [c] + t + [sep] + b == [c] + u;
    SplitCons(c, u, sep);
    SplitCons(c, t, sep);
    if c == sep {
      PiecesAssoc(Split(t, sep), Split(b, sep));
    } else {
      PiecesExtendFirst([c], Split(t, sep), Split(b, sep));
    }
  }

  lemma PiecesAssoc(rt: seq<string>, rb: seq<string>)
    ensures [[]] + (rt + rb) == ([[]] + rt) + rb
  {
  }

  /** Extending the first piece commutes with appending more pieces. */
  lemma PiecesExtendFirst(x: string, rt: seq<string>, rb: seq<string>)
    requires |rt| >= 1
    ensures [x + (rt + rb)[0]] + (rt + rb)[1..] == ([x + rt[0]] + rt[1..]) + rb
  {
    assert (rt + rb)[0] == rt[0] && (rt + rb)[1..] == rt[1..] + rb;
  }

  /** One step of the split: how the first character joins the pieces of the rest. */
  lemma SplitCons(c: char, t: string, sep: char)
    ensures Split([c] + t, sep) ==
      if c == sep then [[]] + Split(t, sep) else [[c] + Split(t, sep)[0]] + Split(t, sep)[1..]
  {
    assert ([c] + t)[0] == c && ([c] + t)[1..] == t;
  }

  /** Splitting a join of separator-free pieces gives back the pieces. */
  lemma {:induction false} SplitJoin(pieces: seq<string>, sep: char)
    requires |pieces| >= 1
    requires forall k :: 0 <= k < |pieces| ==> sep !in pieces[k]
    ensures Split(Join(pieces, sep), sep) == pieces
  {
    var x := pieces[0];
    if |pieces| == 1 {
      SplitPrefix(x, [], sep);
      assert x + [] == x;
    } else {
      var t := [sep] + Join(pieces[1..], sep);
      assert Join(pieces, sep) == x + t;
      SplitPrefix(x, t, sep);
      SplitJoin(pieces[1..], sep);
      assert t[1..] == Join(pieces[1..], sep);
      assert t != [] && t[0] == sep;
      assert Split(t, sep) == [[]] + Split(t[1..], sep);
      assert Split(t, sep)[0] == [] && Split(t, sep)[1..] == pieces[1..];
      assert x + [] == x;
      assert pieces == [x] + pieces[1..];
    }
  }

  // ---------------------------------------------------------------------
  // Number.prototype.toString(radix) and padStart
  // ---------------------------------------------------------------------

  /** `0`-`9` or a lower-case letter: a digit in some radix up to 36. */
  predicate IsDigit36(c: char) {
    '0' <= c <= '9' || 'a' <= c <= 'z'
  }

  /** The value of a digit character. */
  function DigitValue(c: char): nat {
    if '0' <= c <= '9' then c as int - '0' as int
    else if 'a' <= c <= 'z' then c as int - 'a' as int + 10
    else 0
  }

  /** The digit JavaScript writes for the value `d` (lower case past 9). */
  function Digit(d: nat): (c: char)
    requires d < 36
    ensures IsDigit36(c) && DigitValue(c) == d
  {
    if d < 10 then ('0' as int + d) as char else ('a' as int + d - 10) as char
  }

  /** A digit of value below `radix`. */
  predicate IsDigitIn(c: char, radix: nat) {
    IsDigit36(c) && DigitValue(c) < radix
  }

  lemma {:induction false} MulAtLeastDouble(q: nat, radix: nat)
    requires radix >= 2
    ensures q * radix >= 2 * q
  {
    if q > 0 {
      MulAtLeastDouble(q - 1, radix);
      assert q * radix == (q - 1) * radix + radix;
    }
  }

  lemma DivMod(n: nat, radix: nat)
    requires 2 <= radix
    ensures n == (n / radix) * radix + n % radix
  {
  }

  lemma DivBounds(n: nat, radix: nat)
    requires 2 <= radix <= n
    ensures 1 <= n / radix < n
    ensures n == (n / radix) * radix + n % radix
  {
    DivMod(n, radix);
    MulAtLeastDouble(n / radix, radix);
  }

  /**
   * `n.toString(radix)` for a non-negative integer `n`: digits below the
   * radix, most significant first, with no leading zero.
   */
  function ToRadixString(n: nat, radix: nat): (r: string)
    requires 2 <= radix <= 36
    ensures |r| >= 1
    ensures forall k :: 0 <= k < |r| ==> IsDigitIn(r[k], radix)
    ensures r[0] == '0' ==> n == 0
    decreases n
  {
    if n < radix then [Digit(n)]
    else
      DivBounds(n, radix);
      ToRadixString(n / radix, radix) + [Digit(n % radix)]
  }

  /** The number a string of digits stands for in `radix`. */
  function RadixValue(s: string, radix: nat): nat {
    if s == [] then 0 else RadixValue(s[..|s| - 1], radix) * radix + DigitValue(s[|s| - 1])
  }

  /** Reading back what `toString(radix)` wrote gives the number. */
  lemma RadixValueSnoc(p: string, c: char, radix: nat)
    ensures RadixValue(p + [c], radix) == RadixValue(p, radix) * radix + DigitValue(c)
  {
    assert (p + [c])[..|p|] == p;
  }

  /** One step of the round trip: the last digit and the rest. */
  lemma RadixStep(n: nat, radix: nat)
    requires 2 <= radix <= 36 && radix <= n
    requires RadixValue(ToRadixString(n / radix, radix), radix) == n / radix
    ensures RadixValue(ToRadixString(n, radix), radix) == n
  {
    DivBounds(n, radix);
    var q, m := n / radix, n % radix;
    var p := ToRadixString(q, radix);
    assert ToRadixString(n, radix) == p + [Digit(m)];
    RadixValueSnoc(p, Digit(m), radix);
    var v := RadixValue(p, radix);
    assert RadixValue(p + [Digit(m)], radix) == v * radix + m;
    assert v == q;
  }

  lemma {:induction false} RadixRoundTrip(n: nat, radix: nat)
    requires 2 <= radix <= 36
    ensures RadixValue(ToRadixString(n, radix), radix) == n
    decreases n
  {
    if n < radix {
      assert [Digit(n)][..0] == [];
    } else {
      DivBounds(n, radix);
      RadixRoundTrip(n / radix, radix);
      RadixStep(n, radix);
    }
  }

  /** Decimal rendering, as a template literal renders a whole number. */
  function Decimal(n: nat): (s: string)
    ensures |s| >= 1 && (forall k :: 0 <= k < |s| ==> IsDigitIn(s[k], 10))
    ensures RadixValue(s, 10) == n
  {
    RadixRoundTrip(n, 10);
    ToRadixString(n, 10)
  }

  /** `s.padStart(width, [pad])`. */
  function PadStart(s: string, width: nat, pad: char): (r: string)
    ensures |r| == if |s| >= width then |s| else width
    ensures r[|r| - |s|..] == s
    ensures forall k :: 0 <= k < |r| - |s| ==> r[k] == pad
  {
    if |s| >= width then s else seq(width - |s|, _ => pad) + s
  }
}

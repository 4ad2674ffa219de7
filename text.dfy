/**
 * The JavaScript string primitives the core relies on, over `string`
 * (`seq<char>`): `trim` and the regular-expression class `\s`, ASCII case
 * mapping (the only case folding the core's patterns can observe),
 * `split` on a literal separator, global replacement, and `Number`.
 */
module Text {
  import opened Wrappers

  /** The characters of `String.prototype.trim` and of the class `\s`
      (WhiteSpace and LineTerminator of ECMAScript). */
  predicate IsSpace(c: char) {
    var n := c as int;
    (9 <= n <= 13) || n == 0x20 || n == 0xA0 || n == 0x1680 || (0x2000 <= n <= 0x200A)
    || n == 0x2028 || n == 0x2029 || n == 0x202F || n == 0x205F || n == 0x3000 || n == 0xFEFF
  }

  predicate IsDigit(c: char) {
    '0' <= c <= '9'
  }

  predicate AllDigits(s: string) {
    forall i :: 0 <= i < |s| ==> IsDigit(s[i])
  }

  function DigitValue(c: char): (d: nat)
    requires IsDigit(c)
    ensures d < 10
  {
    (c as int) - ('0' as int)
  }

  function DigitChar(d: nat): (c: char)
    requires d < 10
    ensures IsDigit(c) && DigitValue(c) == d
  {
    (('0' as int) + d) as char
  }

  /** A digit is the digit of its own value. */
  lemma DigitCharOfValue(c: char)
    requires IsDigit(c)
    ensures DigitChar(DigitValue(c)) == c
  {
  }

  /** The value of a string of decimal digits (`parseInt(s, 10)` on digits only). */
  function DigitsValue(s: string): nat
    requires AllDigits(s)
  {
    if s == [] then 0 else DigitsValue(s[..|s| - 1]) * 10 + DigitValue(s[|s| - 1])
  }

  /** One or two digits spell a number below 100. */
  lemma ShortDigitsValue(s: string)
    requires |s| <= 2 && AllDigits(s)
    ensures DigitsValue(s) < 100
  {
    if s != [] {
      assert DigitsValue(s[..|s| - 1]) < 10;
    }
  }

  function UpperAscii(c: char): char {
    if 'a' <= c <= 'z' then (c as int - 32) as char else c
  }

  function LowerAscii(c: char): char {
    if 'A' <= c <= 'Z' then (c as int + 32) as char else c
  }

  predicate IsAsciiLetter(c: char) {
    'A' <= c <= 'Z' || 'a' <= c <= 'z'
  }

  /** `toLowerCase()` on the characters the core's patterns can see. */
  function LowerAsciiString(s: string): (r: string)
    ensures |r| == |s|
    ensures forall i :: 0 <= i < |s| ==> r[i] == LowerAscii(s[i])
    ensures forall i :: 0 <= i < |r| ==> !('A' <= r[i] <= 'Z')
    ensures forall i :: 0 <= i < |s| ==> UpperAscii(r[i]) == UpperAscii(s[i])
    ensures forall i :: 0 <= i < |s| && !IsAsciiLetter(s[i]) ==> r[i] == s[i]
  {
    seq(|s|, i requires 0 <= i < |s| => LowerAscii(s[i]))
  }

  /** Lower-casing works character by character, so it distributes over a join. */
  lemma LowerAsciiAppend(u: string, v: string)
    ensures LowerAsciiString(u + v) == LowerAsciiString(u) + LowerAsciiString(v)
  {
  }

  /** Text without ASCII letters is its own lower case. */
  lemma LowerAsciiNoLetters(u: string)
    requires forall i :: 0 <= i < |u| ==> !IsAsciiLetter(u[i])
    ensures LowerAsciiString(u) == u
  {
  }

  /** Equality of a case-insensitive regular expression (non-unicode mode) on ASCII letters. */
  predicate SameLetterIgnoringCase(a: char, b: char) {
    UpperAscii(a) == UpperAscii(b)
  }

  /** `s` starts with `w`, letters compared without case. */
  predicate StartsWithIgnoringCase(s: string, w: string) {
    |w| <= |s| && forall i :: 0 <= i < |w| ==> SameLetterIgnoringCase(s[i], w[i])
  }

  /** `s.trimStart()`: drops the longest prefix of white space. */
  function TrimStart(s: string): (r: string)
    ensures |r| <= |s| && r == s[|s| - |r|..]
    ensures forall i :: 0 <= i < |s| - |r| ==> IsSpace(s[i])
    ensures r == [] || !IsSpace(r[0])
  {
    if s != [] && IsSpace(s[0]) then
      var r := TrimStart(s[1..]);
      assert s[1..][|s| - 1 - |r|..] == s[|s| - |r|..];
      r
    else s
  }

  /** `s.trimEnd()`: drops the longest suffix of white space. */
  function TrimEnd(s: string): (r: string)
    ensures |r| <= |s| && r == s[..|r|]
    ensures forall i :: |r| <= i < |s| ==> IsSpace(s[i])
    ensures r == [] || !IsSpace(r[|r| - 1])
  {
    if s != [] && IsSpace(s[|s| - 1]) then TrimEnd(s[..|s| - 1]) else s
  }

  /** `s.trim()`. */
  function Trim(s: string): string {
    TrimEnd(TrimStart(s))
  }

  /** Text that neither starts nor ends with white space is its own trim. */
  lemma TrimUnpadded(s: string)
    requires s != [] && !IsSpace(s[0]) && !IsSpace(s[|s| - 1])
    ensures Trim(s) == s
  {
    assert TrimStart(s) == s;
  }

  /** `s.trim()` is empty exactly when `s` is all white space. */
  lemma TrimEmptyIff(s: string)
    ensures Trim(s) == [] <==> forall i :: 0 <= i < |s| ==> IsSpace(s[i])
  {
    var t := TrimStart(s);
    if Trim(s) == [] {
      assert t == [];
    } else {
      assert t != [] && t[0] == s[|s| - |t|];
    }
  }

  /** `s.trim()` removes white space at both ends and nothing else: the
      result is the piece of `s` between two runs of white space. */
  lemma TrimIsPiece(s: string)
    ensures exists a, b ::
      && 0 <= a <= b <= |s| && Trim(s) == s[a..b]
      && (forall i :: 0 <= i < a ==> IsSpace(s[i]))
      && (forall i :: b <= i < |s| ==> IsSpace(s[i]))
    ensures Trim(s) == [] || (!IsSpace(Trim(s)[0]) && !IsSpace(Trim(s)[|Trim(s)| - 1]))
  {
    var t := TrimStart(s);
    var r := TrimEnd(t);
    PaddedPiece(s, t, r);
    var a := |s| - |t|;
    var b := a + |r|;
    assert Trim(s) == s[a..b];
    TrimEnds(s);
  }

  /**
   * A prefix `r` of a suffix `t` of `s`, where `s` has only white space before
   * `t` and `t` only white space after `r`, is a piece of `s` padded by white space.
   */
  lemma PaddedPiece(s: string, t: string, r: string)
    requires |t| <= |s| && t == s[|s| - |t|..] && forall i :: 0 <= i < |s| - |t| ==> IsSpace(s[i])
    requires |r| <= |t| && r == t[..|r|] && forall i :: |r| <= i < |t| ==> IsSpace(t[i])
    ensures r == s[|s| - |t|..|s| - |t| + |r|]
    ensures forall i :: |s| - |t| + |r| <= i < |s| ==> IsSpace(s[i])
  {
    var a := |s| - |t|;
    forall i | a + |r| <= i < |s| ensures IsSpace(s[i]) {
      assert s[i] == t[i - a];
    }
  }

  /** A non-empty `Trim(s)` neither starts nor ends with white space. */
  lemma TrimEnds(s: string)
    ensures Trim(s) == [] || (!IsSpace(Trim(s)[0]) && !IsSpace(Trim(s)[|Trim(s)| - 1]))
  {
    var t := TrimStart(s);
    if Trim(s) != [] {
      assert Trim(s)[0] == t[0];
    }
  }

  /** `s.replace(/c/g, rep)`: every occurrence of the character `c` replaced by `rep`. */
  function ReplaceChar(s: string, c: char, rep: string): (r: string)
    ensures c !in rep ==> c !in r
    ensures forall x :: x in r ==> x in s || x in rep
  {
    if s == [] then []
    else (if s[0] == c then rep else [s[0]]) + ReplaceChar(s[1..], c, rep)
  }

  /** Replacing in a join is replacing in each part, so the replacement keeps
      every other character, in order. */
  lemma {:induction false} ReplaceCharAppend(a: string, b: string, c: char, rep: string)
    ensures ReplaceChar(a + b, c, rep) == ReplaceChar(a, c, rep) + ReplaceChar(b, c, rep)
  {
    if a == [] {
      assert a + b == b;
    } else {
      assert (a + b)[1..] == a[1..] + b;
      ReplaceCharAppend(a[1..], b, c, rep);
    }
  }

  /** The empty text stays empty, and one character becomes `rep` exactly when it is `c`. */
  lemma ReplaceCharOne(x: char, c: char, rep: string)
    ensures ReplaceChar([], c, rep) == []
    ensures ReplaceChar([x], c, rep) == if x == c then rep else [x]
  {
    assert [x][1..] == [];
  }

  /** Text without `c` is left as it is. */
  lemma {:induction false} ReplaceCharAbsent(s: string, c: char, rep: string)
    requires c !in s
    ensures ReplaceChar(s, c, rep) == s
  {
    if s != [] {
      assert s[0] != c;
      assert c !in s[1..];
      ReplaceCharAbsent(s[1..], c, rep);
      assert [s[0]] + s[1..] == s;
    }
  }

  /**
   * `s.replace(new RegExp(w, 'gi'), rep)` for a word `w` of plain letters:
   * the occurrences are taken leftmost first, each search resuming after the
   * previous occurrence.
   */
  function ReplaceWordIgnoringCase(s: string, w: string, rep: string): string
    requires |w| > 0
    decreases |s|
  {
    if s == [] then []
    else if StartsWithIgnoringCase(s, w) then rep + ReplaceWordIgnoringCase(s[|w|..], w, rep)
    else [s[0]] + ReplaceWordIgnoringCase(s[1..], w, rep)
  }

  /** Text shorter than the word holds no occurrence of it and is left as it is. */
  lemma {:induction false} ReplaceWordShort(s: string, w: string, rep: string)
    requires |w| > 0 && |s| < |w|
    ensures ReplaceWordIgnoringCase(s, w, rep) == s
    decreases |s|
  {
    if s != [] {
      ReplaceWordShort(s[1..], w, rep);
      assert [s[0]] + s[1..] == s;
    }
  }

  /** Text with no case-blind occurrence of the word is left as it is. */
  lemma {:induction false} ReplaceWordAbsent(s: string, w: string, rep: string)
    requires |w| > 0
    requires forall i :: 0 <= i < |s| ==> !StartsWithIgnoringCase(s[i..], w)
    ensures ReplaceWordIgnoringCase(s, w, rep) == s
    decreases |s|
  {
    if s != [] {
      assert !StartsWithIgnoringCase(s[0..], w);
      assert s[0..] == s;
      forall i | 0 <= i < |s[1..]|
        ensures !StartsWithIgnoringCase(s[1..][i..], w)
      {
        assert s[1..][i..] == s[i + 1..];
      }
      ReplaceWordAbsent(s[1..], w, rep);
      assert [s[0]] + s[1..] == s;
    }
  }

  /** Text holding no letter that matches the word's first letter holds no occurrence of the word. */
  lemma NoInitialNoWord(s: string, w: string)
    requires |w| > 0 && forall i :: 0 <= i < |s| ==> !SameLetterIgnoringCase(s[i], w[0])
    ensures forall i :: 0 <= i < |s| ==> !StartsWithIgnoringCase(s[i..], w)
  {
    forall i | 0 <= i < |s|
      ensures !StartsWithIgnoringCase(s[i..], w)
    {
      assert s[i..][0] == s[i];
    }
  }

  /**
   * `w` holds no case-blind occurrence of `v` when, at each position, fewer
   * than `|v|` characters remain or one of the first two letters differs.
   */
  lemma NotInside(w: string, v: string)
    requires |v| >= 2
    requires forall i :: 0 <= i < |w| ==>
      |w| - i < |v| || !SameLetterIgnoringCase(w[i], v[0]) || !SameLetterIgnoringCase(w[i + 1], v[1])
    ensures forall i :: 0 <= i < |w| ==> !StartsWithIgnoringCase(w[i..], v)
  {
    forall i | 0 <= i < |w|
      ensures !StartsWithIgnoringCase(w[i..], v)
    {
      if |w| - i >= |v| {
        assert w[i..][0] == w[i] && w[i..][1] == w[i + 1];
      }
    }
  }

  /** Text no longer than the word that does not start with it is left as it is. */
  lemma ReplaceWordNoFit(s: string, w: string, rep: string)
    requires |w| > 0 && |s| <= |w| && !StartsWithIgnoringCase(s, w)
    ensures ReplaceWordIgnoringCase(s, w, rep) == s
  {
    if s != [] {
      ReplaceWordAtSkip(s, w, rep);
      ReplaceWordShort(s[1..], w, rep);
      assert [s[0]] + s[1..] == s;
    }
  }

  /** Text that is the word itself, up to case, becomes the replacement. */
  lemma ReplaceWordWhole(s: string, w: string, rep: string)
    requires |w| > 0 && |s| == |w| && StartsWithIgnoringCase(s, w)
    ensures ReplaceWordIgnoringCase(s, w, rep) == rep
  {
    ReplaceWordAtMatch(s, w, rep);
    assert s[|w|..] == [];
    assert rep + [] == rep;
  }

  /** A word of letters never matches text that starts with a non-letter. */
  lemma NonLetterStartsNoWord(s: string, w: string)
    requires |w| > 0 && (forall i :: 0 <= i < |w| ==> IsAsciiLetter(w[i]))
    requires s != [] && !IsAsciiLetter(s[0])
    ensures !StartsWithIgnoringCase(s, w)
  {
    assert IsAsciiLetter(w[0]);
  }

  /** A word of letters that `s` starts with ends before any non-letter of `s`. */
  lemma WordStopsAtNonLetter(s: string, w: string, k: nat)
    requires (forall i :: 0 <= i < |w| ==> IsAsciiLetter(w[i])) && StartsWithIgnoringCase(s, w)
    requires k < |s| && !IsAsciiLetter(s[k])
    ensures |w| <= k
  {
    LettersOfWord(s, w);
  }

  /** What a word of letters matches, case-blind, is letters. */
  lemma LettersOfWord(s: string, w: string)
    requires (forall i :: 0 <= i < |w| ==> IsAsciiLetter(w[i])) && StartsWithIgnoringCase(s, w)
    ensures forall k :: 0 <= k < |w| ==> IsAsciiLetter(s[k])
  {
    forall k | 0 <= k < |w| ensures IsAsciiLetter(s[k]) {
      assert SameLetterIgnoringCase(s[k], w[k]) && IsAsciiLetter(w[k]);
    }
  }

  /** A case-blind prefix test reads only the first `|w|` characters. */
  lemma StartsWithPrefix(a: string, s: string, w: string)
    requires |a| <= |s| && s[..|a|] == a
    ensures StartsWithIgnoringCase(a, w) ==> StartsWithIgnoringCase(s, w)
    ensures StartsWithIgnoringCase(s, w) && |w| <= |a| ==> StartsWithIgnoringCase(a, w)
  {
    forall i | 0 <= i < |a| ensures s[i] == a[i] {
      assert s[..|a|][i] == s[i];
    }
  }

  /** One unfolding of the replacement at an occurrence of the word. */
  lemma ReplaceWordAtMatch(s: string, w: string, rep: string)
    requires |w| > 0 && s != [] && StartsWithIgnoringCase(s, w)
    ensures ReplaceWordIgnoringCase(s, w, rep) == rep + ReplaceWordIgnoringCase(s[|w|..], w, rep)
  {
  }

  /** One unfolding of the replacement where the word does not start. */
  lemma ReplaceWordAtSkip(s: string, w: string, rep: string)
    requires |w| > 0 && s != [] && !StartsWithIgnoringCase(s, w)
    ensures ReplaceWordIgnoringCase(s, w, rep) == [s[0]] + ReplaceWordIgnoringCase(s[1..], w, rep)
  {
  }

  /** Non-letters in front of the text are kept as they are. */
  lemma {:induction false} ReplaceWordAfterNonLetters(j: string, b: string, w: string, rep: string)
    requires |w| > 0 && (forall i :: 0 <= i < |w| ==> IsAsciiLetter(w[i]))
    requires forall i :: 0 <= i < |j| ==> !IsAsciiLetter(j[i])
    ensures ReplaceWordIgnoringCase(j + b, w, rep) == j + ReplaceWordIgnoringCase(b, w, rep)
    decreases |j|
  {
    if j == [] {
      assert j + b == b;
    } else {
      var s := j + b;
      NonLetterStartsNoWord(s, w);
      ReplaceWordAtSkip(s, w, rep);
      assert s[1..] == j[1..] + b;
      ReplaceWordAfterNonLetters(j[1..], b, w, rep);
      assert [j[0]] + j[1..] == j;
    }
  }

  /** Text without letters holds no occurrence of a word of letters and is left as it is. */
  lemma ReplaceWordNoLetters(s: string, w: string, rep: string)
    requires |w| > 0 && (forall i :: 0 <= i < |w| ==> IsAsciiLetter(w[i]))
    requires forall i :: 0 <= i < |s| ==> !IsAsciiLetter(s[i])
    ensures ReplaceWordIgnoringCase(s, w, rep) == s
  {
    ReplaceWordAfterNonLetters(s, [], w, rep);
    assert s + [] == s;
  }

  /**
   * An occurrence of a word of letters cannot reach across a piece `j` of
   * non-letters, so the replacement works on the text before and after `j`
   * separately and keeps `j`.
   */
  lemma {:induction false} ReplaceWordJoin(a: string, j: string, b: string, w: string, rep: string)
    requires |w| > 0 && (forall i :: 0 <= i < |w| ==> IsAsciiLetter(w[i]))
    requires j != [] && forall i :: 0 <= i < |j| ==> !IsAsciiLetter(j[i])
    ensures ReplaceWordIgnoringCase(a + j + b, w, rep)
      == ReplaceWordIgnoringCase(a, w, rep) + j + ReplaceWordIgnoringCase(b, w, rep)
    decreases |a|, 1
  {
    if a == [] {
      assert a + j + b == j + b;
      ReplaceWordAfterNonLetters(j, b, w, rep);
    } else if StartsWithIgnoringCase(a + j + b, w) {
      ReplaceWordJoinMatch(a, j, b, w, rep);
    } else {
      ReplaceWordJoinSkip(a, j, b, w, rep);
    }
  }

  /** `ReplaceWordJoin` where the joined text starts with the word. */
  lemma {:induction false} ReplaceWordJoinMatch(a: string, j: string, b: string, w: string, rep: string)
    requires |w| > 0 && (forall i :: 0 <= i < |w| ==> IsAsciiLetter(w[i]))
    requires j != [] && forall i :: 0 <= i < |j| ==> !IsAsciiLetter(j[i])
    requires a != [] && StartsWithIgnoringCase(a + j + b, w)
    ensures ReplaceWordIgnoringCase(a + j + b, w, rep)
      == ReplaceWordIgnoringCase(a, w, rep) + j + ReplaceWordIgnoringCase(b, w, rep)
    decreases |a|, 0
  {
    var s := a + j + b;
    WordStopsAtNonLetter(s, w, |a|);
    StartsWithPrefix(a, s, w);
    ReplaceWordAtMatch(s, w, rep);
    ReplaceWordAtMatch(a, w, rep);
    assert s[|w|..] == a[|w|..] + j + b;
    ReplaceWordJoin(a[|w|..], j, b, w, rep);
    Regroup(rep, ReplaceWordIgnoringCase(a[|w|..], w, rep), j, ReplaceWordIgnoringCase(b, w, rep));
  }

  /** `ReplaceWordJoin` where the joined text does not start with the word. */
  lemma {:induction false} ReplaceWordJoinSkip(a: string, j: string, b: string, w: string, rep: string)
    requires |w| > 0 && (forall i :: 0 <= i < |w| ==> IsAsciiLetter(w[i]))
    requires j != [] && forall i :: 0 <= i < |j| ==> !IsAsciiLetter(j[i])
    requires a != [] && !StartsWithIgnoringCase(a + j + b, w)
    ensures ReplaceWordIgnoringCase(a + j + b, w, rep)
      == ReplaceWordIgnoringCase(a, w, rep) + j + ReplaceWordIgnoringCase(b, w, rep)
    decreases |a|, 0
  {
    var s := a + j + b;
    StartsWithPrefix(a, s, w);
    ReplaceWordAtSkip(s, w, rep);
    ReplaceWordAtSkip(a, w, rep);
    assert s[1..] == a[1..] + j + b;
    ReplaceWordJoin(a[1..], j, b, w, rep);
    Regroup([a[0]], ReplaceWordIgnoringCase(a[1..], w, rep), j, ReplaceWordIgnoringCase(b, w, rep));
  }

  /** Regrouping a concatenation of four pieces. */
  lemma Regroup(x: string, t: string, j: string, u: string)
    ensures x + (t + j + u) == (x + t) + j + u
  {
  }

  /**
   * `s.split(sep)` for a non-empty literal separator: the pieces between the
   * leftmost non-overlapping occurrences of `sep`, always at least one.
   */
  function Split(s: string, sep: string): (parts: seq<string>)
    requires |sep| > 0
    ensures |parts| >= 1
    decreases |s|
  {
    if s == [] then [""]
    else if sep <= s then [""] + Split(s[|sep|..], sep)
    else
      var rest := Split(s[1..], sep);
      [[s[0]] + rest[0]] + rest[1..]
  }

  /** Splitting text free of a one-character separator gives the text back whole. */
  lemma {:induction false} SplitNoSeparator(s: string, sep: char)
    requires sep !in s
    ensures Split(s, [sep]) == [s]
  {
    if s != [] {
      assert s[1..] == s[1..];
      SplitNoSeparator(s[1..], sep);
      assert [s[0]] + s[1..] == s;
    }
  }

  /** Splitting `x + [sep] + rest` where `x` holds no separator cuts exactly after `x`. */
  lemma {:induction false} SplitAfterFirst(x: string, sep: char, rest: string)
    requires sep !in x
    ensures Split(x + [sep] + rest, [sep]) == [x] + Split(rest, [sep])
  {
    if x == [] {
      assert x + [sep] + rest == [sep] + rest;
      assert [sep] <= [sep] + rest;
      assert ([sep] + rest)[1..] == rest;
    } else {
      var s := x + [sep] + rest;
      assert s[1..] == x[1..] + [sep] + rest;
      assert !([sep] <= s) by { assert s[0] == x[0]; }
      SplitAfterFirst(x[1..], sep, rest);
      assert [x[0]] + x[1..] == x;
    }
  }

  /** Text without the first character of a separator splits into itself alone. */
  lemma {:induction false} SplitWithoutMarker(s: string, sep: string)
    requires |sep| > 0 && sep[0] !in s
    ensures Split(s, sep) == [s]
    decreases |s|
  {
    if s != [] {
      assert !(sep <= s) by { assert s[0] != sep[0]; }
      assert sep[0] !in s[1..];
      SplitWithoutMarker(s[1..], sep);
      assert [s[0]] + s[1..] == s;
    }
  }

  /** Splitting `x + sep + rest`, where `x` holds no first character of `sep`,
      cuts exactly after `x`. */
  lemma {:induction false} SplitAtMarker(x: string, sep: string, rest: string)
    requires |sep| > 0 && sep[0] !in x
    ensures Split(x + sep + rest, sep) == [x] + Split(rest, sep)
    decreases |x|
  {
    var s := x + sep + rest;
    if x == [] {
      assert s == sep + rest;
      assert sep <= s;
      assert s[|sep|..] == rest;
    } else {
      assert s[1..] == x[1..] + sep + rest;
      assert !(sep <= s) by { assert s[0] == x[0]; }
      assert sep[0] !in x[1..];
      SplitAtMarker(x[1..], sep, rest);
      assert [x[0]] + x[1..] == x;
    }
  }

  /**
   * `Number(s)` for the inputs the core meets: blank text is 0 and an
   * optionally space-padded run of decimal digits is its value; anything
   * else is `NaN` (None).
   */
  function NumberValue(s: string): (r: Option<int>)
    ensures r.Some? ==> r.value >= 0
    ensures Trim(s) == [] ==> r == Some(0)
    ensures (exists x :: 0 <= x < |s| && !IsDigit(s[x]) && !IsSpace(s[x])) ==> r.None?
  {
    var t := Trim(s);
    NonDigitSurvivesTrim(s);
    if t == [] then Some(0) else if AllDigits(t) then Some(DigitsValue(t)) else None
  }

  /** A character that is neither a digit nor white space stays inside `trim()`'s result. */
  lemma NonDigitSurvivesTrim(s: string)
    ensures (exists x :: 0 <= x < |s| && !IsDigit(s[x]) && !IsSpace(s[x])) ==> Trim(s) != [] && !AllDigits(Trim(s))
  {
    if x :| 0 <= x < |s| && !IsDigit(s[x]) && !IsSpace(s[x]) {
      NonDigitInTrim(s, x);
    }
  }

  /** The character at `x`, neither a digit nor white space, is a character of `trim()`'s result. */
  lemma NonDigitInTrim(s: string, x: nat)
    requires x < |s| && !IsDigit(s[x]) && !IsSpace(s[x])
    ensures Trim(s) != [] && !AllDigits(Trim(s))
  {
    var t := TrimStart(s);
    var y := x - (|s| - |t|);
    assert 0 <= y && t[y] == s[x];
    var r := TrimEnd(t);
    assert y < |r| && r[y] == s[x];
  }

  /** Text holding a character that is neither a digit nor white space reads as `NaN`. */
  lemma NonNumericIsNaN(s: string, x: nat)
    requires x < |s| && !IsDigit(s[x]) && !IsSpace(s[x])
    ensures NumberValue(s).None?
  {
    NonDigitInTrim(s, x);
  }

  /** `Number` reads a non-empty run of digits as its decimal value. */
  lemma NumberOfDigits(s: string)
    requires s != [] && AllDigits(s)
    ensures NumberValue(s) == Some(DigitsValue(s))
  {
    assert !IsSpace(s[0]);
    assert TrimStart(s) == s;
    assert !IsSpace(s[|s| - 1]);
  }
}

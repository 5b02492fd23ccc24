/**
 * The Python string operations the two command processors rely on:
 * `s.split(sep)`, `s.split()`, `s.lower()`, the substring test `t in s`,
 * `s.startswith(p)`, `sep.join(xs)`, `int(s)` and `str(n)`.
 */
module Text {
  import opened Maybe

  /** Number of occurrences of `c` in `s`. */
  function CountChar(s: string, c: char): nat
    decreases |s|
  {
    if s == [] then 0 else (if s[0] == c then 1 else 0) + CountChar(s[1..], c)
  }

  // ---------------------------------------------------------------------
  // str.split(sep) and str.join

  /**
   * Python's `s.split(sep)` for a one-character separator: the pieces
   * between separators, empty pieces included, so that there is always one
   * more piece than there are separators.
   */
  function Split(s: string, sep: char): (fields: seq<string>)
    ensures |fields| == CountChar(s, sep) + 1
    ensures forall k :: 0 <= k < |fields| ==> sep !in fields[k]
    decreases |s|
  {
    if s == [] then [""]
    else
      var rest := Split(s[1..], sep);
      if s[0] == sep then [""] + rest
      else [[s[0]] + rest[0]] + rest[1..]
  }

  /** Python's `sep.join(fields)`. */
  function Join(fields: seq<string>, sep: char): (s: string)
    ensures |fields| > 0 ==> |fields[0]| <= |s| && s[..|fields[0]|] == fields[0]
    decreases |fields|
  {
    if |fields| == 0 then ""
    else if |fields| == 1 then fields[0]
    else fields[0] + [sep] + Join(fields[1..], sep)
  }

  /** Joining the pieces of a split gives back the original text. */
  lemma {:induction false} SplitThenJoin(s: string, sep: char)
    ensures Join(Split(s, sep), sep) == s
    decreases |s|
  {
    if s != [] {
      var rest := Split(s[1..], sep);
      SplitThenJoin(s[1..], sep);
      if s[0] == sep {
        assert ([""] + rest)[1..] == rest;
      } else if |rest| > 1 {
        var fields := [[s[0]] + rest[0]] + rest[1..];
        assert fields[1..] == rest[1..];
        assert Join(rest, sep) == rest[0] + [sep] + Join(rest[1..], sep);
      }
    }
  }

  /** A text without the separator splits into itself alone. */
  lemma {:induction false} SplitWithoutSeparator(a: string, sep: char)
    requires sep !in a
    ensures Split(a, sep) == [a]
    decreases |a|
  {
    if a != [] {
      assert a[0] != sep;
      SplitWithoutSeparator(a[1..], sep);
      assert [a[0]] + a[1..] == a;
    }
  }

  /** The first separator ends the first piece. */
  lemma {:induction false} SplitAtFirstSeparator(a: string, b: string, sep: char)
    requires sep !in a
    ensures Split(a + [sep] + b, sep) == [a] + Split(b, sep)
    decreases |a|
  {
    var s := a + [sep] + b;
    if a == [] {
      assert s[1..] == b;
    } else {
      assert s[0] == a[0] != sep;
      assert s[1..] == a[1..] + [sep] + b;
      SplitAtFirstSeparator(a[1..], b, sep);
      assert [a[0]] + a[1..] == a;
    }
  }

  /** Splitting a join of separator-free pieces gives back the pieces. */
  lemma {:induction false} JoinThenSplit(fields: seq<string>, sep: char)
    requires |fields| > 0
    requires forall k :: 0 <= k < |fields| ==> sep !in fields[k]
    ensures Split(Join(fields, sep), sep) == fields
    decreases |fields|
  {
    if |fields| == 1 {
      SplitWithoutSeparator(fields[0], sep);
    } else {
      JoinThenSplit(fields[1..], sep);
      SplitAtFirstSeparator(fields[0], Join(fields[1..], sep), sep);
    }
  }

  // ---------------------------------------------------------------------
  // str.split() with no argument

  /** Python's `str.isspace` for one character. */
  predicate IsSpace(c: char)
  {
    ('\t' <= c <= '\r') || ('\U{1C}' <= c <= '\U{1F}') || c == ' '
    || c == '\U{85}' || c == '\U{A0}' || c == '\U{1680}'
    || ('\U{2000}' <= c <= '\U{200A}') || c == '\U{2028}' || c == '\U{2029}'
    || c == '\U{202F}' || c == '\U{205F}' || c == '\U{3000}'
  }

  predicate NoSpace(w: string)
  {
    forall i :: 0 <= i < |w| ==> !IsSpace(w[i])
  }

  /** The longest prefix of `s` that holds no whitespace. */
  function Word(s: string): (w: string)
    ensures |w| <= |s| && w == s[..|w|]
    ensures NoSpace(w)
    ensures |w| < |s| ==> IsSpace(s[|w|])
    ensures |s| > 0 && !IsSpace(s[0]) ==> |w| > 0
    decreases |s|
  {
    if s == [] || IsSpace(s[0]) then [] else [s[0]] + Word(s[1..])
  }

  /**
   * Python's `s.split()`: the maximal runs of non-whitespace characters,
   * in order, so no token is empty and none holds whitespace.
   */
  function Tokens(s: string): (ts: seq<string>)
    ensures forall k :: 0 <= k < |ts| ==> |ts[k]| > 0 && NoSpace(ts[k])
    decreases |s|
  {
    if s == [] then []
    else if IsSpace(s[0]) then Tokens(s[1..])
    else
      var w := Word(s);
      [w] + Tokens(s[|w|..])
  }

  lemma {:induction false} WordOfWordThenBreak(w: string, rest: string)
    requires NoSpace(w)
    requires rest == [] || IsSpace(rest[0])
    ensures Word(w + rest) == w
    decreases |w|
  {
    if w == [] {
      assert w + rest == rest;
    } else {
      assert (w + rest)[1..] == w[1..] + rest;
      WordOfWordThenBreak(w[1..], rest);
    }
  }

  /** A non-empty word followed by whitespace or the end is the first token. */
  lemma TokensOfWordThenBreak(w: string, rest: string)
    requires |w| > 0 && NoSpace(w)
    requires rest == [] || IsSpace(rest[0])
    ensures Tokens(w + rest) == [w] + Tokens(rest)
  {
    WordOfWordThenBreak(w, rest);
    assert (w + rest)[|w|..] == rest;
  }

  /** Re-tokenizing words joined by single spaces gives back the words. */
  lemma {:induction false} TokensOfJoinedWords(ws: seq<string>)
    requires forall k :: 0 <= k < |ws| ==> |ws[k]| > 0 && NoSpace(ws[k])
    ensures Tokens(Join(ws, ' ')) == ws
    decreases |ws|
  {
    if |ws| == 1 {
      TokensOfWordThenBreak(ws[0], []);
      assert ws[0] + [] == ws[0];
    } else if |ws| > 1 {
      var tail := Join(ws[1..], ' ');
      TokensOfJoinedWords(ws[1..]);
      assert ws[0] + [' '] + tail == ws[0] + ([' '] + tail);
      TokensOfWordThenBreak(ws[0], [' '] + tail);
      assert ([' '] + tail)[1..] == tail;
    }
  }

  // ---------------------------------------------------------------------
  // str.lower, `in` on strings, str.startswith

  /** ASCII lower-casing of one character. */
  function LowerChar(c: char): char
  {
    if 'A' <= c <= 'Z' then (c as int + 32) as char else c
  }

  /**
   * `s.lower()`, restricted to the ASCII letters: no capital is left, each
   * capital becomes its small letter, and every other character is kept.
   */
  function Lower(s: string): (r: string)
    ensures |r| == |s|
    ensures forall i :: 0 <= i < |r| ==> !('A' <= r[i] <= 'Z')
    ensures forall i :: 0 <= i < |s| && 'A' <= s[i] <= 'Z' ==> r[i] as int == s[i] as int + 32
    ensures forall i :: 0 <= i < |s| && !('A' <= s[i] <= 'Z') ==> r[i] == s[i]
  {
    seq(|s|, i requires 0 <= i < |s| => LowerChar(s[i]))
  }

  lemma LowerOfConcat(a: string, b: string)
    ensures Lower(a + b) == Lower(a) + Lower(b)
  {
    assert forall i :: 0 <= i < |a + b| ==> Lower(a + b)[i] == (Lower(a) + Lower(b))[i];
  }

  /** `s.startswith(p)`. */
  predicate StartsWith(s: string, p: string)
  {
    |p| <= |s| && s[..|p|] == p
  }

  /** `t` occurs in `s` at position `i`. */
  predicate OccursAt(s: string, t: string, i: int)
  {
    0 <= i && i + |t| <= |s| && s[i..i + |t|] == t
  }

  /** Python's substring test `t in s`. */
  predicate Contains(s: string, t: string)
    decreases |s|
  {
    StartsWith(s, t) || (s != [] && Contains(s[1..], t))
  }

  /** The substring test holds exactly when there is an occurrence somewhere. */
  lemma ContainsIffOccurs(s: string, t: string)
    ensures Contains(s, t) <==> exists i :: OccursAt(s, t, i)
  {
    if Contains(s, t) {
      ContainedHasOccurrence(s, t);
    } else {
      forall i | OccursAt(s, t, i)
        ensures false
      {
        OccurrenceIsContained(s, t, i);
      }
    }
  }

  /** An occurrence at any position is found by `Contains`. */
  lemma {:induction false} OccurrenceIsContained(s: string, t: string, i: int)
    requires OccursAt(s, t, i)
    ensures Contains(s, t)
    decreases i
  {
    if i > 0 {
      assert s[1..][i - 1..i - 1 + |t|] == s[i..i + |t|];
      OccurrenceIsContained(s[1..], t, i - 1);
    }
  }

  /** `Contains` holds only where there is an occurrence. */
  lemma {:induction false} ContainedHasOccurrence(s: string, t: string)
    requires Contains(s, t)
    ensures exists i :: OccursAt(s, t, i)
    decreases |s|
  {
    if StartsWith(s, t) {
      assert OccursAt(s, t, 0);
    } else {
      ContainedHasOccurrence(s[1..], t);
      var i :| OccursAt(s[1..], t, i);
      assert s[i + 1..i + 1 + |t|] == s[1..][i..i + |t|];
      assert OccursAt(s, t, i + 1);
    }
  }

  // ---------------------------------------------------------------------
  // int(s) and str(n)

  predicate IsDigit(c: char)
  {
    '0' <= c <= '9'
  }

  function DigitValue(c: char): nat
    requires IsDigit(c)
  {
    c as int - '0' as int
  }

  function DigitChar(d: nat): (c: char)
    requires d < 10
    ensures IsDigit(c) && DigitValue(c) == d
  {
    ('0' as int + d) as char
  }

  predicate DigitsOrUnderscores(s: string)
  {
    forall i :: 0 <= i < |s| ==> IsDigit(s[i]) || s[i] == '_'
  }

  /**
   * The digit part Python's `int` accepts: ASCII digits, with single
   * underscores allowed between two digits.
   */
  predicate DigitGroup(s: string)
  {
    && |s| > 0 && IsDigit(s[0]) && IsDigit(s[|s| - 1])
    && DigitsOrUnderscores(s)
    && (forall i :: 0 <= i < |s| - 1 ==> IsDigit(s[i]) || IsDigit(s[i + 1]))
  }

  /** The decimal value of the digits of `s`, underscores skipped. */
  function DigitsValue(s: string): nat
    requires DigitsOrUnderscores(s)
    decreases |s|
  {
    if s == [] then 0
    else
      var last := s[|s| - 1];
      if last == '_' then DigitsValue(s[..|s| - 1])
      else DigitsValue(s[..|s| - 1]) * 10 + DigitValue(last)
  }

  /**
   * Python's `int(s)` on a token without surrounding whitespace: an optional
   * sign followed by a digit group; `None` where Python raises ValueError.
   */
  function ParseInt(s: string): (r: Option<int>)
    ensures s == [] ==> r.None?
    ensures r.Some? ==> IsDigit(s[0]) || s[0] == '-' || s[0] == '+'
    ensures r.Some? ==> forall i :: 0 < i < |s| ==> IsDigit(s[i]) || s[i] == '_'
    ensures r.Some? ==> IsDigit(s[|s| - 1])
    ensures r.Some? && r.value < 0 ==> s[0] == '-'
  {
    if |s| > 0 && (s[0] == '-' || s[0] == '+') then
      if DigitGroup(s[1..]) then
        var magnitude: int := DigitsValue(s[1..]);
        Some(if s[0] == '-' then -magnitude else magnitude)
      else None
    else if DigitGroup(s) then Some(DigitsValue(s))
    else None
  }

  /** A leading zero adds nothing to the value of a run of digits. */
  lemma {:induction false} DigitsValueOfLeadingZero(d: string)
    requires DigitsOrUnderscores(d)
    ensures DigitsOrUnderscores("0" + d)
    ensures DigitsValue("0" + d) == DigitsValue(d)
    decreases |d|
  {
    var t := "0" + d;
    assert forall i :: 0 < i < |t| ==> t[i] == d[i - 1];
    if d != [] {
      var init := d[..|d| - 1];
      assert DigitsOrUnderscores(init) by {
        assert forall i :: 0 <= i < |init| ==> init[i] == d[i];
      }
      DigitsValueOfLeadingZero(init);
      assert t[..|t| - 1] == "0" + init;
    }
  }

  /**
   * Python's `int` reads the same digit group alone, after a plus sign and
   * after extra leading zeros as the same number, and after a minus sign as
   * its negation.
   */
  lemma ParseIntOfDigitGroup(d: string)
    requires DigitGroup(d)
    ensures ParseInt(d) == Some(DigitsValue(d) as int)
    ensures ParseInt("+" + d) == ParseInt(d)
    ensures ParseInt("-" + d) == Some(-(DigitsValue(d) as int))
    ensures ParseInt("0" + d) == ParseInt(d)
  {
    var plus, minus := "+" + d, "-" + d;
    assert plus[1..] == d && plus[0] == '+';
    assert minus[1..] == d && minus[0] == '-';
    assert d[0] != '+' && d[0] != '-';
    LeadingZeroKeepsDigitGroup(d);
    DigitsValueOfLeadingZero(d);
    var z := "0" + d;
    assert z[0] != '+' && z[0] != '-';
  }

  lemma LeadingZeroKeepsDigitGroup(d: string)
    requires DigitGroup(d)
    ensures DigitGroup("0" + d)
  {
    var z := "0" + d;
    assert forall i :: 0 < i < |z| ==> z[i] == d[i - 1];
    assert z[|z| - 1] == d[|d| - 1];
  }

  /** Python's `str(n)` for a natural number: decimal, no leading zeros. */
  function NatToString(n: nat): (r: string)
    ensures |r| > 0
    ensures forall i :: 0 <= i < |r| ==> IsDigit(r[i])
    ensures |r| > 1 ==> r[0] != '0'
    decreases n
  {
    if n < 10 then [DigitChar(n)] else NatToString(n / 10) + [DigitChar(n % 10)]
  }

  /** Python's `str(n)` (and f-string rendering) for an integer. */
  function IntToString(n: int): (r: string)
    ensures |r| > 0 && NoSpace(r) && '\n' !in r
  {
    if n < 0 then "-" + NatToString(-n) else NatToString(n)
  }

  lemma {:induction false} DigitsValueOfNatToString(n: nat)
    ensures DigitsValue(NatToString(n)) == n
    decreases n
  {
    if n >= 10 {
      DigitsValueOfNatToString(n / 10);
      var s := NatToString(n);
      assert s[..|s| - 1] == NatToString(n / 10);
    }
  }

  /** A decimal rendering is a digit group `int` accepts. */
  lemma NatToStringIsDigitGroup(n: nat)
    ensures DigitGroup(NatToString(n))
  {
    var s := NatToString(n);
    assert IsDigit(s[0]) && IsDigit(s[|s| - 1]);
  }

  /** `int(str(n)) == n`: the rendering is read back as the same number. */
  lemma ParseIntOfIntToString(n: int)
    ensures ParseInt(IntToString(n)) == Some(n)
  {
    var s := IntToString(n);
    if n < 0 {
      var digits := NatToString(-n);
      assert s[1..] == digits;
      NatToStringIsDigitGroup(-n);
      DigitsValueOfNatToString(-n);
    } else {
      assert s[0] != '-' && s[0] != '+';
      NatToStringIsDigitGroup(n);
      DigitsValueOfNatToString(n);
    }
  }
}

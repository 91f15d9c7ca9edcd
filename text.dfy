/**
 * Text helpers that the Python scripts get from the language itself:
 * decimal formatting and parsing of integers, `str.split(sep)`,
 * `str.strip()`, `str.split()` (whitespace fields), `sep.join(...)` and
 * the substring test `k in s`.
 */
module Text {
  import opened Wrappers

  // ---------------------------------------------------------------------
  // Decimal digits

  predicate IsDigit(c: char) { '0' <= c <= '9' }

  predicate AllDigits(s: string) { forall i :: 0 <= i < |s| ==> IsDigit(s[i]) }

  function DigitChar(d: nat): (c: char)
    requires d < 10
    ensures IsDigit(c) && c as int - '0' as int == d
  {
    (('0' as int) + d) as char
  }

  function DigitValue(c: char): nat
    requires IsDigit(c)
  {
    c as int - '0' as int
  }

  /** `str(n)` for a non-negative integer: shortest decimal form. */
  function NatToString(n: nat): (s: string)
    ensures |s| >= 1 && AllDigits(s)
    ensures s[0] == '0' ==> n == 0
  {
    if n < 10 then [DigitChar(n)]
    else NatToString(n / 10) + [DigitChar(n % 10)]
  }

  /** The value of a non-empty run of decimal digits (leading zeros allowed). */
  function DigitsValue(s: string): nat
    requires AllDigits(s)
  {
    if |s| == 0 then 0
    else DigitsValue(s[..|s| - 1]) * 10 + DigitValue(s[|s| - 1])
  }

  /** Parses an unsigned decimal number: one or more ASCII digits, nothing else. */
  function ParseNat(s: string): (r: Option<nat>)
    ensures r.Some? <==> |s| >= 1 && AllDigits(s)
  {
    if |s| >= 1 && AllDigits(s) then Some(DigitsValue(s)) else None
  }

  lemma {:induction false} DigitsOfNat(n: nat)
    ensures DigitsValue(NatToString(n)) == n
  {
    if n >= 10 {
      var s := NatToString(n);
      assert s[..|s| - 1] == NatToString(n / 10);
      DigitsOfNat(n / 10);
    }
  }

  /** Formatting a natural number and parsing it back gives the number. */
  lemma NatRoundTrip(n: nat)
    ensures ParseNat(NatToString(n)) == Some(n)
  {
    DigitsOfNat(n);
  }

  /** `str(i)` / `f"{i}"` for any integer: a minus sign before negatives. */
  function IntToString(i: int): (s: string)
    ensures |s| >= 1
  {
    if i < 0 then "-" + NatToString(-i) else NatToString(i)
  }

  /** A formatted integer holds no comma and does not start with whitespace. */
  lemma IntToStringNoComma(i: int)
    ensures ',' !in IntToString(i) && !IsSpace(IntToString(i)[0])
  {
    if i < 0 {
      assert IntToString(i) == "-" + NatToString(-i);
    }
  }

  /** Parses an optional sign followed by ASCII digits (the CSV integer syntax). */
  function ParseInt(s: string): (r: Option<int>)
  {
    if |s| >= 1 && s[0] == '-' then
      match ParseNat(s[1..])
      case Some(n) => Some(-(n as int))
      case None => None
    else if |s| >= 1 && s[0] == '+' then ParseNat(s[1..])
    else ParseNat(s)
  }

  lemma IntRoundTrip(i: int)
    ensures ParseInt(IntToString(i)) == Some(i)
  {
    var s := IntToString(i);
    if i < 0 {
      var t := NatToString(-i);
      assert s == "-" + t;
      assert s[0] == '-' && s[1..] == t;
      NatRoundTrip(-i);
    } else {
      var t := NatToString(i);
      assert s == t && IsDigit(t[0]);
      NatRoundTrip(i);
    }
  }

  // ---------------------------------------------------------------------
  // Splitting and joining on one separator character

  /** Position of the first `sep` in `s`, `|s|` when there is none. */
  function IndexOf(s: string, sep: char): (k: nat)
    ensures k <= |s|
    ensures k < |s| ==> s[k] == sep
    ensures forall i :: 0 <= i < k ==> s[i] != sep
  {
    if |s| == 0 || s[0] == sep then 0 else 1 + IndexOf(s[1..], sep)
  }

  /** Python `s.split(sep)`: the pieces between separators, one more than there are separators. */
  function Split(s: string, sep: char): (parts: seq<string>)
    ensures |parts| >= 1
    ensures forall i :: 0 <= i < |parts| ==> sep !in parts[i]
    decreases |s|
  {
    var k := IndexOf(s, sep);
    if k == |s| then [s] else [s[..k]] + Split(s[k + 1..], sep)
  }

  lemma SplitHead(a: string, sep: char, b: string)
    requires sep !in a
    ensures Split(a + [sep] + b, sep) == [a] + Split(b, sep)
  {
    var s := a + [sep] + b;
    assert forall i :: 0 <= i < |a| ==> s[i] == a[i];
    assert s[|a|] == sep;
    assert IndexOf(s, sep) == |a|;
    assert s[..|a|] == a && s[|a| + 1..] == b;
  }

  /** Python `sep.join(parts)`. */
  function Join(parts: seq<string>, sep: char): string
  {
    if |parts| == 0 then ""
    else if |parts| == 1 then parts[0]
    else parts[0] + [sep] + Join(parts[1..], sep)
  }

  lemma JoinTwo(a: string, b: string, sep: char)
    ensures Join([a, b], sep) == a + [sep] + b
  {
    assert [a, b][1..] == [b];
  }

  /** Joining two non-empty lists puts one separator between their joins. */
  lemma {:induction false} JoinConcat(a: seq<string>, b: seq<string>, sep: char)
    requires |a| >= 1 && |b| >= 1
    ensures Join(a + b, sep) == Join(a, sep) + [sep] + Join(b, sep)
  {
    if |a| == 1 {
      assert (a + b)[1..] == b;
    } else {
      assert (a + b)[1..] == a[1..] + b;
      JoinConcat(a[1..], b, sep);
    }
  }

  /** A piece that is itself a join with the same separator can be spliced in piece by piece. */
  lemma JoinNested(a: seq<string>, b: seq<string>, c: seq<string>, sep: char)
    requires |a| >= 1 && |b| >= 1
    ensures Join(a + [Join(b, sep)] + c, sep) == Join(a + b + c, sep)
  {
    if |c| == 0 {
      assert a + [Join(b, sep)] + c == a + [Join(b, sep)];
      assert a + b + c == a + b;
      JoinConcat(a, [Join(b, sep)], sep);
      JoinConcat(a, b, sep);
    } else {
      assert a + [Join(b, sep)] + c == a + ([Join(b, sep)] + c);
      assert a + b + c == a + (b + c);
      JoinConcat(a, [Join(b, sep)] + c, sep);
      JoinConcat([Join(b, sep)], c, sep);
      JoinConcat(a, b + c, sep);
      JoinConcat(b, c, sep);
    }
  }

  /** Splitting a join recovers the pieces when no piece holds the separator. */
  lemma {:induction false} SplitJoin(parts: seq<string>, sep: char)
    requires |parts| >= 1
    requires forall i :: 0 <= i < |parts| ==> sep !in parts[i]
    ensures Split(Join(parts, sep), sep) == parts
  {
    if |parts| == 1 {
      assert IndexOf(parts[0], sep) == |parts[0]|;
    } else {
      SplitHead(parts[0], sep, Join(parts[1..], sep));
      SplitJoin(parts[1..], sep);
    }
  }

  // ---------------------------------------------------------------------
  // Whitespace

  /** The characters `str.isspace()` holds for, ASCII range and the Latin-1 NEL/NBSP. */
  predicate IsSpace(c: char)
  {
    c == ' ' || c == '\t' || c == '\n' || c == '\r' || c == '\U{000B}' || c == '\U{000C}'
    || ('\U{001C}' <= c <= '\U{001F}') || c == '\U{0085}' || c == '\U{00A0}'
  }

  predicate NoSpace(s: string) { forall i :: 0 <= i < |s| ==> !IsSpace(s[i]) }

  function LStrip(s: string): (r: string)
    ensures |r| <= |s|
  {
    if |s| > 0 && IsSpace(s[0]) then LStrip(s[1..]) else s
  }

  function RStrip(s: string): (r: string)
    ensures |r| <= |s|
  {
    if |s| > 0 && IsSpace(s[|s| - 1]) then RStrip(s[..|s| - 1]) else s
  }

  /** `LStrip` drops exactly the leading whitespace: what is left is a suffix starting with a non-space. */
  lemma {:induction false} LStripSpec(s: string)
    ensures var r := LStrip(s);
      r == s[|s| - |r|..] && (|r| > 0 ==> !IsSpace(r[0])) &&
      forall i :: 0 <= i < |s| - |r| ==> IsSpace(s[i])
  {
    if |s| > 0 && IsSpace(s[0]) {
      LStripSpec(s[1..]);
    }
  }

  /** `RStrip` drops exactly the trailing whitespace: what is left is a prefix ending with a non-space. */
  lemma {:induction false} RStripSpec(s: string)
    ensures var r := RStrip(s);
      r == s[..|r|] && (|r| > 0 ==> !IsSpace(r[|r| - 1])) &&
      forall i :: |r| <= i < |s| ==> IsSpace(s[i])
  {
    if |s| > 0 && IsSpace(s[|s| - 1]) {
      RStripSpec(s[..|s| - 1]);
    }
  }

  /** Python `s.strip()`: drop leading and trailing whitespace. */
  function Strip(s: string): (r: string)
  {
    RStrip(LStrip(s))
  }

  /**
   * `Strip(s)` is the slice of `s` between its leading and its trailing
   * whitespace: it neither starts nor ends with whitespace, and every
   * character of `s` outside it is whitespace.
   */
  lemma StripSpec(s: string)
    ensures var a := |s| - |LStrip(s)|; a + |Strip(s)| <= |s| && Strip(s) == s[a..a + |Strip(s)|]
    ensures |Strip(s)| > 0 ==> !IsSpace(Strip(s)[0]) && !IsSpace(Strip(s)[|Strip(s)| - 1])
    ensures var a := |s| - |LStrip(s)|;
      forall i :: 0 <= i < |s| && !(a <= i < a + |Strip(s)|) ==> IsSpace(s[i])
  {
    var l := LStrip(s);
    var a := |s| - |l|;
    LStripSpec(s);
    assert l == s[a..];
    StripInside(s, l, a);
    StripOutside(s, l, a);
  }

  lemma StripInside(s: string, l: string, a: nat)
    requires a <= |s| && l == s[a..] && l == LStrip(s)
    ensures a + |RStrip(l)| <= |s| && RStrip(l) == s[a..a + |RStrip(l)|]
    ensures |RStrip(l)| > 0 ==> !IsSpace(RStrip(l)[0]) && !IsSpace(RStrip(l)[|RStrip(l)| - 1])
  {
    LStripSpec(s);
    RStripSpec(l);
    var r := RStrip(l);
    assert r == l[..|r|];
    assert s[a..a + |r|] == s[a..][..|r|];
  }

  lemma StripOutside(s: string, l: string, a: nat)
    requires a <= |s| && l == s[a..] && l == LStrip(s)
    ensures forall i :: 0 <= i < |s| && !(a <= i < a + |RStrip(l)|) ==> IsSpace(s[i])
  {
    LStripSpec(s);
    RStripSpec(l);
    var r := RStrip(l);
    forall i | 0 <= i < |s| && !(a <= i < a + |r|) ensures IsSpace(s[i]) {
      if i >= a {
        assert s[i] == l[i - a];
      }
    }
  }

  lemma StripNoSpace(s: string)
    requires |s| > 0 ==> !IsSpace(s[0]) && !IsSpace(s[|s| - 1])
    ensures Strip(s) == s
  {
  }

  /** Length of the leading run of non-whitespace characters. */
  function TokenLength(s: string): (k: nat)
    ensures k <= |s| && NoSpace(s[..k])
    ensures k < |s| ==> IsSpace(s[k])
  {
    if |s| == 0 || IsSpace(s[0]) then 0
    else
      var k := 1 + TokenLength(s[1..]);
      assert s[..k] == [s[0]] + s[1..][..k - 1];
      k
  }

  /** Python `s.split()`: the maximal runs of non-whitespace, in order. */
  function Fields(s: string): (r: seq<string>)
    ensures forall i :: 0 <= i < |r| ==> |r[i]| >= 1 && NoSpace(r[i])
    decreases |s|
  {
    if |s| == 0 then []
    else if IsSpace(s[0]) then Fields(s[1..])
    else
      var k := TokenLength(s);
      [s[..k]] + Fields(s[k..])
  }

  // ---------------------------------------------------------------------
  // Substrings

  /** Python `k in s` for strings. */
  predicate Contains(s: string, k: string)
    decreases |s|
  {
    k <= s || (|s| > 0 && Contains(s[1..], k))
  }

  /** `k` occurs in `s` starting at position `i`. */
  predicate OccursAt(s: string, k: string, i: int)
  {
    0 <= i && i + |k| <= |s| && s[i..i + |k|] == k
  }

  /** `Contains` holds exactly when `k` occurs at some position of `s`. */
  lemma {:induction false} ContainsOccurs(s: string, k: string)
    ensures Contains(s, k) <==> exists i :: OccursAt(s, k, i)
  {
    if k <= s {
      assert OccursAt(s, k, 0);
    } else if |s| > 0 {
      ContainsOccurs(s[1..], k);
      if exists i :: OccursAt(s, k, i) {
        var i :| OccursAt(s, k, i);
        OccursInTail(s, k, i);
      }
      if Contains(s[1..], k) {
        var j :| OccursAt(s[1..], k, j);
        OccursInTail(s, k, j + 1);
      }
    }
  }

  /** Past the first character, an occurrence in `s` is one in `s[1..]`, one position earlier. */
  lemma OccursInTail(s: string, k: string, i: int)
    requires |s| > 0 && i >= 1
    ensures OccursAt(s, k, i) <==> OccursAt(s[1..], k, i - 1)
  {
    if i + |k| <= |s| {
      assert s[1..][i - 1..i - 1 + |k|] == s[i..i + |k|];
    }
  }
}

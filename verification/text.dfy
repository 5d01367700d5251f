/** The .NET string operations the modelled code relies on: invariant-culture
    lower-casing, substring search, `char.IsWhiteSpace`, and the decimal
    `int.ToString()` / `int.Parse` pair. */
module Text {
  import opened Wrappers
  import opened Seqs

  /** `char.ToLowerInvariant` restricted to the ASCII letters. */
  function LowerChar(c: char): char {
    if 'A' <= c <= 'Z' then (c as int + 32) as char else c
  }

  /** `string.ToLowerInvariant` restricted to the ASCII letters. */
  function Lower(s: string): (r: string)
    ensures |r| == |s|
    ensures forall i :: 0 <= i < |s| ==> r[i] == LowerChar(s[i])
  {
    if |s| == 0 then "" else [LowerChar(s[0])] + Lower(s[1..])
  }

  /** Lower-casing twice changes nothing more than lower-casing once. */
  lemma LowerIdempotent(s: string)
    ensures Lower(Lower(s)) == Lower(s)
  {
    var l := Lower(s);
    assert forall i :: 0 <= i < |l| ==> LowerChar(l[i]) == l[i];
  }

  /** A string without upper-case ASCII letters is its own lower case. */
  lemma LowerOfLowerCase(s: string)
    requires forall i :: 0 <= i < |s| ==> !('A' <= s[i] <= 'Z')
    ensures Lower(s) == s
  {
  }

  /** `s.Contains(sub)`: `sub` occurs in `s` at some position. */
  predicate Contains(s: string, sub: string)
    decreases |s|
  {
    sub <= s || (|s| > 0 && Contains(s[1..], sub))
  }

  /** `Contains` as an existential over the starting position. */
  lemma {:induction false} ContainsAt(s: string, sub: string)
    ensures Contains(s, sub) <==> exists i :: 0 <= i <= |s| && sub <= s[i..]
    decreases |s|
  {
    if Contains(s, sub) {
      if sub <= s {
        assert s[0..] == s;
      } else {
        ContainsAt(s[1..], sub);
        var i :| 0 <= i <= |s[1..]| && sub <= s[1..][i..];
        assert s[1..][i..] == s[i + 1..];
      }
    }
    if exists i :: 0 <= i <= |s| && sub <= s[i..] {
      var i :| 0 <= i <= |s| && sub <= s[i..];
      if i == 0 {
        assert s[0..] == s;
      } else {
        assert s[1..][i - 1..] == s[i..];
        ContainsAt(s[1..], sub);
      }
    }
  }

  /** `char.IsWhiteSpace`: the Unicode separators and the control characters
      U+0009..U+000D, U+0085. */
  predicate IsWhiteSpace(c: char) {
    || c == ' ' || ('\t' <= c <= '\r') || c == '\U{0085}' || c == '\U{00A0}'
    || c == '\U{1680}' || ('\U{2000}' <= c <= '\U{200A}') || c == '\U{2028}' || c == '\U{2029}'
    || c == '\U{202F}' || c == '\U{205F}' || c == '\U{3000}'
  }

  /** `string.IsNullOrWhiteSpace` of a non-null string. */
  predicate IsBlank(s: string) {
    forall i :: 0 <= i < |s| ==> IsWhiteSpace(s[i])
  }

  predicate IsDigit(c: char) {
    '0' <= c <= '9'
  }

  predicate AllDigits(s: string) {
    forall i :: 0 <= i < |s| ==> IsDigit(s[i])
  }

  function DigitChar(d: nat): (c: char)
    requires d < 10
    ensures IsDigit(c)
  {
    ('0' as int + d) as char
  }

  function DigitValue(c: char): nat
    requires IsDigit(c)
  {
    c as int - '0' as int
  }

  /** Decimal digits of `n`, most significant first, with no leading zero. */
  function NatToString(n: nat): (r: string)
    ensures |r| >= 1 && AllDigits(r)
    decreases n
  {
    if n < 10 then [DigitChar(n)] else NatToString(n / 10) + [DigitChar(n % 10)]
  }

  /** `int.ToString()` in the invariant culture. */
  function IntToString(n: int): (r: string)
    ensures |r| >= 1
    ensures ',' !in r
  {
    if n < 0 then "-" + NatToString(-n) else NatToString(n)
  }

  /** Value of a string of decimal digits. */
  function DigitsValue(s: string): nat
    requires AllDigits(s)
  {
    if |s| == 0 then 0 else DigitsValue(s[..|s| - 1]) * 10 + DigitValue(s[|s| - 1])
  }

  /** `int.Parse` on an optional minus sign followed by decimal digits;
      anything else is a `FormatException`. */
  function ParseInt(s: string): (r: Option<int>)
    ensures r.Some? ==> |s| >= 1 && ',' !in s
    ensures r.Some? && r.value < 0 ==> s[0] == '-'
  {
    if |s| >= 2 && s[0] == '-' && AllDigits(s[1..]) then Some(-(DigitsValue(s[1..]) as int))
    else if |s| >= 1 && AllDigits(s) then Some(DigitsValue(s))
    else None
  }

  lemma {:induction false} DigitsOfNat(n: nat)
    ensures DigitsValue(NatToString(n)) == n
    decreases n
  {
    if n >= 10 {
      var r := NatToString(n);
      DigitsOfNat(n / 10);
      assert r[..|r| - 1] == NatToString(n / 10);
    }
  }

  lemma ParseOfNatToString(n: nat)
    ensures ParseInt(NatToString(n)) == Some(n)
  {
    DigitsOfNat(n);
    assert NatToString(n)[0] != '-';
  }

  lemma ParseOfNegative(n: nat)
    requires n > 0
    ensures ParseInt("-" + NatToString(n)) == Some(-(n as int))
  {
    var s := "-" + NatToString(n);
    assert s[1..] == NatToString(n);
    DigitsOfNat(n);
  }

  /** Parsing the decimal form of a number gives the number back. */
  lemma ParseOfToString(n: int)
    ensures ParseInt(IntToString(n)) == Some(n)
  {
    if n < 0 {
      ParseOfNegative(-n);
    } else {
      ParseOfNatToString(n);
    }
  }

  /** `string.Join(",", parts)`. */
  function JoinCommas(parts: seq<string>): string {
    if |parts| == 0 then ""
    else if |parts| == 1 then parts[0]
    else parts[0] + "," + JoinCommas(parts[1..])
  }

  /** `s.Split(',')`: the pieces between commas, empty pieces included, so
      there is always one piece more than there are commas. */
  function SplitCommas(s: string): (r: seq<string>)
    ensures |r| >= 1
    ensures forall k :: 0 <= k < |r| ==> ',' !in r[k]
    decreases |s|
  {
    if |s| == 0 then [""]
    else
      var rest := SplitCommas(s[1..]);
      if s[0] == ',' then [""] + rest
      else [[s[0]] + rest[0]] + rest[1..]
  }

  /** Splitting undoes joining for comma-free parts. */
  lemma {:induction false} SplitPrefix(p: string, t: string)
    requires ',' !in p
    ensures SplitCommas(p + t) == [p + SplitCommas(t)[0]] + SplitCommas(t)[1..]
    decreases |p|
  {
    if |p| > 0 {
      assert (p + t)[1..] == p[1..] + t;
      assert (p + t)[0] == p[0];
      SplitPrefix(p[1..], t);
      assert [p[0]] + (p[1..] + SplitCommas(t)[0]) == p + SplitCommas(t)[0];
    } else {
      var r := SplitCommas(t);
      assert p + t == t && p + r[0] == r[0];
      assert r == [r[0]] + r[1..];
    }
  }

  /** Joining comma-free parts and splitting the result gives the parts back. */
  lemma {:induction false} SplitOfJoin(parts: seq<string>)
    requires |parts| >= 1
    requires forall k :: 0 <= k < |parts| ==> ',' !in parts[k]
    ensures SplitCommas(JoinCommas(parts)) == parts
    decreases |parts|
  {
    if |parts| == 1 {
      SplitPrefix(parts[0], "");
      assert parts[0] + "" == parts[0];
    } else {
      var rest := JoinCommas(parts[1..]);
      SplitOfJoin(parts[1..]);
      assert ("," + rest)[1..] == rest;
      assert SplitCommas("," + rest) == [""] + parts[1..];
      assert parts[0] + "," + rest == parts[0] + ("," + rest);
      SplitPrefix(parts[0], "," + rest);
      assert parts[0] + "" == parts[0];
      assert parts == [parts[0]] + parts[1..];
    }
  }

  /** Joining the pieces of a split gives the string back. */
  lemma {:induction false} JoinOfSplit(s: string)
    ensures JoinCommas(SplitCommas(s)) == s
    decreases |s|
  {
    if |s| > 0 {
      var rest := SplitCommas(s[1..]);
      JoinOfSplit(s[1..]);
      if s[0] == ',' {
        assert s == "," + s[1..];
      } else {
        assert s == [s[0]] + s[1..];
        if |rest| > 1 {
          assert JoinCommas(rest) == rest[0] + "," + JoinCommas(rest[1..]);
          assert ([[s[0]] + rest[0]] + rest[1..])[1..] == rest[1..];
        }
      }
    }
  }

  predicate IsComma(c: char) {
    c == ','
  }

  /** Joining `n` comma-free parts puts exactly `n - 1` commas in the text. */
  lemma {:induction false} JoinCommasCount(parts: seq<string>)
    requires |parts| >= 1
    requires forall k :: 0 <= k < |parts| ==> ',' !in parts[k]
    ensures CountWhere(JoinCommas(parts), IsComma) == |parts| - 1
    decreases |parts|
  {
    assert CountWhere(parts[0], IsComma) == 0;
    if |parts| > 1 {
      JoinCommasCount(parts[1..]);
      CountWhereAppend(parts[0], ",", IsComma);
      CountWhereAppend(parts[0] + ",", JoinCommas(parts[1..]), IsComma);
    }
  }

  /** Joining one more part appends a comma and the part. */
  lemma {:induction false} JoinCommasSnoc(parts: seq<string>, p: string)
    requires |parts| >= 1
    ensures JoinCommas(parts + [p]) == JoinCommas(parts) + "," + p
    decreases |parts|
  {
    if |parts| > 1 {
      assert (parts + [p])[1..] == parts[1..] + [p];
      JoinCommasSnoc(parts[1..], p);
    } else {
      assert parts + [p] == [parts[0], p];
    }
  }
}

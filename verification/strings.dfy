/**
 * The few Python `str` operations the overlay tool relies on, as functions on
 * `seq<char>`: `find`, `rfind`-style searches, `split(sep)`, `sep.join`,
 * `replace` of one character, `lower`, `endswith` and `str(int)`.
 */
module Strings {

  /** Index of the first occurrence of `c` in `s`, or -1 (Python `s.find(c)`). */
  function FirstIndexOf(s: string, c: char): (r: int)
    ensures -1 <= r < |s|
    ensures r >= 0 ==> s[r] == c
    ensures forall k :: 0 <= k < |s| && (r < 0 || k < r) ==> s[k] != c
  {
    if s == [] then -1
    else if s[0] == c then 0
    else
      var r := FirstIndexOf(s[1..], c);
      if r < 0 then -1 else r + 1
  }

  /** Index of the last character of `s` satisfying `p`, or -1. */
  function LastIndexWhere(s: string, p: char -> bool): (r: int)
    ensures -1 <= r < |s|
    ensures r >= 0 ==> p(s[r])
    ensures forall k :: r < k < |s| ==> !p(s[k])
  {
    if s == [] then -1
    else if p(s[|s| - 1]) then |s| - 1
    else LastIndexWhere(s[..|s| - 1], p)
  }

  /** An index that matches `p` with no later match is the last match. */
  lemma LastIndexUnique(s: string, p: char -> bool, c: int)
    requires -1 <= c < |s|
    requires c >= 0 ==> p(s[c])
    requires forall k :: c < k < |s| ==> !p(s[k])
    ensures LastIndexWhere(s, p) == c
  {
    var r := LastIndexWhere(s, p);
    assert r >= 0 ==> p(s[r]);
    assert c >= 0 ==> p(s[c]);
  }

  /** Searching `s + t` from the right finds the match in `t` if there is one. */
  lemma LastIndexAppend(s: string, t: string, p: char -> bool)
    ensures LastIndexWhere(s + t, p) ==
      if LastIndexWhere(t, p) >= 0 then |s| + LastIndexWhere(t, p) else LastIndexWhere(s, p)
  {
    var rs, rt := LastIndexWhere(s, p), LastIndexWhere(t, p);
    var c := if rt >= 0 then |s| + rt else rs;
    forall k | c < k < |s + t| ensures !p((s + t)[k]) {
      if k < |s| {
        assert (s + t)[k] == s[k];
      } else {
        assert (s + t)[k] == t[k - |s|];
      }
    }
    if rt >= 0 {
      assert (s + t)[c] == t[rt];
    } else if rs >= 0 {
      assert (s + t)[c] == s[rs];
    }
    LastIndexUnique(s + t, p, c);
  }

  /** Python `s.split(sep)` with an explicit separator: empty fields are kept. */
  function SplitOn(s: string, sep: char): (parts: seq<string>)
    ensures |parts| >= 1
    ensures forall i :: 0 <= i < |parts| ==> sep !in parts[i]
    decreases |s|
  {
    var k := FirstIndexOf(s, sep);
    if k < 0 then [s] else [s[..k]] + SplitOn(s[k + 1..], sep)
  }

  /** Python `sep.join(parts)`. */
  function JoinWith(parts: seq<string>, sep: char): string
  {
    if parts == [] then ""
    else if |parts| == 1 then parts[0]
    else parts[0] + [sep] + JoinWith(parts[1..], sep)
  }

  /**
   * `sep.join(parts)` starts with the first field, followed by the separator
   * when more fields follow; joining nothing gives the empty text.
   */
  lemma JoinWithStarts(parts: seq<string>, sep: char)
    ensures parts == [] ==> JoinWith(parts, sep) == []
    ensures |parts| >= 1 ==> var r := JoinWith(parts, sep);
      |parts[0]| <= |r| && r[..|parts[0]|] == parts[0]
    ensures |parts| >= 2 ==> var r := JoinWith(parts, sep);
      |parts[0]| < |r| && r[|parts[0]|] == sep
  {
  }

  /** `sep.join(parts)` ends with the last field. */
  lemma {:induction false} JoinWithEndsWithLast(parts: seq<string>, sep: char)
    requires |parts| >= 1
    ensures EndsWith(JoinWith(parts, sep), parts[|parts| - 1])
  {
    if |parts| >= 2 {
      var last := parts[|parts| - 1];
      var rest := JoinWith(parts[1..], sep);
      JoinWithEndsWithLast(parts[1..], sep);
      assert parts[1..][|parts[1..]| - 1] == last;
      var r := parts[0] + [sep] + rest;
      assert r[|r| - |last|..] == rest[|rest| - |last|..];
    }
  }

  /** Joining a field in front of at least one more field puts one separator between them. */
  lemma JoinCons(head: string, tail: seq<string>, sep: char)
    requires |tail| >= 1
    ensures JoinWith([head] + tail, sep) == head + [sep] + JoinWith(tail, sep)
  {
    assert ([head] + tail)[1..] == tail;
  }

  /** A string is the part before index `k`, the character at `k` and the part after. */
  lemma SplitAround(s: string, k: int)
    requires 0 <= k < |s|
    ensures s == s[..k] + [s[k]] + s[k + 1..]
  {
  }

  /** Splitting and joining back on the same separator gives the string back. */
  lemma {:induction false} JoinSplit(s: string, sep: char)
    ensures JoinWith(SplitOn(s, sep), sep) == s
    decreases |s|
  {
    var k := FirstIndexOf(s, sep);
    if k >= 0 {
      var tail := SplitOn(s[k + 1..], sep);
      JoinSplit(s[k + 1..], sep);
      JoinCons(s[..k], tail, sep);
      SplitAround(s, k);
    }
  }

  /** The first separator of `head + [sep] + rest` is the one after `head`, when `head` has none. */
  lemma FirstIndexAfterHead(head: string, rest: string, sep: char)
    requires sep !in head
    ensures FirstIndexOf(head + [sep] + rest, sep) == |head|
  {
    var s := head + [sep] + rest;
    assert s[|head|] == sep;
    assert forall k :: 0 <= k < |head| ==> s[k] == head[k];
  }

  /** Joining fields that do not contain the separator and splitting again gives the fields back. */
  lemma {:induction false} SplitJoin(parts: seq<string>, sep: char)
    requires |parts| >= 1
    requires forall i :: 0 <= i < |parts| ==> sep !in parts[i]
    ensures SplitOn(JoinWith(parts, sep), sep) == parts
  {
    if |parts| == 1 {
      assert FirstIndexOf(parts[0], sep) < 0;
    } else {
      var head, tail := parts[0], parts[1..];
      var rest := JoinWith(tail, sep);
      var s := head + [sep] + rest;
      JoinCons(head, tail, sep);
      assert [head] + tail == parts;
      FirstIndexAfterHead(head, rest, sep);
      SplitAround(s, |head|);
      assert s[..|head|] == head && s[|head| + 1..] == rest;
      SplitJoin(tail, sep);
    }
  }

  /** Python `s.replace(from, to)` for one-character `from` and `to`. */
  function ReplaceChar(s: string, from: char, to: char): (r: string)
    ensures |r| == |s|
    ensures from != to ==> from !in r
    ensures forall i :: 0 <= i < |s| && s[i] != from ==> r[i] == s[i]
    ensures forall i :: 0 <= i < |s| && s[i] == from ==> r[i] == to
  {
    seq(|s|, i requires 0 <= i < |s| => if s[i] == from then to else s[i])
  }

  /** Python `c.lower()` restricted to ASCII letters. */
  function LowerChar(c: char): (r: char)
    ensures ('A' <= c <= 'Z') == ('a' <= r <= 'z' && r != c)
    ensures r == '.' <==> c == '.'
  {
    if 'A' <= c <= 'Z' then (c as int + 32) as char else c
  }

  /** Python `s.lower()` restricted to ASCII letters. */
  function Lower(s: string): string
  {
    seq(|s|, i requires 0 <= i < |s| => LowerChar(s[i]))
  }

  /**
   * `lower()` keeps the length, turns each capital into its small letter,
   * leaves every other character alone, and leaves no capital behind, so a
   * second `lower()` changes nothing.
   */
  lemma LowerCases(s: string)
    ensures |Lower(s)| == |s|
    ensures forall i :: 0 <= i < |s| ==> !('A' <= Lower(s)[i] <= 'Z')
    ensures forall i :: 0 <= i < |s| && !('A' <= s[i] <= 'Z') ==> Lower(s)[i] == s[i]
    ensures forall i :: 0 <= i < |s| && 'A' <= s[i] <= 'Z' ==> Lower(s)[i] as int == s[i] as int + 32
    ensures Lower(Lower(s)) == Lower(s)
  {
  }

  lemma LowerAppend(a: string, b: string)
    ensures Lower(a + b) == Lower(a) + Lower(b)
  {
    assert forall i :: 0 <= i < |a + b| ==> Lower(a + b)[i] == (Lower(a) + Lower(b))[i];
  }

  /** Python `s.endswith(suffix)`. */
  predicate EndsWith(s: string, suffix: string)
  {
    |suffix| <= |s| && s[|s| - |suffix|..] == suffix
  }

  /** `s.endswith(suffix)` holds exactly when `s` is some text followed by `suffix`. */
  lemma EndsWithConcat(s: string, suffix: string)
    ensures EndsWith(s, suffix) <==> exists k :: 0 <= k <= |s| && s[k..] == suffix
    ensures forall prefix :: EndsWith(prefix + suffix, suffix)
  {
    forall prefix ensures EndsWith(prefix + suffix, suffix) {
      assert (prefix + suffix)[|prefix|..] == suffix;
    }
  }

  function DigitChar(d: nat): (c: char)
    requires d < 10
    ensures '0' <= c <= '9'
  {
    ['0', '1', '2', '3', '4', '5', '6', '7', '8', '9'][d]
  }

  /** Python `str(n)` for a non-negative integer: its decimal digits, most significant first. */
  function NatToDecimal(n: nat): (r: string)
    ensures |r| >= 1
    ensures forall i :: 0 <= i < |r| ==> '0' <= r[i] <= '9'
  {
    if n < 10 then [DigitChar(n)] else NatToDecimal(n / 10) + [DigitChar(n % 10)]
  }

  /** Python `str(n)` for any integer. */
  function IntToDecimal(n: int): (r: string)
    ensures |r| >= 1
    ensures forall i :: 0 <= i < |r| ==> '0' <= r[i] <= '9' || (i == 0 && r[i] == '-')
  {
    if n < 0 then "-" + NatToDecimal(-n) else NatToDecimal(n)
  }

  /** The value of a string of decimal digits (Python `int(s)` on such a string). */
  function DecimalValue(s: string): nat
    requires forall i :: 0 <= i < |s| ==> '0' <= s[i] <= '9'
  {
    if s == [] then 0 else DecimalValue(s[..|s| - 1]) * 10 + (s[|s| - 1] as int - '0' as int)
  }

  /** The digit character of `d` has code `'0' + d`. */
  lemma DigitCode(d: nat)
    requires d < 10
    ensures DigitChar(d) as int - '0' as int == d
  {
  }

  /** Reading a text with one more digit at the end. */
  lemma DecimalValueSnoc(prefix: string, c: char)
    requires forall i :: 0 <= i < |prefix| ==> '0' <= prefix[i] <= '9'
    requires '0' <= c <= '9'
    ensures DecimalValue(prefix + [c]) == DecimalValue(prefix) * 10 + (c as int - '0' as int)
  {
    assert (prefix + [c])[..|prefix|] == prefix;
  }

  /** `str(n)` is read back as `n`: distinct identifiers give distinct decimal texts. */
  lemma {:induction false} DecimalRoundTrip(n: nat)
    ensures DecimalValue(NatToDecimal(n)) == n
  {
    if n >= 10 {
      var prefix, d := NatToDecimal(n / 10), n % 10;
      DecimalRoundTrip(n / 10);
      DigitCode(d);
      DecimalValueSnoc(prefix, DigitChar(d));
    } else {
      DigitCode(n);
      DecimalValueSnoc([], DigitChar(n));
      assert [] + [DigitChar(n)] == NatToDecimal(n);
    }
  }

  /** A decimal text as `str(int)` writes it: digits, optionally after a leading minus. */
  predicate IsIntText(s: string)
  {
    if |s| > 0 && s[0] == '-' then forall i :: 1 <= i < |s| ==> '0' <= s[i] <= '9'
    else forall i :: 0 <= i < |s| ==> '0' <= s[i] <= '9'
  }

  /** Python `int(s)` on such a text. */
  function IntValue(s: string): int
    requires IsIntText(s)
  {
    if |s| > 0 && s[0] == '-' then 0 - DecimalValue(s[1..]) else DecimalValue(s)
  }

  /** `int(str(n)) == n`: distinct integers print differently. */
  lemma IntRoundTrip(n: int)
    ensures IsIntText(IntToDecimal(n)) && IntValue(IntToDecimal(n)) == n
  {
    var s := IntToDecimal(n);
    if n < 0 {
      assert s[1..] == NatToDecimal(-n);
      DecimalRoundTrip(-n);
    } else {
      assert s[0] != '-';
      DecimalRoundTrip(n);
    }
  }
}

/** The digit grouping of NumberFormat: a buffer of the final size filled from the right. */
module NumberFormat {
  import opened Text

  /** Groups of three digits from the right, with a separator between groups. */
  function Grouped(digits: string, sep: string): string {
    if |digits| <= 3 then digits
    else Grouped(digits[..|digits| - 3], sep) + sep + digits[|digits| - 3..]
  }

  /** The length of n grouped digits with a separator of length k. */
  function GroupedLength(n: nat, k: nat): nat {
    if n <= 3 then n else GroupedLength(n - 3, k) + k + 3
  }

  /** Whether a separator stands before a digit that has n digits to its right. */
  predicate Separated(n: nat) { n > 0 && n % 3 == 0 }

  lemma {:induction false} LengthOfGrouped(digits: string, sep: string)
    ensures |Grouped(digits, sep)| == GroupedLength(|digits|, |sep|)
  {
    if |digits| > 3 { LengthOfGrouped(digits[..|digits| - 3], sep); }
  }

  lemma {:induction false} OneMoreDigit(n: nat, k: nat)
    ensures GroupedLength(n + 1, k) == GroupedLength(n, k) + 1 + if Separated(n) then k else 0
  {
    if n > 3 { OneMoreDigit(n - 3, k); }
  }

  /** The buffer size that NumberFormat computes is the length of the grouped digits. */
  lemma {:induction false} BufferSize(n: nat, k: nat)
    requires n > 0
    ensures GroupedLength(n, k) == k * ((n - 1) / 3) + n
  {
    if n > 3 {
      BufferSize(n - 3, k);
      assert (n - 1) / 3 == (n - 4) / 3 + 1;
      assert k * ((n - 4) / 3 + 1) == k * ((n - 4) / 3) + k;
    }
  }

  lemma {:induction false} LengthGrows(m: nat, n: nat, k: nat)
    requires m <= n
    ensures GroupedLength(m, k) <= GroupedLength(n, k)
  {
    if m < n {
      OneMoreDigit(n - 1, k);
      LengthGrows(m, n - 1, k);
    }
  }

  /** A separator in front of the digits that are already written, if one is due. */
  function Due(written: string, sep: string): string {
    if Separated(|written|) then sep else []
  }

  /** A separator stands before a digit exactly when a positive multiple of three digits
      follow it. */
  lemma {:induction false} DigitInFront(d: char, digits: string, sep: string)
    ensures Grouped([d] + digits, sep) == [d] + (Due(digits, sep) + Grouped(digits, sep))
  {
    var all, n := [d] + digits, |digits|;
    if n > 3 {
      var front, last := digits[..n - 3], digits[n - 3..];
      assert all[..n - 2] == [d] + front && all[n - 2..] == last;
      DigitInFront(d, front, sep);
      assert Separated(n - 3) == Separated(n);
      Regroup(d, Due(front, sep), Grouped(front, sep), sep, last);
    } else if n == 3 {
      assert all[..1] == [d] && all[1..] == digits;
    }
  }

  lemma Regroup(d: char, a: string, b: string, c: string, e: string)
    ensures ([d] + (a + b)) + c + e == [d] + (a + (b + c + e))
  {
  }

  /** The buffer with the length that NumberFormat computes for it. */
  method NewBuffer(preLength: nat, sepLength: nat) returns (prefixNew: array<char>)
    requires preLength > 0
    ensures fresh(prefixNew) && prefixNew.Length == GroupedLength(preLength, sepLength)
  {
    var sepNum := (preLength - 1) / 3;
    BufferSize(preLength, sepLength);
    prefixNew := new char[sepLength * sepNum + preLength];
  }

  /** The next digit, its separator and what is written already: they are grouped, and fit. */
  lemma NextDigit(digits: string, sep: string, k: nat)
    requires k < |digits|
    ensures var written := digits[k + 1..];
      && Grouped(digits[k..], sep) == [digits[k]] + (Due(written, sep) + Grouped(written, sep))
      && |Due(written, sep)| + 1 + |Grouped(written, sep)| <= GroupedLength(|digits|, |sep|)
  {
    var written := digits[k + 1..];
    assert [digits[k]] + written == digits[k..];
    DigitInFront(digits[k], written, sep);
    LengthOfGrouped(digits[k..], sep);
    LengthGrows(|digits| - k, |digits|, |sep|);
  }

  /** The cells after pos hold the grouped digits from k on. */
  ghost predicate Filled(buf: string, pos: int, prefix: string, k: nat, sep: string) {
    -1 <= pos < |buf| && k <= |prefix| && buf[pos + 1..] == Grouped(prefix[k..], sep)
  }

  /** The right-to-left fill. The position ends at -1: every cell has been written. */
  method Group(prefix: string, sep: string) returns (prefixNew: array<char>, prefixNewPos: int)
    requires prefix != []
    ensures fresh(prefixNew) && prefixNew[..] == Grouped(prefix, sep) && prefixNewPos == -1
  {
    var count, preLength := 0, |prefix|;
    prefixNew := NewBuffer(preLength, |sep|);
    prefixNewPos := prefixNew.Length - 1;
    var prefixPos := preLength - 1;
    while prefixPos >= 0
      invariant -1 <= prefixPos < preLength && count == preLength - 1 - prefixPos
      invariant Filled(prefixNew[..], prefixNewPos, prefix, prefixPos + 1, sep)
    {
      prefixNewPos := GroupNext(prefixNew, prefixNewPos, prefix, prefixPos, sep, count);
      prefixPos, count := prefixPos - 1, count + 1;
    }
    AllFilled(prefixNew[..], prefixNewPos, prefix, sep);
  }

  lemma AllFilled(buf: string, pos: int, prefix: string, sep: string)
    requires |buf| == GroupedLength(|prefix|, |sep|) && Filled(buf, pos, prefix, 0, sep)
    ensures pos == -1 && buf == Grouped(prefix, sep)
  {
    assert prefix[0..] == prefix;
    LengthOfGrouped(prefix, sep);
  }

  /** The loop's body. */
  method GroupNext(buf: array<char>, pos: int, prefix: string, prefixPos: nat, sep: string, count: nat) returns (pos': int)
    requires prefixPos < |prefix| && count == |prefix| - 1 - prefixPos
    requires buf.Length == GroupedLength(|prefix|, |sep|) && Filled(buf[..], pos, prefix, prefixPos + 1, sep)
    modifies buf
    ensures Filled(buf[..], pos', prefix, prefixPos, sep)
  {
    NextDigit(prefix, sep, prefixPos);
    assert buf[..][pos + 1..] == buf[pos + 1..];
    pos' := PutDigit(buf, pos, prefix[prefixPos], sep, count, prefix[prefixPos + 1..]);
    assert buf[..][pos' + 1..] == buf[pos' + 1..];
  }

  /** The separator, if one is due, and the digit. */
  method PutDigit(buf: array<char>, pos: int, digit: char, sep: string, count: nat, ghost written: string) returns (pos': int)
    requires count == |written| && |Due(written, sep)| <= pos < buf.Length
    modifies buf
    ensures -1 <= pos' < buf.Length && buf[pos' + 1..] == [digit] + (Due(written, sep) + old(buf[pos + 1..]))
  {
    pos' := pos;
    if |sep| > 0 && count > 0 && count % 3 == 0 {
      pos' := PutBack(buf, pos', sep);
    }
    ghost var filled := buf[pos' + 1..];
    buf[pos'] := digit;
    assert buf[pos'..] == [digit] + filled;
    pos' := pos' - 1;
  }

  /** The inner loop: the separator written backwards, its end at pos. */
  method PutBack(buf: array<char>, pos: int, sep: string) returns (pos': int)
    requires |sep| - 1 <= pos < buf.Length
    modifies buf
    ensures pos' == pos - |sep| && buf[pos' + 1..] == sep + old(buf[pos + 1..])
  {
    pos' := pos;
    for j := 0 to |sep|
      invariant pos' == pos - j
      invariant buf[pos' + 1..pos + 1] == sep[|sep| - j..]
      invariant buf[pos + 1..] == old(buf[pos + 1..])
    {
      ghost var written := buf[pos' + 1..pos + 1];
      buf[pos'] := sep[|sep| - j - 1];
      assert buf[pos'..pos + 1] == [sep[|sep| - j - 1]] + written;
      pos' := pos' - 1;
    }
    assert buf[pos' + 1..] == buf[pos' + 1..pos + 1] + buf[pos + 1..];
  }

  /** NumberFormat after rounding: the digits before and after the point of the rounded number. */
  method Format(isNegative: bool, prefix: string, suffix: string, places: int, sep: string) returns (result: string)
    requires prefix != []
    ensures result == (if isNegative then "-" else "") + Grouped(prefix, sep) + if places > 0 then "." + suffix else ""
  {
    var prefixNew, _ := Group(prefix, sep);
    result := prefixNew[..];
    if places > 0 {
      result := result + "." + suffix;
    }
    if isNegative {
      result := "-" + result;
    }
  }

  // ---- taking the separators out again ----

  /** Takes out k characters in front of each group of three from the right. */
  function Ungrouped(t: string, k: nat): string {
    if |t| <= k + 3 then t else Ungrouped(t[..|t| - 3 - k], k) + t[|t| - 3..]
  }

  lemma {:induction false} UngroupGives(digits: string, sep: string)
    ensures Ungrouped(Grouped(digits, sep), |sep|) == digits
  {
    if |digits| > 3 {
      var front := digits[..|digits| - 3];
      var t := Grouped(digits, sep);
      UngroupGives(front, sep);
      assert t[..|t| - 3 - |sep|] == Grouped(front, sep);
      assert t[|t| - 3..] == digits[|digits| - 3..];
      LengthOfGrouped(front, sep);
      LengthGrows(1, |front|, |sep|);
    }
  }

  function DigitsOf(t: string): string {
    if t == [] then [] else DigitsOf(t[..|t| - 1]) + if IsDigit(t[|t| - 1]) then [t[|t| - 1]] else []
  }

  lemma {:induction false} DigitsOfAppend(a: string, b: string)
    ensures DigitsOf(a + b) == DigitsOf(a) + DigitsOf(b)
  {
    if b == [] {
      assert a + b == a;
    } else {
      assert (a + b)[..|a + b| - 1] == a + b[..|b| - 1];
      DigitsOfAppend(a, b[..|b| - 1]);
    }
  }

  lemma {:induction false} DigitsOfUniform(s: string)
    ensures (forall c :: c in s ==> IsDigit(c)) ==> DigitsOf(s) == s
    ensures (forall c :: c in s ==> !IsDigit(c)) ==> DigitsOf(s) == []
  {
    if s != [] {
      DigitsOfUniform(s[..|s| - 1]);
      assert s == s[..|s| - 1] + [s[|s| - 1]];
      assert s[|s| - 1] in s;
    }
  }

  lemma DigitsOfParts(a: string, sep: string, last: string)
    requires (forall c :: c in sep ==> !IsDigit(c)) && (forall c :: c in last ==> IsDigit(c))
    ensures DigitsOf(a + sep + last) == DigitsOf(a) + last
  {
    DigitsOfAppend(a + sep, last);
    DigitsOfAppend(a, sep);
    DigitsOfUniform(sep);
    DigitsOfUniform(last);
    assert DigitsOf(a) + [] == DigitsOf(a);
  }

  /** With a separator free of digits, deleting everything but digits gives the digits back. */
  lemma {:induction false} DigitsSurvive(digits: string, sep: string)
    requires (forall c :: c in digits ==> IsDigit(c)) && (forall c :: c in sep ==> !IsDigit(c))
    ensures DigitsOf(Grouped(digits, sep)) == digits
  {
    if |digits| <= 3 {
      DigitsOfUniform(digits);
    } else {
      var front, last := digits[..|digits| - 3], digits[|digits| - 3..];
      assert digits == front + last;
      DigitsSurvive(front, sep);
      DigitsOfParts(Grouped(front, sep), sep, last);
    }
  }
}

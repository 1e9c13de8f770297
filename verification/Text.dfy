/** The string functions of the Go standard library that the store's behaviour depends on.
    A character stands for one byte. */
module Text {
  import opened Prelude

  // ---------- strconv.FormatInt / ParseInt, base 10 ----------

  const MAX_INT64 := 0x7FFF_FFFF_FFFF_FFFF
  const MIN_INT64 := -0x8000_0000_0000_0000

  predicate IsDigit(c: char) {
    '0' <= c <= '9'
  }

  function DigitChar(d: int): char
    requires 0 <= d < 10
  {
    '0' + d as char
  }

  function DigitValue(c: char): int
    requires IsDigit(c)
  {
    c as int - '0' as int
  }

  function FormatNat(n: nat): string {
    if n < 10 then [DigitChar(n)] else FormatNat(n / 10) + [DigitChar(n % 10)]
  }

  function FormatInt(n: int): string {
    if n < 0 then "-" + FormatNat(-n) else FormatNat(n)
  }

  predicate AllDigits(s: string) {
    forall i :: 0 <= i < |s| ==> IsDigit(s[i])
  }

  function DecimalValue(s: string): int
    requires AllDigits(s)
  {
    if s == [] then 0 else DecimalValue(s[..|s| - 1]) * 10 + DigitValue(s[|s| - 1])
  }

  /** An optional sign and at least one digit. */
  function ParseDecimal(s: string): Option<int> {
    var negative := |s| > 0 && s[0] == '-';
    var digits := if |s| > 0 && (s[0] == '-' || s[0] == '+') then s[1..] else s;
    if |digits| == 0 || !AllDigits(digits) then None
    else Some(if negative then -DecimalValue(digits) else DecimalValue(digits))
  }

  /** A value outside the int64 range is an error. */
  function ParseInt(s: string): Option<int> {
    match ParseDecimal(s)
    case None => None
    case Some(n) => if MIN_INT64 <= n <= MAX_INT64 then Some(n) else None
  }

  lemma {:induction false} FormatNatDigits(n: nat)
    ensures |FormatNat(n)| > 0 && AllDigits(FormatNat(n)) && DecimalValue(FormatNat(n)) == n
  {
    if n < 10 {
      assert FormatNat(n)[..0] == [];
    } else {
      FormatNatDigits(n / 10);
      var init := FormatNat(n / 10);
      assert FormatNat(n)[..|init|] == init;
    }
  }

  /** Parsing what was formatted gives the number back. */
  lemma FormatParse(n: int)
    ensures ParseDecimal(FormatInt(n)) == Some(n)
    ensures MIN_INT64 <= n <= MAX_INT64 <==> ParseInt(FormatInt(n)) == Some(n)
  {
    hide DecimalValue, FormatNat;
    if n < 0 {
      FormatNatDigits(-n);
      assert ("-" + FormatNat(-n))[1..] == FormatNat(-n);
    } else {
      FormatNatDigits(n);
    }
  }

  /** Formatting is decimal, digit by digit. */
  lemma FormatMeans(n: nat, d: nat)
    requires d < 10
    ensures FormatInt(d) == ["0123456789"[d]]
    ensures n > 0 ==> FormatInt(10 * n + d) == FormatInt(n) + ["0123456789"[d]]
    ensures n > 0 ==> FormatInt(0 - n) == "-" + FormatInt(n)
  {
    assert (10 * n + d) / 10 == n && (10 * n + d) % 10 == d;
  }

  lemma DigitsSnoc(s: string, c: char)
    ensures AllDigits("") && DecimalValue("") == 0
    ensures AllDigits(s + [c]) <==> AllDigits(s) && '0' <= c <= '9'
    ensures AllDigits(s + [c]) ==> DecimalValue(s + [c]) == 10 * DecimalValue(s) + (c as int - '0' as int)
  {
    assert (s + [c])[..|s|] == s && (s + [c])[|s|] == c;
    if AllDigits(s + [c]) {
      assert forall i :: 0 <= i < |s| ==> s[i] == (s + [c])[i];
    }
    if AllDigits(s) && '0' <= c <= '9' {
      assert forall i :: 0 <= i < |s| + 1 ==> (s + [c])[i] == if i < |s| then s[i] else c;
    }
  }

  /** Parsing is, character by character: an optional sign, then digits, at least one. */
  lemma ParseMeans(s: string, c: char)
    ensures ParseDecimal("") == None
    ensures ParseDecimal(s + [c]) ==
            var d := c as int - '0' as int;
            if !('0' <= c <= '9') then None
            else if s == "" || s == "+" then Some(d)
            else if s == "-" then Some(-d)
            else if ParseDecimal(s).None? then None
            else Some(10 * ParseDecimal(s).value + if s[0] == '-' then -d else d)
    ensures ParseInt(s) ==
            if ParseDecimal(s).Some? && -0x8000_0000_0000_0000 <= ParseDecimal(s).value < 0x8000_0000_0000_0000 then
              ParseDecimal(s)
            else None
  {
    hide AllDigits, DecimalValue;
    if s == "" {
      DigitsSnoc("", c);
      assert "" + [c] == [c] && [c][1..] == "";
    } else {
      var before := if s[0] == '-' || s[0] == '+' then s[1..] else s;
      DigitsSnoc(before, c);
      assert (s + [c])[0] == s[0] && (s + [c])[1..] == s[1..] + [c];
      assert |s| == 1 ==> s == [s[0]];
    }
  }

  /** Two versions never share a decimal key. */
  lemma FormatInjective(m: int, n: int)
    ensures FormatInt(m) == FormatInt(n) ==> m == n
  {
    FormatParse(m);
    FormatParse(n);
  }

  /** Decimal text holds no slash, so an index is one path segment. */
  lemma FormatNoSlash(n: nat)
    ensures '/' !in FormatInt(n) && FormatInt(n) != ""
  {
    FormatNatDigits(n);
  }

  // ---------- strings.Trim(s, "<>") ----------

  predicate IsAngle(c: char) {
    c == '<' || c == '>'
  }

  function TrimLeft(s: string): string {
    if s != [] && IsAngle(s[0]) then TrimLeft(s[1..]) else s
  }

  function TrimRight(s: string): string {
    if s != [] && IsAngle(s[|s| - 1]) then TrimRight(s[..|s| - 1]) else s
  }

  function TrimAngles(s: string): string {
    TrimRight(TrimLeft(s))
  }

  /** What is left lies between two runs of angle brackets and has none at its ends. */
  predicate Between(s: string, i: int, j: int) {
    && 0 <= i <= j <= |s|
    && (forall k :: 0 <= k < |s| && !(i <= k < j) ==> s[k] == '<' || s[k] == '>')
    && (i < j ==> s[i] != '<' && s[i] != '>' && s[j - 1] != '<' && s[j - 1] != '>')
  }

  lemma {:induction false} TrimLeftMeans(s: string)
    ensures var t := TrimLeft(s);
            && |t| <= |s| && t == s[|s| - |t|..]
            && (forall k :: 0 <= k < |s| - |t| ==> s[k] == '<' || s[k] == '>')
            && (t != [] ==> t[0] != '<' && t[0] != '>')
  {
    if s != [] && IsAngle(s[0]) {
      TrimLeftMeans(s[1..]);
      assert forall k :: 0 < k < |s| ==> s[k] == s[1..][k - 1];
    }
  }

  lemma {:induction false} TrimRightMeans(s: string)
    ensures var t := TrimRight(s);
            && t <= s
            && (forall k :: |t| <= k < |s| ==> s[k] == '<' || s[k] == '>')
            && (t != [] ==> t[|t| - 1] != '<' && t[|t| - 1] != '>')
  {
    if s != [] && IsAngle(s[|s| - 1]) {
      TrimRightMeans(s[..|s| - 1]);
      assert forall k :: 0 <= k < |s| - 1 ==> s[k] == s[..|s| - 1][k];
    }
  }

  lemma TrimAnglesMeans(s: string)
    ensures exists i, j :: Between(s, i, j) && TrimAngles(s) == s[i..j]
  {
    var t := TrimLeft(s);
    var i := |s| - |t|;
    var j := i + |TrimAngles(s)|;
    TrimLeftMeans(s);
    TrimRightMeans(t);
    assert forall k :: 0 <= k < |t| ==> t[k] == s[i + k];
    assert TrimAngles(s) == s[i..j];
    forall k | j <= k < |s|
      ensures s[k] == '<' || s[k] == '>'
    {
      assert t[k - i] == s[k];
    }
    assert Between(s, i, j);
  }

  // ---------- strings.EqualFold against an ASCII name without k and s ----------

  function ToLower(c: char): char {
    if 'A' <= c <= 'Z' then c + 32 as char else c
  }

  predicate EqualFold(a: string, b: string) {
    |a| == |b| && forall i :: 0 <= i < |a| ==> ToLower(a[i]) == ToLower(b[i])
  }

  /** Letter by letter the same, but for the case. */
  lemma EqualFoldMeans(a: string, b: string)
    ensures EqualFold(a, b) <==>
            |a| == |b| &&
            forall i :: 0 <= i < |a| ==>
              || a[i] == b[i]
              || ('A' <= a[i] <= 'Z' && b[i] as int == a[i] as int + 32)
              || ('A' <= b[i] <= 'Z' && a[i] as int == b[i] as int + 32)
  {
  }

  // ---------- strings.Split(s, "/") ----------

  function Split(s: string): (parts: seq<string>)
    ensures |parts| > 0
  {
    if s == [] then [[]]
    else
      var rest := Split(s[1..]);
      if s[0] == '/' then [[]] + rest else [[s[0]] + rest[0]] + rest[1..]
  }

  lemma SplitCons(c: char, s: string)
    ensures Split([c] + s) == if c == '/' then [[]] + Split(s) else [[c] + Split(s)[0]] + Split(s)[1..]
  {
    assert ([c] + s)[1..] == s;
  }

  lemma SplitEmpty()
    ensures Split("") == [""]
  {
  }

  lemma {:induction false} SplitConcat(p: string, q: string)
    ensures Split(p + "/" + q) == Split(p) + Split(q)
  {
    hide Split;
    SplitEmpty();
    if p == [] {
      assert p + "/" + q == ['/'] + q;
      SplitCons('/', q);
    } else {
      var c, p' := p[0], p[1..];
      assert p + "/" + q == [c] + (p' + "/" + q) && p == [c] + p';
      SplitCons(c, p' + "/" + q);
      SplitCons(c, p');
      SplitConcat(p', q);
      ConsConcat(c, Split(p'), Split(q));
    }
  }

  lemma ConsConcat(c: char, a: seq<string>, b: seq<string>)
    requires a != []
    ensures [[]] + (a + b) == ([[]] + a) + b
    ensures [[c] + (a + b)[0]] + (a + b)[1..] == ([[c] + a[0]] + a[1..]) + b
  {
    assert (a + b)[0] == a[0] && (a + b)[1..] == a[1..] + b;
  }

  lemma {:induction false} SplitPlain(s: string)
    requires '/' !in s
    ensures Split(s) == [s]
  {
    if s == [] {
    } else {
      assert s == [s[0]] + s[1..];
      SplitPlain(s[1..]);
    }
  }

  // ---------- safeFilename ----------

  const MAX_NAME := 200

  predicate IsReserved(c: char) {
    c in ['/', '\\', ':', '*', '?', '"', '<', '>', '|']
  }

  function SafeChar(c: char): char {
    if IsReserved(c) then '-' else c
  }

  function SafeFilename(s: string): string {
    var r := seq(|s|, i requires 0 <= i < |s| => SafeChar(s[i]));
    if |r| > MAX_NAME then r[..MAX_NAME] else r
  }

  /** The first 200 bytes, the nine reserved ones replaced. */
  lemma SafeFilenameMeans(s: string)
    ensures var r := SafeFilename(s);
            && |r| == (if |s| > 200 then 200 else |s|)
            && forall i :: 0 <= i < |r| ==> r[i] == if s[i] in "/\\:*?\"<>|" then '-' else s[i]
  {
    assert forall i :: 0 <= i < |s| ==> (IsReserved(s[i]) <==> s[i] in "/\\:*?\"<>|");
  }

  /** A safe name is left alone. */
  lemma SafeFilenameTwice(s: string)
    ensures SafeFilename(SafeFilename(s)) == SafeFilename(s)
  {
    var r := SafeFilename(s);
    assert forall i :: 0 <= i < |r| ==> SafeChar(r[i]) == r[i];
  }

  /** Exactly when two ids share a file name: they agree, reserved characters counting as one,
      on their first 200 bytes, and neither is shorter than that without the other. */
  lemma SafeFilenameClash(a: string, b: string)
    ensures SafeFilename(a) == SafeFilename(b) <==>
            && (|a| == |b| || (|a| >= MAX_NAME && |b| >= MAX_NAME))
            && (forall i :: 0 <= i < |a| && i < |b| && i < MAX_NAME ==>
                  a[i] == b[i] || ((IsReserved(a[i]) || a[i] == '-') && (IsReserved(b[i]) || b[i] == '-')))
  {
    var x, y := SafeFilename(a), SafeFilename(b);
    assert forall i :: 0 <= i < |x| ==> x[i] == SafeChar(a[i]);
    assert forall i :: 0 <= i < |y| ==> y[i] == SafeChar(b[i]);
    if x == y {
      forall i | 0 <= i < |a| && i < |b| && i < MAX_NAME
        ensures a[i] == b[i] || ((IsReserved(a[i]) || a[i] == '-') && (IsReserved(b[i]) || b[i] == '-'))
      {
        assert x[i] == y[i];
      }
    }
  }
}

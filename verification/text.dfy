/** Byte strings as the C code sees them: decimal rendering in the style of
    `printf("%u")`/`"%d"`, C-string truncation at the first NUL, `strncmp`
    prefixes, and splitting a buffer on newlines. Characters stand for bytes. */
module Text {

  const NUL: char := 0 as char
  const NEWLINE: char := '\n'

  predicate IsDigit(c: char) {
    '0' <= c <= '9'
  }

  predicate AllDigits(s: string) {
    forall i :: 0 <= i < |s| ==> IsDigit(s[i])
  }

  function DigitChar(d: nat): (c: char)
    requires d < 10
    ensures IsDigit(c)
  {
    (48 + d) as char
  }

  function DigitValue(c: char): (d: nat)
    requires IsDigit(c)
    ensures d < 10
  {
    c as int - 48
  }

  /** Canonical decimal text of a natural number, as `printf("%u")` writes it. */
  function NatToDecimal(n: nat): (s: string)
    ensures 1 <= |s|
    ensures AllDigits(s)
    ensures s[0] == '0' ==> n == 0 && s == "0"
    decreases n
  {
    if n < 10 then [DigitChar(n)] else NatToDecimal(n / 10) + [DigitChar(n % 10)]
  }

  /** The value of a string of decimal digits, read left to right. */
  function DecimalValue(s: string): nat
    requires AllDigits(s)
  {
    if |s| == 0 then 0 else DecimalValue(s[..|s| - 1]) * 10 + DigitValue(s[|s| - 1])
  }

  /** Reading back the rendered digits recovers the number. */
  lemma {:induction false} DecimalRoundTrip(n: nat)
    ensures DecimalValue(NatToDecimal(n)) == n
    decreases n
  {
    var s := NatToDecimal(n);
    if n >= 10 {
      DecimalRoundTrip(n / 10);
      assert s[..|s| - 1] == NatToDecimal(n / 10);
      assert DigitValue(s[|s| - 1]) == n % 10;
    }
  }

  /** Appending a digit shifts the value one place and adds the digit. */
  lemma DecimalAppend(s: string, c: char)
    requires AllDigits(s) && IsDigit(c)
    ensures AllDigits(s + [c])
    ensures DecimalValue(s + [c]) == DecimalValue(s) * 10 + DigitValue(c)
  {
    assert (s + [c])[..|s|] == s;
  }

  /** Signed decimal text, as `printf("%d")`/`"%ld"` writes it. */
  function IntToDecimal(i: int): (s: string)
    ensures i >= 0 ==> s == NatToDecimal(i)
    ensures i < 0 ==> s == "-" + NatToDecimal(-i)
  {
    if i >= 0 then NatToDecimal(i) else "-" + NatToDecimal(-i)
  }

  /** The characters C's `isspace` accepts in the C locale: space, tab, newline,
      vertical tab, form feed and carriage return. */
  predicate IsSpace(c: char) {
    c == ' ' || c == '\t' || c == '\n' || c == 11 as char || c == 12 as char || c == '\r'
  }

  predicate AllSpace(s: string) {
    forall i :: 0 <= i < |s| ==> IsSpace(s[i])
  }

  /** The characters GLib's `g_ascii_isspace` accepts: space, tab, newline, form
      feed and carriage return. Unlike C's `isspace`, it leaves the vertical tab
      out. */
  predicate IsAsciiSpace(c: char) {
    c == ' ' || c == '\t' || c == '\n' || c == 12 as char || c == '\r'
  }

  predicate AllAsciiSpace(s: string) {
    forall i :: 0 <= i < |s| ==> IsAsciiSpace(s[i])
  }

  /** The number of whitespace characters `s` starts with. */
  function LeadingSpaces(s: string): (n: nat)
    ensures n <= |s| && AllSpace(s[..n])
    ensures n < |s| ==> !IsSpace(s[n])
    decreases |s|
  {
    if |s| > 0 && IsSpace(s[0]) then
      var n := 1 + LeadingSpaces(s[1..]);
      assert s[..n] == [s[0]] + s[1..][..n - 1];
      n
    else 0
  }

  /** The whitespace run is the whole of a whitespace prefix followed by a
      non-space character or nothing. */
  lemma {:induction false} LeadingSpacesOf(sp: string, rest: string)
    requires AllSpace(sp) && (|rest| > 0 ==> !IsSpace(rest[0]))
    ensures LeadingSpaces(sp + rest) == |sp|
    decreases |sp|
  {
    if |sp| > 0 {
      assert (sp + rest)[1..] == sp[1..] + rest;
      LeadingSpacesOf(sp[1..], rest);
    } else {
      assert sp + rest == rest;
    }
  }

  predicate HasPrefix(s: string, p: string) {
    |p| <= |s| && s[..|p|] == p
  }

  /** Index of the first occurrence of `c` in `s`, or `|s|` when there is none. */
  function IndexOf(s: string, c: char): (k: nat)
    ensures k <= |s|
    ensures k < |s| ==> s[k] == c
    ensures forall j :: 0 <= j < k ==> s[j] != c
  {
    if |s| == 0 then 0
    else if s[0] == c then 0
    else 1 + IndexOf(s[1..], c)
  }

  /** The longest run of decimal digits at the start of `s`: what `atoi` reads
      from a string that starts with a digit. */
  function LeadingDigits(s: string): (r: string)
    ensures HasPrefix(s, r) && AllDigits(r)
    ensures |r| < |s| ==> !IsDigit(s[|r|])
    decreases |s|
  {
    if |s| == 0 || !IsDigit(s[0]) then "" else [s[0]] + LeadingDigits(s[1..])
  }

  /** A string of digits is read whole. */
  lemma {:induction false} LeadingDigitsOfDigits(s: string)
    requires AllDigits(s)
    ensures LeadingDigits(s) == s
    decreases |s|
  {
    if |s| > 0 {
      LeadingDigitsOfDigits(s[1..]);
    }
  }

  /** The C string a NUL-terminated buffer holds: everything before the first NUL. */
  function BeforeNul(s: string): (r: string)
    ensures HasPrefix(s, r)
    ensures NUL !in r
    ensures NUL !in s ==> r == s
  {
    s[..IndexOf(s, NUL)]
  }

  /** The newline-terminated lines of `s`, without their newlines and in order;
      whatever follows the last newline is not a line. */
  function CompleteLines(s: string): (lines: seq<string>)
    ensures forall i :: 0 <= i < |lines| ==> NEWLINE !in lines[i]
    decreases |s|
  {
    var k := IndexOf(s, NEWLINE);
    if k == |s| then [] else [s[..k]] + CompleteLines(s[k + 1..])
  }

  /** The text that lines joined with a newline after each one make. */
  function JoinLines(lines: seq<string>): string {
    if |lines| == 0 then "" else lines[0] + [NEWLINE] + JoinLines(lines[1..])
  }

  /** Splitting undoes joining, and a trailing fragment without a newline is dropped. */
  lemma {:induction false} SplitJoin(lines: seq<string>, fragment: string)
    requires forall i :: 0 <= i < |lines| ==> NEWLINE !in lines[i]
    requires NEWLINE !in fragment
    ensures CompleteLines(JoinLines(lines) + fragment) == lines
    decreases |lines|
  {
    var s := JoinLines(lines) + fragment;
    if |lines| == 0 {
      assert s == fragment;
      assert IndexOf(s, NEWLINE) == |s|;
    } else {
      var head := lines[0];
      var rest := JoinLines(lines[1..]) + fragment;
      assert s == head + [NEWLINE] + rest;
      IndexOfAfter(head, rest, NEWLINE);
      assert s[..|head|] == head;
      assert s[|head| + 1..] == rest;
      SplitJoin(lines[1..], fragment);
    }
  }

  /** The first `c` in `a + [c] + b` is the one right after `a` when `a` has none. */
  lemma {:induction false} IndexOfAfter(a: string, b: string, c: char)
    requires c !in a
    ensures IndexOf(a + [c] + b, c) == |a|
  {
    var s := a + [c] + b;
    assert s[|a|] == c;
    assert forall j :: 0 <= j < |a| ==> s[j] == a[j];
  }

  /** A prefix of what follows position `k` extends to a prefix through `k`. */
  lemma PrefixThrough<T>(s: seq<T>, k: nat, p: seq<T>)
    requires k < |s| && |p| <= |s| - k - 1 && s[k + 1..][..|p|] == p
    ensures s[..k + 1 + |p|] == s[..k] + [s[k]] + p
    ensures s[k + 1 + |p|..] == s[k + 1..][|p|..]
  {
  }

  /** Joining the lines of `s` gives back `s` up to its trailing fragment. */
  lemma {:induction false} JoinSplit(s: string)
    ensures HasPrefix(s, JoinLines(CompleteLines(s)))
    ensures NEWLINE !in s[|JoinLines(CompleteLines(s))|..]
    decreases |s|
  {
    var k := IndexOf(s, NEWLINE);
    if k < |s| {
      var tail := s[k + 1..];
      JoinSplit(tail);
      var j := JoinLines(CompleteLines(tail));
      assert JoinLines(CompleteLines(s)) == s[..k] + [NEWLINE] + j;
      PrefixThrough(s, k, j);
    } else {
      assert JoinLines(CompleteLines(s)) == "";
      assert s[0..] == s;
    }
  }
}

/** The little of Python's text handling that reports rely on: decimal integers, `split`, `strip`,
    `readlines`. */
module Text {
  import opened Trace

  predicate IsDigit(c: char) { '0' <= c <= '9' }
  predicate IsSpace(c: char) { c == ' ' || c == '\t' || c == '\n' }

  function DigitChar(d: nat): (c: char)
    requires d < 10
    ensures IsDigit(c) && Value(c) == d
  {
    ('0' as int + d) as char
  }

  function Value(c: char): nat
    requires IsDigit(c)
  {
    c as int - '0' as int
  }

  function Digits(n: nat): (s: string)
    ensures s != [] && forall c | c in s :: IsDigit(c)
  {
    if n < 10 then [DigitChar(n)] else Digits(n / 10) + [DigitChar(n % 10)]
  }

  function Show(i: int): (s: string)
    ensures s != [] && forall c | c in s :: IsDigit(c) || c == '-'
  {
    if i < 0 then "-" + Digits(-i) else Digits(i)
  }

  function Number(s: string): nat
    requires forall c | c in s :: IsDigit(c)
  {
    if s == [] then 0 else 10 * Number(s[..|s| - 1]) + Value(s[|s| - 1])
  }

  function ReadNat(s: string): Option<nat> {
    if s != [] && forall c | c in s :: IsDigit(c) then Some(Number(s)) else None
  }

  function StripLeft(s: string): string {
    if s != [] && IsSpace(s[0]) then StripLeft(s[1..]) else s
  }

  function StripRight(s: string): string {
    if s != [] && IsSpace(s[|s| - 1]) then StripRight(s[..|s| - 1]) else s
  }

  /** `int(text)`: surrounding white space, an optional sign, decimal digits. */
  function ReadInt(text: string): Option<int> { ReadSigned(StripRight(StripLeft(text))) }

  function ReadSigned(s: string): Option<int> {
    if s == [] then None
    else if s[0] == '-' || s[0] == '+' then
      var n := ReadNat(s[1..]);
      if n.None? then None else if s[0] == '-' then Some(0 - n.value) else Some(n.value)
    else
      var n := ReadNat(s);
      if n.None? then None else Some(n.value)
  }

  lemma {:induction false} NumberOfDigits(n: nat)
    ensures Number(Digits(n)) == n
  {
    if n >= 10 {
      var s := Digits(n);
      assert s[..|s| - 1] == Digits(n / 10) && s[|s| - 1] == DigitChar(n % 10);
      NumberOfDigits(n / 10);
    }
  }

  lemma {:induction false} StripPrinted(s: string)
    requires s != [] && !IsSpace(s[0]) && !IsSpace(s[|s| - 1])
    ensures StripRight(StripLeft(" " + s + "\n")) == s
  {
  }

  /** Reading back a printed integer, as it stands after a colon at the end of a line. */
  lemma {:induction false} ReadIntOfShow(i: int)
    ensures ReadInt(" " + Show(i) + "\n") == Some(i)
  {
    var s := Show(i);
    assert s[0] in s && s[|s| - 1] in s;
    StripPrinted(s);
    ReadSignedOfShow(i);
  }

  lemma {:induction false} ReadSignedOfShow(i: int)
    ensures ReadSigned(Show(i)) == Some(i)
  {
    var s := Show(i);
    if i < 0 {
      assert s[1..] == Digits(-i);
      NumberOfDigits(-i);
    } else {
      assert s[0] in s;
      NumberOfDigits(i);
    }
  }

  /** `text.split(sep)` for a one-character separator. */
  function Split(text: string, sep: char): (parts: seq<string>)
    ensures parts != []
    decreases |text|
  {
    var i := Find(text, sep);
    if i == |text| then [text] else [text[..i]] + Split(text[i + 1..], sep)
  }

  /** Index of the first `c`, or the length. */
  function Find(text: string, c: char): (i: nat)
    ensures i <= |text| && (i < |text| ==> text[i] == c)
    ensures c !in text[..i]
  {
    if text == [] || text[0] == c then 0 else 1 + Find(text[1..], c)
  }

  lemma {:induction false} FindAfter(a: string, c: char, b: string)
    requires c !in a
    ensures Find(a + [c] + b, c) == |a|
  {
    var t := a + [c] + b;
    var i := Find(t, c);
    assert t[|a|] == c;
  }

  lemma {:induction false} SplitPair(a: string, c: char, b: string)
    requires c !in a && c !in b
    ensures Split(a + [c] + b, c) == [a, b]
  {
    var t := a + [c] + b;
    FindAfter(a, c, b);
    assert t[..|a|] == a && t[|a| + 1..] == b;
  }

  function ReadLines(text: string): seq<string>
    decreases |text|
  {
    if text == [] then []
    else
      var i := Find(text, '\n');
      if i == |text| then [text] else [text[..i + 1]] + ReadLines(text[i + 1..])
  }

  function Unlines(lines: seq<string>): string {
    if lines == [] then "" else lines[0] + "\n" + Unlines(lines[1..])
  }

  ghost predicate OneLine(s: string) { '\n' !in s }

  function Ended(lines: seq<string>): (r: seq<string>)
    ensures |r| == |lines| && forall k | 0 <= k < |r| :: r[k] == lines[k] + "\n"
  {
    seq(|lines|, k requires 0 <= k < |lines| => lines[k] + "\n")
  }

  lemma {:induction false} ReadLinesOfUnlines(lines: seq<string>)
    requires forall s | s in lines :: OneLine(s)
    ensures ReadLines(Unlines(lines)) == Ended(lines)
  {
    if lines != [] {
      var t := Unlines(lines);
      var s, rest := lines[0], Unlines(lines[1..]);
      assert t == s + ['\n'] + rest;
      assert s in lines;
      FindAfter(s, '\n', rest);
      assert t[..|s| + 1] == s + "\n" && t[|s| + 1..] == rest;
      ReadLinesOfUnlines(lines[1..]);
    }
  }

  /** Lexicographic order on strings. */
  predicate Less(a: string, b: string) {
    if b == [] then false
    else if a == [] then true
    else a[0] < b[0] || (a[0] == b[0] && Less(a[1..], b[1..]))
  }

  lemma {:induction false} LessIsOrder(a: string, b: string, c: string)
    ensures !Less(a, a)
    ensures Less(a, b) && Less(b, c) ==> Less(a, c)
  {
    if a != [] {
      LessIsOrder(a[1..], if b == [] then [] else b[1..], if c == [] then [] else c[1..]);
    }
  }
}

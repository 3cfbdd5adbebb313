/**
 The few functions on text that the project files need: splitting, trimming and decimal numbers, as
 the Go packages bufio, strings and strconv do it.
 */
module Text {
  import opened Wrappers

  // ---------------------------------------------------------------- splitting

  function IndexOf(s: string, c: char): (i: nat)
    ensures i <= |s| && (i < |s| ==> s[i] == c) && c !in s[..i]
  {
    if s == "" then 0
    else if s[0] == c then 0
    else
      var i := IndexOf(s[1..], c);
      assert s[..i + 1] == [s[0]] + s[1..][..i];
      i + 1
  }

  lemma IndexOfUnique(s: string, c: char, i: nat)
    requires i <= |s| && (i < |s| ==> s[i] == c) && c !in s[..i]
    ensures IndexOf(s, c) == i
  {
    var k := IndexOf(s, c);
    assert forall j :: 0 <= j < i ==> s[..i][j] == s[j];
    assert forall j :: 0 <= j < k ==> s[..k][j] == s[j];
  }

  /** strings.Split with a one-character separator. */
  function Split(s: string, c: char): seq<string>
    decreases |s|
  {
    var i := IndexOf(s, c);
    if i == |s| then [s] else [s[..i]] + Split(s[i + 1..], c)
  }

  /** bufio.ScanLines drops a carriage return at the end of a line. */
  function DropCR(s: string): string {
    if s != "" && s[|s| - 1] == '\r' then s[..|s| - 1] else s
  }

  /** The lines a bufio.Scanner yields. */
  function Lines(s: string): seq<string>
    decreases |s|
  {
    if s == "" then []
    else
      var i := IndexOf(s, '\n');
      if i == |s| then [DropCR(s)] else [DropCR(s[..i])] + Lines(s[i + 1..])
  }

  lemma FirstLine(a: string, b: string, i: nat)
    requires i < |a| && a[i] == '\n' && '\n' !in a[..i]
    ensures Lines(a + b) == [DropCR(a[..i])] + Lines(a[i + 1..] + b)
  {
    var s := a + b;
    assert s[..i] == a[..i];
    IndexOfUnique(s, '\n', i);
    assert s[i + 1..] == a[i + 1..] + b;
  }

  lemma HasLineEnd(a: string)
    requires a != "" && a[|a| - 1] == '\n'
    ensures IndexOf(a, '\n') < |a|
  {
    assert a[..|a|] == a;
  }

  /** Text that ends a line and what follows are read one after the other. */
  lemma {:induction false} LinesConcat(a: string, b: string)
    requires a == "" || a[|a| - 1] == '\n'
    ensures Lines(a + b) == Lines(a) + Lines(b)
    decreases |a|
  {
    if a == "" {
      assert a + b == b;
    } else {
      HasLineEnd(a);
      var i := IndexOf(a, '\n');
      var first, rest := DropCR(a[..i]), a[i + 1..];
      calc {
        Lines(a + b);
        { FirstLine(a, b, i); }
        [first] + Lines(rest + b);
        { LinesConcat(rest, b); }
        [first] + (Lines(rest) + Lines(b));
        ([first] + Lines(rest)) + Lines(b);
        Lines(a) + Lines(b);
      }
    }
  }

  lemma OneLine(line: string)
    requires '\n' !in line && DropCR(line) == line
    ensures Lines(line + "\n") == [line]
  {
    var s := line + "\n";
    assert s[..|line|] == line;
    IndexOfUnique(s, '\n', |line|);
    assert s[|line| + 1..] == "";
  }

  /** There is one field more than there are separators. */
  lemma {:induction false} SplitCount(s: string, c: char)
    ensures |Split(s, c)| == multiset(s)[c] + 1
    decreases |s|
  {
    var i := IndexOf(s, c);
    if i < |s| {
      SplitCount(s[i + 1..], c);
      assert s == s[..i] + [c] + s[i + 1..];
    } else {
      assert s[..i] == s;
    }
  }

  lemma TwoFields(a: string, b: string, c: char)
    requires c !in a && c !in b
    ensures Split(a + [c] + b, c) == [a, b]
  {
    var s := a + [c] + b;
    assert s[..|a|] == a;
    IndexOfUnique(s, c, |a|);
    assert s[|a| + 1..] == b;
    assert b[..|b|] == b;
    IndexOfUnique(b, c, |b|);
  }

  lemma {:induction false} FieldsAreFree(s: string, c: char)
    ensures forall f :: f in Split(s, c) ==> c !in f && forall x :: x in f ==> x in s
    decreases |s|
  {
    var i := IndexOf(s, c);
    assert s[..|s|] == s;
    if i < |s| {
      FieldsAreFree(s[i + 1..], c);
    }
  }

  lemma DropCRIsFree(s: string)
    requires '\n' !in s
    ensures '\n' !in DropCR(s)
  {
  }

  lemma {:induction false} LinesAreFree(s: string)
    ensures forall l :: l in Lines(s) ==> '\n' !in l
    decreases |s|
  {
    if s != "" {
      var i := IndexOf(s, '\n');
      DropCRIsFree(s[..i]);
      if i < |s| {
        LinesAreFree(s[i + 1..]);
        assert Lines(s) == [DropCR(s[..i])] + Lines(s[i + 1..]);
      } else {
        assert s[..i] == s;
        assert Lines(s) == [DropCR(s)];
      }
    }
  }

  // ---------------------------------------------------------------- trimming

  /** unicode.IsSpace. */
  predicate IsSpace(c: char) {
    || c in {'\t', '\n', '\r', ' '} || c == 11 as char || c == 12 as char
    || c == 0x85 as char || c == 0xA0 as char || c == 0x1680 as char
    || 0x2000 as char <= c <= 0x200a as char || c == 0x2028 as char || c == 0x2029 as char
    || c == 0x202f as char || c == 0x205f as char || c == 0x3000 as char
  }

  function TrimLeft(s: string): string {
    if s != "" && IsSpace(s[0]) then TrimLeft(s[1..]) else s
  }

  function TrimRight(s: string): string {
    if s != "" && IsSpace(s[|s| - 1]) then TrimRight(s[..|s| - 1]) else s
  }

  /** strings.TrimSpace. */
  function TrimSpace(s: string): string {
    TrimRight(TrimLeft(s))
  }

  predicate NoOuterBlanks(s: string) {
    s == "" || (!IsSpace(s[0]) && !IsSpace(s[|s| - 1]))
  }

  lemma {:induction false} TrimLeftKeeps(s: string)
    ensures forall x :: x in TrimLeft(s) ==> x in s
    ensures TrimLeft(s) == "" || !IsSpace(TrimLeft(s)[0])
  {
    if s != "" && IsSpace(s[0]) {
      TrimLeftKeeps(s[1..]);
    }
  }

  lemma {:induction false} TrimRightKeeps(s: string)
    ensures TrimRight(s) <= s
    ensures TrimRight(s) == "" || !IsSpace(TrimRight(s)[|TrimRight(s)| - 1])
  {
    if s != "" && IsSpace(s[|s| - 1]) {
      TrimRightKeeps(s[..|s| - 1]);
    }
  }

  lemma TrimSpaceTrims(s: string)
    ensures NoOuterBlanks(TrimSpace(s))
    ensures forall x :: x in TrimSpace(s) ==> x in s
    ensures NoOuterBlanks(s) ==> TrimSpace(s) == s
  {
    TrimLeftKeeps(s);
    TrimRightKeeps(TrimLeft(s));
  }

  // ---------------------------------------------------------------- decimal numbers

  function Digit(d: nat): (c: char)
    requires d < 10
    ensures IsDigit(c)
  {
    '0' + d as char
  }

  predicate IsDigit(c: char) {
    '0' <= c <= '9'
  }

  function DigitValue(c: char): nat
    requires IsDigit(c)
  {
    c as int - '0' as int
  }

  function Digits(n: nat): (s: string)
    ensures s != "" && forall i :: 0 <= i < |s| ==> IsDigit(s[i])
  {
    if n < 10 then [Digit(n)] else Digits(n / 10) + [Digit(n % 10)]
  }

  /** fmt's %d. */
  function Decimal(n: int): string {
    if n < 0 then "-" + Digits(-n) else Digits(n)
  }

  predicate AllDigits(s: string) {
    forall i :: 0 <= i < |s| ==> IsDigit(s[i])
  }

  function Value(s: string): nat
    requires AllDigits(s)
  {
    if s == "" then 0 else Value(s[..|s| - 1]) * 10 + DigitValue(s[|s| - 1])
  }

  const INT64_LIMIT := 0x8000_0000_0000_0000

  function Unsigned(s: string): Option<nat> {
    if s != "" && AllDigits(s) then Some(Value(s)) else None
  }

  /** strconv.Atoi: an optional sign, digits, and a value that fits 64 bits. */
  function Atoi(s: string): Option<int> {
    var negative := s != "" && s[0] == '-';
    var u := Unsigned(if s != "" && (s[0] == '-' || s[0] == '+') then s[1..] else s);
    if u.None? then None
    else
      var magnitude: int := u.value;
      var v := if negative then -magnitude else magnitude;
      if -INT64_LIMIT <= v < INT64_LIMIT then Some(v) else None
  }

  lemma {:induction false} ValueOfDigits(n: nat)
    ensures Value(Digits(n)) == n
  {
    if n < 10 {
      var s := [Digit(n)];
      assert s[..|s| - 1] == "" && Value("") == 0;
    } else {
      var s := Digits(n);
      ValueOfDigits(n / 10);
      assert s[..|s| - 1] == Digits(n / 10) && s[|s| - 1] == Digit(n % 10);
    }
  }

  /** Reading back a printed number. */
  lemma AtoiOfDecimal(n: int)
    requires -INT64_LIMIT <= n < INT64_LIMIT
    ensures Atoi(Decimal(n)) == Some(n)
  {
    if n < 0 {
      ValueOfDigits(-n);
      assert Decimal(n)[1..] == Digits(-n);
    } else {
      ValueOfDigits(n);
    }
  }

  lemma DecimalChars(n: int)
    ensures forall c :: c in Decimal(n) ==> IsDigit(c) || c == '-'
    ensures NoOuterBlanks(Decimal(n)) && Decimal(n) != ""
    ensures DropCR(Decimal(n)) == Decimal(n)
  {
    var s := if n < 0 then Digits(-n) else Digits(n);
    assert IsDigit(s[|s| - 1]) && IsDigit(s[0]);
    assert Decimal(n)[|Decimal(n)| - 1] == s[|s| - 1];
  }
}

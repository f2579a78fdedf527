/** Number literals of the assembly parser (examples/xed-util-asmparse.c). */
module AsmNumber {
  import opened Numerals
  import opened Wrappers

  const RANGE: int := 0x1_0000_0000_0000_0000
  const HALF: int := 0x8000_0000_0000_0000

  /** The int64_t with the same low 64 bits. */
  function Wrap(x: int): (r: int)
    ensures -HALF <= r < HALF
    ensures -HALF <= x < HALF ==> r == x
  {
    (x + HALF) % RANGE - HALF
  }

  lemma WrapIgnores(x: int, k: int)
    ensures Wrap(x + k * RANGE) == Wrap(x)
  {
    var y := x + HALF;
    assert y == RANGE * (y / RANGE) + y % RANGE;
    assert y + k * RANGE == RANGE * (y / RANGE + k) + y % RANGE;
  }

  lemma WrapDiffers(x: int) returns (k: int)
    ensures x == Wrap(x) + k * RANGE
  {
    k := (x + HALF) / RANGE;
    assert x + HALF == RANGE * k + (x + HALF) % RANGE;
  }

  /** One digit more: the shift or multiplication on the wrapped value wraps to the same. */
  lemma WrapStep(x: int, base: int, d: int)
    ensures Wrap(Wrap(x) * base + d) == Wrap(x * base + d)
  {
    var k := WrapDiffers(x);
    assert x * base + d == (Wrap(x) * base + d) + (k * base) * RANGE;
    WrapIgnores(Wrap(x) * base + d, k * base);
  }

  lemma WrapNegates(x: int)
    ensures Wrap(-Wrap(x)) == Wrap(-x)
  {
    var k := WrapDiffers(x);
    assert -x == -Wrap(x) + (-k) * RANGE;
    WrapIgnores(-Wrap(x), -k);
  }

  predicate IsUpperHex(c: char) {
    IsDigit(c) || 'A' <= c <= 'F'
  }

  /** The digits that a base allows; the line has been put in upper case. */
  predicate DigitsOf(s: string, base: nat) {
    forall i :: 0 <= i < |s| ==> IsUpperHex(s[i]) && Digit(s[i]) < base
  }

  /** The base of a literal without its sign, and where its digits start. */
  function BaseOf(s: string): (nat, nat)
    ensures BaseOf(s).1 <= |s| && BaseOf(s).0 in {2, 8, 10, 16}
  {
    if |s| >= 2 && s[0] == '0' then
      if s[1] == 'B' then (2, 2) else if s[1] == 'X' then (16, 2) else (8, 1)
    else (10, 0)
  }

  function Unsigned(s: string): string {
    if s != "" && (s[0] == '-' || s[0] == '+') then s[1..] else s
  }

  /** The number a literal stands for, before it is put into 64 bits. */
  function Literal(s: string, argNegative: bool): Option<int> {
    var u := Unsigned(s);
    var (base, start) := BaseOf(u);
    if u == "" || !IsDigit(u[0]) || !DigitsOf(u[start..], base) then None
    else
      var n: int := Number(u[start..], base);
      Some(if argNegative || s[0] == '-' then -n else n)
  }

  // ----- Literals, character by character -----

  /** The digits of a binary, octal, decimal or hexadecimal literal. */
  lemma DigitsAre(d: string)
    ensures DigitsOf(d, 2) <==> forall i :: 0 <= i < |d| ==> '0' <= d[i] <= '1'
    ensures DigitsOf(d, 8) <==> forall i :: 0 <= i < |d| ==> '0' <= d[i] <= '7'
    ensures DigitsOf(d, 10) <==> forall i :: 0 <= i < |d| ==> '0' <= d[i] <= '9'
    ensures DigitsOf(d, 16) <==> forall i :: 0 <= i < |d| ==> '0' <= d[i] <= '9' || 'A' <= d[i] <= 'F'
  {
  }

  /** A literal without a sign is told by its first characters. */
  lemma LiteralBases(d: string)
    ensures Literal("0B" + d, false) == if DigitsOf(d, 2) then Some(Number(d, 2)) else None
    ensures Literal("0X" + d, false) == if DigitsOf(d, 16) then Some(Number(d, 16)) else None
    ensures d != "" && d[0] != 'B' && d[0] != 'X' ==>
      Literal("0" + d, false) == if DigitsOf(d, 8) then Some(Number(d, 8)) else None
    ensures d != "" && '1' <= d[0] <= '9' ==>
      Literal(d, false) == if DigitsOf(d, 10) then Some(Number(d, 10)) else None
  {
    Binary(d);
    Hexadecimal(d);
    if d != "" {
      OctalOrDecimal(d);
    }
  }

  lemma Binary(d: string)
    ensures Literal("0B" + d, false) == if DigitsOf(d, 2) then Some(Number(d, 2)) else None
  {
    BehindPrefix("0B", d, 2);
  }

  lemma Hexadecimal(d: string)
    ensures Literal("0X" + d, false) == if DigitsOf(d, 16) then Some(Number(d, 16)) else None
  {
    BehindPrefix("0X", d, 16);
  }

  lemma OctalOrDecimal(d: string)
    requires d != ""
    ensures d[0] != 'B' && d[0] != 'X' ==>
      Literal("0" + d, false) == if DigitsOf(d, 8) then Some(Number(d, 8)) else None
    ensures '1' <= d[0] <= '9' ==>
      Literal(d, false) == if DigitsOf(d, 10) then Some(Number(d, 10)) else None
  {
    if d[0] != 'B' && d[0] != 'X' {
      BehindPrefix("0", d, 8);
    }
  }

  lemma BehindPrefix(p: string, d: string, base: nat)
    requires p != "" && p[0] == '0' && BaseOf(p + d) == (base, |p|)
    ensures Literal(p + d, false) == if DigitsOf(d, base) then Some(Number(d, base)) else None
  {
    assert (p + d)[|p|..] == d && (p + d)[0] == '0';
  }

  /** A sign in front of a digit, and the negation that the caller asks for. */
  lemma LiteralSigns(u: string, n: int)
    requires u != "" && '0' <= u[0] <= '9'
    ensures Literal("-" + u, false) == Some(-n) <==> Literal(u, false) == Some(n)
    ensures Literal("+" + u, false) == Some(n) <==> Literal(u, false) == Some(n)
    ensures Literal(u, true) == Some(-n) <==> Literal(u, false) == Some(n)
    ensures Literal("-" + u, true) == Some(-n) <==> Literal(u, false) == Some(n)
  {
    assert ("-" + u)[1..] == u && ("+" + u)[1..] == u;
  }

  /** Nothing else is a literal: the first character behind a sign has to be a digit. */
  lemma LiteralStarts(s: string, argNegative: bool)
    requires Literal(s, argNegative).Some?
    ensures s != "" && ('0' <= s[0] <= '9' || ((s[0] == '-' || s[0] == '+') && |s| > 1 && '0' <= s[1] <= '9'))
  {
  }

  // ----- The parser's loops -----

  lemma DigitStep(s: string, j: nat, base: nat)
    requires j < |s| && DigitsOf(s[..j], base) && IsUpperHex(s[j]) && Digit(s[j]) < base
    ensures DigitsOf(s[..j + 1], base)
    ensures Wrap(Number(s[..j + 1], base)) == Wrap(Wrap(Number(s[..j], base)) * base + Digit(s[j]))
  {
    assert s[..j + 1][..j] == s[..j];
    WrapStep(Number(s[..j], base), base, Digit(s[j]));
  }

  /** The loop over the digits of one base; None on a character that is no digit of it. */
  method ParseDigits(s: string, base: nat) returns (r: Option<int>)
    requires base in {2, 8, 10, 16}
    ensures r == if DigitsOf(s, base) then Some(Wrap(Number(s, base))) else None
  {
    var val := 0;
    for j := 0 to |s|
      invariant DigitsOf(s[..j], base) && val == Wrap(Number(s[..j], base))
    {
      if !IsUpperHex(s[j]) || Digit(s[j]) >= base {
        return None;
      }
      DigitStep(s, j, base);
      val := Wrap(val * base + Digit(s[j]));
    }
    assert s[..|s|] == s;
    return Some(val);
  }

  /** The digits from position i on, with their base prefix. */
  method ParseUnsigned(s: string, i: nat) returns (r: Option<int>)
    requires i < |s|
    ensures var (base, start) := BaseOf(s[i..]);
      var digits := s[i..][start..];
      r == if DigitsOf(digits, base) then Some(Wrap(Number(digits, base))) else None
  {
    var base, start := 10, i;
    if s[i] == '0' && i + 1 < |s| {
      if s[i + 1] == 'B' {
        base, start := 2, i + 2;
      } else if s[i + 1] == 'X' {
        base, start := 16, i + 2;
      } else {
        base, start := 8, i + 1;
      }
    }
    assert s[start..] == s[i..][BaseOf(s[i..]).1..];
    r := ParseDigits(s[start..], base);
  }

  /** val >> 63 on an int64_t, which keeps the sign. */
  function SignBits(val: int): (r: int)
    requires -HALF <= val < HALF
    ensures r == if val < 0 then -1 else 0
  {
    val / HALF
  }

  /** asm_isnumber. The guard against negating a value that is too big, behind which the program
      exits, compares an arithmetic shift of a signed value with 1 and never holds. */
  method AsmIsNumber(s: string, argNegative: bool) returns (r: Option<int>)
    ensures r.Some? <==> Literal(s, argNegative).Some?
    ensures r.Some? ==> r.value == Wrap(Literal(s, argNegative).value)
  {
    var negative := argNegative;
    var i := 0;
    if s != "" && s[0] == '-' {
      negative := true;
      i := i + 1;
    }
    if s != "" && s[0] == '+' {
      i := i + 1;
    }
    assert s[i..] == Unsigned(s);
    if i < |s| && IsDigit(s[i]) {
      var val := ParseUnsigned(s, i);
      if val.None? {
        return None;
      }
      if negative {
        if SignBits(val.value) == 1 {
          assert false;
        }
        var (base, start) := BaseOf(s[i..]);
        WrapNegates(Number(s[i..][start..], base));
        return Some(Wrap(-val.value));
      }
      return val;
    }
    return None;
  }

  // ----- Printing is inverted -----

  function DigitChar(d: nat): (c: char)
    requires d < 16
    ensures IsUpperHex(c) && Digit(c) == d
  {
    if d < 10 then '0' + d as char else 'A' + (d - 10) as char
  }

  function Digits(n: nat, base: nat): (s: string)
    requires 2 <= base <= 16
    ensures s != ""
  {
    if n < base then [DigitChar(n)] else Digits(n / base, base) + [DigitChar(n % base)]
  }

  lemma NumberAppend(s: string, c: char, base: nat)
    requires DigitsOf(s, base) && IsUpperHex(c) && Digit(c) < base
    ensures DigitsOf(s + [c], base) && Number(s + [c], base) == base * Number(s, base) + Digit(c)
  {
    assert (s + [c])[..|s|] == s;
  }

  lemma {:induction false} DigitsRead(n: nat, base: nat)
    requires 2 <= base <= 16
    ensures DigitsOf(Digits(n, base), base) && Number(Digits(n, base), base) == n
    decreases n
  {
    if n < base {
      NumberAppend("", DigitChar(n), base);
      assert "" + [DigitChar(n)] == [DigitChar(n)];
    } else {
      var q, m := n / base, n % base;
      LastDigit(n, q, m, base);
      DigitsRead(q, base);
      OneDigitMore(Digits(q, base), q, m, base);
    }
  }

  lemma LastDigit(n: nat, q: nat, m: nat, base: nat)
    requires 2 <= base <= 16 && base <= n && q == n / base && m == n % base
    ensures q < n && m < base && n == base * q + m && Digits(n, base) == Digits(q, base) + [DigitChar(m)]
  {
    QuotientIsSmaller(n, base);
  }

  lemma OneDigitMore(s: string, q: nat, m: nat, base: nat)
    requires m < base <= 16 && DigitsOf(s, base) && Number(s, base) == q
    ensures DigitsOf(s + [DigitChar(m)], base) && Number(s + [DigitChar(m)], base) == base * q + m
  {
    NumberAppend(s, DigitChar(m), base);
  }

  lemma {:induction false} LeadingDigit(n: nat, base: nat)
    requires 2 <= base <= 16 && n > 0
    ensures Digits(n, base)[0] != '0'
    decreases n
  {
    if n >= base {
      QuotientIsSmaller(n, base);
      LeadingDigit(n / base, base);
    }
  }

  lemma QuotientIsSmaller(n: nat, base: nat)
    requires 2 <= base <= n
    ensures 0 < n / base < n && n == base * (n / base) + n % base
  {
  }

  function Prefix(base: nat): string {
    if base == 2 then "0B" else if base == 8 then "0" else if base == 16 then "0X" else ""
  }

  function Size(n: int): nat {
    if n < 0 then -n else n
  }

  function Printed(n: int, base: nat): string
    requires base in {2, 8, 10, 16}
  {
    (if n < 0 then "-" else "") + (Prefix(base) + Digits(Size(n), base))
  }

  /** The prefix tells the base, also for zero and in front of digits that look like one. */
  lemma BaseIsPrinted(n: nat, base: nat)
    requires base in {2, 8, 10, 16}
    ensures var u := Prefix(base) + Digits(n, base);
      IsDigit(u[0]) && BaseOf(u) == (base, |Prefix(base)|) && u[|Prefix(base)|..] == Digits(n, base)
  {
    var digits := Digits(n, base);
    DigitsRead(n, base);
    if n == 0 {
      assert digits == [DigitChar(0)];
    } else {
      LeadingDigit(n, base);
    }
    BaseOfDigits(digits, base);
  }

  lemma BaseOfDigits(digits: string, base: nat)
    requires base in {2, 8, 10, 16} && digits != "" && IsUpperHex(digits[0]) && Digit(digits[0]) < base
    requires |digits| > 1 ==> digits[0] != '0'
    ensures var u := Prefix(base) + digits;
      IsDigit(u[0]) && BaseOf(u) == (base, |Prefix(base)|) && u[|Prefix(base)|..] == digits
  {
  }

  lemma SignIsPrinted(n: int, base: nat)
    requires base in {2, 8, 10, 16}
    ensures Unsigned(Printed(n, base)) == Prefix(base) + Digits(Size(n), base)
    ensures Printed(n, base) != "" && (Printed(n, base)[0] == '-' <==> n < 0)
  {
    var u := Prefix(base) + Digits(Size(n), base);
    BaseIsPrinted(Size(n), base);
    if n < 0 {
      assert Printed(n, base) == ['-'] + u;
    } else {
      assert Printed(n, base) == u;
    }
  }

  lemma LiteralOf(s: string, u: string, digits: string, base: nat, start: nat)
    requires s != "" && Unsigned(s) == u && u != "" && IsDigit(u[0]) && BaseOf(u) == (base, start)
    requires u[start..] == digits && DigitsOf(digits, base)
    ensures Literal(s, false) == Some(if s[0] == '-' then 0 - Number(digits, base) else Number(digits, base))
  {
  }

  /** Reading what is printed, in any of the four bases, gives the number back. */
  lemma LiteralInvertsPrinting(n: int, base: nat)
    requires base in {2, 8, 10, 16}
    ensures Literal(Printed(n, base), false) == Some(n)
  {
    SignIsPrinted(n, base);
    BaseIsPrinted(Size(n), base);
    DigitsRead(Size(n), base);
    LiteralOf(Printed(n, base), Prefix(base) + Digits(Size(n), base), Digits(Size(n), base), base, |Prefix(base)|);
  }

  /** So the parser reads back exactly the numbers that fit in 64 bits with a sign. */
  method ReadsBack(n: int, base: nat) returns (r: Option<int>)
    requires base in {2, 8, 10, 16}
    ensures r == Some(n) <==> -0x8000_0000_0000_0000 <= n < 0x8000_0000_0000_0000
  {
    LiteralInvertsPrinting(n, base);
    r := AsmIsNumber(Printed(n, base), false);
  }
}

/** What a line of assembly says: its words and its operands. */
module AsmLine {
  const PREFIXES: set<string> := {
    "DATA16", "DATA32", "ADDR16", "ADDR32", "REX", "REWXW", "XACQUIRE", "XRELEASE",
    "LOCK", "REP", "REPE", "REPNE"
  }

  predicate IsSpace(c: char) {
    c == ' ' || '\t' <= c <= '\r'
  }

  /** isspace: blank, tab, line feed, vertical tab, form feed and carriage return. */
  lemma SpacesAre(c: char)
    ensures IsSpace(c) <==> c as int in {32, 9, 10, 11, 12, 13}
  {
  }

  lemma PrefixesAre(p: string)
    ensures p in PREFIXES <==> p in [
      "DATA16", "DATA32", "ADDR16", "ADDR32", "REX", "REWXW", "XACQUIRE", "XRELEASE", "LOCK", "REP", "REPE", "REPNE"]
  {
  }

  function Skip(s: string): (r: string)
    ensures |r| <= |s| && (r != "" ==> !IsSpace(r[0]))
  {
    if s != "" && IsSpace(s[0]) then Skip(s[1..]) else s
  }

  lemma {:induction false} SkipIs(s: string)
    ensures Skip(s) == s[|s| - |Skip(s)|..] && forall i :: 0 <= i < |s| - |Skip(s)| ==> IsSpace(s[i])
    decreases |s|
  {
    if s != "" && IsSpace(s[0]) {
      SkipIs(s[1..]);
    }
  }

  /** The characters up to the first space. */
  function Word(s: string): (r: string)
    ensures r <= s && (|r| < |s| ==> IsSpace(s[|r|]))
    ensures forall i :: 0 <= i < |r| ==> !IsSpace(r[i])
  {
    if s == "" || IsSpace(s[0]) then "" else [s[0]] + Word(s[1..])
  }

  /** What follows the word and one space. */
  function AfterWord(s: string): (r: string)
    ensures s != "" ==> |r| < |s|
  {
    if |Word(s)| < |s| then s[|Word(s)| + 1..] else ""
  }

  function Words(s: string): seq<string>
    decreases |s|
  {
    var t := Skip(s);
    if t == "" then [] else [Word(t)] + Words(AfterWord(t))
  }

  /** The leading words that are prefixes. */
  function Prefixes(s: string): seq<string>
    decreases |s|
  {
    if s != "" && Word(s) in PREFIXES then [Word(s)] + Prefixes(Skip(AfterWord(s))) else []
  }

  function AfterPrefixes(s: string): (r: string)
    ensures |r| <= |s|
    decreases |s|
  {
    if s != "" && Word(s) in PREFIXES then AfterPrefixes(Skip(AfterWord(s))) else s
  }

  lemma WordsStep(s: string)
    requires s != "" && !IsSpace(s[0])
    ensures Words(s) == [Word(s)] + Words(Skip(AfterWord(s)))
  {
    assert Skip(s) == s;
    WordsSkip(AfterWord(s));
  }

  lemma {:induction false} PrefixesKnown(s: string)
    ensures forall i :: 0 <= i < |Prefixes(s)| ==> Prefixes(s)[i] in PREFIXES
    decreases |s|
  {
    if s != "" && Word(s) in PREFIXES {
      PrefixesKnown(Skip(AfterWord(s)));
    }
  }

  lemma {:induction false} PrefixesStop(s: string)
    requires s == "" || !IsSpace(s[0])
    ensures Words(AfterPrefixes(s)) != [] ==> Words(AfterPrefixes(s))[0] !in PREFIXES
    decreases |s|
  {
    if s != "" {
      WordsStep(s);
      if Word(s) in PREFIXES {
        PrefixesStop(Skip(AfterWord(s)));
      }
    }
  }

  lemma Regroup(a: string, b: seq<string>, c: seq<string>)
    ensures ([a] + b) + c == [a] + (b + c)
  {
  }

  lemma {:induction false} PrefixesLead(s: string)
    requires s == "" || !IsSpace(s[0])
    ensures Words(s) == Prefixes(s) + Words(AfterPrefixes(s))
    decreases |s|
  {
    if s != "" {
      WordsStep(s);
      if Word(s) in PREFIXES {
        var rest := Skip(AfterWord(s));
        PrefixesLead(rest);
        Regroup(Word(s), Prefixes(rest), Words(AfterPrefixes(rest)));
      }
    }
  }

  /** The prefixes are the maximal leading run of prefix words of the line, and nothing is lost. */
  lemma PrefixesAreMaximal(s: string)
    requires s == "" || !IsSpace(s[0])
    ensures Words(s) == Prefixes(s) + Words(AfterPrefixes(s))
    ensures forall i :: 0 <= i < |Prefixes(s)| ==> Prefixes(s)[i] in PREFIXES
    ensures Words(AfterPrefixes(s)) != [] ==> Words(AfterPrefixes(s))[0] !in PREFIXES
  {
    PrefixesLead(s);
    PrefixesKnown(s);
    PrefixesStop(s);
  }

  lemma WordsSkip(s: string)
    ensures Words(Skip(s)) == Words(s)
  {
    SkipTwice(s);
  }

  lemma {:induction false} SkipTwice(s: string)
    ensures Skip(Skip(s)) == Skip(s)
  {
  }

  // ----- Operands -----

  function Segment(s: string): (r: string)
    ensures r <= s && (|r| < |s| ==> s[|r|] == ',')
    ensures forall i :: 0 <= i < |r| ==> r[i] != ','
  {
    if s == "" || s[0] == ',' then "" else [s[0]] + Segment(s[1..])
  }

  function AfterSegment(s: string): (r: string)
    ensures s != "" ==> |r| < |s|
  {
    if |Segment(s)| < |s| then s[|Segment(s)| + 1..] else ""
  }

  function TrimRight(s: string): (r: string)
    ensures r <= s && (r != "" ==> !IsSpace(r[|r| - 1]))
  {
    if s != "" && IsSpace(s[|s| - 1]) then TrimRight(s[..|s| - 1]) else s
  }

  lemma {:induction false} TrimIs(s: string)
    ensures forall i :: |TrimRight(s)| <= i < |s| ==> IsSpace(s[i])
    decreases |s|
  {
    if s != "" && IsSpace(s[|s| - 1]) {
      TrimIs(s[..|s| - 1]);
    }
  }

  /** The operands in the order of the line. */
  function Operands(s: string): seq<string>
    decreases |s|
  {
    var t := Skip(s);
    if t == "" then [] else [TrimRight(Segment(t))] + Operands(AfterSegment(t))
  }

  predicate Trimmed(s: string) {
    s != "" ==> !IsSpace(s[0]) && !IsSpace(s[|s| - 1])
  }

  predicate NoComma(s: string) {
    forall i :: 0 <= i < |s| ==> s[i] != ','
  }

  /** Operands have no spaces around them and no commas in them. */
  lemma {:induction false} OperandsAreTrimmed(s: string)
    ensures forall i :: 0 <= i < |Operands(s)| ==> Trimmed(Operands(s)[i]) && NoComma(Operands(s)[i])
    decreases |s|
  {
    var t := Skip(s);
    if t != "" {
      OperandsAreTrimmed(AfterSegment(t));
      var o := TrimRight(Segment(t));
      assert o != "" ==> o[0] == t[0];
    }
  }

  // ----- A line written out is read back -----

  predicate IsWord(w: string) {
    w != "" && forall i :: 0 <= i < |w| ==> !IsSpace(w[i])
  }

  function Commas(ops: seq<string>): string {
    if ops == [] then "" else if |ops| == 1 then ops[0] else ops[0] + "," + (" " + Commas(ops[1..]))
  }

  function Written(prefixes: seq<string>, inst: string, ops: seq<string>): string {
    if prefixes == [] then inst + " " + Commas(ops) else prefixes[0] + " " + Written(prefixes[1..], inst, ops)
  }

  lemma {:induction false} WordOf(w: string, x: string)
    requires forall i :: 0 <= i < |w| ==> !IsSpace(w[i])
    ensures Word(w + " " + x) == w && AfterWord(w + " " + x) == x
    decreases |w|
  {
    var s := w + " " + x;
    if w != "" {
      WordOf(w[1..], x);
      assert s[1..] == w[1..] + " " + x;
    }
    assert s[|w| + 1..] == x;
  }

  lemma {:induction false} SegmentOf(o: string, x: string)
    requires NoComma(o)
    ensures Segment(o + "," + x) == o && AfterSegment(o + "," + x) == x
    ensures Segment(o) == o && AfterSegment(o) == ""
    decreases |o|
  {
    var s := o + "," + x;
    if o != "" {
      SegmentOf(o[1..], x);
      assert s[1..] == o[1..] + "," + x;
    }
    assert s[|o| + 1..] == x;
  }

  lemma FirstOperand(o: string, x: string)
    requires Trimmed(o) && NoComma(o)
    ensures Operands(o + "," + x) == [o] + Operands(x)
    ensures o != "" ==> Operands(o) == [o]
  {
    SegmentOf(o, x);
    assert TrimRight(o) == o;
    assert Skip(o + "," + x) == o + "," + x;
    if o != "" {
      assert Skip(o) == o;
      assert Operands("") == [];
    }
  }

  lemma LeadingSpace(s: string)
    ensures Operands(" " + s) == Operands(s)
  {
    assert (" " + s)[1..] == s;
  }

  /** Operands separated by commas, the last one not empty, are read back. */
  lemma {:induction false} OperandsInvertCommas(ops: seq<string>)
    requires forall i :: 0 <= i < |ops| ==> Trimmed(ops[i]) && NoComma(ops[i])
    requires ops != [] ==> ops[|ops| - 1] != ""
    ensures Operands(Commas(ops)) == ops
    decreases |ops|
  {
    if |ops| == 1 {
      FirstOperand(ops[0], "");
      assert ops == [ops[0]];
    } else if |ops| > 1 {
      var rest := Commas(ops[1..]);
      OperandsInvertCommas(ops[1..]);
      LeadingSpace(rest);
      FirstOperand(ops[0], " " + rest);
      assert ops == [ops[0]] + ops[1..];
    }
  }

  lemma {:induction false} PrefixesAreWords(p: string)
    requires p in PREFIXES
    ensures IsWord(p)
  {
  }

  lemma PrefixInFront(p: string, rest: string)
    requires p in PREFIXES && rest != "" && !IsSpace(rest[0])
    ensures var s := p + " " + rest;
      s != "" && !IsSpace(s[0]) && Prefixes(s) == [p] + Prefixes(rest) && AfterPrefixes(s) == AfterPrefixes(rest)
  {
    PrefixesAreWords(p);
    WordOf(p, rest);
    assert Skip(rest) == rest;
  }

  lemma NoPrefixInFront(inst: string, text: string)
    requires IsWord(inst) && inst !in PREFIXES
    ensures var s := inst + " " + text;
      && s != "" && !IsSpace(s[0]) && Prefixes(s) == [] && AfterPrefixes(s) == s
      && Word(s) == inst && AfterWord(s) == text
  {
    WordOf(inst, text);
  }

  /** Prefixes, mnemonic and operands of a line that is written out are read back. */
  lemma {:induction false} LineInvertsWriting(prefixes: seq<string>, inst: string, ops: seq<string>)
    requires forall i :: 0 <= i < |prefixes| ==> prefixes[i] in PREFIXES
    requires IsWord(inst) && inst !in PREFIXES
    requires forall i :: 0 <= i < |ops| ==> Trimmed(ops[i]) && NoComma(ops[i])
    requires ops != [] ==> ops[|ops| - 1] != ""
    ensures var s := Written(prefixes, inst, ops);
      && s != "" && !IsSpace(s[0])
      && Prefixes(s) == prefixes
      && Word(AfterPrefixes(s)) == inst
      && Operands(AfterWord(AfterPrefixes(s))) == ops
    decreases |prefixes|
  {
    if prefixes == [] {
      NoPrefixInFront(inst, Commas(ops));
      OperandsInvertCommas(ops);
    } else {
      LineInvertsWriting(prefixes[1..], inst, ops);
      PrefixInFront(prefixes[0], Written(prefixes[1..], inst, ops));
      assert prefixes == [prefixes[0]] + prefixes[1..];
    }
  }
}

/** The parser of a line, as it fills the record of what it found. */
module AsmParse {
  import opened AsmLine
  import opened Wrappers

  function Reversed<T>(s: seq<T>): (r: seq<T>)
    ensures |r| == |s| && forall i :: 0 <= i < |s| ==> r[i] == s[|s| - 1 - i]
  {
    if s == [] then [] else Reversed(s[1..]) + [s[0]]
  }

  /** The parsed line. The lists grow at their heads. */
  class LineParsed<T> {
    const input: string
    var prefixes: seq<string>
    var iclass: Option<string>
    var operands: seq<string>
    var opnds: seq<T>

    constructor (input: string)
      ensures this.input == input && prefixes == [] && iclass == None && operands == [] && opnds == []
    {
      this.input := input;
      prefixes, iclass, operands, opnds := [], None, [], [];
    }

    /** One round of grab_prefixes. */
    method GrabPrefix(text: string) returns (found: bool, rest: string)
      modifies this`prefixes
      ensures found <==> text != "" && Word(text) in PREFIXES
      ensures found ==> rest == Skip(AfterWord(text)) && prefixes == [Word(text)] + old(prefixes)
      ensures !found ==> rest == text && prefixes == old(prefixes)
    {
      var word, after := NextWord(text);
      found, rest := word in PREFIXES, text;
      if found {
        prefixes := [word] + prefixes;
        rest := SkipSpaces(after);
      }
    }

    /** grab_prefixes: what is left of the text */
    method GrabPrefixes(text: string) returns (rest: string)
      modifies this`prefixes
      ensures prefixes == Reversed(Prefixes(text)) + old(prefixes)
      ensures rest == AfterPrefixes(text)
    {
      rest := text;
      var found := true;
      ghost var all := Reversed(Prefixes(text)) + prefixes;
      while found
        invariant AfterPrefixes(text) == AfterPrefixes(rest)
        invariant Reversed(Prefixes(rest)) + prefixes == all
        invariant !found ==> rest == "" || Word(rest) !in PREFIXES
        decreases |rest|, found
      {
        PrefixStep(rest, prefixes);
        found, rest := GrabPrefix(rest);
      }
    }

    /** grab_inst */
    method GrabInst(text: string) returns (rest: string)
      modifies this`iclass
      ensures iclass == Some(Word(text)) && rest == AfterWord(text)
    {
      var word;
      word, rest := NextWord(text);
      iclass := Some(word);
    }

    /** grab_operand */
    method GrabOperand(text: string) returns (rest: string)
      modifies this`operands
      ensures var t := Skip(text);
        operands == [TrimRight(Segment(t))] + old(operands) && rest == AfterSegment(t)
    {
      var t := SkipSpaces(text);
      var segment;
      segment, rest := NextSegment(t);
      segment := TrimEnd(segment);
      operands := [segment] + operands;
    }

    /** refine_operands; false where the program exits on a bad operand */
    method RefineOperands(refine: string -> Option<T>) returns (ok: bool)
      modifies this`opnds
      ensures ok <==> forall i :: 0 <= i < |operands| ==> refine(operands[i]).Some?
      ensures ok ==> |opnds| == |operands| + |old(opnds)| && opnds[|operands|..] == old(opnds)
      ensures ok ==> forall i :: 0 <= i < |operands| ==> refine(operands[|operands| - 1 - i]) == Some(opnds[i])
    {
      for p := 0 to |operands|
        invariant forall i :: 0 <= i < p ==> refine(operands[i]).Some?
        invariant |opnds| == p + |old(opnds)| && opnds[p..] == old(opnds)
        invariant forall i :: 0 <= i < p ==> refine(operands[p - 1 - i]) == Some(opnds[i])
      {
        var o := refine(operands[p]);
        if o.None? {
          return false;
        }
        opnds := [o.value] + opnds;
      }
      return true;
    }

    /** The operands of asp_parse_line. */
    method GrabOperands(text: string)
      modifies this`operands
      ensures operands == Reversed(Operands(text)) + old(operands)
    {
      var rest := text;
      ghost var all := Reversed(Operands(text)) + operands;
      while true
        invariant Reversed(Operands(rest)) + operands == all
        decreases |rest|
      {
        rest := SkipSpaces(rest);
        if rest == "" {
          break;
        }
        OperandStep(rest, operands);
        rest := GrabOperand(rest);
      }
    }

    /** The part of asp_parse_line that takes the line apart. */
    method SplitLine(line: string)
      requires prefixes == [] && iclass == None && operands == []
      modifies this`prefixes, this`iclass, this`operands
      ensures Parses(this, line)
    {
      var p := SkipSpaces(line);
      if p != "" {
        p := GrabPrefixes(p);
      }
      if p != "" {
        p := GrabInst(p);
        GrabOperands(p);
      }
    }

    /** asp_parse_line, with upcase and refine_operand as parameters; false where the program exits */
    method ParseLine(upcase: string -> string, refine: string -> Option<T>) returns (ok: bool)
      requires prefixes == [] && iclass == None && operands == [] && opnds == []
      modifies this
      ensures Parses(this, upcase(input))
      ensures ok <==> forall i :: 0 <= i < |operands| ==> refine(operands[i]).Some?
      ensures ok ==> Refined(this, upcase(input), refine)
    {
      SplitLine(upcase(input));
      ok := RefineOperands(refine);
      ReversedTwice(OperandsOf(upcase(input)));
    }
  }

  lemma ReversedTwice<T>(s: seq<T>)
    ensures |Reversed(s)| == |s| && forall i :: 0 <= i < |s| ==> Reversed(s)[|s| - 1 - i] == s[i]
  {
  }

  /** The refined operands are those of the line, in its order: the two reversals cancel. */
  ghost predicate Refined<T>(v: LineParsed<T>, line: string, refine: string -> Option<T>)
    reads v
  {
    var operands := OperandsOf(line);
    |v.opnds| == |operands| && forall i :: 0 <= i < |operands| ==> refine(operands[i]) == Some(v.opnds[i])
  }

  lemma OperandStep(s: string, tail: seq<string>)
    requires s != "" && !IsSpace(s[0])
    ensures Reversed(Operands(s)) + tail
         == Reversed(Operands(AfterSegment(s))) + ([TrimRight(Segment(s))] + tail)
  {
    assert Skip(s) == s;
    Prepend(TrimRight(Segment(s)), Operands(AfterSegment(s)), tail);
  }

  /** What a line parses to: its words and operands, and the operands refined in the line's order. */
  ghost predicate Parses<T>(v: LineParsed<T>, line: string)
    reads v
  {
    var text := Skip(line);
    var rest := AfterPrefixes(text);
    && v.prefixes == Reversed(Prefixes(text))
    && v.iclass == (if rest == "" then None else Some(Word(rest)))
    && v.operands == Reversed(OperandsOf(line))
  }

  /** A line that was written out is parsed to what it was written from: the lists grow at their heads,
      so prefixes and operands come in reverse. */
  lemma WrittenIsParsed<T>(v: LineParsed<T>, prefixes: seq<string>, inst: string, ops: seq<string>)
    requires forall i :: 0 <= i < |prefixes| ==> prefixes[i] in PREFIXES
    requires IsWord(inst) && inst !in PREFIXES
    requires forall i :: 0 <= i < |ops| ==> Trimmed(ops[i]) && NoComma(ops[i])
    requires ops != [] ==> ops[|ops| - 1] != ""
    requires Parses(v, Written(prefixes, inst, ops))
    ensures |v.prefixes| == |prefixes|
    ensures forall i :: 0 <= i < |prefixes| ==> v.prefixes[|prefixes| - 1 - i] == prefixes[i]
    ensures v.iclass == Some(inst)
    ensures |v.operands| == |ops| && forall i :: 0 <= i < |ops| ==> v.operands[|ops| - 1 - i] == ops[i]
  {
    var s := Written(prefixes, inst, ops);
    LineInvertsWriting(prefixes, inst, ops);
    assert Skip(s) == s;
    ReversedTwice(prefixes);
    ReversedTwice(ops);
  }

  function OperandsOf(line: string): seq<string> {
    var rest := AfterPrefixes(Skip(line));
    if rest == "" then [] else Operands(AfterWord(rest))
  }

  lemma Prepend<T>(x: T, s: seq<T>, tail: seq<T>)
    ensures Reversed([x] + s) + tail == Reversed(s) + ([x] + tail)
  {
    assert ([x] + s)[1..] == s;
  }

  lemma PrefixStep(s: string, tail: seq<string>)
    ensures s != "" && Word(s) in PREFIXES ==>
      Reversed(Prefixes(s)) + tail == Reversed(Prefixes(Skip(AfterWord(s)))) + ([Word(s)] + tail)
  {
    if s != "" && Word(s) in PREFIXES {
      Prepend(Word(s), Prefixes(Skip(AfterWord(s))), tail);
    }
  }

  lemma {:induction false} SegmentIs(s: string, q: nat)
    requires q <= |s| && NoComma(s[..q]) && (q < |s| ==> s[q] == ',')
    ensures Segment(s) == s[..q]
    decreases q
  {
    if q > 0 {
      assert s[0] == s[..q][0];
      assert s[1..][..q - 1] == s[..q][1..];
      SegmentIs(s[1..], q - 1);
    }
  }

  method NextSegment(s: string) returns (segment: string, rest: string)
    ensures segment == Segment(s) && rest == AfterSegment(s)
  {
    var q := 0;
    while q < |s| && s[q] != ','
      invariant q <= |s| && NoComma(s[..q])
    {
      q := q + 1;
    }
    SegmentIs(s, q);
    segment := s[..q];
    rest := if q < |s| then s[q + 1..] else "";
  }

  method TrimEnd(s: string) returns (r: string)
    ensures r == TrimRight(s)
  {
    r := s;
    while r != "" && IsSpace(r[|r| - 1])
      invariant TrimRight(r) == TrimRight(s)
      decreases |r|
    {
      r := r[..|r| - 1];
    }
  }

  method SkipSpaces(s: string) returns (r: string)
    ensures r == Skip(s)
  {
    r := s;
    while r != "" && IsSpace(r[0])
      invariant Skip(r) == Skip(s)
      decreases |r|
    {
      r := r[1..];
    }
  }

  lemma {:induction false} WordIs(s: string, q: nat)
    requires q <= |s| && (forall i :: 0 <= i < q ==> !IsSpace(s[i])) && (q < |s| ==> IsSpace(s[q]))
    ensures Word(s) == s[..q]
    decreases q
  {
    if q > 0 {
      WordIs(s[1..], q - 1);
      assert s[..q] == [s[0]] + s[1..][..q - 1];
    }
  }

  method NextWord(s: string) returns (word: string, rest: string)
    ensures word == Word(s) && rest == AfterWord(s)
  {
    var q := 0;
    while q < |s| && !IsSpace(s[q])
      invariant q <= |s| && forall i :: 0 <= i < q ==> !IsSpace(s[i])
    {
      q := q + 1;
    }
    WordIs(s, q);
    word := s[..q];
    rest := if q < |s| then s[q + 1..] else "";
  }
}

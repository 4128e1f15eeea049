/** Hunk headers `@@ -start,count +start,count @@`: the regular expression of
    `_apply_unified_diff` as a parser, and a printer in the format of POSIX.1-2017,
    `diff`, "Diff -u or -U Output Format". */
module HunkHeader {
  import opened Wrappers
  import opened TextLines
  import Decimal

  /** A range of a header; `first` counts lines from 1. */
  datatype Range = Range(first: nat, count: nat)

  function SpanDigits(s: string): (n: nat)
    ensures n <= |s|
    ensures forall i :: 0 <= i < n ==> IsDigit(s[i])
  {
    if s != "" && IsDigit(s[0]) then 1 + SpanDigits(s[1..]) else 0
  }

  /** `(\d+)` */
  function Number(s: string): Option<(nat, string)> {
    var n := SpanDigits(s);
    if n == 0 then None else Some((Decimal.Value(s[..n]), s[n..]))
  }

  /** `(\d+)(?:,(\d+))?`, with a count of one line when none is written */
  function ParseRange(s: string): Option<(Range, string)> {
    var (first, rest) :- Number(s);
    if StartsWith(rest, ",") then
      var (count, rest') :- Number(rest[1..]);
      Some((Range(first, count), rest'))
    else
      Some((Range(first, 1), rest))
  }

  /** `\s+` */
  function Spaces(s: string): Option<string> {
    var n := SpanSpaces(s);
    if n == 0 then None else Some(s[n..])
  }

  function Literal(s: string, text: string): Option<string> {
    if StartsWith(s, text) then Some(s[|text|..]) else None
  }

  /** `\s+-(\d+)(?:,(\d+))?`, a range after its sign */
  function SignedRange(s: string, sign: string): Option<(Range, string)> {
    var s1 :- Spaces(s);
    var s2 :- Literal(s1, sign);
    ParseRange(s2)
  }

  /** The old range of a header line, if the line is a header. */
  function Match(line: string): Option<Range> {
    var s1 :- Literal(line, "@@");
    var (oldRange, s2) :- SignedRange(s1, "-");
    var (_, s3) :- SignedRange(s2, "+");
    var s4 :- Spaces(s3);
    var _ :- Literal(s4, "@@");
    Some(oldRange)
  }

  predicate IsHeader(line: string) {
    Match(line).Some?
  }

  /** A range of one line may be printed without its count. */
  function PrintRange(r: Range, short: bool): string {
    if short && r.count == 1 then Decimal.Print(r.first)
    else Decimal.Print(r.first) + "," + Decimal.Print(r.count)
  }

  function PrintSigned(sign: string, r: Range, short: bool): string {
    " " + (sign + PrintRange(r, short))
  }

  function Print(oldRange: Range, newRange: Range, short: bool): string {
    "@@" + (PrintSigned("-", oldRange, short) + (PrintSigned("+", newRange, short) + " @@\n"))
  }

  lemma {:induction false} SpanDigitsExact(digits: string, rest: string)
    requires forall i :: 0 <= i < |digits| ==> IsDigit(digits[i])
    requires rest != "" ==> !IsDigit(rest[0])
    ensures SpanDigits(digits + rest) == |digits|
  {
    if digits == "" {
      assert digits + rest == rest;
    } else {
      assert (digits + rest)[1..] == digits[1..] + rest;
      SpanDigitsExact(digits[1..], rest);
    }
  }

  lemma NumberOfPrint(n: nat, rest: string)
    requires rest != "" ==> !IsDigit(rest[0])
    ensures Number(Decimal.Print(n) + rest) == Some((n, rest))
  {
    var digits := Decimal.Print(n);
    SpanDigitsExact(digits, rest);
    Decimal.ValueOfPrint(n);
    assert (digits + rest)[..|digits|] == digits;
    assert (digits + rest)[|digits|..] == rest;
  }

  lemma ParseOfPrintRange(r: Range, short: bool, rest: string)
    requires rest != "" && rest[0] == ' '
    ensures ParseRange(PrintRange(r, short) + rest) == Some((r, rest))
  {
    var first := Decimal.Print(r.first);
    if short && r.count == 1 {
      NumberOfPrint(r.first, rest);
    } else {
      var count := Decimal.Print(r.count);
      assert PrintRange(r, short) + rest == first + ("," + (count + rest));
      NumberOfPrint(r.first, "," + (count + rest));
      NumberOfPrint(r.count, rest);
      assert ("," + (count + rest))[1..] == count + rest;
    }
  }

  lemma SpacesOne(rest: string)
    requires rest != "" && !IsSpace(rest[0])
    ensures Spaces(" " + rest) == Some(rest)
  {
    assert (" " + rest)[1..] == rest;
    assert SpanSpaces(rest) == 0;
  }

  lemma LiteralOf(text: string, rest: string)
    ensures Literal(text + rest, text) == Some(rest)
  {
    assert (text + rest)[|text|..] == rest;
  }

  lemma SignedRangeOfPrint(sign: string, r: Range, short: bool, rest: string)
    requires sign == "-" || sign == "+"
    requires rest != "" && rest[0] == ' '
    ensures SignedRange(PrintSigned(sign, r, short) + rest, sign) == Some((r, rest))
  {
    var s2 := PrintRange(r, short) + rest;
    assert PrintSigned(sign, r, short) + rest == " " + (sign + s2);
    SpacesOne(sign + s2);
    LiteralOf(sign, s2);
    ParseOfPrintRange(r, short, rest);
  }

  /** A printed header matches, and its old range is read back. */
  lemma MatchOfPrint(oldRange: Range, newRange: Range, short: bool)
    ensures Match(Print(oldRange, newRange, short)) == Some(oldRange)
  {
    var end := " @@\n";
    var plus := PrintSigned("+", newRange, short) + end;
    var minus := PrintSigned("-", oldRange, short) + plus;
    var line := "@@" + minus;
    assert Literal(line, "@@") == Some(minus) by {
      LiteralOf("@@", minus);
    }
    assert SignedRange(minus, "-") == Some((oldRange, plus)) by {
      SignedRangeOfPrint("-", oldRange, short, plus);
    }
    assert SignedRange(plus, "+") == Some((newRange, end)) by {
      SignedRangeOfPrint("+", newRange, short, end);
    }
    EndOfHeader();
  }

  lemma EndOfHeader()
    ensures Spaces(" @@\n") == Some("@@\n") && Literal("@@\n", "@@").Some?
  {
    assert " @@\n" == " " + "@@\n";
    SpacesOne("@@\n");
  }

  lemma PrintRangeUnbroken(r: Range, short: bool)
    ensures forall i :: 0 <= i < |PrintRange(r, short)| ==> !IsBreak(PrintRange(r, short)[i])
  {
    forall c | IsDigit(c) || c == ','
      ensures !IsBreak(c)
    {
    }
  }

  lemma PrintIsLine(oldRange: Range, newRange: Range, short: bool)
    ensures IsLine(Print(oldRange, newRange, short))
  {
    PrintRangeUnbroken(oldRange, short);
    PrintRangeUnbroken(newRange, short);
    var s := "@@" + (PrintSigned("-", oldRange, short) + (PrintSigned("+", newRange, short) + " @@"));
    UnbrokenLine(s);
    assert Print(oldRange, newRange, short) == s + "\n";
  }
}

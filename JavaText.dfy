/** The pieces of `java.lang.String` and `java.util.regex` behaviour that the core relies on. */
module JavaText {
  import opened Wrappers

  /** The text Java's string concatenation produces for a possibly-null string. */
  function JavaString(s: Option<string>): string {
    match s
    case Some(v) => v
    case None => "null"
  }

  /** The regular-expression class `\s`: space, tab, newline, vertical tab, form feed, carriage return. */
  predicate IsSpace(c: char) {
    c == ' ' || c == '\t' || c == '\n' || c == '\U{B}' || c == '\U{C}' || c == '\r'
  }

  /** What a greedy `\s*` at the front of `s` leaves over. */
  function SkipSpaces(s: string): string {
    if s != [] && IsSpace(s[0]) then SkipSpaces(s[1..]) else s
  }

  /** `\s*` removes a run of whitespace from the front, and no more than that run. */
  lemma {:induction false} SkipSpacesShape(s: string)
    ensures var r := SkipSpaces(s);
      |r| <= |s| && r == s[|s| - |r|..]
      && (forall i :: 0 <= i < |s| - |r| ==> IsSpace(s[i]))
      && (r == [] || !IsSpace(r[0]))
  {
    if s != [] && IsSpace(s[0]) {
      SkipSpacesShape(s[1..]);
      var r := SkipSpaces(s);
      assert s[1..][|s| - 1 - |r|..] == s[|s| - |r|..];
      assert forall i :: 1 <= i < |s| - |r| ==> s[i] == s[1..][i - 1];
    }
  }

  lemma {:induction false} SkipSpacesPrefix(ws: string, x: string)
    requires forall i :: 0 <= i < |ws| ==> IsSpace(ws[i])
    ensures SkipSpaces(ws + x) == SkipSpaces(x)
  {
    if ws == [] {
      assert ws + x == x;
    } else {
      assert IsSpace(ws[0]) && (ws + x)[0] == ws[0];
      assert (ws + x)[1..] == ws[1..] + x;
      SkipSpacesPrefix(ws[1..], x);
    }
  }

  /** `String.trim` at the front: drops every leading character at or below U+0020. */
  function TrimStart(s: string): string {
    if s != [] && s[0] <= ' ' then TrimStart(s[1..]) else s
  }

  /** `String.trim` at the back: drops every trailing character at or below U+0020. */
  function TrimEnd(s: string): string {
    if s != [] && s[|s| - 1] <= ' ' then TrimEnd(s[..|s| - 1]) else s
  }

  /** `String.trim`. */
  function Trim(s: string): string {
    TrimEnd(TrimStart(s))
  }

  lemma {:induction false} TrimStartShape(s: string)
    ensures var r := TrimStart(s);
      |r| <= |s| && r == s[|s| - |r|..]
      && (forall i :: 0 <= i < |s| - |r| ==> s[i] <= ' ')
      && (r == [] || r[0] > ' ')
  {
    if s != [] && s[0] <= ' ' {
      TrimStartShape(s[1..]);
    }
  }

  lemma {:induction false} TrimEndShape(s: string)
    ensures var r := TrimEnd(s);
      |r| <= |s| && r == s[..|r|]
      && (forall i :: |r| <= i < |s| ==> s[i] <= ' ')
      && (r == [] || r[|r| - 1] > ' ')
  {
    if s != [] && s[|s| - 1] <= ' ' {
      TrimEndShape(s[..|s| - 1]);
    }
  }

  /**
   * The trimmed text is a slice of the original with only characters at or
   * below U+0020 cut off on either side, and it starts and ends above U+0020.
   */
  lemma TrimShape(s: string)
    ensures var a, r := |s| - |TrimStart(s)|, Trim(s);
      0 <= a <= |s| - |r| && r == s[a..a + |r|]
      && (forall i :: 0 <= i < a ==> s[i] <= ' ')
      && (forall i :: a + |r| <= i < |s| ==> s[i] <= ' ')
    ensures Trim(s) == [] || (Trim(s)[0] > ' ' && Trim(s)[|Trim(s)| - 1] > ' ')
  {
    var t := TrimStart(s);
    TrimStartShape(s);
    TrimEndShape(t);
    var r := TrimEnd(t);
    var a := |s| - |t|;
    assert r == s[a..a + |r|];
    forall i | a + |r| <= i < |s| ensures s[i] <= ' ' {
      assert s[i] == t[i - a];
    }
  }

  /** Trimming twice changes nothing more. */
  lemma TrimIdempotent(s: string)
    ensures Trim(Trim(s)) == Trim(s)
  {
    var r := Trim(s);
    TrimShape(s);
    if r != [] {
      assert TrimStart(r) == r;
      assert TrimEnd(r) == r;
    }
  }

  /** `String.contains`. */
  predicate Contains(s: string, m: string) {
    exists i :: 0 <= i <= |s| && m <= s[i..]
  }

  /** Splitting at every occurrence of `sep`, keeping empty pieces (so the result is never empty). */
  function Split(s: string, sep: char): (parts: seq<string>)
    ensures |parts| >= 1
    ensures forall i :: 0 <= i < |parts| ==> sep !in parts[i]
  {
    if s == [] then [[]]
    else
      var rest := Split(s[1..], sep);
      if s[0] == sep then [[]] + rest
      else [[s[0]] + rest[0]] + rest[1..]
  }

  /** `String.join` / `Collectors.joining(sep)`. */
  function Join(parts: seq<string>, sep: string): string {
    if |parts| == 0 then []
    else if |parts| == 1 then parts[0]
    else parts[0] + sep + Join(parts[1..], sep)
  }

  lemma {:induction false} SplitNoSeparator(p: string, sep: char)
    requires sep !in p
    ensures Split(p, sep) == [p]
  {
    if p != [] {
      SplitNoSeparator(p[1..], sep);
      assert [p[0]] + p[1..] == p;
    }
  }

  lemma {:induction false} SplitAtSeparator(p: string, sep: char, t: string)
    requires sep !in p
    ensures Split(p + [sep] + t, sep) == [p] + Split(t, sep)
  {
    if p == [] {
      assert ([sep] + t)[1..] == t;
    } else {
      SplitAtSeparator(p[1..], sep, t);
      assert (p + [sep] + t)[1..] == p[1..] + [sep] + t;
      assert [p[0]] + p[1..] == p;
    }
  }

  /** Joining pieces free of the separator and splitting again gives back the pieces. */
  lemma {:induction false} SplitJoin(parts: seq<string>, sep: char)
    requires |parts| >= 1
    requires forall i :: 0 <= i < |parts| ==> sep !in parts[i]
    ensures Split(Join(parts, [sep]), sep) == parts
  {
    if |parts| == 1 {
      SplitNoSeparator(parts[0], sep);
    } else {
      SplitJoin(parts[1..], sep);
      SplitAtSeparator(parts[0], sep, Join(parts[1..], [sep]));
      assert [parts[0]] + parts[1..] == parts;
    }
  }

  /** A character absent from the text is absent from every piece. */
  lemma {:induction false} SplitKeepsAbsent(s: string, sep: char, c: char)
    requires c !in s
    ensures forall i :: 0 <= i < |Split(s, sep)| ==> c !in Split(s, sep)[i]
  {
    if s != [] {
      assert s[0] != c && c !in s[1..];
      SplitKeepsAbsent(s[1..], sep, c);
    }
  }

  /** Splitting and joining again gives back the text. */
  lemma {:induction false} JoinSplit(s: string, sep: char)
    ensures Join(Split(s, sep), [sep]) == s
  {
    if s != [] {
      JoinSplit(s[1..], sep);
      var rest := Split(s[1..], sep);
      if s[0] == sep {
        assert ([[]] + rest)[1..] == rest;
        assert s == [sep] + s[1..];
      } else if |rest| == 1 {
        assert s == [s[0]] + s[1..];
      } else {
        assert ([[s[0]] + rest[0]] + rest[1..])[1..] == rest[1..];
        assert s == [s[0]] + s[1..];
      }
    }
  }

  /** A decimal digit for `d < 10`. */
  function Digit(d: nat): (c: char)
    requires d < 10
    ensures '0' <= c <= '9' && (c as int) - ('0' as int) == d
  {
    (('0' as int) + d) as char
  }

  predicate IsDigits(s: string) {
    forall i :: 0 <= i < |s| ==> '0' <= s[i] <= '9'
  }

  /** `String.valueOf(long)` for a non-negative value. */
  function NatToString(n: nat): (s: string)
    ensures |s| >= 1 && IsDigits(s)
  {
    if n < 10 then [Digit(n)] else NatToString(n / 10) + [Digit(n % 10)]
  }

  /** `String.valueOf(int)`: a minus sign before the digits of a negative value. */
  function IntToString(n: int): string {
    if n < 0 then "-" + NatToString(-n) else NatToString(n)
  }

  /** The value of a run of decimal digits (the reading a parser gives it). */
  function DigitsValue(s: string): int {
    if s == [] then 0 else 10 * DigitsValue(s[..|s| - 1]) + ((s[|s| - 1] as int) - ('0' as int))
  }

  /** The reading of a signed decimal text, as `Integer.parseInt` gives it for well-formed input. */
  function DecimalValue(s: string): int {
    if s != [] && s[0] == '-' then -DigitsValue(s[1..]) else DigitsValue(s)
  }

  lemma {:induction false} NatToStringValue(n: nat)
    ensures DigitsValue(NatToString(n)) == n
  {
    if n >= 10 {
      NatToStringValue(n / 10);
      var s := NatToString(n);
      assert s[..|s| - 1] == NatToString(n / 10);
    }
  }

  /** The decimal text of an integer reads back as that integer, so distinct codes have distinct texts. */
  lemma IntToStringValue(n: int)
    ensures DecimalValue(IntToString(n)) == n
  {
    if n < 0 {
      var d := NatToString(-n);
      NatToStringValue(-n);
      var s := "-" + d;
      assert s[0] == '-' && s[1..] == d;
      calc {
        DecimalValue(IntToString(n));
        DecimalValue(s);
        -DigitsValue(d);
        n;
      }
    } else {
      var d := NatToString(n);
      NatToStringValue(n);
      assert '0' <= d[0] <= '9';
      calc {
        DecimalValue(IntToString(n));
        DecimalValue(d);
        DigitsValue(d);
        n;
      }
    }
  }

  /** The number of `%s` specifiers in a format string. */
  function Specifiers(t: string): nat {
    if |t| < 2 then 0
    else if t[0] == '%' && t[1] == 's' then 1 + Specifiers(t[2..])
    else Specifiers(t[1..])
  }

  /** `String.formatted` for a template whose only specifiers are `%s`: each takes the next argument in turn. */
  function Formatted(t: string, args: seq<string>): string
    requires Specifiers(t) <= |args|
  {
    if |t| < 2 then t
    else if t[0] == '%' && t[1] == 's' then args[0] + Formatted(t[2..], args[1..])
    else [t[0]] + Formatted(t[1..], args)
  }

  /** Literal text followed by the arguments in order, the expected rendering of a template. */
  function Fill(chunks: seq<string>, args: seq<string>): string
    requires |chunks| == |args| + 1
  {
    if args == [] then chunks[0] else chunks[0] + args[0] + Fill(chunks[1..], args[1..])
  }

  lemma {:induction false} LiteralSpecifiers(c: string, rest: string)
    requires '%' !in c
    ensures Specifiers(c + rest) == Specifiers(rest)
  {
    if c != [] {
      LiteralSpecifiers(c[1..], rest);
      assert c[0] in c && (c + rest)[0] == c[0];
      assert (c + rest)[1..] == c[1..] + rest;
      if |c + rest| >= 2 {
        assert Specifiers(c + rest) == Specifiers((c + rest)[1..]);
      } else {
        assert c + rest == c && |c[1..]| == 0;
      }
    } else {
      assert c + rest == rest;
    }
  }

  lemma {:induction false} LiteralFormatted(c: string, rest: string, args: seq<string>)
    requires '%' !in c
    requires Specifiers(rest) <= |args|
    ensures Specifiers(c + rest) == Specifiers(rest)
    ensures Formatted(c + rest, args) == c + Formatted(rest, args)
  {
    LiteralSpecifiers(c, rest);
    if c != [] {
      LiteralFormatted(c[1..], rest, args);
      assert c[0] in c && (c + rest)[0] == c[0];
      assert (c + rest)[1..] == c[1..] + rest;
      if |c + rest| < 2 {
        assert rest == [] && c + rest == c;
      } else {
        assert Formatted(c + rest, args) == [c[0]] + Formatted(c[1..] + rest, args);
      }
      assert [c[0]] + c[1..] == c;
    } else {
      assert c + rest == rest;
    }
  }

  lemma SpecifierStep(tail: string, args: seq<string>)
    requires Specifiers(tail) < |args|
    ensures Specifiers("%s" + tail) == 1 + Specifiers(tail)
    ensures Formatted("%s" + tail, args) == args[0] + Formatted(tail, args[1..])
  {
    var spec := "%s" + tail;
    assert spec[0] == '%' && spec[1] == 's' && spec[2..] == tail;
  }

  /** Formatting the template made of `chunks` separated by `%s` places the arguments between the chunks, in order. */
  lemma {:induction false} FormattedFill(chunks: seq<string>, args: seq<string>)
    requires |chunks| == |args| + 1
    requires forall i :: 0 <= i < |chunks| ==> '%' !in chunks[i]
    ensures Specifiers(Join(chunks, "%s")) == |args|
    ensures Formatted(Join(chunks, "%s"), args) == Fill(chunks, args)
  {
    if args == [] {
      LiteralFormatted(chunks[0], [], args);
      assert chunks[0] + [] == chunks[0];
    } else {
      var tail := Join(chunks[1..], "%s");
      FormattedFill(chunks[1..], args[1..]);
      SpecifierStep(tail, args);
      LiteralFormatted(chunks[0], "%s" + tail, args);
      assert Join(chunks, "%s") == chunks[0] + ("%s" + tail);
    }
  }

  /** A two-specifier template places its arguments between its three chunks. */
  lemma FillTwo(c: seq<string>, a: seq<string>)
    requires |c| == 3 && |a| == 2
    ensures Fill(c, a) == c[0] + a[0] + c[1] + a[1] + c[2]
  {
    assert Fill(c[2..], a[2..]) == c[2];
    assert Fill(c[1..], a[1..]) == c[1] + a[1] + c[2];
  }

  /** A four-specifier template places its arguments between its five chunks. */
  lemma FillFour(c: seq<string>, a: seq<string>)
    requires |c| == 5 && |a| == 4
    ensures Fill(c, a) == c[0] + a[0] + c[1] + a[1] + c[2] + a[2] + c[3] + a[3] + c[4]
  {
    FillTwo(c[2..], a[2..]);
    assert Fill(c[1..], a[1..]) == c[1] + a[1] + Fill(c[2..], a[2..]);
  }
}

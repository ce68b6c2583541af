/** The few pieces of Python semantics the charm helper relies on: the scalar
    values that travel through its arguments and JSON settings, truthiness,
    the `or` operator, `str()` rendering, the string methods `strip`,
    `startswith` and `endswith`, and how a text file is read as lines. */
module Python {

  datatype Option<+T> = None | Some(value: T)

  datatype Result<+T, +E> = Success(value: T) | Failure(error: E)

  /** A Python (equivalently, JSON) scalar: `None`/`null`, a bool, an int or a str. */
  datatype Value = VNone | VBool(b: bool) | VInt(i: int) | VStr(s: string)

  /** Python truthiness: `None`, `False`, `0` and `""` are falsy, everything else truthy. */
  predicate Truthy(v: Value)
  {
    match v
    case VNone => false
    case VBool(b) => b
    case VInt(i) => i != 0
    case VStr(s) => s != ""
  }

  /** Python's `a or b`: `a` itself when it is truthy, otherwise `b`. */
  function Or(a: Value, b: Value): (r: Value)
    ensures Truthy(a) ==> r == a
    ensures !Truthy(a) ==> r == b
    ensures Truthy(r) <==> Truthy(a) || Truthy(b)
  {
    if Truthy(a) then a else b
  }

  function DigitChar(d: nat): (c: char)
    requires d < 10
    ensures '0' <= c <= '9'
  {
    "0123456789"[d]
  }

  /** Decimal digits of a natural number, most significant first, no leading zeros. */
  function NatToDecimal(n: nat): (r: string)
    ensures |r| > 0
    ensures forall k :: 0 <= k < |r| ==> '0' <= r[k] <= '9'
    ensures |r| > 1 ==> r[0] != '0'
    decreases n
  {
    if n < 10 then [DigitChar(n)] else NatToDecimal(n / 10) + [DigitChar(n % 10)]
  }

  /** The number a run of decimal digits spells, most significant first. */
  function DecimalValue(s: string): nat
  {
    if s == [] then 0
    else
      var d := s[|s| - 1] as int - '0' as int;
      DecimalValue(s[..|s| - 1]) * 10 + (if 0 <= d < 10 then d else 0)
  }

  /** The digits of `NatToDecimal(n)` spell `n`. */
  lemma {:induction false} NatToDecimalValue(n: nat)
    ensures DecimalValue(NatToDecimal(n)) == n
    decreases n
  {
    var r := NatToDecimal(n);
    if n >= 10 {
      NatToDecimalValue(n / 10);
      assert r[..|r| - 1] == NatToDecimal(n / 10);
    }
  }

  /** `str(v)`, which is what `'{}'.format(v)` inserts. */
  function Str(v: Value): string
  {
    match v
    case VNone => "None"
    case VBool(b) => if b then "True" else "False"
    case VInt(i) => if i < 0 then "-" + NatToDecimal(-i) else NatToDecimal(i)
    case VStr(s) => s
  }

  /** `str()` gives a string as it is and an integer as the decimal digits
      of its value, with a `-` in front when it is negative; only a string
      can bring a line break. */
  lemma StrSpec(v: Value)
    ensures v.VStr? ==> Str(v) == v.s
    ensures v.VInt? && v.i >= 0 ==> DecimalValue(Str(v)) == v.i
    ensures v.VInt? && v.i < 0 ==> Str(v) != [] && Str(v)[0] == '-' && DecimalValue(Str(v)[1..]) == -v.i
    ensures !v.VStr? ==> NoBreak(Str(v))
  {
    match v
    case VInt(i) =>
      if i < 0 {
        NatToDecimalValue(-i);
        assert Str(v)[1..] == NatToDecimal(-i);
      } else {
        NatToDecimalValue(i);
      }
    case _ =>
  }

  /** `c.isspace()` for a single code point: the characters `str.strip()` removes by default. */
  predicate IsSpace(c: char)
  {
    || ('\t' <= c <= '\r')
    || ('\U{1C}' <= c <= ' ')
    || c == '\U{85}' || c == '\U{A0}' || c == '\U{1680}'
    || ('\U{2000}' <= c <= '\U{200A}')
    || c == '\U{2028}' || c == '\U{2029}' || c == '\U{202F}' || c == '\U{205F}' || c == '\U{3000}'
  }

  /** Every character of `w` is whitespace. */
  predicate AllSpace(w: string)
  {
    forall k :: 0 <= k < |w| ==> IsSpace(w[k])
  }

  /** `s.lstrip()` */
  function TrimLeft(s: string): (r: string)
    ensures |r| <= |s|
  {
    if |s| > 0 && IsSpace(s[0]) then TrimLeft(s[1..]) else s
  }

  /** `s.rstrip()` */
  function TrimRight(s: string): (r: string)
    ensures |r| <= |s|
  {
    if |s| > 0 && IsSpace(s[|s| - 1]) then TrimRight(s[..|s| - 1]) else s
  }

  /** `lstrip()` removes a run of whitespace from the front and nothing else:
      what remains is a suffix of `s` that does not start with whitespace. */
  lemma {:induction false} TrimLeftSpec(s: string)
    ensures EndsWith(s, TrimLeft(s))
    ensures TrimLeft(s) == [] || !IsSpace(TrimLeft(s)[0])
    ensures AllSpace(s[..|s| - |TrimLeft(s)|])
  {
    if |s| > 0 && IsSpace(s[0]) {
      TrimLeftSpec(s[1..]);
      var r := TrimLeft(s[1..]);
      assert s[|s| - |r|..] == s[1..][|s| - 1 - |r|..];
      forall k | 0 <= k < |s| - |r|
        ensures IsSpace(s[k])
      {
        if k > 0 {
          assert s[k] == s[1..][..|s| - 1 - |r|][k - 1];
        }
      }
    }
  }

  /** `rstrip()` removes a run of whitespace from the end and nothing else:
      what remains is a prefix of `s` that does not end with whitespace. */
  lemma {:induction false} TrimRightSpec(s: string)
    ensures StartsWith(s, TrimRight(s))
    ensures TrimRight(s) == [] || !IsSpace(TrimRight(s)[|TrimRight(s)| - 1])
    ensures AllSpace(s[|TrimRight(s)|..])
  {
    if |s| > 0 && IsSpace(s[|s| - 1]) {
      var u := s[..|s| - 1];
      TrimRightSpec(u);
      var r := TrimRight(u);
      assert s[..|r|] == u[..|r|];
      forall k | |r| <= k < |s|
        ensures IsSpace(s[k])
      {
        if k < |s| - 1 {
          assert s[k] == u[|r|..][k - |r|];
        }
      }
    }
  }

  /** `s.strip()`: leading and trailing whitespace removed. */
  function Strip(s: string): string
  {
    TrimRight(TrimLeft(s))
  }

  /** `strip()` keeps a middle part of `s` that neither starts nor ends with
      whitespace, and what it removes on either side is all whitespace. */
  lemma StripSpec(s: string)
    ensures exists i, j :: 0 <= i <= j <= |s| && Strip(s) == s[i..j]
              && AllSpace(s[..i]) && AllSpace(s[j..])
    ensures Strip(s) == [] || (!IsSpace(Strip(s)[0]) && !IsSpace(Strip(s)[|Strip(s)| - 1]))
  {
    var t := TrimLeft(s);
    var r := TrimRight(t);
    TrimLeftSpec(s);
    TrimRightSpec(t);
    var i := |s| - |t|;
    var j := i + |r|;
    assert t == s[i..];
    assert r == s[i..j];
    assert t[|r|..] == s[j..];
    if r != [] {
      assert r[0] == t[0];
    }
  }

  /** `s.startswith(p)` */
  predicate StartsWith(s: string, p: string)
  {
    |p| <= |s| && s[..|p|] == p
  }

  /** `s.endswith(p)` */
  predicate EndsWith(s: string, p: string)
  {
    |p| <= |s| && s[|s| - |p|..] == p
  }

  /** `strip()` never removes a character that is not whitespace: if the text
      after the leading whitespace begins with `p`, and `p` ends in a
      non-whitespace character, the stripped text begins with `p` as well. */
  lemma StripKeepsPrefix(s: string, p: string)
    requires |p| > 0 && !IsSpace(p[|p| - 1])
    requires StartsWith(TrimLeft(s), p)
    ensures StartsWith(Strip(s), p)
  {
    var t := TrimLeft(s);
    var r := TrimRight(t);
    TrimRightSpec(t);
    assert t[|p| - 1] == p[|p| - 1];
    assert r[..|p|] == t[..|p|];
  }

  /** Leading whitespace followed by a non-whitespace character is exactly what `lstrip()` drops. */
  lemma {:induction false} TrimLeftAfterSpaces(w: string, s: string)
    requires AllSpace(w)
    requires |s| > 0 && !IsSpace(s[0])
    ensures TrimLeft(w + s) == s
  {
    if |w| > 0 {
      assert (w + s)[1..] == w[1..] + s;
      TrimLeftAfterSpaces(w[1..], s);
    } else {
      assert w + s == s;
    }
  }

  // ----- Reading a text file as lines -----

  /** `s` holds no line break, neither `\n` nor `\r`. */
  predicate NoBreak(s: string)
  {
    forall k :: 0 <= k < |s| ==> s[k] != '\n' && s[k] != '\r'
  }

  /** `s` holds no `\r`: the text of a file as text-mode reading returns it,
      after `\r\n` and `\r` have become `\n`. */
  predicate NoCarriageReturn(s: string)
  {
    forall k :: 0 <= k < |s| ==> s[k] != '\r'
  }

  lemma NoBreakConcat(a: string, b: string)
    requires NoBreak(a) && NoBreak(b)
    ensures NoBreak(a + b)
  {
    forall k | 0 <= k < |a + b|
      ensures (a + b)[k] != '\n' && (a + b)[k] != '\r'
    {
      if k >= |a| {
        assert (a + b)[k] == b[k - |a|];
      }
    }
  }

  /** A line as iterating over a text file yields it: not empty, and no line
      break except one `\n` at its end. */
  predicate IsLine(s: string)
  {
    |s| > 0 && NoBreak(s[..|s| - 1]) && s[|s| - 1] != '\r'
  }

  /** Lines that reading their concatenation gives back: each one a line, and
      every one but the last ending in `\n`. */
  predicate WellFormed(lines: seq<string>)
  {
    forall i :: 0 <= i < |lines| ==>
      IsLine(lines[i]) && (i < |lines| - 1 ==> lines[i][|lines[i]| - 1] == '\n')
  }

  /** The length of the first line of `text`: up to and including its first
      `\n`, or all of it when there is none. */
  function FirstLineLength(text: string): (n: nat)
    requires text != []
    ensures 0 < n <= |text|
    ensures forall k :: 0 <= k < n - 1 ==> text[k] != '\n'
    ensures n < |text| ==> text[n - 1] == '\n'
  {
    if text[0] == '\n' || |text| == 1 then 1 else 1 + FirstLineLength(text[1..])
  }

  /** `list(f)` for a file `f` opened in text mode with this text: the lines,
      each with its terminating `\n`. */
  function SplitLines(text: string): (lines: seq<string>)
    decreases |text|
  {
    if text == [] then []
    else
      var n := FirstLineLength(text);
      [text[..n]] + SplitLines(text[n..])
  }

  /** The text that printing `lines` one after another with `end=''` writes. */
  function Concat(lines: seq<string>): string
  {
    if lines == [] then [] else lines[0] + Concat(lines[1..])
  }

  lemma {:induction false} ConcatSnoc(lines: seq<string>, line: string)
    ensures Concat(lines + [line]) == Concat(lines) + line
  {
    if lines == [] {
      assert [] + [line] == [line];
      assert [line][1..] == [];
    } else {
      assert (lines + [line])[1..] == lines[1..] + [line];
      ConcatSnoc(lines[1..], line);
    }
  }

  /** Splitting a text into lines loses nothing: writing the lines back gives
      the text. */
  lemma {:induction false} ConcatSplitLines(text: string)
    ensures Concat(SplitLines(text)) == text
    decreases |text|
  {
    if text != [] {
      var n := FirstLineLength(text);
      ConcatSplitLines(text[n..]);
      assert text[..n] + text[n..] == text;
    }
  }

  /** The lines of a text without `\r` are well formed. */
  lemma {:induction false} SplitLinesWellFormed(text: string)
    requires NoCarriageReturn(text)
    ensures WellFormed(SplitLines(text))
    decreases |text|
  {
    if text != [] {
      var n := FirstLineLength(text);
      var head := text[..n];
      var rest := SplitLines(text[n..]);
      SplitLinesWellFormed(text[n..]);
      assert head[..n - 1] == text[..n - 1];
      assert IsLine(head);
      var lines := [head] + rest;
      assert lines == SplitLines(text);
      forall i | 0 <= i < |lines|
        ensures IsLine(lines[i]) && (i < |lines| - 1 ==> lines[i][|lines[i]| - 1] == '\n')
      {
        if i > 0 {
          assert lines[i] == rest[i - 1];
        } else if i < |lines| - 1 {
          assert rest != [];
          assert n < |text|;
        }
      }
    }
  }

  /** The first line of `h + rest`, where `h` is a line that ends in `\n`
      unless nothing follows it, is `h`. */
  lemma FirstLineOf(h: string, rest: string)
    requires IsLine(h)
    requires rest == [] || h[|h| - 1] == '\n'
    ensures FirstLineLength(h + rest) == |h|
  {
    forall k | 0 <= k < |h| - 1
      ensures (h + rest)[k] != '\n'
    {
      assert (h + rest)[k] == h[..|h| - 1][k];
    }
    assert rest != [] ==> (h + rest)[|h| - 1] == '\n';
  }

  /** Reading back what well-formed lines write gives the same lines. */
  lemma {:induction false} SplitConcat(lines: seq<string>)
    requires WellFormed(lines)
    ensures SplitLines(Concat(lines)) == lines
  {
    if lines != [] {
      var h := lines[0];
      var tail := lines[1..];
      var rest := Concat(tail);
      assert IsLine(h);
      if tail != [] {
        assert h[|h| - 1] == '\n';
      } else {
        assert rest == [];
      }
      FirstLineOf(h, rest);
      assert (h + rest)[..|h|] == h;
      assert (h + rest)[|h|..] == rest;
      assert forall i :: 0 <= i < |tail| ==> tail[i] == lines[i + 1];
      SplitConcat(tail);
    }
  }
}

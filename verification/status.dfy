/**
 The exit-status frame (virtualfish/test/repl.py, `Fish.run`): the REPL writes the
 status as decimal text, and the driver decodes the frame and converts it with
 Python's `int()`, as Python 3.6 and later define it for base 10. Only ASCII frames
 are modelled; `int()` on such text strips surrounding C-locale whitespace, accepts
 one optional sign, and accepts decimal digits in which single underscores may
 separate two digits. Anything else raises ValueError.
 */
module Status {
  import opened Wrappers
  import opened Frames

  const Plus: byte := 0x2B
  const Minus: byte := 0x2D
  const Underscore: byte := 0x5F

  predicate IsDigit(b: byte) {
    0x30 <= b <= 0x39
  }

  function DigitValue(b: byte): (d: nat)
    requires IsDigit(b)
    ensures d < 10
  {
    (b - 0x30) as nat
  }

  function DigitByte(d: nat): (b: byte)
    requires d < 10
    ensures IsDigit(b) && DigitValue(b) == d
  {
    0x30 + d as bv8
  }

  /** The whitespace `int()` strips from ASCII text: tab to carriage return, and
      space. The separator controls 0x1C-0x1F, which `str.isspace()` accepts, are
      not stripped, so `int()` rejects them. */
  predicate IsSpace(b: byte) {
    0x09 <= b <= 0x0D || b == 0x20
  }

  /** Python's decimal digit run: a digit, then digits each optionally preceded by
      one underscore. */
  predicate ValidDigits(s: seq<byte>) {
    |s| > 0 && IsDigit(s[0]) && AfterDigit(s[1..])
  }

  /** What may follow a digit in a digit run. */
  predicate AfterDigit(s: seq<byte>)
    decreases |s|
  {
    || |s| == 0
    || (IsDigit(s[0]) && AfterDigit(s[1..]))
    || (|s| >= 2 && s[0] == Underscore && IsDigit(s[1]) && AfterDigit(s[2..]))
  }

  /** The number written by the digits of `s`, underscores skipped. */
  function DigitsValue(s: seq<byte>): nat
    decreases |s|
  {
    if |s| == 0 then 0
    else if IsDigit(s[|s| - 1]) then 10 * DigitsValue(s[..|s| - 1]) + DigitValue(s[|s| - 1])
    else DigitsValue(s[..|s| - 1])
  }

  /** `s` without its leading whitespace. */
  function TrimStart(s: seq<byte>): seq<byte>
    decreases |s|
  {
    if |s| > 0 && IsSpace(s[0]) then TrimStart(s[1..]) else s
  }

  /** `s` without its trailing whitespace. */
  function TrimEnd(s: seq<byte>): seq<byte>
    decreases |s|
  {
    if |s| > 0 && IsSpace(s[|s| - 1]) then TrimEnd(s[..|s| - 1]) else s
  }

  /** Stripping leading whitespace keeps a suffix. */
  lemma {:induction false} TrimStartSuffix(s: seq<byte>)
    ensures |TrimStart(s)| <= |s| && TrimStart(s) == s[|s| - |TrimStart(s)|..]
    decreases |s|
  {
    if |s| > 0 && IsSpace(s[0]) {
      TrimStartSuffix(s[1..]);
    }
  }

  /** Stripping trailing whitespace keeps a prefix. */
  lemma {:induction false} TrimEndPrefix(s: seq<byte>)
    ensures |TrimEnd(s)| <= |s| && TrimEnd(s) == s[..|TrimEnd(s)|]
    decreases |s|
  {
    if |s| > 0 && IsSpace(s[|s| - 1]) {
      TrimEndPrefix(s[..|s| - 1]);
    }
  }

  /** `int()` on text already stripped of surrounding whitespace. */
  function ParseTrimmed(t: seq<byte>): Option<int> {
    if |t| > 0 && (t[0] == Plus || t[0] == Minus) then
      if ValidDigits(t[1..]) then
        var n: int := DigitsValue(t[1..]);
        Some(if t[0] == Minus then -n else n)
      else None
    else if ValidDigits(t) then Some(DigitsValue(t))
    else None
  }

  /** Text without a single digit is never a number. */
  lemma NoDigitsNoNumber(t: seq<byte>)
    requires forall i :: 0 <= i < |t| ==> !IsDigit(t[i])
    ensures ParseTrimmed(t).None?
  {
    if |t| > 1 {
      assert !IsDigit(t[1..][0]);
    }
  }

  /** Python's `int(frame.decode('utf8'))` on an ASCII frame; `None` where it raises. */
  function ParseStatus(frame: seq<byte>): Option<int> {
    ParseTrimmed(TrimEnd(TrimStart(frame)))
  }

  /** A frame without a single digit is rejected. */
  lemma ParseRejectsDigitless(frame: seq<byte>)
    requires forall i :: 0 <= i < |frame| ==> !IsDigit(frame[i])
    ensures ParseStatus(frame).None?
  {
    var u := TrimStart(frame);
    var t := TrimEnd(u);
    TrimStartSuffix(frame);
    TrimEndPrefix(u);
    var off := |frame| - |u|;
    forall i | 0 <= i < |t|
      ensures !IsDigit(t[i])
    {
      assert t[i] == u[i];
      assert u[i] == frame[off + i];
    }
    NoDigitsNoNumber(t);
  }

  /** A frame of plain digits parses to the number they write. */
  lemma ParsePlainDigits(frame: seq<byte>)
    requires |frame| > 0 && forall i :: 0 <= i < |frame| ==> IsDigit(frame[i])
    ensures ParseStatus(frame) == Some(DigitsValue(frame))
  {
    DigitsUntrimmed(frame);
    AllDigitsValid(frame);
    assert frame[0] != Plus && frame[0] != Minus;
  }

  lemma DigitsUntrimmed(frame: seq<byte>)
    requires |frame| > 0 && IsDigit(frame[0]) && IsDigit(frame[|frame| - 1])
    ensures TrimEnd(TrimStart(frame)) == frame
  {
    assert TrimStart(frame) == frame;
  }

  /** The decimal text of a non-negative number, without leading zeros. */
  function RenderNat(n: nat): seq<byte>
    decreases n
  {
    if n < 10 then [DigitByte(n)] else RenderNat(n / 10) + [DigitByte(n % 10)]
  }

  /** The decimal text of a number, as the REPL prints an exit status. */
  function Render(n: int): seq<byte> {
    if n < 0 then [Minus] + RenderNat(-n) else RenderNat(n)
  }

  /** The rendering of a number is a run of plain digits that evaluates back to it. */
  lemma {:induction false} RenderNatDigits(n: nat)
    ensures |RenderNat(n)| > 0
    ensures forall i :: 0 <= i < |RenderNat(n)| ==> IsDigit(RenderNat(n)[i])
    ensures DigitsValue(RenderNat(n)) == n
    decreases n
  {
    if n >= 10 {
      RenderNatDigits(n / 10);
      var s := RenderNat(n);
      assert s[..|s| - 1] == RenderNat(n / 10);
    }
  }

  /** Rendered text never contains the frame terminator. */
  lemma RenderNoSentinel(n: int)
    ensures Sentinel !in Render(n)
  {
    RenderNatDigits(if n < 0 then -n else n);
  }

  lemma {:induction false} AllDigitsAfterDigit(s: seq<byte>)
    requires forall i :: 0 <= i < |s| ==> IsDigit(s[i])
    ensures AfterDigit(s)
    decreases |s|
  {
    if |s| > 0 {
      assert forall i :: 0 <= i < |s[1..]| ==> s[1..][i] == s[i + 1];
      AllDigitsAfterDigit(s[1..]);
    }
  }

  /** Plain digits form a valid digit run. */
  lemma AllDigitsValid(s: seq<byte>)
    requires |s| > 0 && forall i :: 0 <= i < |s| ==> IsDigit(s[i])
    ensures ValidDigits(s)
  {
    assert forall i :: 0 <= i < |s[1..]| ==> s[1..][i] == s[i + 1];
    AllDigitsAfterDigit(s[1..]);
  }

  /** Parsing the decimal rendering of any status returns that status. */
  lemma ParseRender(n: int)
    ensures ParseStatus(Render(n)) == Some(n)
  {
    if n < 0 {
      RenderNatDigits(-n);
      AllDigitsValid(RenderNat(-n));
      ParseSigned(RenderNat(-n));
    } else {
      RenderNatDigits(n);
      ParsePlainDigits(RenderNat(n));
    }
  }

  /** A sign in front of a digit run negates (`-`) or keeps (`+`) its value. */
  lemma ParseSigned(digits: seq<byte>)
    requires ValidDigits(digits)
    ensures ParseStatus([Minus] + digits) == Some(-(DigitsValue(digits) as int))
    ensures ParseStatus([Plus] + digits) == Some(DigitsValue(digits))
  {
    DigitRunEnd(digits);
    var v := DigitsValue(digits);
    var m, p := [Minus] + digits, [Plus] + digits;
    assert ParseStatus(m) == ParseTrimmed(m) by {
      SignedUntrimmed(Minus, digits);
    }
    assert ParseTrimmed(m) == Some(-(v as int)) by {
      assert m[0] == Minus && m[1..] == digits;
    }
    assert ParseStatus(p) == ParseTrimmed(p) by {
      SignedUntrimmed(Plus, digits);
    }
    assert ParseTrimmed(p) == Some(v) by {
      assert p[0] == Plus && p[1..] == digits;
    }
  }

  /** A digit run ends with a digit. */
  lemma {:induction false} AfterDigitEnd(s: seq<byte>)
    requires AfterDigit(s) && |s| > 0
    ensures IsDigit(s[|s| - 1])
    decreases |s|
  {
    if IsDigit(s[0]) && AfterDigit(s[1..]) {
      if |s| > 1 {
        AfterDigitEnd(s[1..]);
      }
    } else {
      if |s| > 2 {
        AfterDigitEnd(s[2..]);
      }
    }
  }

  lemma DigitRunEnd(s: seq<byte>)
    requires ValidDigits(s)
    ensures IsDigit(s[|s| - 1])
  {
    if |s| > 1 {
      AfterDigitEnd(s[1..]);
    }
  }

  /** A sign and plain digits carry no whitespace to strip. */
  lemma SignedUntrimmed(sign: byte, digits: seq<byte>)
    requires sign == Plus || sign == Minus
    requires |digits| > 0 && IsDigit(digits[|digits| - 1])
    ensures TrimEnd(TrimStart([sign] + digits)) == [sign] + digits
  {
    var s := [sign] + digits;
    assert s[0] == sign;
    assert TrimStart(s) == s;
    assert s[|s| - 1] == digits[|digits| - 1];
    assert TrimEnd(s) == s;
  }

  lemma {:induction false} TrimStartSpaces(ws: seq<byte>, s: seq<byte>)
    requires forall i :: 0 <= i < |ws| ==> IsSpace(ws[i])
    ensures TrimStart(ws + s) == TrimStart(s)
    decreases |ws|
  {
    if |ws| > 0 {
      assert (ws + s)[0] == ws[0];
      assert (ws + s)[1..] == ws[1..] + s;
      TrimStartSpaces(ws[1..], s);
    } else {
      assert ws + s == s;
    }
  }

  lemma {:induction false} TrimEndSpaces(s: seq<byte>, ws: seq<byte>)
    requires forall i :: 0 <= i < |ws| ==> IsSpace(ws[i])
    ensures TrimEnd(s + ws) == TrimEnd(s)
    decreases |ws|
  {
    if |ws| > 0 {
      var w' := ws[..|ws| - 1];
      assert (s + ws)[|s + ws| - 1] == ws[|ws| - 1];
      assert (s + ws)[..|s + ws| - 1] == s + w';
      TrimEndSpaces(s, w');
    } else {
      assert s + ws == s;
    }
  }

  /** Whitespace around the rendering, such as the newline `echo` prints, does not
      change the parsed status. */
  lemma ParseRenderPadded(n: int, lead: seq<byte>, trail: seq<byte>)
    requires forall i :: 0 <= i < |lead| ==> IsSpace(lead[i])
    requires forall i :: 0 <= i < |trail| ==> IsSpace(trail[i])
    ensures ParseStatus(lead + Render(n) + trail) == Some(n)
  {
    var s := Render(n);
    assert |s| > 0 && !IsSpace(s[0]) && !IsSpace(s[|s| - 1]) by {
      RenderNatDigits(if n < 0 then -n else n);
    }
    assert TrimStart(lead + s + trail) == s + trail by {
      assert lead + s + trail == lead + (s + trail);
      TrimStartSpaces(lead, s + trail);
      assert (s + trail)[0] == s[0];
    }
    assert TrimEnd(s + trail) == s by {
      TrimEndSpaces(s, trail);
    }
    assert TrimEnd(TrimStart(s)) == s;
    ParseRender(n);
  }
}

/**
 * The parts of Python's semantics the plugin relies on: experiment variable
 * values, the exceptions it raises or catches, slicing, `str.split`, `in` on
 * strings, `str(n)` and `int(text)` / `int(text, 16)`.
 */
module Python {

  datatype Option<+T> = None | Some(value: T)

  /**
   * The value of an experiment variable. The experiment runner hands back
   * text that looks like an integer as an `int` (so `'3'` is read back as
   * `3`, while `'1;2;3'` stays text); `None` is Python's `None`.
   */
  datatype VarValue = Text(s: string) | Int(i: int) | NoneValue

  /** The Python exceptions the core raises or catches. */
  datatype PyError =
    | ValueError   // bad literal for int(), negative shift count, out-of-range timeout
    | TypeError    // `str - int` in the single-value fallback of the mask encoder
    | KeyError     // a slot that is not a key of the device registry
    | AttributeError // a method or attribute the value does not have

  /** A value, or the exception raised while computing it. */
  datatype Outcome<+T> = Ok(value: T) | Raised(error: PyError)

  // ---------------------------------------------------------------------------
  // Slicing

  /** `s[k:]` for `k >= 0`: empty when `k` is past the end. */
  function Drop(s: string, k: nat): (r: string)
    ensures |r| == if k <= |s| then |s| - k else 0
    ensures forall i :: 0 <= i < |r| ==> r[i] == s[k + i]
  {
    if k <= |s| then s[k..] else []
  }

  /** `s[:k]` for `k >= 0`: the whole string when `k` is past the end. */
  function Take(s: string, k: nat): (r: string)
    ensures |r| == if k <= |s| then k else |s|
    ensures r <= s
  {
    if k <= |s| then s[..k] else s
  }

  // ---------------------------------------------------------------------------
  // Characters and digits

  predicate IsDigit(c: char) { '0' <= c <= '9' }

  predicate IsHexDigit(c: char) { IsDigit(c) || 'a' <= c <= 'f' || 'A' <= c <= 'F' }

  /** The whitespace `int()` strips (the ASCII part of Python's set). */
  predicate IsSpace(c: char)
  {
    c == ' ' || c == '\t' || c == '\n' || c == '\r' || c == '\U{0B}' || c == '\U{0C}'
  }

  /** Value of one digit in base 16 (and so in base 10). */
  function DigitValue(c: char): (d: nat)
    requires IsHexDigit(c)
    ensures d < 16
    ensures IsDigit(c) <==> d < 10
  {
    if IsDigit(c) then (c as int) - ('0' as int)
    else if 'a' <= c <= 'f' then (c as int) - ('a' as int) + 10
    else (c as int) - ('A' as int) + 10
  }

  /** The decimal digit character for `d`. */
  function DigitChar(d: nat): (c: char)
    requires d < 10
    ensures IsDigit(c) && DigitValue(c) == d
  {
    (('0' as int) + d) as char
  }

  predicate AllDigits(s: string)
  {
    forall i :: 0 <= i < |s| ==> IsDigit(s[i])
  }

  predicate AllHexDigits(s: string)
  {
    forall i :: 0 <= i < |s| ==> IsHexDigit(s[i])
  }

  /** The value of a digit string in `base`, most significant digit first. */
  function DigitsValue(s: string, base: nat): nat
    requires AllHexDigits(s)
  {
    if s == [] then 0 else DigitsValue(s[..|s| - 1], base) * base + DigitValue(s[|s| - 1])
  }

  // ---------------------------------------------------------------------------
  // Whitespace stripping

  /** `s.lstrip()` */
  function TrimLeft(s: string): string
  {
    if s != [] && IsSpace(s[0]) then TrimLeft(s[1..]) else s
  }

  /** `s.rstrip()` */
  function TrimRight(s: string): string
  {
    if s != [] && IsSpace(s[|s| - 1]) then TrimRight(s[..|s| - 1]) else s
  }

  /** `rstrip` removes a run of trailing whitespace and nothing else. */
  lemma {:induction false} TrimRightPrefix(s: string)
    ensures var r := TrimRight(s); (r == [] || !IsSpace(r[|r| - 1])) && r <= s
    ensures forall i :: |TrimRight(s)| <= i < |s| ==> IsSpace(s[i])
    decreases |s|
  {
    if s != [] && IsSpace(s[|s| - 1]) {
      TrimRightPrefix(s[..|s| - 1]);
    }
  }

  /** `s.strip()` with the characters `int()` ignores around its argument. */
  function Strip(s: string): string
  {
    TrimRight(TrimLeft(s))
  }

  // ---------------------------------------------------------------------------
  // str(n) and int(text)

  /** `str(n)` for `n >= 0`. */
  function NatToStr(n: nat): (s: string)
    ensures s != [] && AllDigits(s)
  {
    if n < 10 then [DigitChar(n)] else NatToStr(n / 10) + [DigitChar(n % 10)]
  }

  /** `str(n)` */
  function IntToStr(n: int): string
  {
    if n < 0 then "-" + NatToStr(-n) else NatToStr(n)
  }

  /**
   * `int(text)` (base 10): surrounding whitespace, an optional sign, then at
   * least one decimal digit; anything else raises `ValueError`, shown as `None`.
   */
  function ParseInt(text: string): Option<int>
  {
    var t := Strip(text);
    if t != [] && (t[0] == '+' || t[0] == '-') then
      var body := t[1..];
      if body != [] && AllDigits(body) then
        var v: int := DigitsValue(body, 10);
        Some(if t[0] == '-' then -v else v)
      else None
    else if t != [] && AllDigits(t) then Some(DigitsValue(t, 10))
    else None
  }

  lemma {:induction false} NatToStrValue(n: nat)
    ensures DigitsValue(NatToStr(n), 10) == n
  {
    var s := NatToStr(n);
    if n >= 10 {
      NatToStrValue(n / 10);
      assert s[..|s| - 1] == NatToStr(n / 10);
    }
  }

  lemma DigitStringIsStripped(s: string)
    requires AllDigits(s)
    ensures Strip(s) == s
  {
  }

  /** `int(str(n)) == n`: the text `str` produces is read back by `int`. */
  lemma ParseIntOfStr(n: int)
    ensures ParseInt(IntToStr(n)) == Some(n)
  {
    var s := IntToStr(n);
    if n < 0 {
      var m := -n;
      assert s == "-" + NatToStr(m);
      ParseIntOfNegative(m);
      assert -m == n;
    } else {
      assert s == NatToStr(n);
      ParseIntOfNat(n);
      assert ParseInt(s) == Some(n);
    }
  }

  lemma ParseIntOfNat(n: nat)
    ensures ParseInt(NatToStr(n)) == Some(n)
  {
    var s := NatToStr(n);
    NatToStrValue(n);
    DigitStringIsStripped(s);
    assert IsDigit(s[0]);
  }

  lemma ParseIntOfNegative(m: int)
    requires m > 0
    ensures ParseInt("-" + NatToStr(m)) == Some(-m)
  {
    var d := NatToStr(m);
    var s := "-" + d;
    NatToStrValue(m);
    assert TrimLeft(s) == s;
    assert TrimRight(s) == s by {
      assert s[|s| - 1] == d[|d| - 1];
    }
    assert s[1..] == d;
  }

  /**
   * `int(v)` on an experiment variable: an `int` is itself, text is parsed
   * as by `int(text)`, and `int(None)` raises `TypeError`.
   */
  function IntOf(v: VarValue): (r: Outcome<int>)
    ensures v.Int? ==> r == Ok(v.i)
    ensures v.Text? ==> (r.Ok? <==> ParseInt(v.s).Some?)
    ensures v.Text? && r.Ok? ==> r.value == ParseInt(v.s).value
    ensures r.Raised? ==> r.error == (if v.NoneValue? then TypeError else ValueError)
    ensures v.NoneValue? ==> r == Raised(TypeError)
  {
    match v
    case Int(i) => Ok(i)
    case Text(t) => if ParseInt(t).Some? then Ok(ParseInt(t).value) else Raised(ValueError)
    case NoneValue => Raised(TypeError)
  }

  /** A single digit character is read by `int` as its own value. */
  lemma ParseIntOfDigit(d: nat)
    requires d < 10
    ensures ParseInt([DigitChar(d)]) == Some(d)
  {
    ParseIntOfStr(d);
  }

  // ---------------------------------------------------------------------------
  // str.split

  /** `s.split(sep)`: never empty; `"".split(";") == [""]`, `"a;;b"` has an empty middle part. */
  function Split(s: string, sep: char): (parts: seq<string>)
    ensures |parts| >= 1
    decreases |s|
  {
    if s == [] then [[]]
    else
      var rest := Split(s[1..], sep);
      if s[0] == sep then [[]] + rest else [[s[0]] + rest[0]] + rest[1..]
  }

  /** `sep.join(parts)` */
  function Join(parts: seq<string>, sep: char): string
    requires |parts| >= 1
  {
    if |parts| == 1 then parts[0] else parts[0] + [sep] + Join(parts[1..], sep)
  }

  /** Joining the parts of a split gives back the text. */
  lemma {:induction false} JoinSplit(s: string, sep: char)
    ensures Join(Split(s, sep), sep) == s
    decreases |s|
  {
    if s != [] {
      var rest := Split(s[1..], sep);
      JoinSplit(s[1..], sep);
      if s[0] == sep {
        assert ([[]] + rest)[1..] == rest;
      } else {
        var parts := [[s[0]] + rest[0]] + rest[1..];
        if |rest| > 1 {
          assert parts[1..] == rest[1..];
        }
      }
    }
  }

  /** Splitting a joined list of separator-free parts gives back the parts. */
  lemma {:induction false} SplitJoin(parts: seq<string>, sep: char)
    requires |parts| >= 1
    requires forall i :: 0 <= i < |parts| ==> sep !in parts[i]
    ensures Split(Join(parts, sep), sep) == parts
    decreases |parts|
  {
    if |parts| == 1 {
      SplitNoSep(parts[0], [], sep);
      assert Split([], sep) == [[]];
      assert parts[0] + [] == parts[0];
      assert Join(parts, sep) == parts[0];
    } else {
      SplitJoin(parts[1..], sep);
      var tail := [sep] + Join(parts[1..], sep);
      assert Split(tail, sep) == [[]] + parts[1..] by {
        assert tail[1..] == Join(parts[1..], sep);
      }
      SplitNoSep(parts[0], tail, sep);
      assert parts[0] + [sep] + Join(parts[1..], sep) == parts[0] + tail;
      assert Split(tail, sep)[0] == [] && Split(tail, sep)[1..] == parts[1..];
      assert parts[0] + [] == parts[0];
      assert [parts[0]] + parts[1..] == parts;
    }
  }

  /** A separator-free prefix `p` is glued onto the first part of the rest's split. */
  lemma {:induction false} SplitNoSep(p: string, rest: string, sep: char)
    requires sep !in p
    ensures Split(p + rest, sep) == [p + Split(rest, sep)[0]] + Split(rest, sep)[1..]
    decreases |p|
  {
    var sr := Split(rest, sep);
    if p != [] {
      var s := p + rest;
      assert p[0] != sep;
      assert s[0] == p[0] && s[1..] == p[1..] + rest;
      var r := Split(s[1..], sep);
      assert Split(s, sep) == [[s[0]] + r[0]] + r[1..];
      SplitNoSep(p[1..], rest, sep);
      assert r[0] == p[1..] + sr[0] && r[1..] == sr[1..];
      assert [p[0]] + (p[1..] + sr[0]) == p + sr[0];
    } else {
      assert p + rest == rest;
      assert p + sr[0] == sr[0];
      assert [sr[0]] + sr[1..] == sr;
    }
  }

  // ---------------------------------------------------------------------------
  // `t in s` on strings

  /** Python's `t in s` for two strings: `t` occurs in `s` as a contiguous run. */
  predicate In(t: string, s: string)
    decreases |s|
  {
    t <= s || (s != [] && In(t, s[1..]))
  }

  /** `t` occurs in `s` starting at index `i`. */
  predicate OccursAt(t: string, s: string, i: int)
  {
    0 <= i <= |s| - |t| && s[i..i + |t|] == t
  }

  /** `t in s` exactly when some slice `s[i:i+len(t)]` equals `t`. */
  lemma {:induction false} InIffOccurs(t: string, s: string)
    ensures In(t, s) <==> exists i :: OccursAt(t, s, i)
    decreases |s|
  {
    if In(t, s) {
      if t <= s {
        assert OccursAt(t, s, 0);
      } else {
        InIffOccurs(t, s[1..]);
        var i :| OccursAt(t, s[1..], i);
        assert s[1..][i..i + |t|] == s[i + 1..i + 1 + |t|];
        assert OccursAt(t, s, i + 1);
      }
    }
    if exists i :: OccursAt(t, s, i) {
      var i :| OccursAt(t, s, i);
      if i > 0 {
        assert s[1..][i - 1..i - 1 + |t|] == s[i..i + |t|];
        assert OccursAt(t, s[1..], i - 1);
        InIffOccurs(t, s[1..]);
      } else {
        assert t <= s;
      }
    }
  }

  /** A string whose first character does not occur in `s` is not `in` `s`. */
  lemma {:induction false} NotInWithoutHead(t: string, s: string)
    requires t != [] && t[0] !in s
    ensures !In(t, s)
    decreases |s|
  {
    if s != [] {
      assert s[0] in s;
      assert forall c :: c in s[1..] ==> c in s;
      NotInWithoutHead(t, s[1..]);
    }
  }
}

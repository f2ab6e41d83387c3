/** The few Python string operations the core relies on: `str.strip()`,
    `str.split(sep)`, decimal `int(...)`, and the `"DELETE n"` command tag
    the database driver returns from a `DELETE`. */
module Text {
  import opened Core

  /** Python's `str.isspace()` for one character. */
  predicate IsSpace(c: char) {
    || ('\t' <= c <= '\r')
    || ('\U{1C}' <= c <= '\U{1F}')
    || c == ' ' || c == '\U{85}' || c == '\U{A0}' || c == '\U{1680}'
    || ('\U{2000}' <= c <= '\U{200A}')
    || c == '\U{2028}' || c == '\U{2029}' || c == '\U{202F}' || c == '\U{205F}' || c == '\U{3000}'
  }

  /** `s.lstrip()`: the suffix left after dropping leading whitespace. */
  function StripLeft(s: string): (r: string)
    ensures |r| <= |s| && r == s[|s| - |r|..]
    ensures forall k :: 0 <= k < |s| - |r| ==> IsSpace(s[k])
    ensures r == [] || !IsSpace(r[0])
    decreases |s|
  {
    if |s| > 0 && IsSpace(s[0]) then StripLeft(s[1..]) else s
  }

  /** `s.rstrip()`: the prefix left after dropping trailing whitespace. */
  function StripRight(s: string): (r: string)
    ensures |r| <= |s| && r == s[..|r|]
    ensures forall k :: |r| <= k < |s| ==> IsSpace(s[k])
    ensures r == [] || !IsSpace(r[|r| - 1])
    decreases |s|
  {
    if |s| > 0 && IsSpace(s[|s| - 1]) then StripRight(s[..|s| - 1]) else s
  }

  /** Cutting a `p`-run off the front and then one off the back leaves a
      slice of the original, and what lies behind the slice is a `p`-run of
      the original. */
  lemma TrimmedSlice<T>(s: seq<T>, l: seq<T>, r: seq<T>, p: T -> bool)
    requires |l| <= |s| && l == s[|s| - |l|..]
    requires |r| <= |l| && r == l[..|r|]
    requires forall k :: |r| <= k < |l| ==> p(l[k])
    ensures var i := |s| - |l|;
      && i + |r| <= |s|
      && r == s[i..i + |r|]
      && (forall k :: i + |r| <= k < |s| ==> p(s[k]))
  {
    var i := |s| - |l|;
    forall k | i + |r| <= k < |s| ensures p(s[k]) {
      assert s[k] == l[k - i];
    }
  }

  /** `s.strip()`: `s` without its leading and trailing whitespace. The
      result is the slice of `s` that starts at `|s| - |StripLeft(s)|`, and
      everything cut away on either side is whitespace. */
  function Strip(s: string): (r: string)
    ensures var i := |s| - |StripLeft(s)|;
      && i + |r| <= |s|
      && r == s[i..i + |r|]
      && (forall k :: 0 <= k < i ==> IsSpace(s[k]))
      && (forall k :: i + |r| <= k < |s| ==> IsSpace(s[k]))
    ensures r == [] || (!IsSpace(r[0]) && !IsSpace(r[|r| - 1]))
  {
    var l := StripLeft(s);
    var r := StripRight(l);
    TrimmedSlice(s, l, r, IsSpace);
    r
  }

  /** Stripping twice is stripping once. */
  lemma StripIdempotent(s: string)
    ensures Strip(Strip(s)) == Strip(s)
  {
    var r := Strip(s);
    if r != [] {
      assert StripLeft(r) == r;
      assert StripRight(r) == r;
    }
  }

  /** `s.split(sep)` for a one-character separator: the maximal
      separator-free pieces, with empty pieces kept (`"".split(" ")` is
      `[""]`). */
  function Split(s: string, sep: char): (parts: seq<string>)
    ensures |parts| >= 1
    ensures forall i :: 0 <= i < |parts| ==> sep !in parts[i]
    decreases |s|
  {
    if |s| == 0 then [""]
    else
      var rest := Split(s[1..], sep);
      if s[0] == sep then [""] + rest
      else [[s[0]] + rest[0]] + rest[1..]
  }

  /** `sep.join(parts)`. */
  function Join(parts: seq<string>, sep: char): string
    requires |parts| >= 1
    decreases |parts|
  {
    if |parts| == 1 then parts[0] else parts[0] + [sep] + Join(parts[1..], sep)
  }

  /** Splitting loses nothing: joining the pieces back gives the input. */
  lemma {:induction false} JoinSplit(s: string, sep: char)
    ensures Join(Split(s, sep), sep) == s
    decreases |s|
  {
    if |s| > 0 {
      var rest := Split(s[1..], sep);
      JoinSplit(s[1..], sep);
      if s[0] == sep {
        assert Split(s, sep) == [""] + rest;
        assert ([""] + rest)[1..] == rest;
      } else {
        var parts := [[s[0]] + rest[0]] + rest[1..];
        assert Split(s, sep) == parts;
        if |rest| == 1 {
          assert Join(parts, sep) == [s[0]] + rest[0];
        } else {
          assert parts[1..] == rest[1..];
          assert Join(rest, sep) == rest[0] + [sep] + Join(rest[1..], sep);
        }
      }
    }
  }

  /** A separator-free prefix followed by the separator splits off as one
      piece. */
  lemma {:induction false} SplitAfterWord(w: string, sep: char, v: string)
    requires sep !in w
    ensures Split(w + [sep] + v, sep) == [w] + Split(v, sep)
    decreases |w|
  {
    var s := w + [sep] + v;
    if |w| == 0 {
      assert s[1..] == v;
    } else {
      assert s[1..] == w[1..] + [sep] + v;
      assert w[0] != sep;
      SplitAfterWord(w[1..], sep, v);
      assert [w[0]] + w[1..] == w;
    }
  }

  /** A separator-free string is one piece. */
  lemma {:induction false} SplitWord(w: string, sep: char)
    requires sep !in w
    ensures Split(w, sep) == [w]
    decreases |w|
  {
    if |w| > 0 {
      assert w[0] != sep;
      SplitWord(w[1..], sep);
      assert [w[0]] + w[1..] == w;
    }
  }

  predicate IsDigit(c: char) {
    '0' <= c <= '9'
  }

  function DigitChar(d: nat): (c: char)
    requires d < 10
  {
    "0123456789"[d]
  }

  function DigitValue(c: char): (d: nat)
    requires IsDigit(c)
  {
    (c as int) - ('0' as int)
  }

  /** `str(n)` for a natural number: its decimal digits, most significant
      first, without leading zeros. */
  function NatToString(n: nat): (s: string)
    ensures |s| >= 1
    ensures forall i :: 0 <= i < |s| ==> IsDigit(s[i])
    ensures |s| > 1 ==> s[0] != '0'
    decreases n
  {
    if n < 10 then [DigitChar(n)] else NatToString(n / 10) + [DigitChar(n % 10)]
  }

  /** `int(s)` on a string of ASCII digits; `None` where Python raises
      `ValueError` (the empty string, any non-digit). */
  function ParseDigits(s: string): (n: Option<nat>)
    ensures n.Some? <==> |s| >= 1 && forall i :: 0 <= i < |s| ==> IsDigit(s[i])
    decreases |s|
  {
    if |s| == 0 || !IsDigit(s[|s| - 1]) then None
    else if |s| == 1 then Some(DigitValue(s[0]))
    else
      match ParseDigits(s[..|s| - 1])
      case None => None
      case Some(v) => Some(v * 10 + DigitValue(s[|s| - 1]))
  }

  /** Reading back the decimal text of `n` gives `n`. */
  lemma {:induction false} ParseNatToString(n: nat)
    ensures ParseDigits(NatToString(n)) == Some(n)
    decreases n
  {
    if n >= 10 {
      var s := NatToString(n);
      ParseNatToString(n / 10);
      assert s[..|s| - 1] == NatToString(n / 10);
      assert DigitValue(DigitChar(n % 10)) == n % 10;
    } else {
      assert DigitValue(DigitChar(n)) == n;
    }
  }

  /** The status string asyncpg's `execute` returns for a `DELETE` that
      removed `n` rows. */
  function DeleteTag(n: nat): string {
    "DELETE " + NatToString(n)
  }

  /** `int(tag.split(" ")[1])`: the row count of a command tag, or the
      exception (`IndexError`, `ValueError`) as an internal error. */
  function ParseRowCount(tag: string): (r: Result<nat>)
    ensures r.Ok? ==> |Split(tag, ' ')| >= 2 && ParseDigits(Split(tag, ' ')[1]) == Some(r.value)
  {
    var parts := Split(tag, ' ');
    if |parts| < 2 then Err(InternalError)
    else
      match ParseDigits(parts[1])
      case None => Err(InternalError)
      case Some(n) => Ok(n)
  }

  /** The count parsed from a `DELETE n` tag is `n`. */
  lemma DeleteTagRoundTrip(n: nat)
    ensures ParseRowCount(DeleteTag(n)) == Ok(n)
  {
    var digits := NatToString(n);
    assert ' ' !in digits by {
      forall i | 0 <= i < |digits| ensures digits[i] != ' ' {
        assert IsDigit(digits[i]);
      }
    }
    assert DeleteTag(n) == "DELETE" + [' '] + digits;
    SplitAfterWord("DELETE", ' ', digits);
    SplitWord(digits, ' ');
    ParseNatToString(n);
  }
}

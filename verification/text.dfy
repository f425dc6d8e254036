/**
 String helpers the handlers rely on: ASCII lower-casing (`str.lower`),
 the text after the last '.' (`str.rsplit('.', 1)[1]`), decimal rendering of
 ids (`f"{id}"`) with its parser, and splitting/joining on a single space.
 */
module Text {
  import opened Wrappers

  /** `str.lower()` on one character; only ASCII letters are mapped. */
  function LowerChar(c: char): (d: char)
    ensures d == '.' <==> c == '.'
    ensures !('A' <= d <= 'Z')
    ensures 'a' <= c <= 'z' ==> d == c
  {
    if 'A' <= c <= 'Z' then (c as int + 32) as char else c
  }

  function Lower(s: string): (r: string)
    ensures |r| == |s|
  {
    if |s| == 0 then [] else [LowerChar(s[0])] + Lower(s[1..])
  }

  /** `Lower` maps each character on its own. */
  lemma {:induction false} LowerAt(s: string, i: nat)
    requires i < |s|
    ensures Lower(s)[i] == LowerChar(s[i])
    decreases |s|
  {
    if i > 0 {
      LowerAt(s[1..], i - 1);
    }
  }

  lemma LowerKeepsDots(s: string)
    ensures '.' in Lower(s) <==> '.' in s
  {
    if '.' in s {
      var i :| 0 <= i < |s| && s[i] == '.';
      LowerAt(s, i);
    }
    if '.' in Lower(s) {
      var i :| 0 <= i < |s| && Lower(s)[i] == '.';
      LowerAt(s, i);
    }
  }

  /** Lower-casing commutes with dropping a prefix. */
  lemma {:induction false} LowerSuffix(s: string, i: nat)
    requires i <= |s|
    ensures Lower(s)[i..] == Lower(s[i..])
    decreases i
  {
    if i > 0 {
      LowerSuffix(s[1..], i - 1);
      assert s[1..][i - 1..] == s[i..];
    }
  }

  predicate EndsWith(s: string, suffix: string)
  {
    |suffix| <= |s| && s[|s| - |suffix|..] == suffix
  }

  /** Lower-casing keeps a '.' at position `k` in front of the lower-cased rest. */
  lemma LowerDotSuffix(f: string, k: nat)
    requires k < |f| && f[k] == '.'
    ensures EndsWith(Lower(f), "." + Lower(f[k + 1..]))
  {
    var low := Lower(f);
    LowerSuffix(f, k + 1);
    LowerAt(f, k);
    DotThenRest(low, Lower(f[k + 1..]), k);
  }

  /** A '.' at position `k` followed by `rest` up to the end makes the string end in '.' and `rest`. */
  lemma DotThenRest(s: string, rest: string, k: nat)
    requires k < |s| && s[k] == '.' && s[k + 1..] == rest
    ensures EndsWith(s, "." + rest)
  {
    assert s[k..] == [s[k]] + s[k + 1..];
  }

  /** Index of the last '.' of `s`, if there is one. */
  function LastDot(s: string): (r: Option<nat>)
    ensures r.None? <==> '.' !in s
    ensures r.Some? ==> r.value < |s| && s[r.value] == '.' && '.' !in s[r.value + 1..]
    decreases |s|
  {
    if |s| == 0 then None
    else if s[|s| - 1] == '.' then Some(|s| - 1)
    else
      var r := LastDot(s[..|s| - 1]);
      assert s == s[..|s| - 1] + [s[|s| - 1]];
      if r.Some? then
        assert s[r.value + 1..] == s[..|s| - 1][r.value + 1..] + [s[|s| - 1]];
        r
      else r
  }

  /** The text after the last '.', as `s.rsplit('.', 1)[1]`; None when `s` has no '.'. */
  function Extension(s: string): (r: Option<string>)
    ensures r.None? <==> '.' !in s
    ensures r.Some? ==> '.' !in r.value && |r.value| < |s| && s[|s| - |r.value| - 1] == '.'
                        && s[|s| - |r.value|..] == r.value
  {
    match LastDot(s)
    case None => None
    case Some(i) => Some(s[i + 1..])
  }

  /** Any '.' followed only by dot-free text is the one `LastDot` finds. */
  lemma LastDotUnique(s: string, k: nat)
    requires k < |s| && s[k] == '.' && '.' !in s[k + 1..]
    ensures LastDot(s) == Some(k)
  {
    var i := LastDot(s).value;
  }

  lemma ExtensionOfDotSuffix(s: string, k: nat)
    requires k < |s| && s[k] == '.' && '.' !in s[k + 1..]
    ensures Extension(s) == Some(s[k + 1..])
  {
    LastDotUnique(s, k);
  }

  function DigitChar(d: nat): (c: char)
    requires d < 10
    ensures '0' <= c <= '9'
  {
    ('0' as int + d) as char
  }

  function DigitValue(c: char): (r: Option<nat>)
    ensures r.Some? <==> '0' <= c <= '9'
    ensures r.Some? ==> r.value < 10 && DigitChar(r.value) == c
  {
    if '0' <= c <= '9' then Some(c as int - '0' as int) else None
  }

  /** Decimal rendering of a natural number, as Python's `str(n)`. */
  function Decimal(n: nat): (r: string)
    ensures |r| >= 1
    ensures forall i :: 0 <= i < |r| ==> '0' <= r[i] <= '9'
    decreases n
  {
    if n < 10 then [DigitChar(n)] else Decimal(n / 10) + [DigitChar(n % 10)]
  }

  /** Reads a non-empty run of decimal digits; None for anything else. */
  function ParseDecimal(s: string): (r: Option<nat>)
    decreases |s|
  {
    if |s| == 0 then None
    else
      match DigitValue(s[|s| - 1])
      case None => None
      case Some(d) =>
        if |s| == 1 then Some(d)
        else
          match ParseDecimal(s[..|s| - 1])
          case None => None
          case Some(p) => Some(p * 10 + d)
  }

  lemma {:induction false} ParseDecimalRoundTrip(n: nat)
    ensures ParseDecimal(Decimal(n)) == Some(n)
    decreases n
  {
    if n >= 10 {
      var s := Decimal(n);
      assert s[..|s| - 1] == Decimal(n / 10);
      assert s[|s| - 1] == DigitChar(n % 10);
      ParseDecimalRoundTrip(n / 10);
    }
  }

  /** `s.split(' ')`: always at least one part. */
  function Split(s: string): (r: seq<string>)
    ensures |r| >= 1
  {
    if |s| == 0 then [""]
    else
      var rest := Split(s[1..]);
      if s[0] == ' ' then [""] + rest
      else [[s[0]] + rest[0]] + rest[1..]
  }

  /** `' '.join(parts)`. */
  function Join(parts: seq<string>): string
  {
    if |parts| == 0 then ""
    else if |parts| == 1 then parts[0]
    else parts[0] + " " + Join(parts[1..])
  }

  lemma {:induction false} SplitNoSpace(a: string)
    requires ' ' !in a
    ensures Split(a) == [a]
    decreases |a|
  {
    if |a| > 0 {
      SplitNoSpace(a[1..]);
      assert [a[0]] + a[1..] == a;
    }
  }

  lemma {:induction false} SplitAfterWord(a: string, b: string)
    requires ' ' !in a
    ensures Split(a + " " + b) == [a] + Split(b)
    decreases |a|
  {
    var s := a + " " + b;
    if |a| == 0 {
      assert s[0] == ' ' && s[1..] == b;
    } else {
      assert s[0] == a[0];
      assert s[1..] == a[1..] + " " + b;
      SplitAfterWord(a[1..], b);
      assert [a[0]] + a[1..] == a;
    }
  }

  /** Joining space-free words and splitting the result gives the words back. */
  lemma {:induction false} SplitJoin(parts: seq<string>)
    requires |parts| >= 1
    requires forall i :: 0 <= i < |parts| ==> ' ' !in parts[i]
    ensures Split(Join(parts)) == parts
    decreases |parts|
  {
    if |parts| == 1 {
      SplitNoSpace(parts[0]);
    } else {
      SplitAfterWord(parts[0], Join(parts[1..]));
      SplitJoin(parts[1..]);
      assert [parts[0]] + parts[1..] == parts;
    }
  }

  /** Characters Python's `str.strip()` removes (ASCII and Latin-1 part). */
  predicate IsSpace(c: char)
  {
    c == ' ' || c == '\t' || c == '\n' || c == '\r' || c == '\U{B}' || c == '\U{C}'
    || ('\U{1C}' <= c <= '\U{1F}') || c == '\U{85}' || c == '\U{A0}'
  }

  /** True when `s.strip()` is non-empty. */
  predicate HasContent(s: string)
  {
    exists i :: 0 <= i < |s| && !IsSpace(s[i])
  }
}

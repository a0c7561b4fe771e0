// Shared vocabulary: optional values, JavaScript truthiness of text,
// number-to-text conversion, and the string helpers the screens use
// (trim, includes, lower-case, line splitting, slice).

module Base {

  datatype Option<T> = None | Some(value: T)

  /** A nullable text column is truthy in JavaScript when present and non-empty. */
  predicate Truthy(s: Option<string>) {
    s.Some? && s.value != ""
  }

  /** `s || fallback` on a nullable text column. */
  function OrElse(s: Option<string>, fallback: string): (r: string)
    ensures Truthy(s) ==> r == s.value
    ensures !Truthy(s) ==> r == fallback
  {
    if Truthy(s) then s.value else fallback
  }

  /** `rows.find(x => key(x) === k)`: the first row whose key is k, None when no row has it. */
  function FindBy<T>(rows: seq<T>, key: T -> string, k: string): (r: Option<T>)
    ensures r.Some? ==> r.value in rows && key(r.value) == k
    ensures r.None? <==> forall i :: 0 <= i < |rows| ==> key(rows[i]) != k
  {
    if rows == [] then None
    else if key(rows[0]) == k then Some(rows[0])
    else FindBy(rows[1..], key, k)
  }

  /** With the keys unique, looking up the key of row j finds row j. */
  lemma {:induction false} FindByAt<T>(rows: seq<T>, key: T -> string, j: int)
    requires forall a, b :: 0 <= a < b < |rows| ==> key(rows[a]) != key(rows[b])
    requires 0 <= j < |rows|
    ensures FindBy(rows, key, key(rows[j])) == Some(rows[j])
  {
    if j > 0 {
      assert key(rows[0]) != key(rows[j]);
      assert forall a, b :: 0 <= a < b < |rows| - 1 ==> rows[1..][a] == rows[a + 1] && rows[1..][b] == rows[b + 1];
      FindByAt(rows[1..], key, j - 1);
    }
  }

  // ---------------------------------------------------------------------
  // Decimal rendering: String(n) for integers, and padStart(2, '0').

  predicate IsDigit(c: char) { '0' <= c <= '9' }

  function DigitChar(d: int): (c: char)
    requires 0 <= d < 10
    ensures IsDigit(c) && c as int - '0' as int == d
  {
    (d + '0' as int) as char
  }

  /** String(n) for a non-negative integer: its decimal digits, no padding. */
  function NatString(n: nat): (r: string)
    decreases n
  {
    if n < 10 then [DigitChar(n)] else NatString(n / 10) + [DigitChar(n % 10)]
  }

  lemma {:induction false} NatStringShape(n: nat)
    ensures |NatString(n)| >= 1
    ensures forall i :: 0 <= i < |NatString(n)| ==> IsDigit(NatString(n)[i])
    ensures |NatString(n)| == 1 <==> n < 10
    decreases n
  {
    if n >= 10 {
      NatStringShape(n / 10);
    }
  }

  /** Two numbers with the same decimal text are the same number. */
  lemma {:induction false} NatStringInjective(a: nat, b: nat)
    requires NatString(a) == NatString(b)
    ensures a == b
    decreases a
  {
    NatStringShape(a);
    NatStringShape(b);
    var s := NatString(a);
    if a < 10 {
      assert b < 10;
      assert DigitChar(a) == s[0] == DigitChar(b);
    } else {
      assert b >= 10;
      var sa := NatString(a / 10);
      var sb := NatString(b / 10);
      assert s == sa + [DigitChar(a % 10)] == sb + [DigitChar(b % 10)];
      assert |sa| == |sb|;
      assert DigitChar(a % 10) == s[|s| - 1] == DigitChar(b % 10);
      assert sa == s[..|s| - 1] == sb;
      NatStringInjective(a / 10, b / 10);
    }
  }

  /** String(n) for any integer: a minus sign before the digits of a negative number. */
  function IntString(n: int): (r: string)
  {
    if n >= 0 then NatString(n) else "-" + NatString(-n)
  }

  lemma IntStringInjective(a: int, b: int)
    requires IntString(a) == IntString(b)
    ensures a == b
  {
    NatStringShape(if a >= 0 then a else -a);
    NatStringShape(if b >= 0 then b else -b);
    if a >= 0 && b >= 0 {
      NatStringInjective(a, b);
    } else if a < 0 && b < 0 {
      assert IntString(a)[1..] == NatString(-a);
      assert IntString(b)[1..] == NatString(-b);
      NatStringInjective(-a, -b);
    } else {
      IntStringSign(a);
      IntStringSign(b);
      assert false;
    }
  }

  lemma IntStringSign(n: int)
    ensures |IntString(n)| >= 1
    ensures IntString(n)[0] == '-' <==> n < 0
  {
    NatStringShape(if n >= 0 then n else -n);
  }

  /** A common prefix can be cancelled. */
  lemma ConcatCancel(p: string, a: string, b: string)
    ensures p + a == p + b <==> a == b
  {
    if p + a == p + b {
      assert a == (p + a)[|p|..];
      assert b == (p + b)[|p|..];
    }
  }

  /** String(n).padStart(2, '0'): a single digit gets a leading zero, any other text is already two long or longer. */
  function Pad2(n: int): string
  {
    if 0 <= n < 10 then "0" + NatString(n) else IntString(n)
  }

  /** Below 100 the padded text is exactly the tens digit and the units digit. */
  lemma Pad2Digits(n: int)
    requires 0 <= n < 100
    ensures Pad2(n) == [DigitChar(n / 10), DigitChar(n % 10)]
  {
    if n >= 10 {
      assert NatString(n / 10) == [DigitChar(n / 10)];
    }
  }

  lemma Pad2Injective(a: int, b: int)
    requires 0 <= a < 100 && 0 <= b < 100
    requires Pad2(a) == Pad2(b)
    ensures a == b
  {
    Pad2Digits(a);
    Pad2Digits(b);
    assert DigitChar(a / 10) == Pad2(a)[0] == Pad2(b)[0] == DigitChar(b / 10);
    assert DigitChar(a % 10) == Pad2(a)[1] == Pad2(b)[1] == DigitChar(b % 10);
  }

  // ---------------------------------------------------------------------
  // Text helpers.

  /** The characters String.prototype.trim removes. */
  predicate IsSpace(c: char) {
    c == ' ' || c == '\t' || c == '\n' || c == '\r' || c == '\U{B}' || c == '\U{C}'
    || c == '\U{A0}' || c == '\U{1680}' || ('\U{2000}' <= c <= '\U{200A}')
    || c == '\U{2028}' || c == '\U{2029}' || c == '\U{202F}' || c == '\U{205F}'
    || c == '\U{3000}' || c == '\U{FEFF}'
  }

  predicate AllSpace(s: string) {
    forall i :: 0 <= i < |s| ==> IsSpace(s[i])
  }

  function TrimStart(s: string): (r: string)
    ensures |r| <= |s| && r == s[|s| - |r|..]
    ensures AllSpace(s[..|s| - |r|])
    ensures r == [] || !IsSpace(r[0])
  {
    if s != [] && IsSpace(s[0]) then TrimStart(s[1..]) else s
  }

  function TrimEnd(s: string): (r: string)
    ensures |r| <= |s| && r == s[..|r|]
    ensures AllSpace(s[|r|..])
    ensures r == [] || !IsSpace(r[|r| - 1])
  {
    if s != [] && IsSpace(s[|s| - 1]) then TrimEnd(s[..|s| - 1]) else s
  }

  /** String.prototype.trim: the longest inner slice with no surrounding white space. */
  function Trim(s: string): (r: string)
    ensures |r| <= |s|
    ensures r == [] || (!IsSpace(r[0]) && !IsSpace(r[|r| - 1]))
  {
    TrimEnd(TrimStart(s))
  }

  lemma TrimOfTrimmed(s: string)
    requires s == [] || (!IsSpace(s[0]) && !IsSpace(s[|s| - 1]))
    ensures Trim(s) == s
  {
  }

  /** A text trims to nothing exactly when it is all white space. */
  lemma TrimEmpty(s: string)
    ensures Trim(s) == [] <==> AllSpace(s)
  {
    var t := TrimStart(s);
    if Trim(s) == [] {
      assert AllSpace(t[0..]);
      assert s == s[..|s| - |t|] + t;
    }
  }

  /** String.prototype.includes: p occurs in s at some position. */
  predicate Contains(s: string, p: string) {
    exists i | 0 <= i <= |s| - |p| :: OccursAt(s, p, i)
  }

  predicate OccursAt(s: string, p: string, i: int) {
    0 <= i && i + |p| <= |s| && s[i..i + |p|] == p
  }

  /** The lower-case letter of an upper-case Latin or Cyrillic letter (the toLowerCase stand-in). */
  function LowerChar(c: char): (r: char)
  {
    if 'A' <= c <= 'Z' || 'А' <= c <= 'Я' then (c as int + 32) as char
    else if 'Ѐ' <= c <= 'Џ' then (c as int + 80) as char
    else c
  }

  function Lower(s: string): (r: string)
    ensures |r| == |s| && forall i :: 0 <= i < |s| ==> r[i] == LowerChar(s[i])
  {
    seq(|s|, i requires 0 <= i < |s| => LowerChar(s[i]))
  }

  /** Case-insensitive includes, as `a.toLowerCase().includes(b.toLowerCase())`. */
  predicate ContainsFolded(s: string, p: string) {
    Contains(Lower(s), Lower(p))
  }

  /** String.prototype.slice(0, n). */
  function Take(s: string, n: nat): (r: string)
    ensures |r| == if |s| < n then |s| else n
    ensures r == s[..|r|]
  {
    if |s| <= n then s else s[..n]
  }

  /** String.prototype.split on one separator character: every separator cuts. */
  function SplitOn(s: string, sep: char): (r: seq<string>)
    ensures |r| >= 1
    ensures forall k :: 0 <= k < |r| ==> sep !in r[k]
  {
    if s == [] then [""]
    else
      var rest := SplitOn(s[1..], sep);
      if s[0] == sep then [""] + rest else [[s[0]] + rest[0]] + rest[1..]
  }

  /** Array.prototype.join with one separator character. */
  function Join(parts: seq<string>, sep: char): (r: string)
    requires |parts| >= 1
  {
    if |parts| == 1 then parts[0] else parts[0] + [sep] + Join(parts[1..], sep)
  }

  /** Splitting and joining on the same separator gives back the text. */
  lemma {:induction false} JoinSplitOn(s: string, sep: char)
    ensures Join(SplitOn(s, sep), sep) == s
    decreases |s|
  {
    if s != [] {
      JoinSplitOn(s[1..], sep);
      var rest := SplitOn(s[1..], sep);
      if s[0] == sep {
        assert s == [sep] + s[1..];
      } else {
        if |rest| == 1 {
          assert s == [s[0]] + s[1..];
        } else {
          assert Join(rest, sep) == rest[0] + [sep] + Join(rest[1..], sep);
          assert rest[1..][1..] == rest[2..];
          assert s == [s[0]] + s[1..];
        }
      }
    }
  }

  /** Joining parts free of the separator and splitting again gives back the parts. */
  lemma {:induction false} SplitOnJoin(parts: seq<string>, sep: char)
    requires |parts| >= 1
    requires forall k :: 0 <= k < |parts| ==> sep !in parts[k]
    ensures SplitOn(Join(parts, sep), sep) == parts
    decreases |parts|
  {
    if |parts| == 1 {
      SplitOnFree(parts[0], sep);
    } else {
      SplitOnJoin(parts[1..], sep);
      SplitOnPrefix(parts[0], Join(parts[1..], sep), sep);
    }
  }

  lemma {:induction false} SplitOnFree(s: string, sep: char)
    requires sep !in s
    ensures SplitOn(s, sep) == [s]
    decreases |s|
  {
    if s != [] {
      SplitOnFree(s[1..], sep);
      assert s == [s[0]] + s[1..];
    }
  }

  lemma {:induction false} SplitOnPrefix(a: string, b: string, sep: char)
    requires sep !in a
    ensures SplitOn(a + [sep] + b, sep) == [a] + SplitOn(b, sep)
    decreases |a|
  {
    if a == [] {
      assert [] + [sep] + b == [sep] + b;
      assert ([sep] + b)[1..] == b;
    } else {
      assert (a + [sep] + b)[1..] == a[1..] + [sep] + b;
      SplitOnPrefix(a[1..], b, sep);
      assert [a[0]] + a[1..] == a;
    }
  }
}

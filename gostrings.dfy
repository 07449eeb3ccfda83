/** The parts of Go's `strings` and `strconv` packages the core relies on,
    over strings of Unicode code points. Byte lengths (Go's `len`) are the
    UTF-8 lengths computed by `Utf8Len`. */
module GoStrings {

  /** `unicode.IsSpace`: the Latin-1 spaces plus the Unicode White_Space
      characters above U+00FF. */
  predicate IsSpace(c: char)
  {
    var n := c as int;
    n == 0x09 || n == 0x0A || n == 0x0B || n == 0x0C || n == 0x0D || n == 0x20
    || n == 0x85 || n == 0xA0 || n == 0x1680 || (0x2000 <= n <= 0x200A)
    || n == 0x2028 || n == 0x2029 || n == 0x202F || n == 0x205F || n == 0x3000
  }

  predicate AllSpace(s: string)
  {
    forall k :: 0 <= k < |s| ==> IsSpace(s[k])
  }

  predicate NoSpace(s: string)
  {
    forall k :: 0 <= k < |s| ==> !IsSpace(s[k])
  }

  /** Number of bytes the UTF-8 encoding of `c` takes. */
  function RuneLen(c: char): nat
  {
    if c as int < 0x80 then 1
    else if c as int < 0x800 then 2
    else if c as int < 0x10000 then 3
    else 4
  }

  /** Go's `len` of a string: its UTF-8 byte count. */
  function Utf8Len(s: string): (n: nat)
    ensures n >= |s|
  {
    if s == [] then 0 else RuneLen(s[0]) + Utf8Len(s[1..])
  }

  predicate IsAscii(s: string)
  {
    forall k :: 0 <= k < |s| ==> s[k] as int < 0x80
  }

  /** On ASCII text bytes and characters coincide. */
  lemma {:induction false} AsciiUtf8Len(s: string)
    requires IsAscii(s)
    ensures Utf8Len(s) == |s|
  {
    if s != [] {
      AsciiUtf8Len(s[1..]);
    }
  }

  /** Length of the run of white space that starts `s`. */
  function LeadingSpaces(s: string): (n: nat)
    ensures n <= |s|
    ensures forall k :: 0 <= k < n ==> IsSpace(s[k])
    ensures n < |s| ==> !IsSpace(s[n])
  {
    if s == [] || !IsSpace(s[0]) then 0 else 1 + LeadingSpaces(s[1..])
  }

  /** Length of the run of white space that ends `s`. */
  function TrailingSpaces(s: string): (n: nat)
    ensures n <= |s|
    ensures forall k :: |s| - n <= k < |s| ==> IsSpace(s[k])
    ensures n < |s| ==> !IsSpace(s[|s| - 1 - n])
  {
    if s == [] || !IsSpace(s[|s| - 1]) then 0 else 1 + TrailingSpaces(s[..|s| - 1])
  }

  /** `strings.TrimSpace`: `s` without its leading and trailing white space. */
  function TrimSpace(s: string): (r: string)
    ensures |r| <= |s|
    ensures r == [] <==> AllSpace(s)
    ensures r != [] ==> !IsSpace(r[0]) && !IsSpace(r[|r| - 1])
    ensures forall c :: c in r ==> c in s
    ensures exists i, j :: 0 <= i <= j <= |s| && r == s[i..j] && AllSpace(s[..i]) && AllSpace(s[j..])
  {
    var i := LeadingSpaces(s);
    if i == |s| then
      assert s[..i] == s && s[i..] == [] && s[i..i] == [];
      []
    else
      var j := |s| - TrailingSpaces(s);
      assert AllSpace(s[..i]) && AllSpace(s[j..]);
      s[i..j]
  }

  /** `LeadingSpaces` is the one position before which everything is white
      space and at which something is not. */
  lemma {:induction false} LeadingSpacesUnique(s: string, n: nat)
    requires n <= |s|
    requires forall k :: 0 <= k < n ==> IsSpace(s[k])
    requires n < |s| ==> !IsSpace(s[n])
    ensures LeadingSpaces(s) == n
  {
  }

  /** Length of the run of non-space characters that starts `s`. */
  function WordLength(s: string): (n: nat)
    ensures n <= |s|
    ensures forall k :: 0 <= k < n ==> !IsSpace(s[k])
    ensures n < |s| ==> IsSpace(s[n])
  {
    if s == [] || IsSpace(s[0]) then 0 else 1 + WordLength(s[1..])
  }

  lemma {:induction false} FirstWord(rest: string, w: nat)
    requires rest != [] && !IsSpace(rest[0]) && w == WordLength(rest)
    ensures rest[..w] != [] && NoSpace(rest[..w])
  {
    assert forall k :: 0 <= k < w ==> rest[..w][k] == rest[k];
  }

  lemma {:induction false} ConsWords(x: string, more: seq<string>)
    requires x != [] && NoSpace(x)
    requires forall k :: 0 <= k < |more| ==> more[k] != [] && NoSpace(more[k])
    ensures forall k :: 0 <= k < |[x] + more| ==> ([x] + more)[k] != [] && NoSpace(([x] + more)[k])
  {
    assert forall k :: 1 <= k <= |more| ==> ([x] + more)[k] == more[k - 1];
  }

  /** `strings.Fields`: the maximal runs of non-space characters, in order. */
  function Fields(s: string): (r: seq<string>)
    ensures forall k :: 0 <= k < |r| ==> r[k] != [] && NoSpace(r[k])
    ensures r == [] <==> AllSpace(s)
    decreases |s|
  {
    var i := LeadingSpaces(s);
    if i == |s| then []
    else
      var rest := s[i..];
      var w := WordLength(rest);
      var more := Fields(rest[w..]);
      FirstWord(rest, w);
      ConsWords(rest[..w], more);
      [rest[..w]] + more
  }

  /** `WordLength` is the one position before which nothing is white space
      and at which something is. */
  lemma {:induction false} WordLengthUnique(s: string, n: nat)
    requires n <= |s|
    requires forall k :: 0 <= k < n ==> !IsSpace(s[k])
    requires n < |s| ==> IsSpace(s[n])
    ensures WordLength(s) == n
  {
  }

  /** One step of `Fields`: the first word after the leading white space. */
  lemma {:induction false} FieldsStep(s: string, i: nat, rest: string)
    requires i == LeadingSpaces(s) < |s| && rest == s[i..]
    ensures Fields(s) == [rest[..WordLength(rest)]] + Fields(rest[WordLength(rest)..])
  {
  }

  lemma {:induction false} SlicesOfAppend(u: string, v: string, w: nat)
    requires w <= |u|
    ensures (u + v)[..w] == u[..w]
    ensures (u + v)[w..] == u[w..] + v
  {
  }

  lemma {:induction false} LeadingAfterSpaces(a: string, t: string)
    requires AllSpace(a)
    ensures LeadingSpaces(a + t) == |a| + LeadingSpaces(t)
  {
    var s := a + t;
    var i := LeadingSpaces(t);
    forall k | 0 <= k < |a| + i
      ensures IsSpace(s[k])
    {
      if k >= |a| {
        assert s[k] == t[k - |a|];
      }
    }
    assert |a| + i < |s| ==> s[|a| + i] == t[i];
    LeadingSpacesUnique(s, |a| + i);
  }

  lemma {:induction false} LeadingBeforeWord(a: string, t: string)
    requires LeadingSpaces(a) < |a|
    ensures LeadingSpaces(a + t) == LeadingSpaces(a)
  {
    var i := LeadingSpaces(a);
    assert forall k :: 0 <= k <= i ==> (a + t)[k] == a[k];
    LeadingSpacesUnique(a + t, i);
  }

  lemma {:induction false} WordBeforeSpace(u: string, c: char, b: string)
    requires IsSpace(c)
    ensures WordLength(u + [c] + b) == WordLength(u)
  {
    var s := u + [c] + b;
    var w := WordLength(u);
    assert forall k :: 0 <= k < w ==> s[k] == u[k];
    assert IsSpace(s[w]) by {
      if w == |u| {
        assert s[w] == c;
      } else {
        assert s[w] == u[w];
      }
    }
    WordLengthUnique(s, w);
  }

  lemma {:induction false} DropAppend(u: string, v: string, k: nat)
    requires |u| <= k <= |u| + |v|
    ensures (u + v)[k..] == v[k - |u|..]
  {
  }

  /** Leading white space does not change the fields. */
  lemma {:induction false} FieldsAfterSpaces(a: string, t: string)
    requires AllSpace(a)
    ensures Fields(a + t) == Fields(t)
  {
    var i := LeadingSpaces(t);
    LeadingAfterSpaces(a, t);
    if i < |t| {
      DropAppend(a, t, |a| + i);
      FieldsStep(a + t, |a| + i, t[i..]);
      FieldsStep(t, i, t[i..]);
    } else {
      assert AllSpace(a + t) by {
        forall k | 0 <= k < |a + t|
          ensures IsSpace((a + t)[k])
        {
          if k >= |a| {
            assert (a + t)[k] == t[k - |a|];
          }
        }
      }
    }
  }

  /** A word without white space is its own single field. */
  lemma {:induction false} FieldsOfWord(w: string)
    requires w != [] && NoSpace(w)
    ensures Fields(w) == [w]
  {
    LeadingSpacesUnique(w, 0);
    assert w[0..] == w && w[..|w|] == w;
    WordLengthUnique(w, |w|);
    assert w[|w|..] == [];
    assert Fields([]) == [];
  }

  lemma ConsAppend(x: string, p: seq<string>, q: seq<string>, r: seq<string>)
    requires p == q + r
    ensures [x] + p == ([x] + q) + r
  {
  }

  /** The first field of `a + [c] + b`, when `a` holds one, is the first
      field of `a`. */
  lemma {:induction false} FieldsFirstWordAroundSpace(a: string, c: char, b: string)
    requires IsSpace(c) && LeadingSpaces(a) < |a|
    ensures var u := a[LeadingSpaces(a)..]; var w := WordLength(u);
      && Fields(a + [c] + b) == [u[..w]] + Fields(u[w..] + [c] + b)
      && Fields(a) == [u[..w]] + Fields(u[w..])
      && 0 < w
  {
    var i := LeadingSpaces(a);
    var u := a[i..];
    FieldsStep(a, i, u);
    FieldsWordBeforeSpace(a, c, b, i, u, WordLength(u));
  }

  lemma {:induction false} FieldsWordBeforeSpace(a: string, c: char, b: string, i: nat, u: string, w: nat)
    requires IsSpace(c) && i == LeadingSpaces(a) < |a| && u == a[i..] && w == WordLength(u)
    ensures Fields(a + [c] + b) == [u[..w]] + Fields(u[w..] + [c] + b)
  {
    WordBeforeSpaceSlices(a, c, b, i, u, w);
    FieldsStep(a + [c] + b, i, u + [c] + b);
  }

  /** The slices `Fields` takes of `a + [c] + b` when `a` holds a word. */
  lemma {:induction false} WordBeforeSpaceSlices(a: string, c: char, b: string, i: nat, u: string, w: nat)
    requires IsSpace(c) && i == LeadingSpaces(a) < |a| && u == a[i..] && w == WordLength(u)
    ensures LeadingSpaces(a + [c] + b) == i
    ensures (a + [c] + b)[i..] == u + [c] + b
    ensures WordLength(u + [c] + b) == w
    ensures (u + [c] + b)[..w] == u[..w]
    ensures (u + [c] + b)[w..] == u[w..] + [c] + b
  {
    assert a + [c] + b == a + ([c] + b);
    assert u + [c] + b == u + ([c] + b);
    assert u[w..] + [c] + b == u[w..] + ([c] + b);
    LeadingBeforeWord(a, [c] + b);
    SlicesOfAppend(a, [c] + b, i);
    WordBeforeSpace(u, c, b);
    SlicesOfAppend(u, [c] + b, w);
  }

  /** Text on either side of a white-space character splits into fields
      separately: `Fields(a + " " + b) == Fields(a) + Fields(b)`. */
  lemma {:induction false} FieldsAroundSpace(a: string, c: char, b: string)
    requires IsSpace(c)
    ensures Fields(a + [c] + b) == Fields(a) + Fields(b)
    decreases |a|
  {
    var i := LeadingSpaces(a);
    if i == |a| {
      assert a + [c] + b == (a + [c]) + b;
      FieldsAfterSpaces(a + [c], b);
    } else {
      var u := a[i..];
      var w := WordLength(u);
      FieldsFirstWordAroundSpace(a, c, b);
      FieldsAroundSpace(u[w..], c, b);
      ConsAppend(u[..w], Fields(u[w..] + [c] + b), Fields(u[w..]), Fields(b));
    }
  }

  /** Index of the first occurrence of `c` in `s`. */
  function IndexOf(s: string, c: char): (i: nat)
    requires c in s
    ensures i < |s| && s[i] == c && c !in s[..i]
  {
    if s[0] == c then 0 else 1 + IndexOf(s[1..], c)
  }

  /** `strings.Split(s, string(sep))`: the pieces between separators, empty
      pieces included; splitting "" gives [""]. */
  function Split(s: string, sep: char): (r: seq<string>)
    ensures |r| >= 1
    ensures forall k :: 0 <= k < |r| ==> sep !in r[k]
    decreases |s|
  {
    if sep !in s then [s]
    else
      var i := IndexOf(s, sep);
      [s[..i]] + Split(s[i + 1..], sep)
  }

  /** `strings.Join`. */
  function Join(parts: seq<string>, sep: string): string
  {
    if |parts| == 0 then ""
    else if |parts| == 1 then parts[0]
    else parts[0] + sep + Join(parts[1..], sep)
  }

  /** Joining the pieces of a split with the separator gives back the input. */
  lemma {:induction false} JoinSplit(s: string, sep: char)
    ensures Join(Split(s, sep), [sep]) == s
    decreases |s|
  {
    if sep in s {
      var i := IndexOf(s, sep);
      var tail := s[i + 1..];
      var rest := Split(tail, sep);
      assert Split(s, sep) == [s[..i]] + rest;
      JoinCons(s[..i], rest, [sep]);
      JoinSplit(tail, sep);
      assert s == s[..i] + [sep] + tail;
    } else {
      assert Split(s, sep) == [s];
    }
  }

  lemma {:induction false} JoinCons(x: string, rest: seq<string>, sep: string)
    requires rest != []
    ensures Join([x] + rest, sep) == x + sep + Join(rest, sep)
  {
    assert ([x] + rest)[1..] == rest;
  }

  /** A trailing separator leaves an empty last piece. */
  lemma {:induction false} SplitTrailing(s: string, sep: char)
    ensures var r := Split(s + [sep], sep); r[|r| - 1] == ""
    decreases |s|
  {
    var t := s + [sep];
    if sep !in s {
      assert IndexOf(t, sep) == |s| by {
        assert t[|s|] == sep && t[..|s|] == s;
      }
      assert t[|s| + 1..] == [];
      assert Split(t, sep) == [s] + Split([], sep);
      assert Split([], sep) == [""];
    } else {
      var i := IndexOf(s, sep);
      assert IndexOf(t, sep) == i by {
        assert t[i] == sep && t[..i] == s[..i];
      }
      var t' := s[i + 1..] + [sep];
      assert t[i + 1..] == t';
      assert t[..i] == s[..i];
      assert Split(t, sep) == [s[..i]] + Split(t', sep);
      SplitTrailing(s[i + 1..], sep);
      LastOfCons(s[..i], Split(t', sep));
    }
  }

  lemma {:induction false} LastOfCons(x: string, r: seq<string>)
    requires r != []
    ensures var c := [x] + r; c[|c| - 1] == r[|r| - 1]
  {
  }

  predicate HasPrefix(s: string, prefix: string)
  {
    |prefix| <= |s| && s[..|prefix|] == prefix
  }

  /** `strings.Contains`: `sub` occurs somewhere in `s` (case-sensitive). */
  predicate Contains(s: string, sub: string)
    decreases |s|
  {
    HasPrefix(s, sub) || (s != [] && Contains(s[1..], sub))
  }

  /** An occurrence inside a longer string is found. */
  lemma {:induction false} ContainsInfix(a: string, sub: string, b: string)
    ensures Contains(a + sub + b, sub)
    decreases |a|
  {
    if a == [] {
      assert (a + sub + b)[..|sub|] == sub;
    } else {
      ContainsInfix(a[1..], sub, b);
      assert (a + sub + b)[1..] == a[1..] + sub + b;
    }
  }

  /** Nothing longer than `s` occurs in it. */
  lemma {:induction false} ContainsTooLong(s: string, sub: string)
    requires |sub| > |s|
    ensures !Contains(s, sub)
    decreases |s|
  {
    if s != [] {
      ContainsTooLong(s[1..], sub);
    }
  }

  function DigitChar(d: nat): char
    requires d < 10
  {
    ('0' as int + d) as char
  }

  /** Decimal text of a natural number, without leading zeros. */
  function NatToString(n: nat): (r: string)
    ensures r != []
    ensures forall k :: 0 <= k < |r| ==> '0' <= r[k] <= '9'
    ensures |r| > 1 ==> r[0] != '0'
    decreases n
  {
    if n < 10 then [DigitChar(n)] else NatToString(n / 10) + [DigitChar(n % 10)]
  }

  /** `strconv.Itoa` (and `%d` formatting). */
  function Itoa(n: int): string
  {
    if n < 0 then "-" + NatToString(-n) else NatToString(n)
  }

  /** The number a string of decimal digits denotes. */
  function DecimalValue(s: string): nat
    requires forall k :: 0 <= k < |s| ==> '0' <= s[k] <= '9'
  {
    if s == [] then 0
    else 10 * DecimalValue(s[..|s| - 1]) + (s[|s| - 1] as int - '0' as int)
  }

  /** Reading back the decimal text of `n` gives `n`. */
  lemma {:induction false} DecimalRoundTrip(n: nat)
    ensures DecimalValue(NatToString(n)) == n
    decreases n
  {
    if n >= 10 {
      DecimalRoundTrip(n / 10);
      var r := NatToString(n);
      assert r[..|r| - 1] == NatToString(n / 10);
    }
  }
}

/** The JavaScript string operations the screens use, on `string` = `seq<char>` of Unicode
    scalar values: `trim`, `toLowerCase`/`toUpperCase`, `includes`, `indexOf`,
    `split(sep)[0]`, `replace` of the first occurrence, and `String(n)` for integers. */
module Text {
  import opened Seqs

  /** JavaScript's WhiteSpace and LineTerminator characters, the set `trim` strips and
      `parseFloat` skips. */
  predicate IsSpace(c: char) {
    || c == '\t' || c == '\n' || c == '\U{B}' || c == '\U{C}' || c == '\r' || c == ' '
    || c == '\U{A0}' || c == '\U{1680}' || ('\U{2000}' <= c <= '\U{200A}')
    || c == '\U{2028}' || c == '\U{2029}' || c == '\U{202F}' || c == '\U{205F}'
    || c == '\U{3000}' || c == '\U{FEFF}'
  }

  /** Upper-case letters with a one-character lower-case partner 32 code points above:
      ASCII A-Z and the Latin-1 capitals (accented vowels, Ñ, ...), except ×. */
  predicate IsUpperLetter(c: char) {
    ('A' <= c <= 'Z') || ('\U{C0}' <= c <= '\U{DE}' && c != '\U{D7}')
  }

  /** Lower-case letters whose upper-case form is 32 code points below, except ÷, ß and ÿ,
      whose upper-case forms are not a single Latin-1 character. */
  predicate IsLowerLetter(c: char) {
    ('a' <= c <= 'z') || ('\U{E0}' <= c <= '\U{FE}' && c != '\U{F7}')
  }

  function LowerChar(c: char): (d: char)
    ensures IsUpperLetter(c) ==> IsLowerLetter(d) && d as int == c as int + 32
    ensures !IsUpperLetter(c) ==> d == c
  {
    if IsUpperLetter(c) then (c as int + 32) as char else c
  }

  function UpperChar(c: char): (d: char)
    ensures IsLowerLetter(c) ==> IsUpperLetter(d) && d as int == c as int - 32
    ensures !IsLowerLetter(c) ==> d == c
  {
    if IsLowerLetter(c) then (c as int - 32) as char else c
  }

  /** `s.toLowerCase()`, character by character. */
  function ToLower(s: string): (r: string)
    ensures |r| == |s|
    ensures forall i :: 0 <= i < |s| ==> r[i] == LowerChar(s[i])
  {
    if s == [] then [] else [LowerChar(s[0])] + ToLower(s[1..])
  }

  /** `s.toUpperCase()`, character by character. */
  function ToUpper(s: string): (r: string)
    ensures |r| == |s|
    ensures forall i :: 0 <= i < |s| ==> r[i] == UpperChar(s[i])
  {
    if s == [] then [] else [UpperChar(s[0])] + ToUpper(s[1..])
  }

  lemma ToLowerAppend(a: string, b: string)
    ensures ToLower(a + b) == ToLower(a) + ToLower(b)
  {
    var l, r := ToLower(a + b), ToLower(a) + ToLower(b);
    assert |l| == |r|;
    forall i | 0 <= i < |l|
      ensures l[i] == r[i]
    {
      if i < |a| {
        assert (a + b)[i] == a[i];
      } else {
        assert (a + b)[i] == b[i - |a|];
      }
    }
  }

  /** Lower-casing twice is lower-casing once. */
  lemma ToLowerIdempotent(s: string)
    ensures ToLower(ToLower(s)) == ToLower(s)
  {
    assert forall i :: 0 <= i < |s| ==> !IsUpperLetter(ToLower(s)[i]);
  }

  function TrimStart(s: string): (r: string)
    ensures |r| <= |s|
    ensures r == [] || !IsSpace(r[0])
    ensures forall i :: 0 <= i < |s| - |r| ==> IsSpace(s[i])
  {
    if s != [] && IsSpace(s[0]) then TrimStart(s[1..]) else s
  }

  /** Trimming the start drops a prefix. */
  lemma {:induction false} TrimStartSuffix(s: string)
    ensures TrimStart(s) == s[|s| - |TrimStart(s)|..]
  {
    if s != [] && IsSpace(s[0]) {
      TrimStartSuffix(s[1..]);
    }
  }

  function TrimEnd(s: string): (r: string)
    ensures |r| <= |s| && r == s[..|r|]
    ensures r == [] || !IsSpace(r[|r| - 1])
    ensures forall i :: |r| <= i < |s| ==> IsSpace(s[i])
  {
    if s != [] && IsSpace(s[|s| - 1]) then TrimEnd(s[..|s| - 1]) else s
  }

  /** `s.trim()`: `s` without its leading and trailing white space. */
  function Trim(s: string): (r: string)
    ensures exists i, j :: (0 <= i <= j <= |s| && r == s[i..j]
                            && (forall k :: 0 <= k < i ==> IsSpace(s[k]))
                            && (forall k :: j <= k < |s| ==> IsSpace(s[k])))
    ensures r == [] || (!IsSpace(r[0]) && !IsSpace(r[|r| - 1]))
  {
    var t := TrimStart(s);
    var r := TrimEnd(t);
    var i := |s| - |t|;
    TrimStartSuffix(s);
    assert r == s[i..i + |r|];
    r
  }

  /** Text without white space trims to itself. */
  lemma TrimPlain(s: string)
    requires forall i :: 0 <= i < |s| ==> !IsSpace(s[i])
    ensures Trim(s) == s
  {
  }

  /** Text without upper-case letters lower-cases to itself. */
  lemma ToLowerPlain(s: string)
    requires forall i :: 0 <= i < |s| ==> !IsUpperLetter(s[i])
    ensures ToLower(s) == s
  {
  }

  /** A string made only of white space trims to the empty string, and only such a one. */
  lemma TrimEmptyIff(s: string)
    ensures Trim(s) == [] <==> forall k :: 0 <= k < |s| ==> IsSpace(s[k])
  {
    if forall k :: 0 <= k < |s| ==> IsSpace(s[k]) {
      AllSpaceTrimStart(s);
    }
  }

  lemma {:induction false} AllSpaceTrimStart(s: string)
    requires forall k :: 0 <= k < |s| ==> IsSpace(s[k])
    ensures TrimStart(s) == []
  {
    if s != [] {
      AllSpaceTrimStart(s[1..]);
    }
  }

  /** Trimming the start skips nothing when the text does not start with white space. */
  lemma TrimStartNoSpace(s: string)
    requires s != [] && !IsSpace(s[0])
    ensures TrimStart(s) == s
  {
  }

  /** `sub` occurs in `s` starting at position `i`. */
  predicate OccursAt(s: string, sub: string, i: int) {
    0 <= i <= |s| - |sub| && s[i..i + |sub|] == sub
  }

  /** `s.includes(sub)`. */
  predicate Contains(s: string, sub: string) {
    exists i | 0 <= i <= |s| - |sub| :: OccursAt(s, sub, i)
  }

  /** Every string includes the empty string. */
  lemma ContainsEmpty(s: string)
    ensures Contains(s, "")
  {
    assert OccursAt(s, "", 0);
  }

  /** A string includes every piece of a concatenation it is made of. */
  lemma ContainsPart(a: string, b: string, c: string)
    ensures Contains(a + b + c, b)
  {
    assert (a + b + c)[|a|..|a| + |b|] == b;
    assert OccursAt(a + b + c, b, |a|);
  }

  /** Text that includes `sub` still includes it with more text after it. */
  lemma ContainsPrefix(a: string, b: string, sub: string)
    requires Contains(a, sub)
    ensures Contains(a + b, sub)
  {
    var i :| 0 <= i <= |a| - |sub| && OccursAt(a, sub, i);
    assert (a + b)[i..i + |sub|] == a[i..i + |sub|];
    assert OccursAt(a + b, sub, i);
  }

  /** `s.split(c)[0]`: the part of `s` before the first `c` (all of `s` without one). */
  function BeforeChar(s: string, c: char): (r: string)
    ensures |r| <= |s| && r == s[..|r|]
    ensures c !in r
    ensures |r| < |s| ==> s[|r|] == c
  {
    var i := IndexOf(s, c);
    if i == -1 then s else s[..i]
  }

  /** The piece before the first `c` of `a + b` is `a` when `a` has no `c` and `b` is
      empty or starts with `c`. */
  lemma BeforeCharOfPieces(a: string, b: string, c: char)
    requires c !in a
    requires b == [] || b[0] == c
    ensures BeforeChar(a + b, c) == a
  {
    var s := a + b;
    assert forall k :: 0 <= k < |a| ==> s[k] == a[k];
    assert |a| < |s| ==> s[|a|] == c;
    assert s[..|a|] == a;
  }

  /** `s.replace(a, b)` with a one-character pattern: only the first `a` is replaced. */
  function ReplaceFirst(s: string, a: char, b: char): (r: string)
    ensures |r| == |s|
    ensures a !in s ==> r == s
    ensures a in s ==> exists i :: 0 <= i < |s| && s[i] == a && a !in s[..i]
                                   && r == s[..i] + [b] + s[i + 1..]
  {
    var i := IndexOf(s, a);
    if i == -1 then s else s[..i] + [b] + s[i + 1..]
  }

  lemma ReplaceFirstAt(s: string, a: char, b: char, i: int)
    requires 0 <= i && IndexOf(s, a) == i
    ensures ReplaceFirst(s, a, b) == s[..i] + [b] + s[i + 1..]
  {
  }

  /** Writing a `b` that did not occur at position `i` makes it the first `b`, and writing
      the old character back restores the text. */
  lemma PutCharBack(s: string, i: int, a: char, b: char)
    requires 0 <= i < |s| && s[i] == a && b !in s
    ensures IndexOf(s[..i] + [b] + s[i + 1..], b) == i
    ensures (s[..i] + [b] + s[i + 1..])[..i] + [a] + (s[..i] + [b] + s[i + 1..])[i + 1..] == s
  {
    var t := s[..i] + [b] + s[i + 1..];
    assert t[..i] == s[..i] && t[i] == b;
    IndexOfAt(t, b, i);
    assert t[i + 1..] == s[i + 1..];
    assert s == s[..i] + [a] + s[i + 1..];
  }

  /** Replacing the first `a` by a `b` that did not occur, and then the first `b` by `a`,
      gives the original text back. */
  lemma ReplaceFirstBack(s: string, a: char, b: char)
    requires b !in s
    ensures ReplaceFirst(ReplaceFirst(s, a, b), b, a) == s
  {
    if a in s {
      var i := IndexOf(s, a);
      var t := s[..i] + [b] + s[i + 1..];
      ReplaceFirstAt(s, a, b, i);
      PutCharBack(s, i, a, b);
      ReplaceFirstAt(t, b, a, i);
    }
  }

  /** Lexicographic order on code points: `a` is a prefix of `b`, or the first
      difference has the smaller character in `a`. */
  predicate LexLe(a: string, b: string) {
    a == [] || (b != [] && (a[0] < b[0] || (a[0] == b[0] && LexLe(a[1..], b[1..]))))
  }

  lemma {:induction false} LexLeTotal(a: string, b: string)
    ensures LexLe(a, b) || LexLe(b, a)
  {
    if a != [] && b != [] && a[0] == b[0] {
      LexLeTotal(a[1..], b[1..]);
    }
  }

  lemma {:induction false} LexLeTransitive(a: string, b: string, c: string)
    requires LexLe(a, b) && LexLe(b, c)
    ensures LexLe(a, c)
  {
    if a != [] && b != [] && c != [] && a[0] == b[0] && b[0] == c[0] {
      LexLeTransitive(a[1..], b[1..], c[1..]);
    }
  }

  /** Two strings ordered both ways are equal. */
  lemma {:induction false} LexLeAntisymmetric(a: string, b: string)
    requires LexLe(a, b) && LexLe(b, a)
    ensures a == b
  {
    if a != [] && b != [] {
      LexLeAntisymmetric(a[1..], b[1..]);
      assert a == [a[0]] + a[1..];
      assert b == [b[0]] + b[1..];
    }
  }

  predicate IsDigit(c: char) {
    '0' <= c <= '9'
  }

  function DigitValue(c: char): (n: nat)
    requires IsDigit(c)
    ensures n <= 9
  {
    c as int - '0' as int
  }

  function DigitChar(n: nat): (c: char)
    requires n <= 9
    ensures IsDigit(c) && DigitValue(c) == n
  {
    ('0' as int + n) as char
  }

  /** The decimal digits of `n`, most significant first, without leading zeros. */
  function NatToString(n: nat): (r: string)
    ensures r != []
    ensures forall i :: 0 <= i < |r| ==> IsDigit(r[i])
    ensures n > 0 ==> r[0] != '0'
  {
    if n < 10 then [DigitChar(n)] else NatToString(n / 10) + [DigitChar(n % 10)]
  }

  /** `String(n)` for an integer `n`. */
  function IntToString(n: int): (r: string)
    ensures r != []
    ensures n >= 0 ==> r == NatToString(n)
    ensures n < 0 ==> r == "-" + NatToString(-n)
  {
    if n >= 0 then NatToString(n) else "-" + NatToString(-n)
  }
}

/** `URLSearchParams`: name/value pairs serialised as `application/x-www-form-urlencoded`
    (section 5.2 of the WHATWG URL Standard): letters, digits and `*-._` stay, a space
    becomes `+`, every other character becomes `%XX` for each byte of its UTF-8 encoding. */
module UrlQuery {

  /** Characters the form encoding leaves alone. */
  predicate IsUnreserved(c: char) {
    ('a' <= c <= 'z') || ('A' <= c <= 'Z') || ('0' <= c <= '9')
    || c == '*' || c == '-' || c == '.' || c == '_'
  }

  function HexDigit(n: nat): (c: char)
    requires n < 16
    ensures IsUnreserved(c)
  {
    if n < 10 then ('0' as int + n) as char else ('A' as int + n - 10) as char
  }

  /** `%XX` for one byte. */
  function PercentByte(b: nat): (r: string)
    requires b < 256
    ensures |r| == 3 && r[0] == '%' && IsUnreserved(r[1]) && IsUnreserved(r[2])
  {
    ['%', HexDigit(b / 16), HexDigit(b % 16)]
  }

  /** The UTF-8 bytes of a Unicode scalar value. */
  function Utf8(c: char): (bs: seq<nat>)
    ensures 1 <= |bs| <= 4
    ensures forall i :: 0 <= i < |bs| ==> bs[i] < 256
    ensures c as int < 0x80 <==> |bs| == 1
    ensures |bs| == 1 ==> bs[0] == c as int
    ensures |bs| > 1 ==> forall i :: 1 <= i < |bs| ==> 0x80 <= bs[i] < 0xC0
  {
    var n := c as int;
    if n < 0x80 then [n]
    else if n < 0x800 then [0xC0 + n / 0x40, 0x80 + n % 0x40]
    else if n < 0x10000 then [0xE0 + n / 0x1000, 0x80 + n / 0x40 % 0x40, 0x80 + n % 0x40]
    else [0xF0 + n / 0x40000, 0x80 + n / 0x1000 % 0x40, 0x80 + n / 0x40 % 0x40, 0x80 + n % 0x40]
  }

  function PercentBytes(bs: seq<nat>): (r: string)
    requires forall i :: 0 <= i < |bs| ==> bs[i] < 256
    ensures |r| == 3 * |bs|
    ensures forall i :: 0 <= i < |r| ==> r[i] == '%' || IsUnreserved(r[i])
  {
    if bs == [] then [] else PercentByte(bs[0]) + PercentBytes(bs[1..])
  }

  function EncodeChar(c: char): (r: string)
    ensures r != []
    ensures forall i :: 0 <= i < |r| ==> r[i] == '%' || r[i] == '+' || IsUnreserved(r[i])
    ensures IsUnreserved(c) ==> r == [c]
    ensures c == ' ' ==> r == "+"
  {
    if IsUnreserved(c) then [c]
    else if c == ' ' then "+"
    else PercentBytes(Utf8(c))
  }

  /** The form encoding of a name or a value. */
  function Encode(s: string): (r: string)
    ensures forall i :: 0 <= i < |r| ==> r[i] == '%' || r[i] == '+' || IsUnreserved(r[i])
    ensures (forall i :: 0 <= i < |s| ==> IsUnreserved(s[i])) ==> r == s
  {
    if s == [] then [] else EncodeChar(s[0]) + Encode(s[1..])
  }

  /** Encoded text never holds the separators `&`, `=` or `?`. */
  lemma EncodedHasNoSeparators(s: string)
    ensures '&' !in Encode(s) && '=' !in Encode(s) && '?' !in Encode(s)
  {
  }

  datatype Param = Param(name: string, value: string)

  /** `params.toString()`: `name=value` pairs joined by `&`. */
  function Serialize(ps: seq<Param>): (r: string)
    ensures ps == [] <==> r == []
    ensures '?' !in r
  {
    if ps == [] then []
    else
      var head := Encode(ps[0].name) + "=" + Encode(ps[0].value);
      EncodedHasNoSeparators(ps[0].name);
      EncodedHasNoSeparators(ps[0].value);
      if |ps| == 1 then head else head + "&" + Serialize(ps[1..])
  }

  /** The URL of a resource with its query: a `?` only when there are parameters. */
  function WithQuery(path: string, ps: seq<Param>): (url: string)
    ensures '?' !in path ==> ('?' in url <==> ps != [])
    ensures ps == [] ==> url == path
    ensures ps != [] ==> |url| > |path| && url[..|path|] == path && url[|path|] == '?'
  {
    var query := Serialize(ps);
    if query != [] then path + "?" + query else path
  }
}

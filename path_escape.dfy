/**
 * Percent-encoding of one URL path segment, as Go's `url.PathEscape` and
 * `url.PathUnescape` do it. A Go string is a sequence of bytes; here a
 * string whose characters are all below 256 stands for one.
 */
module PathEscape {
  import opened Wrappers

  predicate IsByteString(s: string) {
    forall i :: 0 <= i < |s| ==> s[i] as int < 256
  }

  /** The characters `url.PathEscape` leaves as they are. */
  predicate Unreserved(c: char) {
    'a' <= c <= 'z' || 'A' <= c <= 'Z' || '0' <= c <= '9' || c in "-_.~$&+:=@"
  }

  predicate IsHexDigit(c: char) {
    '0' <= c <= '9' || 'a' <= c <= 'f' || 'A' <= c <= 'F'
  }

  function UpperHexDigit(n: nat): (c: char)
    requires n < 16
    ensures IsHexDigit(c)
  {
    if n < 10 then ('0' as int + n) as char else ('A' as int + n - 10) as char
  }

  function HexValue(c: char): (n: nat)
    requires IsHexDigit(c)
    ensures n < 16
  {
    if c <= '9' then c as int - '0' as int
    else if c <= 'F' then c as int - 'A' as int + 10
    else c as int - 'a' as int + 10
  }

  lemma HexDigitRoundTrip(n: nat)
    requires n < 16
    ensures HexValue(UpperHexDigit(n)) == n
  {
  }

  /** One byte as `url.PathEscape` writes it: itself, or `%` and two upper-case hex digits. */
  function EscapeByte(c: char): (r: string)
    requires c as int < 256
  {
    if Unreserved(c) then [c]
    else ['%', UpperHexDigit(c as int / 16), UpperHexDigit(c as int % 16)]
  }

  /** `url.PathEscape`. */
  function Escape(s: string): string
    requires IsByteString(s)
  {
    if s == [] then "" else EscapeByte(s[0]) + Escape(s[1..])
  }

  /**
   * `url.PathUnescape`: every `%` must be followed by two hex digits, which
   * stand for one byte; any other character is copied. A bad escape is an
   * error, reported as `None`.
   */
  function Unescape(s: string): Option<string> {
    if s == [] then Some("")
    else if s[0] == '%' then
      if |s| >= 3 && IsHexDigit(s[1]) && IsHexDigit(s[2]) then
        match Unescape(s[3..])
        case None => None
        case Some(rest) => Some([(HexValue(s[1]) * 16 + HexValue(s[2])) as char] + rest)
      else None
    else
      match Unescape(s[1..])
      case None => None
      case Some(rest) => Some([s[0]] + rest)
  }

  /** `key, _ = url.PathUnescape(key)`: Go returns the empty string with the error, and the error is dropped. */
  function UnescapeOrEmpty(s: string): (r: string)
    ensures '%' !in s ==> r == s
    ensures Unescape(s).None? ==> r == ""
  {
    UnescapePlain(s);
    Unescape(s).GetOr("")
  }

  /** A string without `%` unescapes to itself. */
  lemma {:induction false} UnescapePlain(s: string)
    ensures '%' !in s ==> Unescape(s) == Some(s)
  {
    if s != [] && '%' !in s {
      assert '%' !in s[1..];
      UnescapePlain(s[1..]);
      assert s == [s[0]] + s[1..];
    }
  }

  /** Unescaping undoes escaping. */
  lemma {:induction false} UnescapeEscape(s: string)
    requires IsByteString(s)
    ensures Unescape(Escape(s)) == Some(s)
  {
    if s != [] {
      var c, rest := s[0], Escape(s[1..]);
      UnescapeEscape(s[1..]);
      var e := EscapeByte(c) + rest;
      if Unreserved(c) {
        assert e[0] == c && e[1..] == rest;
      } else {
        HexDigitRoundTrip(c as int / 16);
        HexDigitRoundTrip(c as int % 16);
        assert e[0] == '%' && e[3..] == rest;
        assert (HexValue(e[1]) * 16 + HexValue(e[2])) as char == c;
      }
      assert s == [c] + s[1..];
    }
  }

  /** A string made only of characters `url.PathEscape` keeps is its own escape. */
  lemma {:induction false} EscapeUnreserved(s: string)
    requires forall i :: 0 <= i < |s| ==> Unreserved(s[i])
    ensures IsByteString(s) && Escape(s) == s
  {
    if s != [] {
      EscapeUnreserved(s[1..]);
      assert s == [s[0]] + s[1..];
    }
  }

  /** `~` survives escaping and nothing else turns into it; `/` never appears in an escape. */
  lemma {:induction false} EscapeSeparators(s: string)
    requires IsByteString(s)
    ensures '~' in Escape(s) <==> '~' in s
    ensures '/' !in Escape(s)
  {
    if s != [] {
      EscapeSeparators(s[1..]);
      var e := EscapeByte(s[0]);
      assert '~' in e <==> s[0] == '~';
      assert s == [s[0]] + s[1..];
      assert forall x: char :: x in Escape(s) <==> x in e || x in Escape(s[1..]);
    }
  }
}
